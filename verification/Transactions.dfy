/** What the two-pass transaction of the reference backend guarantees. */
module Transactions {
  import opened Base
  import opened ReplicatedKv
  import opened MemoryKv

  ghost predicate DistinctKeys(ops: seq<Operation>) {
    forall i, j | 0 <= i < j < |ops| :: ops[i].key != ops[j].key
  }

  /** At most one operation, possibly repeated, addresses any key. */
  ghost predicate OneOperationPerKey(ops: seq<Operation>) {
    forall a, b | a in ops && b in ops && a.key == b.key :: a == b
  }

  /** The item an operation leaves at its key. */
  function Effect(store: Store, op: Operation): Option<Value>
    requires Plan(store, op).Some?
  {
    match Plan(store, op).value
    case PutItem(_, value) => Some(value)
    case DeleteItem(_) => None
    case NoOp => Lookup(store, op.key)
  }

  /** The operations performed one at a time, each against the store its
      predecessors left; `None` as soon as one cannot be performed. */
  function OneAfterAnother(store: Store, ops: seq<Operation>): Option<Store> {
    if ops == [] then Some(store)
    else
      match OneAfterAnother(store, ops[..|ops| - 1])
      case None => None
      case Some(before) =>
        var last := ops[|ops| - 1];
        if Plan(before, last).Some? then Some(Apply(before, Plan(before, last).value)) else None
  }

  /** Key by key, a committed transaction leaves the effect of the operation
      addressing that key, computed from the state before the transaction. */
  lemma {:induction false} CommitPointwise(store: Store, ops: seq<Operation>, key: Key)
    requires AllPlannable(store, ops) && OneOperationPerKey(ops)
    ensures forall op | op in ops && op.key == key :: Lookup(ApplyPlans(store, ops), key) == Effect(store, op)
    ensures (forall op | op in ops :: op.key != key) ==> Lookup(ApplyPlans(store, ops), key) == Lookup(store, key)
  {
    if ops != [] {
      var front, last := ops[..|ops| - 1], ops[|ops| - 1];
      assert ops == front + [last];
      CommitPointwise(store, front, key);
      if last.key == key && Plan(store, last).value.NoOp? {
        if op :| op in front && op.key == key {
          assert op in ops && last in ops && op == last;
        }
      }
    }
  }

  /** Operation `i` writes its key, and only checks of that key come after it. */
  ghost predicate LastWrite(ops: seq<Operation>, i: nat) {
    && i < |ops| && !ops[i].ConditionCheck?
    && forall j | i < j < |ops| && ops[j].key == ops[i].key :: ops[j].ConditionCheck?
  }

  /** The last write of a key decides, whatever came before it. */
  lemma {:induction false} LastWriteDecides(store: Store, ops: seq<Operation>, i: nat)
    requires AllPlannable(store, ops) && LastWrite(ops, i)
    ensures ops[i] in ops && Lookup(ApplyPlans(store, ops), ops[i].key) == Effect(store, ops[i])
  {
    var front, last := ops[..|ops| - 1], ops[|ops| - 1];
    assert ops == front + [last];
    if i < |front| {
      assert LastWrite(front, i);
      LastWriteDecides(store, front, i);
    }
  }

  /** For any operations, several on one key included: an error changes nothing
      and happens exactly when some operation fails on the state before the
      transaction; otherwise every key holds what its last write planned on that
      state, and keys that are only checked or not named are untouched. */
  lemma AllOrNothing(store: Store, ops: seq<Operation>)
    ensures var Outcome(after, result) := TransactOp(store, ops);
            && (result.Err? <==> exists op | op in ops :: Plan(store, op).None?)
            && (result.Err? ==> after == store && result.error == ConditionFailed)
            && (result.Ok? ==>
                  && (forall i: nat | LastWrite(ops, i) ::
                        Plan(store, ops[i]).Some? && Lookup(after, ops[i].key) == Effect(store, ops[i]))
                  && (forall k | (forall op | op in ops && op.key == k :: op.ConditionCheck?) ::
                        Lookup(after, k) == Lookup(store, k)))
  {
    var Outcome(after, result) := TransactOp(store, ops);
    if result.Ok? {
      forall i: nat | LastWrite(ops, i)
        ensures Plan(store, ops[i]).Some? && Lookup(after, ops[i].key) == Effect(store, ops[i]) {
        LastWriteDecides(store, ops, i);
      }
      forall k | (forall op | op in ops && op.key == k :: op.ConditionCheck?)
        ensures Lookup(after, k) == Lookup(store, k) {
        ChecksWriteNothing(store, ops, k);
      }
    }
  }

  /** A key that is only checked keeps its item. */
  lemma {:induction false} ChecksWriteNothing(store: Store, ops: seq<Operation>, key: Key)
    requires AllPlannable(store, ops)
    requires forall op | op in ops && op.key == key :: op.ConditionCheck?
    ensures Lookup(ApplyPlans(store, ops), key) == Lookup(store, key)
  {
    if ops != [] {
      var front, last := ops[..|ops| - 1], ops[|ops| - 1];
      assert ops == front + [last];
      ChecksWriteNothing(store, front, key);
    }
  }

  lemma DistinctImpliesOnePerKey(ops: seq<Operation>)
    requires DistinctKeys(ops)
    ensures OneOperationPerKey(ops)
  {
    forall a, b | a in ops && b in ops && a.key == b.key ensures a == b {
      var i :| 0 <= i < |ops| && ops[i] == a;
      var j :| 0 <= j < |ops| && ops[j] == b;
      assert i == j;
    }
  }

  /** For distinct keys, planning against the snapshot and then writing is the
      same as performing the operations one after another. */
  lemma {:induction false} SnapshotEqualsSequential(store: Store, ops: seq<Operation>)
    requires DistinctKeys(ops)
    ensures OneAfterAnother(store, ops) ==
            if AllPlannable(store, ops) then Some(ApplyPlans(store, ops)) else None
  {
    if ops != [] {
      var front, last := ops[..|ops| - 1], ops[|ops| - 1];
      assert ops == front + [last];
      SnapshotEqualsSequential(store, front);
      if AllPlannable(store, front) {
        DistinctImpliesOnePerKey(front);
        CommitPointwise(store, front, last.key);
        assert Plan(ApplyPlans(store, front), last) == Plan(store, last);
      }
    }
  }

  /** The order of operations on distinct keys is irrelevant: any permutation
      gives the same verdict and the same store. */
  lemma PermutationInvariant(store: Store, ops: seq<Operation>, permuted: seq<Operation>)
    requires DistinctKeys(ops) && multiset(ops) == multiset(permuted)
    ensures TransactOp(store, ops) == TransactOp(store, permuted)
  {
    assert forall op :: op in ops <==> op in multiset(ops);
    assert forall op :: op in permuted <==> op in multiset(permuted);
    DistinctImpliesOnePerKey(ops);
    if AllPlannable(store, ops) {
      var a, b := ApplyPlans(store, ops), ApplyPlans(store, permuted);
      forall k ensures Lookup(a, k) == Lookup(b, k) {
        CommitPointwise(store, ops, k);
        CommitPointwise(store, permuted, k);
        if op :| op in ops && op.key == k {
          assert op in permuted;
        }
      }
      SameLookups(a, b);
    }
  }

  lemma SameLookups(a: Store, b: Store)
    requires forall k :: Lookup(a, k) == Lookup(b, k)
    ensures a == b
  {
    forall k ensures k in a <==> k in b {
      assert Lookup(a, k) == Lookup(b, k);
    }
    forall k | k in a ensures a[k] == b[k] {
      assert Lookup(a, k) == Lookup(b, k);
    }
  }

  /** Distinct keys are needed: two increments of one counter in a single
      transaction are both planned from the old value, and one is lost. */
  lemma SameKeyLosesAnIncrement(key: Key)
    ensures var store: Store := map[key := Map(map["n" := U64(0)])];
            var op := Update(key, [Increment("n", 1)], []);
            && TransactOp(store, [op, op]).store == map[key := Map(map["n" := U64(1)])]
            && OneAfterAnother(store, [op, op]) == Some(map[key := Map(map["n" := U64(2)])])
  {
    var store: Store := map[key := Map(map["n" := U64(0)])];
    var once: Store := map[key := Map(map["n" := U64(1)])];
    var op := Update(key, [Increment("n", 1)], []);
    OneIncrement(map["n" := U64(0)]);
    OneIncrement(map["n" := U64(1)]);
    assert (map["n" := U64(0)])["n" := U64(1)] == map["n" := U64(1)];
    assert (map["n" := U64(1)])["n" := U64(2)] == map["n" := U64(2)];
    assert [op, op][..1] == [op] && [op][..0] == [];
    assert Plan(store, op) == Some(PutItem(key, Map(map["n" := U64(1)])));
    assert Plan(once, op) == Some(PutItem(key, Map(map["n" := U64(2)])));
    assert Apply(store, Plan(store, op).value) == once;
    assert OneAfterAnother(store, [op][..0]) == Some(store);
    assert OneAfterAnother(store, [op]) == Some(once);
    assert ApplyPlans(store, [op]) == once;
    assert Apply(once, Plan(once, op).value) == map[key := Map(map["n" := U64(2)])];
    assert OneAfterAnother(store, [op, op]) == Some(Apply(once, Plan(once, op).value));
  }

  lemma OneIncrement(attributes: Attributes)
    requires "n" in attributes && attributes["n"].U64? && attributes["n"].number < U64_MAX
    ensures ApplyActions(attributes, [Increment("n", 1)]) == Some(attributes["n" := U64(attributes["n"].number + 1)])
  {
    assert [Increment("n", 1)][..0] == [];
  }
}
