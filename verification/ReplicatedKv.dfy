/** The domain types of the replicated key-value store: what every backend
    accepts and returns. */
module ReplicatedKv {
  import opened Base
  import opened StringOrder

  type Key = string

  /** An attribute value; a structured item is a `Map` of them. */
  datatype Value =
    | Bool(flag: bool)
    | U64(number: u64)
    | Str(text: string)
    | Bytes(blob: seq<byte>)
    | Map(entries: map<string, Value>)

  datatype Item = Item(key: Key, value: Value)

  /** A precondition evaluated atomically with a write. */
  datatype Condition =
    | NotExists
    | Exists
    | AttributeEquals(attribute: string, expected: Value)

  datatype UpdateAction =
    | Set(attribute: string, value: Value)
    | Increment(attribute: string, amount: u64)
    | Remove(attribute: string)

  datatype Operation =
    | Put(key: Key, value: Value, conditions: seq<Condition>)
    | Update(key: Key, actions: seq<UpdateAction>, conditions: seq<Condition>)
    | Delete(key: Key, conditions: seq<Condition>)
    | ConditionCheck(key: Key, conditions: seq<Condition>)

  /** The error taxonomy; the human-readable reasons are not modelled. */
  datatype CloudError =
    | NotFound(key: string)
    | AlreadyExists(key: string)
    | ConditionFailed
    | RetentionViolation
    | Transport(retryable: bool)

  predicate IsRetryable(e: CloudError) {
    e.Transport? && e.retryable
  }

  /** Items listed in strictly increasing key order. */
  ghost predicate SortedByKey(items: seq<Item>) {
    forall i, j | 0 <= i < j < |items| :: Less(items[i].key, items[j].key)
  }

  /** What `query(prefix)` promises: exactly the stored items whose key starts
      with the prefix, sorted by key. */
  ghost predicate IsQueryResult(store: map<Key, Value>, prefix: string, items: seq<Item>) {
    && SortedByKey(items)
    && (forall i | i in items :: i.key in store && store[i.key] == i.value && prefix <= i.key)
    && (forall k | k in store && prefix <= k :: Item(k, store[k]) in items)
  }

  /** That promise determines the answer: two backends that meet it on the same
      contents return the same sequence. */
  lemma {:induction false} QueryResultUnique(store: map<Key, Value>, prefix: string, a: seq<Item>, b: seq<Item>)
    requires IsQueryResult(store, prefix, a) && IsQueryResult(store, prefix, b)
    ensures a == b
  {
    SortedSameElements(a, b);
  }

  lemma {:induction false} SortedSameElements(a: seq<Item>, b: seq<Item>)
    requires SortedByKey(a) && SortedByKey(b)
    requires forall x | x in a :: x in b
    requires forall x | x in b :: x in a
    ensures a == b
  {
    assert a != [] ==> a[0] in b;
    assert b != [] ==> b[0] in a;
    if a != [] && b != [] {
      HeadsAgree(a, b);
      forall x | x in a[1..] ensures x in b[1..] {
        HeadNotInTail(a);
        assert x in b;
      }
      forall x | x in b[1..] ensures x in a[1..] {
        HeadNotInTail(b);
        assert x in a;
      }
      SortedSameElements(a[1..], b[1..]);
      assert a == [a[0]] + a[1..] && b == [b[0]] + b[1..];
    }
  }

  lemma HeadNotInTail(a: seq<Item>)
    requires SortedByKey(a) && a != []
    ensures a[0] !in a[1..]
  {
    if a[0] in a[1..] {
      var i :| 0 < i < |a| && a[i] == a[0];
      LessIrreflexive(a[0].key);
    }
  }

  lemma HeadsAgree(a: seq<Item>, b: seq<Item>)
    requires SortedByKey(a) && SortedByKey(b) && a != [] && b != []
    requires a[0] in b && b[0] in a
    ensures a[0] == b[0]
  {
    if a[0] != b[0] {
      var i :| 0 <= i < |b| && b[i] == a[0];
      var j :| 0 <= j < |a| && a[j] == b[0];
      LessAsymmetric(b[0].key, a[0].key);
    }
  }

  // ----- Sorting and the answer of a query -----

  ghost predicate DistinctItems(items: seq<Item>) {
    forall i, j | 0 <= i < j < |items| :: items[i].key != items[j].key
  }

  lemma DistinctAppend(items: seq<Item>, item: Item)
    requires DistinctItems(items) && forall i | i in items :: i.key != item.key
    ensures DistinctItems(items + [item])
  {
  }

  function InsertByKey(item: Item, sorted: seq<Item>): seq<Item> {
    if sorted == [] then [item]
    else if Less(item.key, sorted[0].key) then [item] + sorted
    else [sorted[0]] + InsertByKey(item, sorted[1..])
  }

  function SortByKey(items: seq<Item>): seq<Item> {
    if items == [] then [] else InsertByKey(items[0], SortByKey(items[1..]))
  }

  lemma {:induction false} InsertSorts(item: Item, sorted: seq<Item>)
    requires SortedByKey(sorted) && forall i | i in sorted :: i.key != item.key
    ensures SortedByKey(InsertByKey(item, sorted))
    ensures forall i :: i in InsertByKey(item, sorted) <==> i == item || i in sorted
  {
    if sorted != [] {
      if Less(item.key, sorted[0].key) {
        forall j | 1 <= j < |sorted| ensures Less(item.key, sorted[j].key) {
          LessTransitive(item.key, sorted[0].key, sorted[j].key);
        }
      } else {
        LessTotal(item.key, sorted[0].key);
        InsertSorts(item, sorted[1..]);
        assert sorted == [sorted[0]] + sorted[1..];
        var rest := InsertByKey(item, sorted[1..]);
        forall j | 0 <= j < |rest| ensures Less(sorted[0].key, rest[j].key) {
          assert rest[j] in rest;
          if rest[j] != item {
            var k :| 0 <= k < |sorted[1..]| && sorted[1..][k] == rest[j];
            assert sorted[k + 1] == rest[j];
          }
        }
      }
    }
  }

  lemma {:induction false} SortSorts(items: seq<Item>)
    requires DistinctItems(items)
    ensures SortedByKey(SortByKey(items))
    ensures forall i :: i in SortByKey(items) <==> i in items
  {
    if items != [] {
      SortSorts(items[1..]);
      assert items == [items[0]] + items[1..];
      InsertSorts(items[0], SortByKey(items[1..]));
    }
  }

  lemma {:induction false} QueryResultExists(store: map<Key, Value>, prefix: string)
    ensures exists items :: IsQueryResult(store, prefix, items)
    decreases |store|
  {
    if store == map[] {
      assert IsQueryResult(store, prefix, []);
    } else {
      var k :| k in store;
      var rest := store - {k};
      QueryResultExists(rest, prefix);
      var items :| IsQueryResult(rest, prefix, items);
      assert forall other | other in store && other != k :: other in rest && rest[other] == store[other];
      assert forall other | other in store && other != k && prefix <= other :: Item(other, store[other]) in items;
      if prefix <= k {
        InsertSorts(Item(k, store[k]), items);
        assert IsQueryResult(store, prefix, InsertByKey(Item(k, store[k]), items));
      } else {
        assert IsQueryResult(store, prefix, items);
      }
    }
  }

  /** The answer to a query: the one sequence that keeps the promise. */
  ghost function QueryOp(store: map<Key, Value>, prefix: string): (items: seq<Item>)
    ensures IsQueryResult(store, prefix, items)
  {
    QueryResultExists(store, prefix);
    var items :| IsQueryResult(store, prefix, items);
    items
  }
}
