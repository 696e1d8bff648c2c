/** The in-memory backend: the reference semantics of the replicated store. */
module MemoryKv {
  import opened Base
  import opened StringOrder
  import opened ReplicatedKv

  type Store = map<Key, Value>

  type Attributes = map<string, Value>

  /** What one call leaves behind and answers. */
  datatype Outcome<T> = Outcome(store: Store, result: Result<T, CloudError>)

  function Lookup(store: Store, key: Key): Option<Value> {
    if key in store then Some(store[key]) else None
  }

  // ----- Conditions -----

  /** The value an equality condition compares: the whole item for the empty
      attribute name, an entry of a map-valued item otherwise. */
  function AttributeValue(value: Option<Value>, attribute: string): Option<Value> {
    if value.None? then None
    else if attribute == "" then value
    else if value.value.Map? && attribute in value.value.entries then Some(value.value.entries[attribute])
    else None
  }

  predicate Holds(value: Option<Value>, condition: Condition) {
    match condition
    case NotExists => value.None?
    case Exists => value.Some?
    case AttributeEquals(attribute, expected) => AttributeValue(value, attribute) == Some(expected)
  }

  predicate AllHold(value: Option<Value>, conditions: seq<Condition>) {
    forall c | c in conditions :: Holds(value, c)
  }

  /** Evaluates the conditions in order, stopping at the first violation. */
  method CheckConditions(value: Option<Value>, conditions: seq<Condition>) returns (r: Result<Unit, CloudError>)
    ensures r == if AllHold(value, conditions) then Ok(Unit.Unit) else Err(ConditionFailed)
  {
    for i := 0 to |conditions|
      invariant forall j | 0 <= j < i :: Holds(value, conditions[j])
    {
      match conditions[i]
      case NotExists =>
        if value.Some? {
          assert !Holds(value, conditions[i]);
          return Err(ConditionFailed);
        }
      case Exists =>
        if value.None? {
          assert !Holds(value, conditions[i]);
          return Err(ConditionFailed);
        }
      case AttributeEquals(attribute, expected) =>
        if AttributeValue(value, attribute) != Some(expected) {
          assert !Holds(value, conditions[i]);
          return Err(ConditionFailed);
        }
    }
    return Ok(Unit.Unit);
  }

  // ----- Update actions -----

  /** One action on an attribute map; `None` is the failed-condition outcome. */
  function ApplyAction(attributes: Attributes, action: UpdateAction): Option<Attributes> {
    match action
    case Set(attribute, value) => Some(attributes[attribute := value])
    case Increment(attribute, amount) =>
      if attribute in attributes && attributes[attribute].U64? && attributes[attribute].number + amount <= U64_MAX
      then Some(attributes[attribute := U64(attributes[attribute].number + amount)])
      else None
    case Remove(attribute) => Some(attributes - {attribute})
  }

  /** The actions applied one after another. */
  function ApplyActions(attributes: Attributes, actions: seq<UpdateAction>): Option<Attributes> {
    if actions == [] then Some(attributes)
    else
      match ApplyActions(attributes, actions[..|actions| - 1])
      case None => None
      case Some(before) => ApplyAction(before, actions[|actions| - 1])
  }

  /** An update needs a map-valued item. */
  function Updated(existing: Value, actions: seq<UpdateAction>): Option<Value> {
    if !existing.Map? then None
    else
      match ApplyActions(existing.entries, actions)
      case None => None
      case Some(attributes) => Some(Map(attributes))
  }

  lemma {:induction false} FailureIsFinal(attributes: Attributes, actions: seq<UpdateAction>, n: nat)
    requires n <= |actions|
    requires ApplyActions(attributes, actions[..n]).None?
    ensures ApplyActions(attributes, actions).None?
  {
    if n < |actions| {
      var front := actions[..|actions| - 1];
      assert front[..n] == actions[..n];
      FailureIsFinal(attributes, front, n);
    } else {
      assert actions[..n] == actions;
    }
  }

  method ApplyUpdateActions(existing: Value, actions: seq<UpdateAction>) returns (r: Result<Value, CloudError>)
    ensures r == match Updated(existing, actions) case Some(v) => Ok(v) case None => Err(ConditionFailed)
  {
    if !existing.Map? {
      return Err(ConditionFailed);
    }
    var attributes := existing.entries;
    for i := 0 to |actions|
      invariant ApplyActions(existing.entries, actions[..i]) == Some(attributes)
    {
      assert actions[..i + 1][..i] == actions[..i];
      match actions[i]
      case Set(attribute, value) =>
        attributes := attributes[attribute := value];
      case Increment(attribute, amount) =>
        if attribute !in attributes || !attributes[attribute].U64? || attributes[attribute].number + amount > U64_MAX {
          FailureIsFinal(existing.entries, actions, i + 1);
          return Err(ConditionFailed);
        }
        attributes := attributes[attribute := U64(attributes[attribute].number + amount)];
      case Remove(attribute) =>
        attributes := attributes - {attribute};
    }
    assert actions[..|actions|] == actions;
    return Ok(Map(attributes));
  }

  // ----- Single-item operations -----

  function GetOp(store: Store, key: Key): Result<Item, CloudError> {
    if key in store then Ok(Item(key, store[key])) else Err(NotFound(key))
  }

  function PutOp(store: Store, key: Key, value: Value, conditions: seq<Condition>): Outcome<Unit> {
    if AllHold(Lookup(store, key), conditions)
    then Outcome(store[key := value], Ok(Unit.Unit))
    else Outcome(store, Err(ConditionFailed))
  }

  /** A missing item is reported before any condition is looked at. */
  function AtomicUpdateOp(store: Store, key: Key, actions: seq<UpdateAction>, conditions: seq<Condition>)
    : Outcome<Item>
  {
    if key !in store then Outcome(store, Err(NotFound(key)))
    else if !AllHold(Some(store[key]), conditions) then Outcome(store, Err(ConditionFailed))
    else
      match Updated(store[key], actions)
      case None => Outcome(store, Err(ConditionFailed))
      case Some(value) => Outcome(store[key := value], Ok(Item(key, value)))
  }

  // ----- Transactions -----

  datatype PlannedWrite = PutItem(key: Key, value: Value) | DeleteItem(key: Key) | NoOp

  /** What one operation would write, judged against `store`. */
  function Plan(store: Store, op: Operation): Option<PlannedWrite> {
    if !AllHold(Lookup(store, op.key), op.conditions) then None
    else
      match op
      case Put(key, value, _) => Some(PutItem(key, value))
      case Update(key, actions, _) =>
        if key !in store then None
        else (match Updated(store[key], actions)
              case None => None
              case Some(value) => Some(PutItem(key, value)))
      case Delete(key, _) => Some(DeleteItem(key))
      case ConditionCheck(_, _) => Some(NoOp)
  }

  function Apply(store: Store, write: PlannedWrite): Store {
    match write
    case PutItem(key, value) => store[key := value]
    case DeleteItem(key) => store - {key}
    case NoOp => store
  }

  predicate AllPlannable(store: Store, ops: seq<Operation>) {
    forall op | op in ops :: Plan(store, op).Some?
  }

  /** The store after writing, in order, what each operation planned against
      the snapshot `before`. */
  function ApplyPlans(before: Store, ops: seq<Operation>): Store
    requires AllPlannable(before, ops)
  {
    if ops == [] then before
    else Apply(ApplyPlans(before, ops[..|ops| - 1]), Plan(before, ops[|ops| - 1]).value)
  }

  function TransactOp(store: Store, ops: seq<Operation>): Outcome<Unit> {
    if AllPlannable(store, ops)
    then Outcome(ApplyPlans(store, ops), Ok(Unit.Unit))
    else Outcome(store, Err(ConditionFailed))
  }

  /** The backend itself: one map behind one lock. */
  class MemoryReplicatedKv {
    var items: Store

    constructor ()
      ensures items == map[]
    {
      items := map[];
    }

    method Get(key: Key) returns (r: Result<Item, CloudError>)
      ensures r == GetOp(items, key)
    {
      if key in items {
        return Ok(Item(key, items[key]));
      }
      return Err(NotFound(key));
    }

    method Put(key: Key, value: Value, conditions: seq<Condition>) returns (r: Result<Unit, CloudError>)
      modifies this
      ensures Outcome(items, r) == PutOp(old(items), key, value, conditions)
    {
      var checked := CheckConditions(Lookup(items, key), conditions);
      if checked.Err? {
        return checked;
      }
      items := items[key := value];
      return Ok(Unit.Unit);
    }

    method AtomicUpdate(key: Key, actions: seq<UpdateAction>, conditions: seq<Condition>)
      returns (r: Result<Item, CloudError>)
      modifies this
      ensures Outcome(items, r) == AtomicUpdateOp(old(items), key, actions, conditions)
    {
      if key !in items {
        return Err(NotFound(key));
      }
      var existing := items[key];
      var checked := CheckConditions(Some(existing), conditions);
      if checked.Err? {
        return Err(checked.error);
      }
      var updated := ApplyUpdateActions(existing, actions);
      if updated.Err? {
        return Err(updated.error);
      }
      items := items[key := updated.value];
      return Ok(Item(key, updated.value));
    }

    /** Validates every operation against the current items, then applies. */
    method Transact(ops: seq<Operation>) returns (r: Result<Unit, CloudError>)
      modifies this
      ensures Outcome(items, r) == TransactOp(old(items), ops)
    {
      var planned: seq<PlannedWrite> := [];
      for i := 0 to |ops|
        invariant items == old(items) && |planned| == i
        invariant forall j | 0 <= j < i :: Plan(items, ops[j]) == Some(planned[j])
      {
        var step := PlanStep(ops[i]);
        if step.Err? {
          assert ops[i] in ops;
          return Err(step.error);
        }
        planned := planned + [step.value];
      }
      assert AllPlannable(items, ops);
      for i := 0 to |planned|
        invariant forall j | 0 <= j < |ops| :: Plan(old(items), ops[j]) == Some(planned[j])
        invariant AllPlannable(old(items), ops[..i])
        invariant items == ApplyPlans(old(items), ops[..i])
      {
        assert ops[..i + 1][..i] == ops[..i];
        match planned[i] {
          case PutItem(key, value) => items := items[key := value];
          case DeleteItem(key) => items := items - {key};
          case NoOp =>
        }
      }
      assert ops[..|ops|] == ops;
      return Ok(Unit.Unit);
    }

    /** The write one operation of a transaction would make. */
    method PlanStep(op: Operation) returns (r: Result<PlannedWrite, CloudError>)
      ensures r == match Plan(items, op) case Some(w) => Ok(w) case None => Err(ConditionFailed)
    {
      var checked := CheckConditions(Lookup(items, op.key), op.conditions);
      if checked.Err? {
        return Err(checked.error);
      }
      match op {
        case Put(key, value, _) => return Ok(PutItem(key, value));
        case Update(key, actions, _) =>
          if key !in items {
            return Err(ConditionFailed);
          }
          var updated := ApplyUpdateActions(items[key], actions);
          if updated.Err? {
            return Err(updated.error);
          }
          return Ok(PutItem(key, updated.value));
        case Delete(key, _) => return Ok(DeleteItem(key));
        case ConditionCheck(_, _) => return Ok(NoOp);
      }
    }

    /** Walks the items in key order and keeps the ones under the prefix. */
    method Query(prefix: string) returns (found: seq<Item>)
      ensures IsQueryResult(items, prefix, found)
    {
      found := [];
      var remaining := items.Keys;
      while remaining != {}
        invariant remaining <= items.Keys
        invariant SortedByKey(found)
        invariant forall i, k | i in found && k in remaining :: Less(i.key, k)
        invariant forall i | i in found :: i.key in items && items[i.key] == i.value && prefix <= i.key
        invariant forall k | k in items && k !in remaining && prefix <= k :: Item(k, items[k]) in found
        decreases |remaining|
      {
        ghost var least := LeastExists(remaining);
        var key :| key in remaining && IsLeast(key, remaining);
        if prefix <= key {
          found := found + [Item(key, items[key])];
        }
        var others := remaining - {key};
        forall k | k in others ensures Less(key, k) {
          assert k in remaining;
          assert IsLeast(key, remaining);
        }
        remaining := others;
      }
    }
  }
}
