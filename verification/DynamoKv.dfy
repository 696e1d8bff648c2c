/** The DynamoDB backend: every operation compiled to one request. */
module DynamoKv {
  import opened Base
  import opened ReplicatedKv
  import opened DynamoCodec
  import opened DynamoExpressions
  import opened DynamoService

  const TERMINAL := CloudError.Transport(false)

  // ----- What each operation asks of the table -----

  function RowFor(t: TableKey, value: Value): Row {
    map[PK_ATTR := AttrS(t.pk), SK_ATTR := AttrS(t.sk), VALUE_ATTR := EncodeValue(value)]
  }

  function CallerCondition(conditions: seq<Condition>): Option<Clause<AttributeValue>> {
    if conditions == [] then None else Some(ConditionsMeaning(conditions))
  }

  /** A condition that always holds, for a check that asks for nothing. */
  function Tautology(): Clause<AttributeValue> {
    Or(AttributeExists(Top(PK_ATTR)), AttributeNotExists(Top(PK_ATTR)))
  }

  function MeantOf(op: Operation): Option<Meant> {
    match SplitKey(op.key)
    case None => None
    case Some(t) =>
      match op
      case Put(_, value, conditions) => Some(Meant(t, PutRow(RowFor(t, value)), CallerCondition(conditions)))
      case Update(_, actions, conditions) =>
        Some(Meant(t, UpdateRow(MutationMeaning(actions)), Some(UpdateConditionMeaning(conditions, actions))))
      case Delete(_, conditions) => Some(Meant(t, DeleteRow, CallerCondition(conditions)))
      case ConditionCheck(_, conditions) =>
        Some(Meant(t, CheckRow, if conditions == [] then Some(Tautology()) else CallerCondition(conditions)))
  }

  /** An empty placeholder map is left out of the request. */
  function Finish<V>(bound: map<string, V>): Option<map<string, V>> {
    if bound == map[] then None else Some(bound)
  }

  lemma ConditionResolves(c: Bindings, w: Clause<string>, meant: Clause<AttributeValue>)
    requires Compiled(Bindings(map[], map[]), c, w, meant)
    ensures forall key, action: Action<string> | !action.UpdateRow? ::
              var r := Request(key, action, Some(w), Finish(c.names), Finish(c.values));
              && Resolve(r).Some?
              && Resolve(r).value.key == key && Resolve(r).value.condition == Some(meant)
  {
    forall key, action: Action<string> | !action.UpdateRow?
      ensures Resolve(Request(key, action, Some(w), Finish(c.names), Finish(c.values))).Some?
      ensures Resolve(Request(key, action, Some(w), Finish(c.names), Finish(c.values))).value.key == key
      ensures Resolve(Request(key, action, Some(w), Finish(c.names), Finish(c.values))).value.condition == Some(meant) {
      var r := Request(key, action, Some(w), Finish(c.names), Finish(c.values));
      assert BindingsOf(r) == c;
      assert UsedNames(r) == ClauseNames(w) && UsedValues(r) == ClauseValues(w);
    }
  }

  /** The optional condition of a put or delete, ready to send. */
  method BuildCondition(conditions: seq<Condition>)
    returns (condition: Option<Clause<string>>, names: Option<map<string, string>>,
             values: Option<map<string, AttributeValue>>)
    ensures condition.None? <==> conditions == []
    ensures forall key, action: Action<string> | !action.UpdateRow? ::
              var r := Request(key, action, condition, names, values);
              && Resolve(r).Some?
              && Resolve(r).value.key == key && Resolve(r).value.condition == CallerCondition(conditions)
  {
    var builder := new ExprBuilder();
    ghost var start := builder.Bound();
    condition := ConditionsClause(builder, conditions);
    if condition.None? {
      return None, None, None;
    }
    names, values := Finish(builder.names), Finish(builder.values);
    assert start == Bindings(map[], map[]);
    ConditionResolves(builder.Bound(), condition.value, ConditionsMeaning(conditions));
  }

  method BuildUpdate(t: TableKey, actions: seq<UpdateAction>, conditions: seq<Condition>) returns (r: Request)
    ensures Resolve(r) == Some(Meant(t, UpdateRow(MutationMeaning(actions)),
                                     Some(UpdateConditionMeaning(conditions, actions))))
  {
    var builder := new ExprBuilder();
    var mutation, guards := UpdateClauses(builder, actions);
    ghost var compiled := builder.Bound();
    var condition := UpdateConditionExpression(builder, conditions, guards, actions);
    MutationStable(compiled, builder.Bound(), mutation);
    UpdateAccounted(compiled, builder.Bound(), mutation, guards, condition,
                    UpdateConditionMeaning(conditions, actions));
    UpdateResolves(t, builder.Bound(), mutation, condition);
    r := Request(t, UpdateRow(mutation), Some(condition), Finish(builder.names), Finish(builder.values));
  }

  lemma MutationStable(b: Bindings, c: Bindings, m: Mutation<string>)
    requires Extends(b, c) && ResolveMutation(b, m).Some?
    ensures ResolveMutation(c, m) == ResolveMutation(b, m)
  {
    var before, after := ResolveMutation(b, m), ResolveMutation(c, m);
    assert forall i | 0 <= i < |m.sets| :: ResolveAssignment(c, m.sets[i]) == ResolveAssignment(b, m.sets[i]);
    assert forall i | 0 <= i < |m.removes| :: ResolvePath(c, m.removes[i]) == ResolvePath(b, m.removes[i]);
    assert after.Some? && after.value.sets == before.value.sets && after.value.removes == before.value.removes;
  }

  lemma UpdateAccounted(b: Bindings, c: Bindings, m: Mutation<string>, guards: seq<Clause<string>>,
                        condition: Clause<string>, meant: Clause<AttributeValue>)
    requires b.names.Keys == MutationNames(m) && b.values.Keys == MutationValues(m) + GuardsValues(guards)
    requires Compiled(b, c, condition, meant) && GuardsValues(guards) <= ClauseValues(condition)
    ensures c.names.Keys == ClauseNames(condition) + MutationNames(m)
    ensures c.values.Keys == ClauseValues(condition) + MutationValues(m)
  {
  }

  lemma UpdateResolves(t: TableKey, c: Bindings, m: Mutation<string>, condition: Clause<string>)
    requires c.names.Keys == ClauseNames(condition) + MutationNames(m)
    requires c.values.Keys == ClauseValues(condition) + MutationValues(m)
    requires ResolveMutation(c, m).Some? && ResolveClause(c, condition).Some?
    ensures Resolve(Request(t, UpdateRow(m), Some(condition), Finish(c.names), Finish(c.values))) ==
            Some(Meant(t, UpdateRow(ResolveMutation(c, m).value), ResolveClause(c, condition)))
  {
    var r := Request(t, UpdateRow(m), Some(condition), Finish(c.names), Finish(c.values));
    assert BindingsOf(r) == c;
  }

  method BuildCheck(t: TableKey, conditions: seq<Condition>) returns (r: Request)
    ensures Resolve(r) ==
            Some(Meant(t, CheckRow, if conditions == [] then Some(Tautology()) else CallerCondition(conditions)))
  {
    var condition, names, values := BuildCondition(conditions);
    if condition.Some? {
      return Request(t, CheckRow, condition, names, values);
    }
    var builder := new ExprBuilder();
    var pk := builder.AliasName(PK_ATTR);
    assert builder.names == map[pk := PK_ATTR] && builder.values == map[];
    var tautology: Clause<string> := Or(AttributeExists(Top(pk)), AttributeNotExists(Top(pk)));
    r := Request(t, CheckRow, Some(tautology), Finish(builder.names), Finish(builder.values));
    assert BindingsOf(r) == builder.Bound();
    assert ClauseNames(tautology) == {pk} && ClauseValues(tautology) == {};
    assert pk in builder.names && r.names == Some(builder.names) && r.values == None;
    assert ResolveClause(BindingsOf(r), tautology) == Some(Tautology());
    assert UsedNames(r) == {pk} && UsedValues(r) == {};
    assert BindingsOf(r).names.Keys == {pk} && BindingsOf(r).values.Keys == {};
  }

  /** One operation compiled to one request: resolving its placeholders gives
      back exactly what the operation means, and nothing in it is unbound,
      unused or empty. */
  method BuildRequest(op: Operation) returns (r: Result<Request, CloudError>)
    ensures SplitKey(op.key).None? ==> r == Err(TERMINAL)
    ensures SplitKey(op.key).Some? ==> r.Ok? && Resolve(r.value) == MeantOf(op) && MeantOf(op).Some?
  {
    var split := SplitKey(op.key);
    if split.None? {
      return Err(TERMINAL);
    }
    var t := split.value;
    match op {
      case Put(_, value, conditions) =>
        var condition, names, values := BuildCondition(conditions);
        return Ok(Request(t, PutRow(RowFor(t, value)), condition, names, values));
      case Update(_, actions, conditions) =>
        var request := BuildUpdate(t, actions, conditions);
        return Ok(request);
      case Delete(_, conditions) =>
        var condition, names, values := BuildCondition(conditions);
        return Ok(Request(t, DeleteRow, condition, names, values));
      case ConditionCheck(_, conditions) =>
        var request := BuildCheck(t, conditions);
        return Ok(request);
    }
  }

  // ----- The operations, in terms of what their requests mean -----

  datatype Outcome<T> = Outcome(table: Table, result: Result<T, CloudError>)

  function DecodeItem(key: Key, row: Row): Result<Item, CloudError> {
    if VALUE_ATTR !in row then Err(TERMINAL)
    else
      match DecodeValue(row[VALUE_ATTR])
      case None => Err(TERMINAL)
      case Some(value) => Ok(Item(key, value))
  }

  function MapError(e: ServiceError): CloudError {
    if e.ConditionalCheckFailed? then ConditionFailed else TERMINAL
  }

  function GetOp(table: Table, key: Key): Result<Item, CloudError> {
    match SplitKey(key)
    case None => Err(TERMINAL)
    case Some(t) => if t in table then DecodeItem(key, table[t]) else Err(NotFound(key))
  }

  function PutOp(table: Table, key: Key, value: Value, conditions: seq<Condition>): Outcome<Unit> {
    match MeantOf(Put(key, value, conditions))
    case None => Outcome(table, Err(TERMINAL))
    case Some(m) =>
      var Answer(after, result) := Perform(table, m);
      Outcome(after, if result.Ok? then Ok(Unit.Unit) else Err(MapError(result.error)))
  }

  /** A lost condition is classified by a follow-up read. */
  function Classify(table: Table, key: Key): CloudError {
    match GetOp(table, key)
    case Ok(_) => ConditionFailed
    case Err(e) => e
  }

  function AtomicUpdateOp(table: Table, key: Key, actions: seq<UpdateAction>, conditions: seq<Condition>)
    : Outcome<Item>
  {
    match MeantOf(Update(key, actions, conditions))
    case None => Outcome(table, Err(TERMINAL))
    case Some(m) =>
      var Answer(after, result) := Perform(table, m);
      match result
      case Ok(Some(row)) => Outcome(after, DecodeItem(key, row))
      case Ok(None) => Outcome(after, Err(TERMINAL))
      case Err(ConditionalCheckFailed) => Outcome(after, Err(Classify(table, key)))
      case Err(Validation) => Outcome(after, Err(TERMINAL))
  }

  predicate Splittable(ops: seq<Operation>) {
    forall op | op in ops :: SplitKey(op.key).Some?
  }

  function MeantAll(ops: seq<Operation>): seq<Meant>
    requires Splittable(ops)
  {
    seq(|ops|, i requires 0 <= i < |ops| && SplitKey(ops[i].key).Some? => MeantOf(ops[i]).value)
  }

  function TransactOp(table: Table, ops: seq<Operation>): Outcome<Unit> {
    if !Splittable(ops) then Outcome(table, Err(TERMINAL))
    else
      var Answer(after, result) := PerformAll(table, MeantAll(ops));
      Outcome(after, if result.Ok? then Ok(Unit.Unit) else Err(MapError(result.error)))
  }

  class DynamoDbReplicatedKv {
    var table: Table

    constructor ()
      ensures table == map[]
    {
      table := map[];
    }

    method Get(key: Key) returns (r: Result<Item, CloudError>)
      ensures r == GetOp(table, key)
    {
      var split := SplitKey(key);
      if split.None? {
        return Err(TERMINAL);
      }
      if split.value !in table {
        return Err(NotFound(key));
      }
      return DecodeItem(key, table[split.value]);
    }

    method Put(key: Key, value: Value, conditions: seq<Condition>) returns (r: Result<Unit, CloudError>)
      modifies this
      ensures Outcome(table, r) == PutOp(old(table), key, value, conditions)
    {
      var request := BuildRequest(Operation.Put(key, value, conditions));
      if request.Err? {
        return Err(request.error);
      }
      var answer := Execute(table, request.value);
      table := answer.table;
      return if answer.result.Ok? then Ok(Unit.Unit) else Err(MapError(answer.result.error));
    }

    method AtomicUpdate(key: Key, actions: seq<UpdateAction>, conditions: seq<Condition>)
      returns (r: Result<Item, CloudError>)
      modifies this
      ensures Outcome(table, r) == AtomicUpdateOp(old(table), key, actions, conditions)
    {
      var request := BuildRequest(Update(key, actions, conditions));
      if request.Err? {
        return Err(request.error);
      }
      var answer := Execute(table, request.value);
      table := answer.table;
      match answer.result {
        case Ok(Some(row)) => return DecodeItem(key, row);
        case Ok(None) => return Err(TERMINAL);
        case Err(Validation) => return Err(TERMINAL);
        case Err(ConditionalCheckFailed) =>
          var found := Get(key);
          return Err(if found.Ok? then ConditionFailed else found.error);
      }
    }

    method Transact(ops: seq<Operation>) returns (r: Result<Unit, CloudError>)
      modifies this
      ensures Outcome(table, r) == TransactOp(old(table), ops)
    {
      var requests: seq<Request> := [];
      for i := 0 to |ops|
        invariant table == old(table) && |requests| == i
        invariant forall j | 0 <= j < i :: SplitKey(ops[j].key).Some? && Resolve(requests[j]) == MeantOf(ops[j])
      {
        var request := BuildRequest(ops[i]);
        if request.Err? {
          assert ops[i] in ops;
          return Err(request.error);
        }
        requests := requests + [request.value];
      }
      var answer := ExecuteAll(table, requests);
      assert seq(|requests|, i requires 0 <= i < |requests| && Resolve(requests[i]).Some? =>
                   Resolve(requests[i]).value) == MeantAll(ops);
      table := answer.table;
      return if answer.result.Ok? then Ok(Unit.Unit) else Err(MapError(answer.result.error));
    }
  }
}
