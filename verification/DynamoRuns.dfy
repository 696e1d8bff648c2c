/** Whole runs of calls on both backends. */
module DynamoRuns {
  import opened Base
  import opened ReplicatedKv
  import opened DynamoCodec
  import opened DynamoService
  import opened DynamoSimulation
  import opened DynamoQuery
  import Memory = MemoryKv
  import Dynamo = DynamoKv

  /** A query carries the order in which the service happens to keep its rows. */
  datatype Call =
    | GetCall(key: Key)
    | PutCall(key: Key, value: Value, conditions: seq<Condition>)
    | UpdateCall(key: Key, actions: seq<UpdateAction>, conditions: seq<Condition>)
    | TransactCall(ops: seq<Operation>)
    | QueryCall(prefix: string, order: seq<TableKey>)

  datatype Reply =
    | ItemReply(item: Result<Item, CloudError>)
    | UnitReply(unit: Result<Unit, CloudError>)
    | ItemsReply(items: Result<seq<Item>, CloudError>)

  ghost function MemoryStep(store: Memory.Store, call: Call): (Memory.Store, Reply) {
    match call
    case GetCall(key) => (store, ItemReply(Memory.GetOp(store, key)))
    case PutCall(key, value, conditions) =>
      var o := Memory.PutOp(store, key, value, conditions);
      (o.store, UnitReply(o.result))
    case UpdateCall(key, actions, conditions) =>
      var o := Memory.AtomicUpdateOp(store, key, actions, conditions);
      (o.store, ItemReply(o.result))
    case TransactCall(ops) =>
      var o := Memory.TransactOp(store, ops);
      (o.store, UnitReply(o.result))
    case QueryCall(prefix, _) => (store, ItemsReply(Ok(QueryOp(store, prefix))))
  }

  function DynamoStep(table: Table, call: Call): (Table, Reply) {
    match call
    case GetCall(key) => (table, ItemReply(Dynamo.GetOp(table, key)))
    case PutCall(key, value, conditions) =>
      var o := Dynamo.PutOp(table, key, value, conditions);
      (o.table, UnitReply(o.result))
    case UpdateCall(key, actions, conditions) =>
      var o := Dynamo.AtomicUpdateOp(table, key, actions, conditions);
      (o.table, ItemReply(o.result))
    case TransactCall(ops) =>
      var o := Dynamo.TransactOp(table, ops);
      (o.table, UnitReply(o.result))
    case QueryCall(prefix, order) =>
      (table, ItemsReply(if forall t | t in order :: t in table then QueryAnswer(table, order, prefix)
                         else Err(Dynamo.TERMINAL)))
  }

  /** The calls on which the backends agree, judged where they are made. */
  ghost predicate InFragment(store: Memory.Store, call: Call) {
    match call
    case GetCall(key) => SplitKey(key).Some?
    case PutCall(key, _, _) => SplitKey(key).Some?
    case UpdateCall(key, actions, conditions) =>
      SplitKey(key).Some? && Updatable(store, key, actions) && !Overflows(store, key, actions, conditions)
    case TransactCall(ops) => SimpleTransaction(store, ops)
    case QueryCall(prefix, order) => !StartsWithSlash(prefix) && EnumeratesStore(order, store)
  }

  /** Every stored item's table key, once, in some order. */
  ghost predicate EnumeratesStore(order: seq<TableKey>, store: Memory.Store) {
    && (forall t | t in order :: SplitKey(RenderKey(t)) == Some(t) && RenderKey(t) in store)
    && (forall k | k in store :: KeyIn(k, order))
    && (forall i, j | 0 <= i < j < |order| :: order[i] != order[j])
  }

  lemma EnumeratesBoth(table: Table, store: Memory.Store, order: seq<TableKey>)
    requires Represents(table, store) && EnumeratesStore(order, store)
    ensures Enumerates(order, table)
  {
    forall t | t in order ensures t in table {
      assert KeyHeld(table, RenderKey(t), store[RenderKey(t)]);
    }
    forall t | t in table ensures t in order {
      assert KeyIn(RenderKey(t), order);
    }
  }

  ghost function MemoryRun(store: Memory.Store, calls: seq<Call>): (Memory.Store, seq<Reply>)
    decreases |calls|
  {
    if calls == [] then (store, [])
    else
      var (next, reply) := MemoryStep(store, calls[0]);
      var (end, replies) := MemoryRun(next, calls[1..]);
      (end, [reply] + replies)
  }

  function DynamoRun(table: Table, calls: seq<Call>): (Table, seq<Reply>)
    decreases |calls|
  {
    if calls == [] then (table, [])
    else
      var (next, reply) := DynamoStep(table, calls[0]);
      var (end, replies) := DynamoRun(next, calls[1..]);
      (end, [reply] + replies)
  }

  ghost predicate RunInFragment(store: Memory.Store, calls: seq<Call>)
    decreases |calls|
  {
    calls != [] ==> InFragment(store, calls[0]) && RunInFragment(MemoryStep(store, calls[0]).0, calls[1..])
  }

  lemma StepAgrees(table: Table, store: Memory.Store, call: Call)
    requires Represents(table, store) && InFragment(store, call)
    ensures DynamoStep(table, call).1 == MemoryStep(store, call).1
    ensures Represents(DynamoStep(table, call).0, MemoryStep(store, call).0)
  {
    match call
    case GetCall(key) => GetAgrees(table, store, key);
    case PutCall(key, value, conditions) => PutAgrees(table, store, key, value, conditions);
    case UpdateCall(key, actions, conditions) => UpdateAgrees(table, store, key, actions, conditions);
    case TransactCall(ops) => TransactAgrees(table, store, ops);
    case QueryCall(prefix, order) =>
      EnumeratesBoth(table, store, order);
      QueryAgrees(table, store, order, prefix);
  }

  /** Over every run in the fragment, queries included, the two backends give the
      same replies, errors and all, and end in related states. */
  lemma {:induction false} RunsAgree(table: Table, store: Memory.Store, calls: seq<Call>)
    requires Represents(table, store) && RunInFragment(store, calls)
    ensures DynamoRun(table, calls).1 == MemoryRun(store, calls).1
    ensures Represents(DynamoRun(table, calls).0, MemoryRun(store, calls).0)
    decreases |calls|
  {
    if calls != [] {
      StepAgrees(table, store, calls[0]);
      RunsAgree(DynamoStep(table, calls[0]).0, MemoryStep(store, calls[0]).0, calls[1..]);
    }
  }
}
