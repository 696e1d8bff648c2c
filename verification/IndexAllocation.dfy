/** Index allocation on one counter attribute: the ranges handed out by
    successful increments tile the log. */
module IndexAllocation {
  import opened Base
  import opened ReplicatedKv
  import opened MemoryKv
  import opened Transactions

  /** A half-open range of log indexes. */
  datatype Range = Range(lo: int, hi: int)

  /** Where the counter lives: an item key and an attribute of its map. */
  datatype Counter = Counter(key: Key, attribute: string) {

    /** The counter's value, when the item holds one. */
    function Read(store: Store): Option<u64> {
      match Lookup(store, key)
      case Some(Map(entries)) => ReadFrom(entries)
      case _ => None
    }

    function ReadFrom(entries: Attributes): Option<u64> {
      if attribute in entries && entries[attribute].U64? then Some(entries[attribute].number) else None
    }
  }

  /** A call made while the counter is in use. `Allocate` is an atomic update
      of the counter's item; the others are every other way to write. */
  datatype Call =
    | Allocate(actions: seq<UpdateAction>, conditions: seq<Condition>)
    | PutAt(key: Key, value: Value, conditions: seq<Condition>)
    | UpdateAt(key: Key, actions: seq<UpdateAction>, conditions: seq<Condition>)
    | Commit(ops: seq<Operation>)

  /** The discipline: nothing but an increment ever writes the attribute. */
  ghost predicate Disciplined(c: Counter, call: Call) {
    match call
    case Allocate(actions, _) => forall a | a in actions && a.attribute == c.attribute :: a.Increment?
    case PutAt(key, _, _) => key != c.key
    case UpdateAt(key, _, _) => key != c.key
    case Commit(ops) => forall op | op in ops && op.key == c.key :: op.ConditionCheck?
  }

  /** How much a list of actions adds to the attribute. */
  function Amount(actions: seq<UpdateAction>, attribute: string): nat {
    if actions == [] then 0
    else
      var last := actions[|actions| - 1];
      Amount(actions[..|actions| - 1], attribute) +
      if last.Increment? && last.attribute == attribute then last.amount else 0
  }

  function AfterCall(c: Counter, store: Store, call: Call): Store {
    match call
    case Allocate(actions, conditions) => AtomicUpdateOp(store, c.key, actions, conditions).store
    case PutAt(key, value, conditions) => PutOp(store, key, value, conditions).store
    case UpdateAt(key, actions, conditions) => AtomicUpdateOp(store, key, actions, conditions).store
    case Commit(ops) => TransactOp(store, ops).store
  }

  /** The range a caller derives from the post-update item it is handed: the
      last `n` indexes below the new counter value. */
  function Granted(c: Counter, store: Store, call: Call): Option<Range> {
    if !call.Allocate? then None
    else
      match AtomicUpdateOp(store, c.key, call.actions, call.conditions).result
      case Err(_) => None
      case Ok(item) =>
        if item.value.Map? && c.ReadFrom(item.value.entries).Some? then
          var post := c.ReadFrom(item.value.entries).value;
          Some(Range(post - Amount(call.actions, c.attribute), post))
        else None
  }

  function AfterCalls(c: Counter, store: Store, calls: seq<Call>): Store
    decreases |calls|
  {
    if calls == [] then store else AfterCalls(c, AfterCall(c, store, calls[0]), calls[1..])
  }

  function GrantedRanges(c: Counter, store: Store, calls: seq<Call>): seq<Range>
    decreases |calls|
  {
    if calls == [] then []
    else
      var rest := GrantedRanges(c, AfterCall(c, store, calls[0]), calls[1..]);
      match Granted(c, store, calls[0])
      case None => rest
      case Some(range) => [range] + rest
  }

  /** The ranges follow each other without gap or overlap from `lo` to `hi`. */
  ghost predicate Tiles(ranges: seq<Range>, lo: int, hi: int) {
    if ranges == [] then lo == hi
    else ranges[0].lo == lo <= ranges[0].hi && Tiles(ranges[1..], ranges[0].hi, hi)
  }

  ghost predicate Covers(ranges: seq<Range>, x: int) {
    exists i :: 0 <= i < |ranges| && ranges[i].lo <= x < ranges[i].hi
  }

  lemma {:induction false} ActionsAddAmount(c: Counter, entries: Attributes, actions: seq<UpdateAction>)
    requires forall a | a in actions && a.attribute == c.attribute :: a.Increment?
    requires ApplyActions(entries, actions).Some?
    ensures var after := c.ReadFrom(ApplyActions(entries, actions).value);
            match c.ReadFrom(entries)
            case Some(before) => after == Some(before + Amount(actions, c.attribute))
            case None => after == None && forall a | a in actions :: a.attribute != c.attribute
  {
    if actions != [] {
      var front := actions[..|actions| - 1];
      assert actions == front + [actions[|actions| - 1]];
      ActionsAddAmount(c, entries, front);
    }
  }

  /** One disciplined call moves the counter by exactly the range it grants; a
      call that grants nothing, in particular a failed one, consumes nothing. */
  lemma CallConsumesItsRange(c: Counter, store: Store, call: Call)
    requires Disciplined(c, call)
    ensures var before, after := c.Read(store), c.Read(AfterCall(c, store, call));
            match Granted(c, store, call)
            case Some(range) => before == Some(range.lo) && after == Some(range.hi) && range.lo <= range.hi
            case None => after == before
  {
    match call
    case Allocate(actions, conditions) =>
      if AtomicUpdateOp(store, c.key, actions, conditions).result.Ok? {
        ActionsAddAmount(c, store[c.key].entries, actions);
      }
    case Commit(ops) =>
      if AllPlannable(store, ops) {
        ChecksWriteNothing(store, ops, c.key);
      }
    case _ =>
  }

  /** Over any disciplined run the granted ranges tile the interval from the
      initial to the current counter value; without a counter nothing is ever
      granted. */
  lemma {:induction false} RangesTileTheLog(c: Counter, store: Store, calls: seq<Call>)
    requires forall call | call in calls :: Disciplined(c, call)
    ensures match c.Read(store)
            case Some(initial) =>
              var current := c.Read(AfterCalls(c, store, calls));
              current.Some? && Tiles(GrantedRanges(c, store, calls), initial, current.value)
            case None => GrantedRanges(c, store, calls) == [] && c.Read(AfterCalls(c, store, calls)) == None
    decreases |calls|
  {
    if calls != [] {
      CallConsumesItsRange(c, store, calls[0]);
      RangesTileTheLog(c, AfterCall(c, store, calls[0]), calls[1..]);
    }
  }

  lemma {:induction false} TilesBounds(ranges: seq<Range>, lo: int, hi: int)
    requires Tiles(ranges, lo, hi)
    ensures lo <= hi
    ensures forall r | r in ranges :: lo <= r.lo <= r.hi <= hi
  {
    if ranges != [] {
      TilesBounds(ranges[1..], ranges[0].hi, hi);
      assert ranges == [ranges[0]] + ranges[1..];
    }
  }

  /** A tiling covers every index of the interval exactly once. */
  lemma {:induction false} TilesPartition(ranges: seq<Range>, lo: int, hi: int)
    requires Tiles(ranges, lo, hi)
    ensures forall x | lo <= x < hi :: Covers(ranges, x)
    ensures forall i, j | 0 <= i < j < |ranges| :: ranges[i].hi <= ranges[j].lo
  {
    if ranges != [] {
      TilesPartition(ranges[1..], ranges[0].hi, hi);
      TilesBounds(ranges[1..], ranges[0].hi, hi);
      forall x | lo <= x < hi ensures Covers(ranges, x) {
        if ranges[0].hi <= x {
          assert Covers(ranges[1..], x);
          var i :| 0 <= i < |ranges[1..]| && ranges[1..][i].lo <= x < ranges[1..][i].hi;
          assert ranges[i + 1].lo <= x < ranges[i + 1].hi;
        }
      }
      forall i, j | 0 <= i < j < |ranges| ensures ranges[i].hi <= ranges[j].lo {
        assert ranges[j] == ranges[1..][j - 1];
        if i > 0 { assert ranges[i] == ranges[1..][i - 1]; }
      }
    }
  }

  /** The two together: no index is ever granted twice and none is skipped. */
  lemma EveryIndexGrantedOnce(c: Counter, store: Store, calls: seq<Call>)
    requires forall call | call in calls :: Disciplined(c, call)
    requires c.Read(store).Some?
    ensures var ranges := GrantedRanges(c, store, calls);
            var current := c.Read(AfterCalls(c, store, calls));
            && current.Some? && c.Read(store).value <= current.value
            && (forall x | c.Read(store).value <= x < current.value :: Covers(ranges, x))
            && (forall i | 0 <= i < |ranges| ::
                  c.Read(store).value <= ranges[i].lo <= ranges[i].hi <= current.value)
            && (forall i, j | 0 <= i < j < |ranges| :: ranges[i].hi <= ranges[j].lo)
  {
    RangesTileTheLog(c, store, calls);
    var ranges := GrantedRanges(c, store, calls);
    var current := c.Read(AfterCalls(c, store, calls)).value;
    TilesPartition(ranges, c.Read(store).value, current);
    TilesBounds(ranges, c.Read(store).value, current);
    forall i | 0 <= i < |ranges| ensures c.Read(store).value <= ranges[i].lo <= ranges[i].hi <= current {
      assert ranges[i] in ranges;
    }
  }
}
