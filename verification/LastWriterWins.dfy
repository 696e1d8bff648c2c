/** How replicated changes are applied on the target: the last writer wins, as far
    as a conditional write on the stored timestamp can ensure it. */
module LastWriterWins {
  import opened Base
  import opened DynamoCodec
  import opened DynamoService

  datatype Change = Upsert(key: TableKey, row: Row) | Remove(key: TableKey)

  /** A target row, with the replicator's timestamp kept apart from it. */
  datatype TargetRow = TargetRow(row: Row, stamp: Option<nat>)

  type Target = map<TableKey, TargetRow>

  datatype Write = Write(change: Change, ts: nat)

  /** Whole milliseconds since the epoch; instants before it count as zero. */
  function Millis(nanos: int): nat {
    if nanos < 0 then 0 else nanos / 1_000_000
  }

  lemma MillisFloors(nanos: int)
    ensures nanos < 0 ==> Millis(nanos) == 0
    ensures 0 <= nanos ==> 1_000_000 * Millis(nanos) <= nanos < 1_000_000 * (Millis(nanos) + 1)
  {
  }

  /** `attribute_not_exists(ts) OR ts < :ts`, judged on the stored row. */
  predicate Admits(target: Target, key: TableKey, ts: nat) {
    key !in target || target[key].stamp.None? || target[key].stamp.value < ts
  }

  function ApplyOne(target: Target, w: Write): Target {
    if !Admits(target, w.change.key, w.ts) then target
    else
      match w.change
      case Upsert(key, row) => target[key := TargetRow(row, Some(w.ts))]
      case Remove(key) => target - {key}
  }

  function ApplyWrites(target: Target, ws: seq<Write>): Target {
    if ws == [] then target else ApplyOne(ApplyWrites(target, ws[..|ws| - 1]), ws[|ws| - 1])
  }

  function At(target: Target, key: TableKey): Option<TargetRow> {
    if key in target then Some(target[key]) else None
  }

  predicate Touches(ws: seq<Write>, key: TableKey) {
    exists w :: w in ws && w.change.key == key
  }

  // ----- When a key is there at the end -----

  /** No removal of the key is newer than the initial row. */
  ghost predicate InitialSurvives(target: Target, ws: seq<Write>, key: TableKey) {
    && key in target
    && forall w | w in ws && w.change == Remove(key) ::
         target[key].stamp.Some? && w.ts <= target[key].stamp.value
  }

  /** Write `j` is an upsert that no later removal of its key is newer than. */
  ghost predicate Outlives(ws: seq<Write>, key: TableKey, j: nat) {
    && j < |ws| && ws[j].change.Upsert? && ws[j].change.key == key
    && forall l | j < l < |ws| && ws[l].change == Remove(key) :: ws[l].ts <= ws[j].ts
  }

  /** Write `j` is an upsert that no later write of its key is newer than. */
  ghost predicate Stands(ws: seq<Write>, key: TableKey, j: nat) {
    && j < |ws| && ws[j].change.Upsert? && ws[j].change.key == key
    && forall l | j < l < |ws| && ws[l].change.key == key :: ws[l].ts <= ws[j].ts
  }

  function RowOf(w: Write): TargetRow
    requires w.change.Upsert?
  {
    TargetRow(w.change.row, Some(w.ts))
  }

  /** The row at the key is the initial one, which no write is newer than, or
      that of an upsert that no later write is newer than. */
  ghost predicate CameFrom(target: Target, ws: seq<Write>, key: TableKey, row: TargetRow) {
    || (key in target && row == target[key]
        && forall w | w in ws && w.change.key == key :: row.stamp.Some? && w.ts <= row.stamp.value)
    || exists j: nat :: Stands(ws, key, j) && row == RowOf(ws[j])
  }

  ghost predicate AtLeast(row: TargetRow, ts: nat) {
    row.stamp.Some? && ts <= row.stamp.value
  }

  /** What is known of one key after the writes. */
  ghost predicate Tracks(target: Target, ws: seq<Write>, key: TableKey, row: Option<TargetRow>) {
    && (row.Some? <==> InitialSurvives(target, ws, key) || exists j: nat :: Outlives(ws, key, j))
    && (row.Some? ==> CameFrom(target, ws, key, row.value))
    && (row.Some? ==> forall j: nat | Outlives(ws, key, j) :: AtLeast(row.value, ws[j].ts))
    && (row.Some? && InitialSurvives(target, ws, key) && target[key].stamp.Some? ==>
          AtLeast(row.value, target[key].stamp.value))
  }

  lemma OutlivesAppend(front: seq<Write>, last: Write, key: TableKey)
    ensures forall j: nat | j < |front| ::
              Outlives(front + [last], key, j) <==>
              Outlives(front, key, j) && (last.change == Remove(key) ==> last.ts <= front[j].ts)
    ensures Outlives(front + [last], key, |front|) <==> last.change.Upsert? && last.change.key == key
  {
    var ws := front + [last];
    assert ws[|front|] == last && forall l | 0 <= l < |front| :: ws[l] == front[l];
    forall j: nat | j < |front|
      ensures Outlives(ws, key, j) <==>
              Outlives(front, key, j) && (last.change == Remove(key) ==> last.ts <= front[j].ts) {
      if Outlives(ws, key, j) {
        forall l | j < l < |front| && front[l].change == Remove(key) ensures front[l].ts <= front[j].ts {
          assert ws[l] == front[l];
        }
      }
    }
  }

  lemma OtherKeyTracks(target: Target, front: seq<Write>, last: Write, key: TableKey, row: Option<TargetRow>)
    requires Tracks(target, front, key, row) && last.change.key != key
    ensures Tracks(target, front + [last], key, row)
  {
    var ws := front + [last];
    OutlivesAppend(front, last, key);
    assert forall w :: w in ws <==> w in front || w == last;
    assert InitialSurvives(target, ws, key) <==> InitialSurvives(target, front, key);
    assert forall j: nat :: Outlives(ws, key, j) <==> Outlives(front, key, j);
    assert forall j: nat | j < |front| :: ws[j] == front[j];
    if row.Some? {
      OtherKeyStands(target, front, last, key, row.value);
    }
  }

  lemma OtherKeyStands(target: Target, front: seq<Write>, last: Write, key: TableKey, row: TargetRow)
    requires CameFrom(target, front, key, row) && last.change.key != key
    ensures CameFrom(target, front + [last], key, row)
  {
    var ws := front + [last];
    assert forall w :: w in ws <==> w in front || w == last;
    if j: nat :| Stands(front, key, j) && row == RowOf(front[j]) {
      assert ws[j] == front[j] && Stands(ws, key, j);
    }
  }

  /** An upsert of the key: afterwards the key is there. */
  lemma UpsertTracks(target: Target, front: seq<Write>, last: Write, key: TableKey, row: Option<TargetRow>)
    requires Tracks(target, front, key, row) && last.change.Upsert? && last.change.key == key
    ensures var admitted := row.None? || row.value.stamp.None? || row.value.stamp.value < last.ts;
            Tracks(target, front + [last], key, if admitted then Some(RowOf(last)) else row)
  {
    var ws := front + [last];
    assert forall w :: w in ws <==> w in front || w == last;
    assert Outlives(ws, key, |front|) && Stands(ws, key, |front|) && ws[|front|] == last;
    assert InitialSurvives(target, ws, key) <==> InitialSurvives(target, front, key);
    OutlivesAppend(front, last, key);
    assert forall j: nat | j < |front| :: ws[j] == front[j];
    if row.Some? && row.value.stamp.Some? && last.ts <= row.value.stamp.value {
      StandsLonger(target, front, last, key, row.value);
    }
  }

  lemma StandsLonger(target: Target, front: seq<Write>, last: Write, key: TableKey, row: TargetRow)
    requires CameFrom(target, front, key, row) && AtLeast(row, last.ts)
    ensures CameFrom(target, front + [last], key, row)
  {
    var ws := front + [last];
    assert forall w :: w in ws <==> w in front || w == last;
    if j: nat :| Stands(front, key, j) && row == RowOf(front[j]) {
      assert ws[j] == front[j] && Stands(ws, key, j);
    }
  }

  /** A removal of the key: it takes effect exactly when nothing outlives it. */
  lemma RemoveTracks(target: Target, front: seq<Write>, last: Write, key: TableKey, row: Option<TargetRow>)
    requires Tracks(target, front, key, row) && last.change == Remove(key)
    ensures var admitted := row.None? || row.value.stamp.None? || row.value.stamp.value < last.ts;
            Tracks(target, front + [last], key, if admitted then None else row)
  {
    var ws := front + [last];
    assert last in ws && forall w :: w in ws <==> w in front || w == last;
    assert InitialSurvives(target, ws, key) <==>
           InitialSurvives(target, front, key) && target[key].stamp.Some? && last.ts <= target[key].stamp.value;
    OutlivesAppend(front, last, key);
    assert forall j: nat | j < |front| :: ws[j] == front[j];
    if row.Some? && row.value.stamp.Some? && last.ts <= row.value.stamp.value {
      StandsLonger(target, front, last, key, row.value);
      StandingOutlives(target, front, last.ts, key, row.value);
    }
  }

  /** The row that is there witnesses that something outlives an older removal. */
  lemma StandingOutlives(target: Target, front: seq<Write>, ts: nat, key: TableKey, row: TargetRow)
    requires CameFrom(target, front, key, row) && AtLeast(row, ts)
    ensures || (InitialSurvives(target, front, key) && AtLeast(target[key], ts))
            || exists j: nat :: Outlives(front, key, j) && ts <= front[j].ts
  {
    if j: nat :| Stands(front, key, j) && row == RowOf(front[j]) {
      assert Outlives(front, key, j);
    }
  }

  lemma {:induction false} EveryRunTracks(target: Target, ws: seq<Write>, key: TableKey)
    ensures Tracks(target, ws, key, At(ApplyWrites(target, ws), key))
  {
    if ws != [] {
      var front, last := ws[..|ws| - 1], ws[|ws| - 1];
      assert ws == front + [last];
      EveryRunTracks(target, front, key);
      var row := At(ApplyWrites(target, front), key);
      if last.change.key != key {
        OtherKeyTracks(target, front, last, key, row);
      } else if last.change.Upsert? {
        UpsertTracks(target, front, last, key, row);
      } else {
        RemoveTracks(target, front, last, key, row);
      }
    }
  }

  /** Presence over any writes, removals included: a key is there at the end if and
      only if its initial row is as new as every removal, or some upsert is as new
      as every removal after it. */
  lemma PresentIff(target: Target, ws: seq<Write>, key: TableKey)
    ensures key in ApplyWrites(target, ws) <==>
            InitialSurvives(target, ws, key) || exists j: nat :: Outlives(ws, key, j)
    ensures key in ApplyWrites(target, ws) ==> CameFrom(target, ws, key, ApplyWrites(target, ws)[key])
  {
    EveryRunTracks(target, ws, key);
  }

  // ----- When the newest write wins -----

  /** The first of the writes to the key with the largest timestamp. */
  ghost predicate Newest(ws: seq<Write>, key: TableKey, i: nat) {
    && i < |ws| && ws[i].change.key == key
    && (forall j | 0 <= j < |ws| && ws[j].change.key == key :: ws[j].ts <= ws[i].ts)
    && (forall j | 0 <= j < i && ws[j].change.key == key :: ws[j].ts < ws[i].ts)
  }

  lemma {:induction false} NewestExists(ws: seq<Write>, key: TableKey) returns (i: nat)
    requires Touches(ws, key)
    ensures Newest(ws, key, i)
  {
    var front, last := ws[..|ws| - 1], ws[|ws| - 1];
    assert ws == front + [last] && forall w :: w in ws <==> w in front || w == last;
    if Touches(front, key) {
      i := NewestExists(front, key);
      if last.change.key == key && front[i].ts < last.ts {
        i := |front|;
      }
    } else {
      i := |front|;
      forall j | 0 <= j < |front| ensures ws[j].change.key != key {
        assert front[j] in front;
      }
    }
  }

  /** What last-writer-wins promises at a key whose newest write is `w`. */
  function Promised(target: Target, w: Write): Option<TargetRow> {
    if !Admits(target, w.change.key, w.ts) then At(target, w.change.key)
    else
      match w.change
      case Upsert(_, _) => Some(RowOf(w))
      case Remove(_) => None
  }

  lemma {:induction false} InitialStays(target: Target, ws: seq<Write>, key: TableKey)
    requires forall w | w in ws && w.change.key == key :: !Admits(target, key, w.ts)
    ensures At(ApplyWrites(target, ws), key) == At(target, key)
  {
    if ws != [] {
      assert ws[|ws| - 1] in ws;
      InitialStays(target, ws[..|ws| - 1], key);
    }
  }

  lemma {:induction false} NewestUpsertStays(target: Target, ws: seq<Write>, key: TableKey, i: nat)
    requires Newest(ws, key, i) && ws[i].change.Upsert? && Admits(target, key, ws[i].ts)
    ensures At(ApplyWrites(target, ws), key) == Some(RowOf(ws[i]))
  {
    var front, last := ws[..|ws| - 1], ws[|ws| - 1];
    if i < |front| {
      assert Newest(front, key, i);
      NewestUpsertStays(target, front, key, i);
    } else {
      EveryRunTracks(target, front, key);
      NewestAdmitted(target, front, last, key);
    }
  }

  lemma NewestAdmitted(target: Target, front: seq<Write>, last: Write, key: TableKey)
    requires last.change.key == key && Admits(target, key, last.ts)
    requires forall j | 0 <= j < |front| && front[j].change.key == key :: front[j].ts < last.ts
    requires Tracks(target, front, key, At(ApplyWrites(target, front), key))
    ensures Admits(ApplyWrites(target, front), key, last.ts)
  {
  }

  /** Last writer wins, exactly: at any key, over any upserts and removals in any
      order, the final state is the one the newest write promises, unless that
      write is a removal and an upsert outlives the removals that arrive after it. */
  lemma NewestWinsIff(target: Target, ws: seq<Write>, key: TableKey, i: nat)
    requires Newest(ws, key, i)
    ensures At(ApplyWrites(target, ws), key) == Promised(target, ws[i]) <==>
            !(ws[i].change.Remove? && Admits(target, key, ws[i].ts) && exists j: nat :: Outlives(ws, key, j))
  {
    if !Admits(target, key, ws[i].ts) {
      forall w | w in ws && w.change.key == key ensures !Admits(target, key, w.ts) {
        var j :| 0 <= j < |ws| && ws[j] == w;
      }
      InitialStays(target, ws, key);
    } else if ws[i].change.Upsert? {
      NewestUpsertStays(target, ws, key, i);
    } else {
      PresentIff(target, ws, key);
      assert ws[i] in ws && ws[i].change == Remove(key);
    }
  }

  // ----- When the order of arrival matters -----

  /** Two writes to one key never carry the same timestamp unless they agree. */
  ghost predicate DistinctStamps(ws: seq<Write>) {
    forall v, w | v in ws && w in ws && v.change.key == w.change.key && v.ts == w.ts :: v == w
  }

  ghost predicate SameWrites(a: seq<Write>, b: seq<Write>) {
    forall w :: w in a <==> w in b
  }

  /** An upsert beside a removal of the same key that is the newest of all. */
  ghost predicate ContestedBy(target: Target, ws: seq<Write>, u: Write, r: Write) {
    && u in ws && r in ws && u.change.Upsert? && r.change == Remove(u.change.key)
    && Admits(target, u.change.key, r.ts)
    && forall w | w in ws && w.change.key == u.change.key :: w.ts <= r.ts
  }

  ghost predicate Contested(target: Target, ws: seq<Write>) {
    exists u, r :: ContestedBy(target, ws, u, r)
  }

  lemma KeyAgrees(target: Target, a: seq<Write>, b: seq<Write>, key: TableKey)
    requires SameWrites(a, b) && DistinctStamps(a) && !Contested(target, a)
    ensures At(ApplyWrites(target, a), key) == At(ApplyWrites(target, b), key)
  {
    if Touches(a, key) {
      var i := NewestExists(a, key);
      assert a[i] in b;
      var j := NewestExists(b, key);
      assert b[j] in a && a[i] in a;
      var k :| 0 <= k < |b| && b[k] == a[i];
      var l :| 0 <= l < |a| && a[l] == b[j];
      assert a[i] == b[j];
      NewestSettles(target, a, key, i);
      UncontestedToo(target, a, b);
      NewestSettles(target, b, key, j);
    } else {
      assert !Touches(b, key);
      InitialStays(target, a, key);
      InitialStays(target, b, key);
    }
  }

  lemma UncontestedToo(target: Target, a: seq<Write>, b: seq<Write>)
    requires SameWrites(a, b) && !Contested(target, a)
    ensures !Contested(target, b)
  {
    if u, r :| ContestedBy(target, b, u, r) {
      assert ContestedBy(target, a, u, r);
    }
  }

  lemma NewestSettles(target: Target, ws: seq<Write>, key: TableKey, i: nat)
    requires Newest(ws, key, i) && !Contested(target, ws)
    ensures At(ApplyWrites(target, ws), key) == Promised(target, ws[i])
  {
    NewestWinsIff(target, ws, key, i);
    if ws[i].change.Remove? && Admits(target, key, ws[i].ts) {
      forall j: nat | Outlives(ws, key, j) ensures false {
        assert ws[i] in ws && ws[j] in ws;
        forall w | w in ws && w.change.key == key ensures w.ts <= ws[i].ts {
          var k :| 0 <= k < |ws| && ws[k] == w;
        }
        assert ContestedBy(target, ws, ws[j], ws[i]);
      }
    }
  }

  /** Without a contested key the final table does not depend on arrival order. */
  lemma ArrivalOrderIrrelevant(target: Target, a: seq<Write>, b: seq<Write>)
    requires SameWrites(a, b) && DistinctStamps(a) && !Contested(target, a)
    ensures ApplyWrites(target, a) == ApplyWrites(target, b)
  {
    var x, y := ApplyWrites(target, a), ApplyWrites(target, b);
    forall key ensures At(x, key) == At(y, key) {
      KeyAgrees(target, a, b, key);
    }
    assert forall key :: key in x <==> At(x, key).Some?;
    assert forall key :: key in y <==> At(y, key).Some?;
  }

  ghost predicate Reorders(a: seq<Write>, b: seq<Write>) {
    multiset(a) == multiset(b)
  }

  lemma ReordersSame(a: seq<Write>, b: seq<Write>)
    requires Reorders(a, b)
    ensures SameWrites(a, b)
  {
    forall w ensures w in a <==> w in b {
      assert w in a <==> w in multiset(a);
      assert w in b <==> w in multiset(b);
    }
  }

  /** The writes with one occurrence of two of them moved to the end. */
  lemma MovedLast(ws: seq<Write>, u: Write, r: Write) returns (others: seq<Write>)
    requires u in ws && r in ws && u != r
    ensures Reorders(ws, others + [u, r]) && Reorders(ws, others + [r, u])
  {
    var rest := Without(ws, u);
    assert r in multiset(rest) by {
      assert r in multiset(ws);
    }
    others := Without(rest, r);
    assert multiset(others + [u, r]) == multiset(others) + multiset{u} + multiset{r};
    assert multiset(others + [r, u]) == multiset(others) + multiset{u} + multiset{r};
  }

  lemma Without(ws: seq<Write>, w: Write) returns (rest: seq<Write>)
    requires w in ws
    ensures multiset(rest) + multiset{w} == multiset(ws)
  {
    var i :| 0 <= i < |ws| && ws[i] == w;
    rest := ws[..i] + ws[i + 1..];
    assert ws == ws[..i] + [w] + ws[i + 1..];
  }

  lemma AppliedNext(target: Target, ws: seq<Write>, w: Write)
    ensures ApplyWrites(target, ws + [w]) == ApplyOne(ApplyWrites(target, ws), w)
  {
    assert (ws + [w])[..|ws|] == ws;
  }

  lemma AppliedLast(target: Target, others: seq<Write>, a: Write, b: Write)
    ensures ApplyWrites(target, others + [a, b]) == ApplyOne(ApplyOne(ApplyWrites(target, others), a), b)
  {
    AppliedNext(target, others, a);
    AppliedNext(target, others + [a], b);
    assert (others + [a]) + [b] == others + [a, b];
  }

  /** A contested key ends up present in one order of arrival and absent in another. */
  lemma ContestedOrders(target: Target, ws: seq<Write>, u: Write, r: Write) returns (others: seq<Write>)
    requires DistinctStamps(ws) && ContestedBy(target, ws, u, r)
    ensures Reorders(ws, others + [u, r]) && Reorders(ws, others + [r, u])
    ensures u.change.key !in ApplyWrites(target, others + [u, r])
    ensures u.change.key in ApplyWrites(target, others + [r, u])
  {
    var key := u.change.key;
    others := MovedLast(ws, u, r);
    ReordersSame(ws, others + [u, r]);
    PresentIff(target, others, key);
    AppliedLast(target, others, u, r);
    AppliedLast(target, others, r, u);
    assert u.ts < r.ts;
    forall w | w in others && w.change.key == key ensures w.ts <= r.ts && (w.ts == r.ts ==> w == r) {
      assert w in others + [u, r];
    }
    if key in ApplyWrites(target, others) {
      OlderThan(target, others, key, r, ApplyWrites(target, others)[key]);
    }
  }

  /** Whatever row is there, the newest write, being a removal, is newer. */
  lemma OlderThan(target: Target, others: seq<Write>, key: TableKey, r: Write, row: TargetRow)
    requires CameFrom(target, others, key, row) && r.change == Remove(key) && Admits(target, key, r.ts)
    requires forall w | w in others && w.change.key == key :: w.ts <= r.ts && (w.ts == r.ts ==> w == r)
    ensures row.stamp.None? || row.stamp.value < r.ts
  {
    if j: nat :| Stands(others, key, j) && row == RowOf(others[j]) {
      assert others[j] in others;
    }
  }

  /** The order of arrival matters if and only if some key is contested. */
  lemma OrderMattersIff(target: Target, ws: seq<Write>)
    requires DistinctStamps(ws)
    ensures (exists b :: Reorders(ws, b) && ApplyWrites(target, b) != ApplyWrites(target, ws))
            <==> Contested(target, ws)
  {
    if u, r :| ContestedBy(target, ws, u, r) {
      var others := ContestedOrders(target, ws, u, r);
      assert ApplyWrites(target, others + [u, r]) != ApplyWrites(target, others + [r, u]);
    } else {
      forall b | Reorders(ws, b) ensures ApplyWrites(target, b) == ApplyWrites(target, ws) {
        ReordersSame(ws, b);
        ArrivalOrderIrrelevant(target, ws, b);
      }
    }
  }

  lemma TwoWrites(target: Target, v: Write, w: Write)
    ensures ApplyWrites(target, [v, w]) == ApplyOne(ApplyOne(target, v), w)
  {
    assert [] + [v, w] == [v, w] && ApplyWrites(target, []) == target;
    AppliedLast(target, [], v, w);
  }

  /** Replaying a write that has just been accepted as an upsert is stale. */
  lemma ReplayIsStale(target: Target, w: Write)
    requires w.change.Upsert?
    ensures ApplyWrites(target, [w, w]) == ApplyWrites(target, [w])
    ensures !Admits(ApplyWrites(target, [w]), w.change.key, w.ts)
  {
    TwoWrites(target, w, w);
    assert [w][..0] == [];
  }

  /** Removals leave no trace: an upsert and a removal of one key commute exactly
      when the removal is no newer than the upsert or than the row already there. */
  lemma RemovalCommutesIff(target: Target, key: TableKey, row: Row, upsertTs: nat, removeTs: nat)
    ensures var u, d := Write(Upsert(key, row), upsertTs), Write(Remove(key), removeTs);
            ApplyWrites(target, [u, d]) == ApplyWrites(target, [d, u]) <==>
            removeTs <= upsertTs || (key in target && AtLeast(target[key], removeTs))
  {
    var u, d := Write(Upsert(key, row), upsertTs), Write(Remove(key), removeTs);
    TwoWrites(target, u, d);
    TwoWrites(target, d, u);
    assert key in ApplyWrites(target, [d, u]);
    if removeTs <= upsertTs {
      assert (target - {key})[key := RowOf(u)] == target[key := RowOf(u)];
    }
  }

  // ----- One pass over the due changes -----

  datatype Pass = Pass(target: Target, applied: nat, stale: nat, failed: nat)

  /** Every change of a pass carries the same timestamp. `outages` are the
      positions at which the service call fails for another reason. */
  function ApplyPass(target: Target, due: seq<Change>, ts: nat, outages: set<nat>): Pass {
    if due == [] then Pass(target, 0, 0, 0)
    else
      var n := |due| - 1;
      var before := ApplyPass(target, due[..n], ts, outages);
      if n in outages then before.(failed := before.failed + 1)
      else if !Admits(before.target, due[n].key, ts) then before.(stale := before.stale + 1)
      else before.(target := ApplyOne(before.target, Write(due[n], ts)), applied := before.applied + 1)
  }

  /** One more change of the pass. */
  lemma PassNext(target: Target, due: seq<Change>, ts: nat, outages: set<nat>, i: nat)
    requires i < |due|
    ensures var before := ApplyPass(target, due[..i], ts, outages);
            ApplyPass(target, due[..i + 1], ts, outages) ==
            if i in outages then before.(failed := before.failed + 1)
            else if !Admits(before.target, due[i].key, ts) then before.(stale := before.stale + 1)
            else before.(target := ApplyOne(before.target, Write(due[i], ts)), applied := before.applied + 1)
  {
    assert due[..i + 1][..i] == due[..i];
  }

  /** The service answers call `i` of the pass, and its condition holds. */
  predicate Accepted(target: Target, due: seq<Change>, ts: nat, outages: set<nat>, i: nat) {
    i < |due| && i !in outages && Admits(ApplyPass(target, due[..i], ts, outages).target, due[i].key, ts)
  }

  predicate Refused(target: Target, due: seq<Change>, ts: nat, outages: set<nat>, i: nat) {
    i < |due| && i !in outages && !Admits(ApplyPass(target, due[..i], ts, outages).target, due[i].key, ts)
  }

  function AcceptedIn(target: Target, due: seq<Change>, ts: nat, outages: set<nat>): set<nat> {
    set i | 0 <= i < |due| && Accepted(target, due, ts, outages, i)
  }

  function RefusedIn(target: Target, due: seq<Change>, ts: nat, outages: set<nat>): set<nat> {
    set i | 0 <= i < |due| && Refused(target, due, ts, outages, i)
  }

  function FailedIn(due: seq<Change>, outages: set<nat>): set<nat> {
    set i | 0 <= i < |due| && i in outages
  }

  lemma PassSetsAppend(target: Target, due: seq<Change>, ts: nat, outages: set<nat>)
    requires due != []
    ensures var n := |due| - 1;
            && AcceptedIn(target, due, ts, outages) ==
               AcceptedIn(target, due[..n], ts, outages) + (if Accepted(target, due, ts, outages, n) then {n} else {})
            && RefusedIn(target, due, ts, outages) ==
               RefusedIn(target, due[..n], ts, outages) + (if Refused(target, due, ts, outages, n) then {n} else {})
            && FailedIn(due, outages) == FailedIn(due[..n], outages) + (if n in outages then {n} else {})
  {
    var n := |due| - 1;
    forall i | 0 <= i < n ensures due[..n][..i] == due[..i] {
    }
  }

  /** Each counter is the number of changes with that outcome: applied the ones
      whose condition held when their call was answered, stale the ones whose
      condition did not, failed the calls that were not answered; and every due
      change has one of the three. */
  lemma {:induction false} PassCounts(target: Target, due: seq<Change>, ts: nat, outages: set<nat>)
    ensures var p := ApplyPass(target, due, ts, outages);
            && p.applied == |AcceptedIn(target, due, ts, outages)|
            && p.stale == |RefusedIn(target, due, ts, outages)|
            && p.failed == |FailedIn(due, outages)|
            && p.applied + p.stale + p.failed == |due|
  {
    if due != [] {
      PassCounts(target, due[..|due| - 1], ts, outages);
      PassSetsAppend(target, due, ts, outages);
    }
  }

  /** Sharing a timestamp makes the first reachable upsert of a key shut out
      every later change of it in the same pass, newer content and removals
      alike. */
  lemma {:induction false} FirstOfAPassWins(target: Target, due: seq<Change>, ts: nat, outages: set<nat>, first: nat)
    requires first < |due| && first !in outages && due[first].Upsert?
    requires Admits(target, due[first].key, ts)
    requires forall i | 0 <= i < first :: due[i].key != due[first].key || i in outages
    ensures var key, end := due[first].key, ApplyPass(target, due, ts, outages).target;
            key in end && end[key] == TargetRow(due[first].row, Some(ts))
  {
    var n := |due| - 1;
    if first < n {
      FirstOfAPassWins(target, due[..n], ts, outages, first);
    } else {
      KeyUntouched(target, due[..n], ts, outages, due[first].key);
    }
  }

  lemma {:induction false} KeyUntouched(target: Target, due: seq<Change>, ts: nat, outages: set<nat>, key: TableKey)
    requires forall i | 0 <= i < |due| :: due[i].key != key || i in outages
    ensures var end := ApplyPass(target, due, ts, outages).target;
            (key in end <==> key in target) && (key in end ==> end[key] == target[key])
  {
    if due != [] {
      KeyUntouched(target, due[..|due| - 1], ts, outages, key);
    }
  }
}
