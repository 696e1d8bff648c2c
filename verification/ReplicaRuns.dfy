/** A source table replicated round by round: each round scans it and then applies
    what is due, with no lag and no failing call. */
module ReplicaRuns {
  import opened Base
  import opened DynamoCodec
  import opened DynamoService
  import opened Fingerprint
  import opened LastWriterWins
  import opened DdbReplicator
  import Lag = LagScheduler

  /** The poller's scheduler with its history, and the target table. */
  datatype Replica = Replica(trace: Lag.Trace<DedupKey, Change>, target: Target)

  datatype Round = Round(scan: Scan, applyAt: int)

  const EMPTY := Replica(Lag.Start(Lag.Fixed(0)), map[])

  function Observe(r: Replica, scan: Scan): Replica {
    r.(trace := Lag.Run(r.trace, FoundSteps(FoundBy(scan))))
  }

  function Apply(r: Replica, now: int): Replica {
    var due := Lag.Drain(r.trace.s, now).1;
    Replica(Lag.Next(r.trace, Lag.DrainAt(now)), ApplyPass(r.target, Events(due), Millis(now), {}).target)
  }

  function Cycle(r: Replica, round: Round): Replica {
    Apply(Observe(r, round.scan), round.applyAt)
  }

  function Cycles(r: Replica, rounds: seq<Round>): Replica
    decreases |rounds|
  {
    if rounds == [] then r else Cycles(Cycle(r, rounds[0]), rounds[1..])
  }

  // ----- One more scan -----

  function LastRows(scans: seq<Scan>): seq<Scanned> {
    if scans == [] then [] else scans[|scans| - 1].rows
  }

  /** A table has one row for each key. */
  ghost predicate KeyedOnce(rows: seq<Scanned>) {
    forall x, y | x in rows && y in rows && ExtractKey(x.row).Some? && ExtractKey(x.row) == ExtractKey(y.row) :: x == y
  }

  ghost predicate ValidScan(known: set<TableKey>, scan: Scan) {
    && (forall x | x in scan.rows :: RowPrints(x.row, x.text))
    && KeyedOnce(scan.rows)
    && forall k :: k in scan.gone <==> k in known - LiveKeys(scan.rows)
  }

  lemma {:induction false} ScansAppend(known: set<TableKey>, scans: seq<Scan>, scan: Scan)
    requires Scans(known, scans)
    requires ValidScan(if scans == [] then known else LiveKeys(LastRows(scans)), scan)
    ensures Scans(known, scans + [scan])
    ensures FoundByAll(scans + [scan]) == FoundByAll(scans) + FoundBy(scan)
    decreases |scans|
  {
    var all := scans + [scan];
    if scans == [] {
      assert all[1..] == [] && all[0] == scan;
      assert FoundByAll(all) == FoundBy(scan) + FoundByAll(all[1..]);
      assert FoundBy(scan) + [] == FoundBy(scan) && [] + FoundBy(scan) == FoundBy(scan);
    } else {
      assert all[1..] == scans[1..] + [scan] && all[0] == scans[0];
      ScansAppend(LiveKeys(scans[0].rows), scans[1..], scan);
      assert FoundByAll(all) == FoundBy(scans[0]) + FoundByAll(all[1..]);
    }
  }

  /** What has been visible after one more scan. */
  lemma VisibleAppend(scans: seq<Scan>, scan: Scan, key: DedupKey)
    requires Scans({}, scans) && ValidScan(LiveKeys(LastRows(scans)), scan)
    ensures Scans({}, scans + [scan])
    ensures Visible({}, scans + [scan], key) <==> Visible({}, scans, key) || Lag.HasKey(FoundBy(scan), key)
  {
    ScansAppend({}, scans, scan);
    FoundIffVisible({}, scans, key);
    FoundIffVisible({}, scans + [scan], key);
    HasKeyConcat(FoundByAll(scans), FoundBy(scan), key);
  }

  /** What one scan offers. */
  lemma FoundByKeys(scan: Scan, key: DedupKey)
    ensures Lag.HasKey(FoundBy(scan), key) <==>
            match key.version
            case Content(text) => ShowsText(scan.rows, key.key, text)
            case Vanished => key.key in scan.gone
  {
    FoundRowsKeys(scan.rows, scan.now, key);
    FoundGoneKeys(scan.gone, scan.now, key);
    HasKeyConcat(FoundRows(scan.rows, scan.now), FoundGone(scan.gone, scan.now), key);
  }

  // ----- The state between rounds -----

  /** Nothing is pending, what was accepted is what was visible, and every stored
      timestamp is below `ts`. */
  ghost predicate Ready(r: Replica, scans: seq<Scan>, ts: nat) {
    && Lag.Inv(r.trace) && r.trace.s.pending == [] && r.trace.s.policy == Lag.Fixed(0)
    && Scans({}, scans) && KeyedOnce(LastRows(scans))
    && (forall key :: Lag.HasKey(r.trace.accepted, key) <==> Visible({}, scans, key))
    && Older(r.target, ts)
  }

  ghost predicate Older(target: Target, ts: nat) {
    forall k | k in target :: target[k].stamp.Some? && target[k].stamp.value < ts
  }

  /** A change offered for the first time. */
  ghost predicate Fresh(scans: seq<Scan>, scan: Scan, key: DedupKey) {
    Lag.HasKey(FoundBy(scan), key) && !Visible({}, scans, key)
  }

  /** A change that the next scan offers is queued exactly when no earlier scan
      showed that fingerprint at the key; for a removal, exactly when the key had
      never disappeared. It holds whatever drains and lag changes came before. */
  lemma NextScanQueuesIff(policy: Lag.LagPolicy, scans: seq<Scan>, steps: seq<Lag.Step<DedupKey, Change>>,
                          scan: Scan, key: DedupKey)
    requires Scans({}, scans) && Lag.FoundIn(steps) == FoundByAll(scans)
    ensures var before := Lag.Run(Lag.Start(policy), steps);
            var after := Lag.Run(before, FoundSteps(FoundBy(scan)));
            && (Lag.HasKey(after.s.pending, key) && !Lag.HasKey(before.s.pending, key) <==> Fresh(scans, scan, key))
            && after.drained == before.drained
  {
    var before := Lag.Run(Lag.Start(policy), steps);
    QueuesFirstTimeOnly(policy, scans, steps, key);
    Lag.AcceptsFirstOfEachKey(policy, steps);
    ObserveAdds(before, FoundBy(scan));
    PendingIsNew(before, key);
    PendingIsNew(Lag.Run(before, FoundSteps(FoundBy(scan))), key);
  }

  /** Offering changes adds the new ones to the queue and drains nothing. */
  lemma {:induction false} ObserveAdds(t: Lag.Trace<DedupKey, Change>, found: seq<Found>)
    requires Lag.Inv(t)
    ensures var after := Lag.Run(t, FoundSteps(found));
            && Lag.Inv(after) && after.drained == t.drained && after.s.policy == t.s.policy
            && (forall d | d in after.s.pending :: d in t.s.pending || d in found)
            && (forall key ::
                  Lag.HasKey(after.accepted, key) <==> Lag.HasKey(t.accepted, key) || Lag.HasKey(found, key))
  {
    if found != [] {
      var front, last := found[..|found| - 1], found[|found| - 1];
      assert found == front + [last];
      ObserveAdds(t, front);
      FoundStepsAppend(front, last);
      var before := Lag.Run(t, FoundSteps(front));
      Lag.RunAppend(t, FoundSteps(front), Lag.Step<DedupKey, Change>.Found(last));
      OfferAdds(before, last);
      assert forall d :: d in found <==> d in front || d == last;
      forall key ensures Lag.HasKey(found, key) <==> Lag.HasKey(front, key) || last.key == key {
        HasKeyConcat(front, [last], key);
        assert last in [last];
      }
    }
  }

  lemma OfferAdds(t: Lag.Trace<DedupKey, Change>, d: Found)
    requires Lag.Inv(t)
    ensures var after := Lag.Next(t, Lag.Step<DedupKey, Change>.Found(d));
            && Lag.Inv(after) && after.drained == t.drained && after.s.policy == t.s.policy
            && (forall e | e in after.s.pending :: e in t.s.pending || e == d)
            && (forall key :: Lag.HasKey(after.accepted, key) <==> Lag.HasKey(t.accepted, key) || d.key == key)
  {
    Lag.NextKeepsInv(t, Lag.Step<DedupKey, Change>.Found(d));
    Lag.AcceptsNewKeys(t, d.key);
    forall key ensures Lag.HasKey(t.accepted + [d], key) <==> Lag.HasKey(t.accepted, key) || d.key == key {
      HasKeyConcat(t.accepted, [d], key);
      assert d in [d];
    }
  }

  /** What a round applies: the fresh changes of its scan, and only those. */
  ghost predicate Applies(scans: seq<Scan>, scan: Scan, due: seq<Found>) {
    && (forall d | d in due :: d in FoundBy(scan))
    && (forall key :: Lag.HasKey(due, key) <==> Fresh(scans, scan, key))
    && Lag.DistinctKeys(due)
  }

  lemma RoundApplies(r: Replica, scans: seq<Scan>, ts: nat, round: Round)
    requires Ready(r, scans, ts) && ValidScan(LiveKeys(LastRows(scans)), round.scan)
    ensures var t := Observe(r, round.scan).trace;
            var due := Lag.Drain(t.s, round.applyAt).1;
            && Lag.Inv(t) && t.s.policy == Lag.Fixed(0)
            && due == t.s.pending && Applies(scans, round.scan, due)
            && (forall key :: Lag.HasKey(t.accepted, key) <==> Visible({}, scans + [round.scan], key))
  {
    var found := FoundBy(round.scan);
    var t := Observe(r, round.scan).trace;
    ObserveAdds(r.trace, found);
    Lag.PendingDisjointFromApplied(t);
    Lag.DrainsAllIff(t.s.pending, 0, round.applyAt);
    assert t.s.pending[..|t.s.pending|] == t.s.pending;
    assert r.trace.accepted == r.trace.drained;
    forall key ensures Lag.HasKey(t.accepted, key) <==> Visible({}, scans + [round.scan], key) {
      VisibleAppend(scans, round.scan, key);
    }
    forall key ensures Lag.HasKey(t.s.pending, key) <==> Fresh(scans, round.scan, key) {
      PendingIsNew(t, key);
    }
  }

  /** A key is pending exactly when it was accepted and has not been drained. */
  lemma PendingIsNew(t: Lag.Trace<DedupKey, Change>, key: DedupKey)
    requires Lag.Inv(t)
    ensures Lag.HasKey(t.s.pending, key) <==> Lag.HasKey(t.accepted, key) && !Lag.HasKey(t.drained, key)
  {
    HasKeyConcat(t.drained, t.s.pending, key);
    Lag.PendingDisjointFromApplied(t);
    assert Lag.HasKey(t.s.pending, key) <==> key in Lag.Keys(t.s.pending);
    assert Lag.HasKey(t.drained, key) <==> key in Lag.Keys(t.drained);
  }

  // ----- One round on the target -----

  ghost predicate DistinctTargets(changes: seq<Change>) {
    forall i, j | 0 <= i < j < |changes| :: changes[i].key != changes[j].key
  }

  function Outcome(c: Change, ts: nat): Option<TargetRow> {
    match c
    case Upsert(_, row) => Some(TargetRow(row, Some(ts)))
    case Remove(_) => None
  }

  /** Every change has landed, and nothing else has moved. */
  ghost predicate AllLanded(target: Target, end: Target, changes: seq<Change>, ts: nat) {
    && (forall c | c in changes :: At(end, c.key) == Outcome(c, ts))
    && (forall k | (forall c | c in changes :: c.key != k) :: At(end, k) == At(target, k))
    && Older(end, ts + 1)
  }

  /** With newer timestamps and one change for each key, every change lands. */
  lemma {:induction false} EveryChangeLands(target: Target, changes: seq<Change>, ts: nat)
    requires Older(target, ts) && DistinctTargets(changes)
    ensures AllLanded(target, ApplyPass(target, changes, ts, {}).target, changes, ts)
  {
    if changes != [] {
      var front, last := changes[..|changes| - 1], changes[|changes| - 1];
      assert changes == front + [last];
      EveryChangeLands(target, front, ts);
      LastChangeLands(target, ApplyPass(target, front, ts, {}).target, front, last, ts);
    }
  }

  lemma LastChangeLands(target: Target, before: Target, front: seq<Change>, last: Change, ts: nat)
    requires Older(target, ts) && AllLanded(target, before, front, ts) && DistinctTargets(front + [last])
    ensures Admits(before, last.key, ts)
    ensures AllLanded(target, ApplyOne(before, Write(last, ts)), front + [last], ts)
  {
    var all := front + [last];
    forall c | c in front ensures c.key != last.key {
      var i :| 0 <= i < |front| && front[i] == c;
      assert all[i] == c && all[|front|] == last;
    }
    assert At(before, last.key) == At(target, last.key);
    assert forall c :: c in all <==> c in front || c == last;
  }

  /** At most one change of a scan for each key. */
  lemma OneChangeEach(scans: seq<Scan>, scan: Scan, due: seq<Found>, i: nat, j: nat)
    requires ValidScan(LiveKeys(LastRows(scans)), scan) && Applies(scans, scan, due)
    requires i < |due| && j < |due| && due[i].key.key == due[j].key.key
    ensures i == j
  {
    var a, b := due[i].key, due[j].key;
    assert due[i] in due && due[j] in due;
    assert Lag.HasKey(due, a) && Lag.HasKey(due, b);
    FoundByKeys(scan, a);
    FoundByKeys(scan, b);
    if a.version.Content? && b.version.Content? {
      assert a.version.text == b.version.text;
    } else if a.version.Content? {
      LiveNotGone(scan, a.key, a.version.text);
    } else if b.version.Content? {
      LiveNotGone(scan, b.key, b.version.text);
    }
    assert a == b;
  }

  lemma LiveNotGone(scan: Scan, key: TableKey, text: RowPrint)
    requires ShowsText(scan.rows, key, text)
    ensures key in LiveKeys(scan.rows)
  {
  }

  /** What a round leaves, key by key: each fresh change lands, and a key without
      one keeps what it had. */
  ghost predicate Landed(before: Target, after: Target, scans: seq<Scan>, scan: Scan, ts: nat) {
    && (forall key | Fresh(scans, scan, key) && key.version.Vanished? :: At(after, key.key) == None)
    && (forall key, x | Fresh(scans, scan, key) && key.version.Content? &&
                        x in scan.rows && ExtractKey(x.row) == Some(key.key) ::
          At(after, key.key) == Some(TargetRow(x.row, Some(ts))))
    && (forall k | (forall key: DedupKey | key.key == k :: !Fresh(scans, scan, key)) :: At(after, k) == At(before, k))
  }

  lemma RoundPointwise(r: Replica, scans: seq<Scan>, ts: nat, round: Round)
    requires Ready(r, scans, ts) && ValidScan(LiveKeys(LastRows(scans)), round.scan) && ts <= Millis(round.applyAt)
    ensures Ready(Cycle(r, round), scans + [round.scan], Millis(round.applyAt) + 1)
    ensures Landed(r.target, Cycle(r, round).target, scans, round.scan, Millis(round.applyAt))
  {
    var t := Observe(r, round.scan).trace;
    var due := t.s.pending;
    var ts' := Millis(round.applyAt);
    RoundApplies(r, scans, ts, round);
    DueHonest(scans, round.scan, due);
    forall i, j | 0 <= i < j < |due| ensures Events(due)[i].key != Events(due)[j].key {
      assert due[i] in due && due[j] in due;
      if due[i].key.key == due[j].key.key { OneChangeEach(scans, round.scan, due, i, j); }
    }
    EveryChangeLands(r.target, Events(due), ts');
    RoundReady(r, scans, ts, round);
    DueLands(r.target, Cycle(r, round).target, scans, round.scan, due, ts');
  }

  lemma DueLands(before: Target, after: Target, scans: seq<Scan>, scan: Scan, due: seq<Found>, ts: nat)
    requires ValidScan(LiveKeys(LastRows(scans)), scan) && Applies(scans, scan, due)
    requires AllLanded(before, after, Events(due), ts)
    ensures Landed(before, after, scans, scan, ts)
  {
    DueHonest(scans, scan, due);
    forall key | Fresh(scans, scan, key)
      ensures key.version.Vanished? ==> At(after, key.key) == None
      ensures key.version.Content? ==> forall x | x in scan.rows && ExtractKey(x.row) == Some(key.key) ::
                At(after, key.key) == Some(TargetRow(x.row, Some(ts))) {
      var d := DueFor(due, key);
      assert d.event in Events(due);
      if key.version.Content? {
        TextOfRow(scan, d, key);
      }
    }
    forall k | (forall key: DedupKey | key.key == k :: !Fresh(scans, scan, key)) ensures At(after, k) == At(before, k) {
      forall c | c in Events(due) ensures c.key != k {
        var i :| 0 <= i < |due| && Events(due)[i] == c;
        assert due[i] in due && Lag.HasKey(due, due[i].key);
      }
    }
  }

  lemma DueFor(due: seq<Found>, key: DedupKey) returns (d: Found)
    requires Lag.HasKey(due, key)
    ensures d in due && d.key == key && d.event in Events(due)
  {
    d :| d in due && d.key == key;
    var i :| 0 <= i < |due| && due[i] == d;
    assert Events(due)[i] == d.event;
  }

  lemma DueHonest(scans: seq<Scan>, scan: Scan, due: seq<Found>)
    requires ValidScan(LiveKeys(LastRows(scans)), scan) && Applies(scans, scan, due)
    ensures forall d | d in due :: Honest(d) && d.event.key == d.key.key
  {
    FoundRowsHonest(scan.rows, scan.now);
    FoundGoneHonest(scan.gone, scan.now);
  }

  /** The change carries the row that the scan shows at its key. */
  lemma TextOfRow(scan: Scan, d: Found, key: DedupKey)
    requires d.key == key && key.version.Content? && Honest(d) && d in FoundBy(scan) && KeyedOnce(scan.rows)
    requires forall x | x in scan.rows :: RowPrints(x.row, x.text)
    ensures d.event.Upsert?
    ensures forall x | x in scan.rows && ExtractKey(x.row) == Some(key.key) :: x.row == d.event.row
  {
    assert Lag.HasKey(FoundBy(scan), key);
    FoundByKeys(scan, key);
    var y :| y in scan.rows && y.text == key.version.text && ExtractKey(y.row) == Some(key.key);
    RowPrintDetermines(y.row, d.event.row, y.text);
  }

  lemma RoundReady(r: Replica, scans: seq<Scan>, ts: nat, round: Round)
    requires Ready(r, scans, ts) && ValidScan(LiveKeys(LastRows(scans)), round.scan)
    requires Older(Cycle(r, round).target, Millis(round.applyAt) + 1)
    ensures Ready(Cycle(r, round), scans + [round.scan], Millis(round.applyAt) + 1)
  {
    var t := Observe(r, round.scan).trace;
    RoundApplies(r, scans, ts, round);
    Lag.NextKeepsInv(t, Lag.DrainAt(round.applyAt));
    assert t.s.pending[|t.s.pending|..] == [];
    ScansAppend({}, scans, round.scan);
  }

  // ----- When the target follows the source -----

  /** The target holds exactly the rows shown. */
  ghost predicate Mirrors(target: Target, rows: seq<Scanned>) {
    && (forall k :: k in target <==> k in LiveKeys(rows))
    && (forall x | x in rows && ExtractKey(x.row).Some? :: target[ExtractKey(x.row).value].row == x.row)
  }

  predicate ShowsRow(rows: seq<Scanned>, key: TableKey, row: Row) {
    exists x :: x in rows && x.row == row && ExtractKey(x.row) == Some(key)
  }

  /** A change of the source between two scans: a key that is gone, or a row that
      was not there like this before. */
  ghost predicate Changed(before: seq<Scanned>, scan: Scan, key: DedupKey) {
    && Lag.HasKey(FoundBy(scan), key)
    && (key.version.Content? ==> exists row :: ShowsRow(scan.rows, key.key, row) && !ShowsRow(before, key.key, row))
  }

  /** A change that looks like one seen before. */
  ghost predicate Repeats(scans: seq<Scan>, scan: Scan) {
    exists key :: Changed(LastRows(scans), scan, key) && Visible({}, scans, key)
  }

  lemma LiveShowsRow(rows: seq<Scanned>, k: TableKey) returns (x: Scanned)
    requires k in LiveKeys(rows)
    ensures x in rows && ExtractKey(x.row) == Some(k) && ShowsRow(rows, k, x.row)
    ensures ShowsText(rows, k, x.text)
  {
    x :| x in rows && ExtractKey(x.row) == Some(k);
  }

  /** At one key: the target follows the scan unless its change is a repetition. */
  lemma KeyFollows(before: Target, after: Target, scans: seq<Scan>, scan: Scan, ts: nat, k: TableKey)
    requires ValidScan(LiveKeys(LastRows(scans)), scan) && Landed(before, after, scans, scan, ts)
    requires Mirrors(before, LastRows(scans)) && !Repeats(scans, scan)
    ensures k in after <==> k in LiveKeys(scan.rows)
    ensures forall x | x in scan.rows && ExtractKey(x.row) == Some(k) :: k in after && after[k].row == x.row
  {
    if k in LiveKeys(scan.rows) {
      var x := LiveShowsRow(scan.rows, k);
      LiveKeyFollows(before, after, scans, scan, ts, k, x);
    } else if k in scan.gone {
      var key := DedupKey(k, Vanished);
      FoundByKeys(scan, key);
      assert Changed(LastRows(scans), scan, key);
      assert Fresh(scans, scan, key);
      assert At(after, key.key) == None;
    } else {
      NotOffered(scans, scan, k);
      assert At(after, k) == At(before, k);
    }
  }

  lemma NotOffered(scans: seq<Scan>, scan: Scan, k: TableKey)
    requires k !in LiveKeys(scan.rows) && k !in scan.gone
    ensures forall key: DedupKey | key.key == k :: !Fresh(scans, scan, key)
  {
    forall key: DedupKey | key.key == k ensures !Lag.HasKey(FoundBy(scan), key) {
      FoundByKeys(scan, key);
      if key.version.Content? && ShowsText(scan.rows, k, key.version.text) {
        LiveNotGone(scan, k, key.version.text);
      }
    }
  }

  lemma LiveKeyFollows(before: Target, after: Target, scans: seq<Scan>, scan: Scan, ts: nat, k: TableKey, x: Scanned)
    requires ValidScan(LiveKeys(LastRows(scans)), scan) && Landed(before, after, scans, scan, ts)
    requires Mirrors(before, LastRows(scans)) && !Repeats(scans, scan)
    requires x in scan.rows && ExtractKey(x.row) == Some(k)
    ensures k in after && after[k].row == x.row
  {
    var key := DedupKey(k, Content(x.text));
    FoundByKeys(scan, key);
    assert ShowsText(scan.rows, k, x.text) && ShowsRow(scan.rows, k, x.row);
    if Fresh(scans, scan, key) {
      assert At(after, key.key) == Some(TargetRow(x.row, Some(ts)));
    } else {
      assert !Changed(LastRows(scans), scan, key);
      assert ShowsRow(LastRows(scans), k, x.row);
      OnlyOneOffered(scans, scan, k, x);
      assert At(after, k) == At(before, k);
      var y :| y in LastRows(scans) && y.row == x.row && ExtractKey(y.row) == Some(k);
      assert k in before && before[k].row == y.row;
    }
  }

  /** A live key is offered with the text it shows and in no other way. */
  lemma OnlyOneOffered(scans: seq<Scan>, scan: Scan, k: TableKey, x: Scanned)
    requires ValidScan(LiveKeys(LastRows(scans)), scan) && x in scan.rows && ExtractKey(x.row) == Some(k)
    requires !Fresh(scans, scan, DedupKey(k, Content(x.text)))
    ensures forall key: DedupKey | key.key == k :: !Fresh(scans, scan, key)
  {
    forall key: DedupKey | key.key == k ensures !Fresh(scans, scan, key) {
      FoundByKeys(scan, key);
    }
  }

  /** A repeated change leaves its key as it was. */
  lemma RepetitionIsLost(before: Target, after: Target, scans: seq<Scan>, scan: Scan, ts: nat, key: DedupKey)
    requires ValidScan(LiveKeys(LastRows(scans)), scan) && Landed(before, after, scans, scan, ts)
    requires Lag.HasKey(FoundBy(scan), key) && Visible({}, scans, key)
    ensures At(after, key.key) == At(before, key.key)
  {
    var k := key.key;
    FoundByKeys(scan, key);
    if key.version.Content? {
      var x :| x in scan.rows && x.text == key.version.text && ExtractKey(x.row) == Some(k);
      OnlyOneOffered(scans, scan, k, x);
    } else {
      forall other: DedupKey | other.key == k ensures !Fresh(scans, scan, other) {
        FoundByKeys(scan, other);
        assert other.version.Content? ==> !ShowsText(scan.rows, k, other.version.text);
      }
    }
  }

  lemma NotMirrored(before: Target, after: Target, scans: seq<Scan>, scan: Scan, key: DedupKey)
    requires Mirrors(before, LastRows(scans)) && At(after, key.key) == At(before, key.key)
    requires ValidScan(LiveKeys(LastRows(scans)), scan) && Changed(LastRows(scans), scan, key)
    ensures !Mirrors(after, scan.rows)
  {
    FoundByKeys(scan, key);
    if key.version.Content? {
      var row :| ShowsRow(scan.rows, key.key, row) && !ShowsRow(LastRows(scans), key.key, row);
      var x :| x in scan.rows && x.row == row && ExtractKey(x.row) == Some(key.key);
      HeldBefore(before, LastRows(scans), key.key, row);
    }
  }

  lemma HeldBefore(target: Target, rows: seq<Scanned>, k: TableKey, row: Row)
    requires Mirrors(target, rows) && !ShowsRow(rows, k, row)
    ensures !(k in target && target[k].row == row)
  {
    if k in target {
      var y := LiveShowsRow(rows, k);
      assert target[k].row == y.row;
    }
  }

  lemma MirrorsIff(before: Target, after: Target, scans: seq<Scan>, scan: Scan, ts: nat)
    requires ValidScan(LiveKeys(LastRows(scans)), scan) && Landed(before, after, scans, scan, ts)
    requires Mirrors(before, LastRows(scans))
    ensures Mirrors(after, scan.rows) <==> !Repeats(scans, scan)
  {
    if key :| Changed(LastRows(scans), scan, key) && Visible({}, scans, key) {
      RepetitionIsLost(before, after, scans, scan, ts, key);
      NotMirrored(before, after, scans, scan, key);
    } else {
      forall k
        ensures k in after <==> k in LiveKeys(scan.rows)
        ensures forall x | x in scan.rows && ExtractKey(x.row) == Some(k) :: k in after && after[k].row == x.row {
        KeyFollows(before, after, scans, scan, ts, k);
      }
    }
  }

  /** One round, exactly: a target that mirrored the source before mirrors it after
      if and only if no change of the source repeats one seen before. */
  lemma RoundMirrorsIff(r: Replica, scans: seq<Scan>, ts: nat, round: Round)
    requires Ready(r, scans, ts) && ValidScan(LiveKeys(LastRows(scans)), round.scan) && ts <= Millis(round.applyAt)
    requires Mirrors(r.target, LastRows(scans))
    ensures Mirrors(Cycle(r, round).target, round.scan.rows) <==> !Repeats(scans, round.scan)
  {
    RoundPointwise(r, scans, ts, round);
    MirrorsIff(r.target, Cycle(r, round).target, scans, round.scan, Millis(round.applyAt));
  }

  // ----- Whole runs -----

  /** Rounds whose scans follow each other and whose passes have ever later
      timestamps. */
  ghost predicate Plays(scans: seq<Scan>, ts: nat, rounds: seq<Round>)
    decreases |rounds|
  {
    rounds != [] ==>
      && ValidScan(LiveKeys(LastRows(scans)), rounds[0].scan)
      && ts <= Millis(rounds[0].applyAt)
      && Plays(scans + [rounds[0].scan], Millis(rounds[0].applyAt) + 1, rounds[1..])
  }

  /** After every round the target holds exactly what the source showed. */
  ghost predicate Replicates(r: Replica, rounds: seq<Round>)
    decreases |rounds|
  {
    rounds != [] ==>
      && Mirrors(Cycle(r, rounds[0]).target, rounds[0].scan.rows)
      && Replicates(Cycle(r, rounds[0]), rounds[1..])
  }

  ghost predicate NothingRepeats(scans: seq<Scan>, rounds: seq<Round>)
    decreases |rounds|
  {
    rounds != [] ==>
      !Repeats(scans, rounds[0].scan) && NothingRepeats(scans + [rounds[0].scan], rounds[1..])
  }

  lemma {:induction false} ReplicatesFrom(r: Replica, scans: seq<Scan>, ts: nat, rounds: seq<Round>)
    requires Ready(r, scans, ts) && Plays(scans, ts, rounds) && Mirrors(r.target, LastRows(scans))
    ensures Replicates(r, rounds) <==> NothingRepeats(scans, rounds)
    decreases |rounds|
  {
    if rounds != [] {
      var round := rounds[0];
      RoundMirrorsIff(r, scans, ts, round);
      RoundPointwise(r, scans, ts, round);
      if !Repeats(scans, round.scan) {
        ReplicatesFrom(Cycle(r, round), scans + [round.scan], Millis(round.applyAt) + 1, rounds[1..]);
      }
    }
  }

  lemma EmptyReady()
    ensures Ready(EMPTY, [], 0) && Mirrors(EMPTY.target, LastRows([]))
  {
    assert forall key: DedupKey :: !Lag.HasKey<DedupKey, Change>([], key);
    assert LiveKeys([]) == {};
  }

  /** Replication, exactly: with no lag, no failing call and ever later passes, the
      target follows the source through every round if and only if no change of the
      source repeats a fingerprint shown at its key, or a disappearance of it, in an
      earlier scan. */
  lemma ReplicatesIff(rounds: seq<Round>)
    requires Plays([], 0, rounds)
    ensures Replicates(EMPTY, rounds) <==> NothingRepeats([], rounds)
  {
    EmptyReady();
    ReplicatesFrom(EMPTY, [], 0, rounds);
  }

  // ----- The history of one row -----

  /** A single row, shown at one round; instants are in nanoseconds. */
  function Showing(x: Scanned, at: int): Round {
    Round(Scan([x], [], at), at)
  }

  /** The key of a single row, gone at one round. */
  function Gone(key: TableKey, at: int): Round {
    Round(Scan([], [key], at), at)
  }

  /** A row at the key, with a fingerprint it can have. */
  ghost predicate RowAtKey(x: Scanned, key: TableKey) {
    RowPrints(x.row, x.text) && ExtractKey(x.row) == Some(key)
  }

  lemma OneRowScans(x: Scanned, key: TableKey)
    requires RowAtKey(x, key)
    ensures LiveKeys([x]) == {key} && LiveKeys([]) == {}
    ensures forall at, known: set<TableKey> | known <= {key} :: ValidScan(known, Showing(x, at).scan)
    ensures forall at :: ValidScan({key}, Gone(key, at).scan)
    ensures forall at, d :: Lag.HasKey(FoundBy(Showing(x, at).scan), d) <==> d == DedupKey(key, Content(x.text))
    ensures forall at, d :: Lag.HasKey(FoundBy(Gone(key, at).scan), d) <==> d == DedupKey(key, Vanished)
  {
    assert x in [x];
    forall at, d
      ensures Lag.HasKey(FoundBy(Showing(x, at).scan), d) <==> d == DedupKey(key, Content(x.text))
      ensures Lag.HasKey(FoundBy(Gone(key, at).scan), d) <==> d == DedupKey(key, Vanished) {
      FoundByKeys(Showing(x, at).scan, d);
      FoundByKeys(Gone(key, at).scan, d);
    }
  }

  /** What is known about one key: the next timestamp, what has been visible, whether
      the source has a row now, and the row the target holds. */
  datatype Facts = Facts(ts: nat, seen: set<DedupKey>, live: bool, row: Option<Row>)

  ghost predicate Single(r: Replica, key: TableKey, scans: seq<Scan>, f: Facts) {
    && Ready(r, scans, f.ts)
    && (forall d :: Visible({}, scans, d) <==> d in f.seen)
    && LiveKeys(LastRows(scans)) == (if f.live then {key} else {})
    && (key in r.target <==> f.row.Some?)
    && (f.row.Some? ==> r.target[key].row == f.row.value)
  }

  /** What a round that offers `d` makes of the facts. */
  function NextFacts(f: Facts, d: DedupKey, at: int, live: bool, row: Option<Row>): Facts {
    Facts(Millis(at) + 1, f.seen + {d}, live, if d in f.seen then f.row else row)
  }

  /** One round that offers one change: it lands if it is new, and is lost if not. */
  lemma OneChange(r: Replica, key: TableKey, scans: seq<Scan>, f: Facts, round: Round, d: DedupKey)
    requires Single(r, key, scans, f) && d.key == key
    requires ValidScan(LiveKeys(LastRows(scans)), round.scan) && f.ts <= Millis(round.applyAt)
    requires forall e :: Lag.HasKey(FoundBy(round.scan), e) <==> e == d
    ensures Ready(Cycle(r, round), scans + [round.scan], Millis(round.applyAt) + 1)
    ensures forall e :: Visible({}, scans + [round.scan], e) <==> e in f.seen + {d}
    ensures d in f.seen ==> At(Cycle(r, round).target, key) == At(r.target, key)
    ensures d !in f.seen && d.version.Vanished? ==> At(Cycle(r, round).target, key) == None
    ensures d !in f.seen && d.version.Content? ==>
              forall x | x in round.scan.rows && ExtractKey(x.row) == Some(key) ::
                At(Cycle(r, round).target, key) == Some(TargetRow(x.row, Some(Millis(round.applyAt))))
  {
    RoundPointwise(r, scans, f.ts, round);
    forall e ensures Visible({}, scans + [round.scan], e) <==> e in f.seen + {d} {
      VisibleAppend(scans, round.scan, e);
    }
    if d in f.seen {
      RepetitionIsLost(r.target, Cycle(r, round).target, scans, round.scan, Millis(round.applyAt), d);
    } else {
      assert Fresh(scans, round.scan, d);
    }
  }

  lemma ShowRound(r: Replica, key: TableKey, scans: seq<Scan>, f: Facts, x: Scanned, at: int, after: Replica, g: Facts)
    requires Single(r, key, scans, f) && RowAtKey(x, key) && f.ts <= Millis(at)
    requires after == Cycle(r, Showing(x, at))
    requires g == NextFacts(f, DedupKey(key, Content(x.text)), at, true, Some(x.row))
    ensures Single(after, key, scans + [Showing(x, at).scan], g)
  {
    OneRowScans(x, key);
    assert x in Showing(x, at).scan.rows;
    OneChange(r, key, scans, f, Showing(x, at), DedupKey(key, Content(x.text)));
    SameAt(r.target, after.target, key);
  }

  lemma GoneRound(r: Replica, key: TableKey, scans: seq<Scan>, f: Facts, x: Scanned, at: int, after: Replica, g: Facts)
    requires Single(r, key, scans, f) && f.live && RowAtKey(x, key) && f.ts <= Millis(at)
    requires after == Cycle(r, Gone(key, at)) && g == NextFacts(f, DedupKey(key, Vanished), at, false, None)
    ensures Single(after, key, scans + [Gone(key, at).scan], g)
  {
    OneRowScans(x, key);
    OneChange(r, key, scans, f, Gone(key, at), DedupKey(key, Vanished));
    SameAt(r.target, after.target, key);
  }

  lemma SameAt(a: Target, b: Target, key: TableKey)
    ensures At(a, key) == At(b, key) <==> (key in a <==> key in b) && (key in a && key in b ==> a[key] == b[key])
  {
  }

  lemma {:induction false} CyclesAppend(r: Replica, rounds: seq<Round>, last: Round)
    ensures Cycles(r, rounds + [last]) == Cycle(Cycles(r, rounds), last)
    decreases |rounds|
  {
    var all := rounds + [last];
    if rounds == [] {
      assert all[0] == last && all[1..] == [];
      assert Cycles(r, all) == Cycles(Cycle(r, last), []);
    } else {
      assert all[0] == rounds[0] && all[1..] == rounds[1..] + [last];
      CyclesAppend(Cycle(r, rounds[0]), rounds[1..], last);
    }
  }

  /** What a run of rounds has come to. */
  ghost predicate Reached(r: Replica, key: TableKey, f: Facts) {
    exists scans :: Single(r, key, scans, f)
  }

  lemma ReachedNothing(key: TableKey)
    ensures Reached(EMPTY, key, Facts(0, {}, false, None))
  {
    EmptyReady();
    assert LiveKeys([]) == {};
    assert Single(EMPTY, key, [], Facts(0, {}, false, None));
  }

  lemma ReachedShowing(r: Replica, key: TableKey, f: Facts, x: Scanned, at: int, after: Replica, g: Facts)
    requires Reached(r, key, f) && RowAtKey(x, key) && f.ts <= Millis(at)
    requires after == Cycle(r, Showing(x, at))
    requires g == NextFacts(f, DedupKey(key, Content(x.text)), at, true, Some(x.row))
    ensures Reached(after, key, g)
  {
    var scans :| Single(r, key, scans, f);
    ShowRound(r, key, scans, f, x, at, after, g);
  }

  lemma ReachedGone(r: Replica, key: TableKey, f: Facts, x: Scanned, at: int, after: Replica, g: Facts)
    requires Reached(r, key, f) && f.live && RowAtKey(x, key) && f.ts <= Millis(at)
    requires after == Cycle(r, Gone(key, at)) && g == NextFacts(f, DedupKey(key, Vanished), at, false, None)
    ensures Reached(after, key, g)
  {
    var scans :| Single(r, key, scans, f);
    GoneRound(r, key, scans, f, x, at, after, g);
  }

  lemma ReachedTarget(r: Replica, key: TableKey, f: Facts)
    requires Reached(r, key, f)
    ensures (key in r.target <==> f.row.Some?) && (f.row.Some? ==> r.target[key].row == f.row.value)
  {
  }

  /** What has been visible is not queued again, however the run goes on. */
  lemma NeverAgain(r: Replica, key: TableKey, f: Facts, d: DedupKey, steps: seq<Lag.Step<DedupKey, Change>>)
    requires Reached(r, key, f) && d in f.seen
    ensures !Lag.Queues(Lag.Run(r.trace, steps).s, d)
  {
    var scans :| Single(r, key, scans, f);
    assert r.trace.accepted == r.trace.drained;
    assert Visible({}, scans, d);
    assert Lag.HasKey(r.trace.drained, d) && d in Lag.Keys(r.trace.drained);
    Lag.DrainedNeverRequeued(r.trace, steps, d);
  }

  /** A millisecond later the next pass has a larger timestamp. */
  function Later(at: nat, rounds: nat): int {
    at + 1_000_000 * rounds
  }

  lemma LaterByOne(at: nat, rounds: nat)
    ensures Millis(Later(at, rounds)) == Millis(at) + rounds
  {
  }

  /** What the source does to a table of at most one row between two rounds. */
  datatype Move = Show(x: Scanned) | Hide

  ghost predicate Playable(key: TableKey, moves: seq<Move>) {
    moves != [] ==>
      var front, last := moves[..|moves| - 1], moves[|moves| - 1];
      Playable(key, front) && if last.Show? then RowAtKey(last.x, key) else Live(front)
  }

  predicate Live(moves: seq<Move>) {
    moves != [] && moves[|moves| - 1].Show?
  }

  function VersionOf(key: TableKey, m: Move): DedupKey {
    match m
    case Show(x) => DedupKey(key, Content(x.text))
    case Hide => DedupKey(key, Vanished)
  }

  /** One round for each move, a millisecond apart. */
  function RoundsOf(key: TableKey, moves: seq<Move>, at: nat): seq<Round> {
    if moves == [] then []
    else
      var n := |moves| - 1;
      RoundsOf(key, moves[..n], at) + [RoundOf(key, moves[n], Later(at, n))]
  }

  function RoundOf(key: TableKey, m: Move, at: int): Round {
    match m
    case Show(x) => Showing(x, at)
    case Hide => Gone(key, at)
  }

  function SeenIn(key: TableKey, moves: seq<Move>): set<DedupKey> {
    if moves == [] then {} else SeenIn(key, moves[..|moves| - 1]) + {VersionOf(key, moves[|moves| - 1])}
  }

  /** The row left by the moves that were made for the first time. */
  function Holds(key: TableKey, moves: seq<Move>): Option<Row> {
    if moves == [] then None
    else
      var front, last := moves[..|moves| - 1], moves[|moves| - 1];
      if VersionOf(key, last) in SeenIn(key, front) then Holds(key, front)
      else if last.Show? then Some(last.x.row) else None
  }

  function FactsOf(key: TableKey, moves: seq<Move>, at: nat): Facts {
    Facts(if moves == [] then 0 else Millis(at) + |moves|, SeenIn(key, moves), Live(moves), Holds(key, moves))
  }

  /** The replica after the rounds of these moves. */
  function After(key: TableKey, moves: seq<Move>, at: nat): Replica {
    Cycles(EMPTY, RoundsOf(key, moves, at))
  }

  lemma {:induction false} HistoryReached(key: TableKey, moves: seq<Move>, at: nat)
    requires Playable(key, moves)
    ensures Reached(After(key, moves, at), key, FactsOf(key, moves, at))
  {
    if moves == [] {
      ReachedNothing(key);
    } else {
      var front, last, now := moves[..|moves| - 1], moves[|moves| - 1], Later(at, |moves| - 1);
      HistoryReached(key, front, at);
      FactsNext(key, moves, at);
      CyclesAppend(EMPTY, RoundsOf(key, front, at), RoundOf(key, last, now));
      LastMove(After(key, front, at), key, FactsOf(key, front, at), last, now, front,
               After(key, moves, at), FactsOf(key, moves, at));
    }
  }

  lemma LastMove(r: Replica, key: TableKey, f: Facts, last: Move, now: int, front: seq<Move>, after: Replica, g: Facts)
    requires Reached(r, key, f) && f.ts <= Millis(now) && after == Cycle(r, RoundOf(key, last, now))
    requires g == NextFacts(f, VersionOf(key, last), now, last.Show?, if last.Show? then Some(last.x.row) else None)
    requires last.Show? ==> RowAtKey(last.x, key)
    requires last.Hide? ==> f.live && Live(front) && RowAtKey(front[|front| - 1].x, key)
    ensures Reached(after, key, g)
  {
    match last
    case Show(x) => ReachedShowing(r, key, f, x, now, after, g);
    case Hide => ReachedGone(r, key, f, front[|front| - 1].x, now, after, g);
  }

  /** One more move, as a round and as facts. */
  lemma FactsNext(key: TableKey, moves: seq<Move>, at: nat)
    requires Playable(key, moves) && moves != []
    ensures var front, last, now := moves[..|moves| - 1], moves[|moves| - 1], Later(at, |moves| - 1);
            var f := FactsOf(key, front, at);
            && f.ts <= Millis(now)
            && RoundsOf(key, moves, at) == RoundsOf(key, front, at) + [RoundOf(key, last, now)]
            && FactsOf(key, moves, at) ==
               NextFacts(f, VersionOf(key, last), now, last.Show?, if last.Show? then Some(last.x.row) else None)
            && (last.Hide? ==> f.live && Live(front) && RowAtKey(front[|front| - 1].x, key))
            && (last.Show? ==> RowAtKey(last.x, key))
  {
    LaterByOne(at, |moves| - 1);
  }

  /** The whole history of one row: the target holds what the moves made for the
      first time left, and no move is ever queued a second time, however the run
      goes on. */
  lemma HistoryDecides(key: TableKey, moves: seq<Move>, at: nat, m: Move, steps: seq<Lag.Step<DedupKey, Change>>)
    requires Playable(key, moves)
    ensures var end := After(key, moves, at);
            && (key in end.target <==> Holds(key, moves).Some?)
            && (key in end.target ==> end.target[key].row == Holds(key, moves).value)
            && (VersionOf(key, m) in SeenIn(key, moves) ==>
                  !Lag.Queues(Lag.Run(end.trace, steps).s, VersionOf(key, m)))
  {
    HistoryReached(key, moves, at);
    ReachedTarget(After(key, moves, at), key, FactsOf(key, moves, at));
    if VersionOf(key, m) in SeenIn(key, moves) {
      NeverAgain(After(key, moves, at), key, FactsOf(key, moves, at), VersionOf(key, m), steps);
    }
  }

  lemma MovesAppend(key: TableKey, front: seq<Move>, last: Move)
    ensures Playable(key, front + [last]) <==>
            Playable(key, front) && if last.Show? then RowAtKey(last.x, key) else Live(front)
    ensures SeenIn(key, front + [last]) == SeenIn(key, front) + {VersionOf(key, last)}
    ensures Holds(key, front + [last]) ==
            if VersionOf(key, last) in SeenIn(key, front) then Holds(key, front)
            else if last.Show? then Some(last.x.row) else None
  {
    assert (front + [last])[..|front|] == front;
  }

  /** A row deleted and created again as it was: the target ends without it, and
      neither the row nor its next disappearance is ever queued again. */
  lemma RecreatedRowIsLost(x: Scanned, key: TableKey, at: nat, steps: seq<Lag.Step<DedupKey, Change>>)
    requires RowAtKey(x, key)
    ensures var end := After(key, [Show(x), Hide, Show(x)], at);
            && key !in end.target
            && !Lag.Queues(Lag.Run(end.trace, steps).s, DedupKey(key, Content(x.text)))
            && !Lag.Queues(Lag.Run(end.trace, steps).s, DedupKey(key, Vanished))
  {
    var moves := [Show(x), Hide, Show(x)];
    assert [] + [Show(x)] == [Show(x)] && [Show(x)] + [Hide] == [Show(x), Hide] && [Show(x), Hide] + [Show(x)] == moves;
    MovesAppend(key, [], Show(x));
    MovesAppend(key, [Show(x)], Hide);
    MovesAppend(key, [Show(x), Hide], Show(x));
    HistoryDecides(key, moves, at, Show(x), steps);
    HistoryDecides(key, moves, at, Hide, steps);
  }

  lemma DifferentTexts(x: Scanned, y: Scanned, key: TableKey)
    requires RowAtKey(x, key) && RowAtKey(y, key) && x.row != y.row
    ensures x.text != y.text
  {
    if x.text == y.text {
      RowPrintDetermines(x.row, y.row, x.text);
    }
  }

  /** A row changed and changed back: the target keeps the change. */
  lemma RowChangedBackIsLost(x: Scanned, y: Scanned, key: TableKey, at: nat)
    requires RowAtKey(x, key) && RowAtKey(y, key) && x.row != y.row
    ensures var end := After(key, [Show(x), Show(y), Show(x)], at);
            key in end.target && end.target[key].row == y.row
  {
    var moves, one, two := [Show(x), Show(y), Show(x)], [Show(x)], [Show(x), Show(y)];
    assert [] + [Show(x)] == one && one + [Show(y)] == two && two + [Show(x)] == moves;
    DifferentTexts(x, y, key);
    MovesAppend(key, [], Show(x));
    MovesAppend(key, one, Show(y));
    MovesAppend(key, two, Show(x));
    HistoryDecides(key, moves, at, Show(x), []);
  }

  /** A key that disappears for the second time: the target keeps its row. */
  lemma SecondRemovalIsLost(x: Scanned, y: Scanned, key: TableKey, at: nat)
    requires RowAtKey(x, key) && RowAtKey(y, key) && x.row != y.row
    ensures var end := After(key, [Show(x), Hide, Show(y), Hide], at);
            key in end.target && end.target[key].row == y.row
  {
    var moves, one, two := [Show(x), Hide, Show(y), Hide], [Show(x)], [Show(x), Hide];
    assert [] + [Show(x)] == one && one + [Hide] == two;
    assert two + [Show(y)] == moves[..3] && moves[..3] + [Hide] == moves;
    DifferentTexts(x, y, key);
    MovesAppend(key, [], Show(x));
    MovesAppend(key, one, Hide);
    MovesAppend(key, two, Show(y));
    MovesAppend(key, moves[..3], Hide);
    HistoryDecides(key, moves, at, Hide, []);
  }
}
