/** Table replication: scan-diff discovery on the source, and the poller that
    applies what is due on the target. */
module DdbReplicator {
  import opened Base
  import opened DynamoCodec
  import opened DynamoService
  import opened Fingerprint
  import opened LastWriterWins
  import Schema = DynamoExpressions
  import Lag = LagScheduler
  import Dynamo = DynamoKv
  import Lease

  // ----- Discovery -----

  /** A row as one scan sees it: with the fingerprint printed on that occasion. */
  datatype Scanned = Scanned(row: Row, text: RowPrint)

  /** What a change is recognised by: its key and its fingerprint, or the fact
      that the key vanished. */
  datatype Version = Content(text: RowPrint) | Vanished

  datatype DedupKey = DedupKey(key: TableKey, version: Version)

  type Found = Lag.Discovered<DedupKey, Change>

  /** The key of a scanned row, when both halves are text. */
  function ExtractKey(row: Row): Option<TableKey> {
    if Schema.PK_ATTR in row && row[Schema.PK_ATTR].AttrS? && Schema.SK_ATTR in row && row[Schema.SK_ATTR].AttrS?
    then Some(TableKey(row[Schema.PK_ATTR].text, row[Schema.SK_ATTR].text)) else None
  }

  function LiveKeys(rows: seq<Scanned>): set<TableKey> {
    set x | x in rows && ExtractKey(x.row).Some? :: ExtractKey(x.row).value
  }

  function FoundRow(x: Scanned, now: Lag.Time): seq<Found> {
    match ExtractKey(x.row)
    case None => []
    case Some(key) => [Lag.Discovered(DedupKey(key, Content(x.text)), Upsert(key, x.row), now)]
  }

  function FoundRows(rows: seq<Scanned>, now: Lag.Time): seq<Found> {
    if rows == [] then [] else FoundRows(rows[..|rows| - 1], now) + FoundRow(rows[|rows| - 1], now)
  }

  function FoundGone(gone: seq<TableKey>, now: Lag.Time): seq<Found> {
    if gone == [] then []
    else FoundGone(gone[..|gone| - 1], now) +
         [Lag.Discovered(DedupKey(gone[|gone| - 1], Vanished), Remove(gone[|gone| - 1]), now)]
  }

  function DiscoverAll(s: Lag.Scheduler<DedupKey, Change>, found: seq<Found>): Lag.Scheduler<DedupKey, Change> {
    if found == [] then s else Lag.Discover(DiscoverAll(s, found[..|found| - 1]), found[|found| - 1])
  }

  lemma DiscoverAllAppend(s: Lag.Scheduler<DedupKey, Change>, found: seq<Found>, d: Found)
    ensures DiscoverAll(s, found + [d]) == Lag.Discover(DiscoverAll(s, found), d)
  {
    assert (found + [d])[..|found|] == found;
  }

  function FoundSteps(found: seq<Found>): seq<Lag.Step<DedupKey, Change>> {
    seq(|found|, i requires 0 <= i < |found| => Lag.Step<DedupKey, Change>.Found(found[i]))
  }

  lemma FoundStepsAppend(front: seq<Found>, last: Found)
    ensures FoundSteps(front + [last]) == FoundSteps(front) + [Lag.Step<DedupKey, Change>.Found(last)]
    ensures Lag.FoundIn(FoundSteps(front + [last])) == Lag.FoundIn(FoundSteps(front)) + [last]
  {
    var steps := FoundSteps(front + [last]);
    assert steps[..|front|] == FoundSteps(front) && steps[|front|] == Lag.Step<DedupKey, Change>.Found(last);
  }

  /** Offering changes one after another is a run of the scheduler. */
  lemma {:induction false} DiscoverAllIsRun(t: Lag.Trace<DedupKey, Change>, found: seq<Found>)
    ensures Lag.Run(t, FoundSteps(found)).s == DiscoverAll(t.s, found)
    ensures Lag.FoundIn(FoundSteps(found)) == found
  {
    if found != [] {
      var front, last := found[..|found| - 1], found[|found| - 1];
      DiscoverAllIsRun(t, front);
      FoundStepsAppend(front, last);
      Lag.RunAppend(t, FoundSteps(front), Lag.Step<DedupKey, Change>.Found(last));
      assert found == front + [last];
    }
  }

  /** One full scan of the source: its rows, and the vanished keys in whatever
      order the poller visits them. */
  datatype Scan = Scan(rows: seq<Scanned>, gone: seq<TableKey>, now: Lag.Time)

  function FoundBy(scan: Scan): seq<Found> {
    FoundRows(scan.rows, scan.now) + FoundGone(scan.gone, scan.now)
  }

  /** Successive scans starting from the keys known before them. Each row shows
      one of the fingerprints it can have. */
  ghost predicate Scans(known: set<TableKey>, scans: seq<Scan>)
    decreases |scans|
  {
    scans != [] ==>
      && (forall x | x in scans[0].rows :: RowPrints(x.row, x.text))
      && (forall k :: k in scans[0].gone <==> k in known - LiveKeys(scans[0].rows))
      && Scans(LiveKeys(scans[0].rows), scans[1..])
  }

  function FoundByAll(scans: seq<Scan>): seq<Found>
    decreases |scans|
  {
    if scans == [] then [] else FoundBy(scans[0]) + FoundByAll(scans[1..])
  }

  /** Some row at the key showed this fingerprint. */
  predicate ShowsText(rows: seq<Scanned>, key: TableKey, text: RowPrint) {
    exists x :: x in rows && x.text == text && ExtractKey(x.row) == Some(key)
  }

  lemma {:induction false} FoundRowsKeys(rows: seq<Scanned>, now: Lag.Time, key: DedupKey)
    ensures Lag.HasKey(FoundRows(rows, now), key) <==>
            key.version.Content? && ShowsText(rows, key.key, key.version.text)
  {
    if rows != [] {
      var front, last := rows[..|rows| - 1], rows[|rows| - 1];
      assert rows == front + [last] && forall x :: x in rows <==> x in front || x == last;
      FoundRowsKeys(front, now, key);
      HasKeyConcat(FoundRows(front, now), FoundRow(last, now), key);
      if ExtractKey(last.row).Some? {
        assert FoundRow(last, now)[0] in FoundRow(last, now);
      }
    }
  }

  lemma {:induction false} FoundGoneKeys(gone: seq<TableKey>, now: Lag.Time, key: DedupKey)
    ensures Lag.HasKey(FoundGone(gone, now), key) <==> key.version.Vanished? && key.key in gone
  {
    if gone != [] {
      var front, last := gone[..|gone| - 1], gone[|gone| - 1];
      assert gone == front + [last];
      FoundGoneKeys(front, now, key);
      var d: Found := Lag.Discovered(DedupKey(last, Vanished), Remove(last), now);
      HasKeyConcat(FoundGone(front, now), [d], key);
      assert d in [d];
    }
  }

  lemma HasKeyConcat(a: seq<Found>, b: seq<Found>, key: DedupKey)
    ensures Lag.HasKey(a + b, key) <==> Lag.HasKey(a, key) || Lag.HasKey(b, key)
  {
    assert forall d :: d in a + b <==> d in a || d in b;
  }

  /** A version was visible: some scan showed this fingerprint at the key, or the
      key was there before a scan that no longer showed it. */
  ghost predicate Visible(known: set<TableKey>, scans: seq<Scan>, key: DedupKey)
    decreases |scans|
  {
    && scans != []
    && (Visible(LiveKeys(scans[0].rows), scans[1..], key)
        || match key.version
           case Content(text) => ShowsText(scans[0].rows, key.key, text)
           case Vanished => key.key in known - LiveKeys(scans[0].rows))
  }

  lemma {:induction false} FoundIffVisible(known: set<TableKey>, scans: seq<Scan>, key: DedupKey)
    requires Scans(known, scans)
    ensures Lag.HasKey(FoundByAll(scans), key) <==> Visible(known, scans, key)
    decreases |scans|
  {
    if scans != [] {
      var scan := scans[0];
      FoundIffVisible(LiveKeys(scan.rows), scans[1..], key);
      FoundRowsKeys(scan.rows, scan.now, key);
      FoundGoneKeys(scan.gone, scan.now, key);
      HasKeyConcat(FoundRows(scan.rows, scan.now), FoundGone(scan.gone, scan.now), key);
      HasKeyConcat(FoundBy(scan), FoundByAll(scans[1..]), key);
    }
  }

  /** Scan-diff at the level of fingerprints: over any scans, with any drains and
      lag changes in between, the poller queues a fingerprint the first time it is
      shown at a key, and the disappearance of a key the first time it happens, and
      never again: what it would still queue is exactly what it has not seen. */
  lemma QueuesFirstTimeOnly(policy: Lag.LagPolicy, scans: seq<Scan>, steps: seq<Lag.Step<DedupKey, Change>>,
                            key: DedupKey)
    requires Scans({}, scans) && Lag.FoundIn(steps) == FoundByAll(scans)
    ensures var end := Lag.Run(Lag.Start(policy), steps);
            && (Lag.HasKey(end.accepted, key) <==> Visible({}, scans, key))
            && Lag.DistinctKeys(end.accepted)
            && (Lag.Queues(end.s, key) <==> !Visible({}, scans, key))
  {
    Lag.AcceptsFirstOfEachKey(policy, steps);
    Lag.FirstByKeyHasAll(FoundByAll(scans), key);
    FoundIffVisible({}, scans, key);
    Lag.AcceptsNewKeys(Lag.Run(Lag.Start(policy), steps), key);
  }

  // ----- Contents and their fingerprints -----

  /** A run of the poller: its scans, and the scheduler steps they amount to, with
      drains and lag changes in between. */
  datatype Poll = Poll(policy: Lag.LagPolicy, scans: seq<Scan>, steps: seq<Lag.Step<DedupKey, Change>>) {
    ghost predicate Valid() {
      Scans({}, scans) && Lag.FoundIn(steps) == FoundByAll(scans)
    }

    function Queued(): seq<Found> {
      Lag.Run(Lag.Start(policy), steps).accepted
    }

    predicate Shows(row: Row) {
      exists scan, x :: scan in scans && x in scan.rows && x.row == row
    }

    /** The content was queued at some point, and at no other. */
    ghost predicate QueuesOnce(change: Change) {
      && (exists i :: 0 <= i < |Queued()| && Queued()[i].event == change)
      && !QueuesTwice(change)
    }

    ghost predicate QueuesTwice(change: Change) {
      exists i, j :: 0 <= i < j < |Queued()| && Queued()[i].event == change && Queued()[j].event == change
    }
  }

  /** A queued upsert carries a row that its fingerprint was printed from. */
  ghost predicate Honest(d: Found) {
    match d.key.version
    case Content(text) =>
      && d.event.Upsert? && d.event.key == d.key.key
      && RowPrints(d.event.row, text) && ExtractKey(d.event.row) == Some(d.key.key)
    case Vanished => d.event == Remove(d.key.key)
  }

  lemma {:induction false} FoundRowsHonest(rows: seq<Scanned>, now: Lag.Time)
    requires forall x | x in rows :: RowPrints(x.row, x.text)
    ensures forall d | d in FoundRows(rows, now) :: Honest(d)
  {
    if rows != [] {
      assert rows[|rows| - 1] in rows && forall x | x in rows[..|rows| - 1] :: x in rows;
      FoundRowsHonest(rows[..|rows| - 1], now);
    }
  }

  lemma {:induction false} FoundGoneHonest(gone: seq<TableKey>, now: Lag.Time)
    ensures forall d | d in FoundGone(gone, now) :: Honest(d)
  {
    if gone != [] {
      FoundGoneHonest(gone[..|gone| - 1], now);
    }
  }

  lemma {:induction false} FoundHonest(known: set<TableKey>, scans: seq<Scan>)
    requires Scans(known, scans)
    ensures forall d | d in FoundByAll(scans) :: Honest(d)
    decreases |scans|
  {
    if scans != [] {
      FoundRowsHonest(scans[0].rows, scans[0].now);
      FoundGoneHonest(scans[0].gone, scans[0].now);
      FoundHonest(LiveKeys(scans[0].rows), scans[1..]);
    }
  }

  lemma {:induction false} ShownText(known: set<TableKey>, scans: seq<Scan>, scan: Scan, x: Scanned, key: TableKey)
    requires Scans(known, scans) && scan in scans && x in scan.rows && ExtractKey(x.row) == Some(key)
    ensures Visible(known, scans, DedupKey(key, Content(x.text))) && RowPrints(x.row, x.text)
    decreases |scans|
  {
    if scan == scans[0] {
      assert ShowsText(scans[0].rows, key, x.text);
    } else {
      assert scan in scans[1..];
      ShownText(LiveKeys(scans[0].rows), scans[1..], scan, x, key);
    }
  }

  lemma QueuedHonest(poll: Poll)
    requires poll.Valid()
    ensures Lag.DistinctKeys(poll.Queued()) && forall d | d in poll.Queued() :: Honest(d)
  {
    Lag.AcceptsFirstOfEachKey(poll.policy, poll.steps);
    FoundHonest({}, poll.scans);
    Lag.FirstByKeyFrom(FoundByAll(poll.scans));
  }

  /** Nothing is missed: every content that a scan shows is queued. */
  lemma EveryContentQueued(poll: Poll, row: Row, key: TableKey)
    requires poll.Valid() && poll.Shows(row) && ExtractKey(row) == Some(key)
    ensures exists i :: 0 <= i < |poll.Queued()| && poll.Queued()[i].event == Upsert(key, row)
  {
    var scan, x :| scan in poll.scans && x in scan.rows && x.row == row;
    ShownText({}, poll.scans, scan, x, key);
    var i := QueuedAs(poll, row, key, x.text);
  }

  /** A row with one fingerprint is never queued twice with the same content. */
  lemma SteadyQueuedOnce(poll: Poll, row: Row, key: TableKey)
    requires poll.Valid() && SteadyRow(row)
    ensures !poll.QueuesTwice(Upsert(key, row))
  {
    QueuedHonest(poll);
    var queued := poll.Queued();
    forall i, j | 0 <= i < j < |queued| && queued[i].event == queued[j].event == Upsert(key, row) ensures false {
      assert queued[i] in queued && queued[j] in queued && Honest(queued[i]) && Honest(queued[j]);
      RowPrintUnique(row, queued[i].key.version.text, queued[j].key.version.text);
    }
  }

  /** The source unchanged, scanned twice, with a different fingerprint each time. */
  function TwoScans(row: Row, p: RowPrint, q: RowPrint): Poll {
    var scans := [Scan([Scanned(row, p)], [], 0), Scan([Scanned(row, q)], [], 1)];
    Poll(Lag.Fixed(0), scans, FoundSteps(FoundByAll(scans)))
  }

  lemma TwoScansValid(row: Row, p: RowPrint, q: RowPrint)
    requires RowPrints(row, p) && RowPrints(row, q)
    ensures TwoScans(row, p, q).Valid() && TwoScans(row, p, q).Shows(row)
  {
    var poll := TwoScans(row, p, q);
    DiscoverAllIsRun(Lag.Start(poll.policy), FoundByAll(poll.scans));
    assert LiveKeys([Scanned(row, p)]) == LiveKeys([Scanned(row, q)]) by {
      assert Scanned(row, p) in [Scanned(row, p)] && Scanned(row, q) in [Scanned(row, q)];
    }
    assert poll.scans[1..] == [poll.scans[1]] && poll.scans[1..][1..] == [];
    assert poll.scans[0] in poll.scans && Scanned(row, p) in poll.scans[0].rows;
  }

  /** Two fingerprints of one unchanged row: it is queued twice. */
  lemma TwoScansQueueTwice(row: Row, key: TableKey, p: RowPrint, q: RowPrint)
    requires RowPrints(row, p) && RowPrints(row, q) && p != q && ExtractKey(row) == Some(key)
    ensures TwoScans(row, p, q).Valid() && TwoScans(row, p, q).QueuesTwice(Upsert(key, row))
  {
    var poll := TwoScans(row, p, q);
    TwoScansValid(row, p, q);
    ShownText({}, poll.scans, poll.scans[0], Scanned(row, p), key);
    ShownText({}, poll.scans, poll.scans[1], Scanned(row, q), key);
    var i := QueuedAs(poll, row, key, p);
    var j := QueuedAs(poll, row, key, q);
    TwoPositions(poll, Upsert(key, row), i, j);
  }

  /** Where a visible fingerprint of a row was queued. */
  lemma QueuedAs(poll: Poll, row: Row, key: TableKey, text: RowPrint) returns (i: nat)
    requires poll.Valid() && RowPrints(row, text) && Visible({}, poll.scans, DedupKey(key, Content(text)))
    ensures i < |poll.Queued()| && poll.Queued()[i].key == DedupKey(key, Content(text))
    ensures poll.Queued()[i].event == Upsert(key, row)
  {
    var wanted := DedupKey(key, Content(text));
    QueuesFirstTimeOnly(poll.policy, poll.scans, poll.steps, wanted);
    QueuedHonest(poll);
    var d :| d in poll.Queued() && d.key == wanted;
    RowPrintDetermines(d.event.row, row, text);
    i :| 0 <= i < |poll.Queued()| && poll.Queued()[i] == d;
  }

  lemma TwoPositions(poll: Poll, change: Change, i: nat, j: nat)
    requires i < |poll.Queued()| && j < |poll.Queued()| && i != j
    requires poll.Queued()[i].event == change && poll.Queued()[j].event == change
    ensures poll.QueuesTwice(change)
  {
    var low, high := if i < j then i else j, if i < j then j else i;
    assert poll.Queued()[low].event == change && poll.Queued()[high].event == change;
  }

  /** Exactly when scan-diff never repeats itself: a content is queued exactly once
      in every run that shows it if and only if it holds no map of two or more
      entries at any depth below the top. */
  lemma QueuedOnceIff(row: Row, key: TableKey)
    requires ExtractKey(row) == Some(key)
    ensures (forall poll: Poll | poll.Valid() && poll.Shows(row) :: poll.QueuesOnce(Upsert(key, row)))
            <==> SteadyRow(row)
  {
    if SteadyRow(row) {
      forall poll: Poll | poll.Valid() && poll.Shows(row) ensures poll.QueuesOnce(Upsert(key, row)) {
        EveryContentQueued(poll, row, key);
        SteadyQueuedOnce(poll, row, key);
      }
    } else {
      var p, q := TwoRowPrints(row);
      TwoScansQueueTwice(row, key, p, q);
      TwoScansValid(row, p, q);
      assert !TwoScans(row, p, q).QueuesOnce(Upsert(key, row));
    }
  }

  /** A row whose value is a map of two entries that print as they are. */
  function PairRow(key: TableKey, a: AttributeValue, b: AttributeValue): Row {
    map[Schema.PK_ATTR := AttrS(key.pk), Schema.SK_ATTR := AttrS(key.sk),
        Schema.VALUE_ATTR := AttrM(map["a" := a, "b" := b])]
  }

  function PairText(key: TableKey, pairs: seq<Named>): RowPrint {
    map[Schema.PK_ATTR := Plain(AttrS(key.pk)), Schema.SK_ATTR := Plain(AttrS(key.sk)),
        Schema.VALUE_ATTR := Entries(pairs)]
  }

  lemma PairPrints(a: AttributeValue, b: AttributeValue)
    requires Prints(a, Plain(a)) && Prints(b, Plain(b))
    ensures Prints(AttrM(map["a" := a, "b" := b]), Entries([Named("a", Plain(a)), Named("b", Plain(b))]))
    ensures Prints(AttrM(map["a" := a, "b" := b]), Entries([Named("b", Plain(b)), Named("a", Plain(a))]))
  {
    var m := map["a" := a, "b" := b];
    OrderLists(["a", "b"], m.Keys, [Named("a", Plain(a)), Named("b", Plain(b))]);
    OrderLists(["b", "a"], m.Keys, [Named("b", Plain(b)), Named("a", Plain(a))]);
  }

  lemma PairRowPrints(key: TableKey, a: AttributeValue, b: AttributeValue, pairs: seq<Named>)
    requires Prints(AttrM(map["a" := a, "b" := b]), Entries(pairs))
    ensures RowPrints(PairRow(key, a, b), PairText(key, pairs))
    ensures ExtractKey(PairRow(key, a, b)) == Some(key)
  {
  }

  /** Such a row, unchanged, scanned with its entries printed in their two orders,
      is queued twice. */
  lemma NestedMapQueuedTwice(key: TableKey, a: AttributeValue, b: AttributeValue)
    requires Prints(a, Plain(a)) && Prints(b, Plain(b))
    ensures var p := PairText(key, [Named("a", Plain(a)), Named("b", Plain(b))]);
            var q := PairText(key, [Named("b", Plain(b)), Named("a", Plain(a))]);
            var poll := TwoScans(PairRow(key, a, b), p, q);
            poll.Valid() && poll.QueuesTwice(Upsert(key, PairRow(key, a, b)))
  {
    var ab, ba := [Named("a", Plain(a)), Named("b", Plain(b))], [Named("b", Plain(b)), Named("a", Plain(a))];
    var p, q := PairText(key, ab), PairText(key, ba);
    PairPrints(a, b);
    PairRowPrints(key, a, b, ab);
    PairRowPrints(key, a, b, ba);
    assert ab[0] != ba[0] && p[Schema.VALUE_ATTR] != q[Schema.VALUE_ATTR];
    TwoScansQueueTwice(PairRow(key, a, b), key, p, q);
  }

  /** Every lease row is of this kind, so an unchanged lease can be queued again. */
  lemma LeaseRowsRepeat(key: TableKey, lease: Lease.Lease)
    ensures ExtractKey(Dynamo.RowFor(key, Lease.EncodeLease(lease))) == Some(key)
    ensures !SteadyRow(Dynamo.RowFor(key, Lease.EncodeLease(lease)))
  {
    var entries := EncodeEntries(Lease.EncodeLease(lease).entries);
    EncodeMap(Lease.EncodeLease(lease).entries);
    assert Lease.ATTR_EPOCH in entries.Keys && Lease.ATTR_REGION in entries.Keys;
    assert !AtMostOne(entries.Keys);
    assert Dynamo.RowFor(key, Lease.EncodeLease(lease))[Schema.VALUE_ATTR] == AttrM(entries);
  }

  // ----- When a change is applied -----

  lemma {:induction false} FoundRowsAt(rows: seq<Scanned>, now: Lag.Time)
    ensures forall d | d in FoundRows(rows, now) :: d.at == now
  {
    if rows != [] {
      FoundRowsAt(rows[..|rows| - 1], now);
    }
  }

  lemma {:induction false} FoundGoneAt(gone: seq<TableKey>, now: Lag.Time)
    ensures forall d | d in FoundGone(gone, now) :: d.at == now
  {
    if gone != [] {
      FoundGoneAt(gone[..|gone| - 1], now);
    }
  }

  lemma FoundAt(scan: Scan)
    ensures forall d | d in FoundBy(scan) :: d.at == scan.now
  {
    FoundRowsAt(scan.rows, scan.now);
    FoundGoneAt(scan.gone, scan.now);
  }

  /** The clock does not go backward between scans. */
  ghost predicate ScansInOrder(scans: seq<Scan>) {
    forall i, j | 0 <= i < j < |scans| :: scans[i].now <= scans[j].now
  }

  lemma {:induction false} FoundAllInOrder(scans: seq<Scan>)
    requires ScansInOrder(scans)
    ensures Lag.InTimeOrder(FoundByAll(scans))
    ensures forall d | d in FoundByAll(scans) :: scans != [] && scans[0].now <= d.at
    decreases |scans|
  {
    if scans != [] {
      var rest := scans[1..];
      FoundAllInOrder(rest);
      FoundAt(scans[0]);
      forall d | d in FoundByAll(rest) ensures scans[0].now <= d.at {
        assert scans[0].now <= scans[1].now;
      }
      var first, later := FoundBy(scans[0]), FoundByAll(rest);
      var all: seq<Found> := first + later;
      forall i, j | 0 <= i < j < |all| ensures all[i].at <= all[j].at {
        assert i < |first| ==> first[i] in first;
        assert j < |first| ==> first[j] in first;
        assert j >= |first| ==> later[j - |first|] in later;
      }
    }
  }

  lemma {:induction false} FoundByAllConcat(a: seq<Scan>, b: seq<Scan>)
    ensures FoundByAll(a + b) == FoundByAll(a) + FoundByAll(b)
    decreases |a|
  {
    if a == [] {
      assert a + b == b;
    } else {
      assert (a + b)[1..] == a[1..] + b;
      FoundByAllConcat(a[1..], b);
    }
  }

  /** The change under a key that an earlier scan did not show was discovered when
      this scan was made. */
  lemma FirstShownAt(before: seq<Scan>, scan: Scan, later: seq<Scan>, key: DedupKey)
    requires !Lag.HasKey(FoundByAll(before), key) && Lag.HasKey(FoundBy(scan), key)
    ensures forall d | d in Lag.FirstByKey(FoundByAll(before + [scan] + later)) && d.key == key :: d.at == scan.now
  {
    var shown := FoundByAll(before) + FoundBy(scan);
    FoundByAllConcat(before, [scan]);
    FoundByAllConcat(before + [scan], later);
    assert FoundByAll([scan]) == FoundBy(scan) + FoundByAll([scan][1..]) == FoundBy(scan);
    HasKeyConcat(FoundByAll(before), FoundBy(scan), key);
    Lag.FirstByKeyInFront(shown, FoundByAll(later), key);
    FoundAt(scan);
    forall d | d in shown && d.key == key ensures d.at == scan.now {
      assert d !in FoundByAll(before);
    }
  }

  /** Lag from scan to target, whatever drains and lag changes came before: while the
      clock does not go backward, a queued change leaves with the next drain exactly
      when the lag has passed since the first scan that showed it. */
  lemma LeavesWhenLagHasPassed(policy: Lag.LagPolicy, before: seq<Scan>, scan: Scan, later: seq<Scan>,
                               steps: seq<Lag.Step<DedupKey, Change>>, lag: nat, now: Lag.Time, key: DedupKey)
    requires ScansInOrder(before + [scan] + later)
    requires Lag.FoundIn(steps) == FoundByAll(before + [scan] + later)
    requires !Lag.HasKey(FoundByAll(before), key) && Lag.HasKey(FoundBy(scan), key)
    ensures var t := Lag.Run(Lag.Start(policy), steps + [Lag.SetPolicy(Lag.Fixed(lag))]);
            && Lag.HasKey(t.accepted, key)
            && (Lag.HasKey(t.s.pending, key) ==>
                  (Lag.HasKey(Lag.Drain(t.s, now).1, key) <==> lag == 0 || scan.now + lag <= now))
  {
    var scans, fixed := before + [scan] + later, Lag.Step<DedupKey, Change>.SetPolicy(Lag.Fixed(lag));
    FoundAllInOrder(scans);
    Lag.FoundInOrderIf(steps);
    Lag.DrainsExactly(policy, steps, lag, now);
    FirstShownAt(before, scan, later, key);
    AcceptedAre(policy, scans, steps, fixed);
    ShownIsFound(before, scan, later, key);
    Lag.FirstByKeyHasAll(FoundByAll(scans), key);
    var t := Lag.Run(Lag.Start(policy), steps + [fixed]);
    ReleasedByTime(t.s.pending, Lag.Drain(t.s, now).1, key, scan.now, lag, now);
  }

  /** Whatever the last lag change, what was accepted is the first of each key, and
      the pending changes are among it. */
  lemma AcceptedAre(policy: Lag.LagPolicy, scans: seq<Scan>, steps: seq<Lag.Step<DedupKey, Change>>,
                    last: Lag.Step<DedupKey, Change>)
    requires Lag.FoundIn(steps) == FoundByAll(scans) && last.SetPolicy?
    ensures var t := Lag.Run(Lag.Start(policy), steps + [last]);
            && t.accepted == Lag.FirstByKey(FoundByAll(scans))
            && forall d | d in t.s.pending :: d in t.accepted
  {
    Lag.AcceptsFirstOfEachKey(policy, steps);
    Lag.RunAppend(Lag.Start(policy), steps, last);
  }

  lemma ReleasedByTime(pending: seq<Found>, due: seq<Found>, key: DedupKey, at: Lag.Time, lag: nat, now: Lag.Time)
    requires forall d | d in pending && d.key == key :: d.at == at
    requires forall d | d in pending :: d in due <==> lag == 0 || d.at + lag <= now
    requires forall d | d in due :: d in pending
    ensures Lag.HasKey(pending, key) ==> (Lag.HasKey(due, key) <==> lag == 0 || at + lag <= now)
  {
  }

  lemma ShownIsFound(before: seq<Scan>, scan: Scan, later: seq<Scan>, key: DedupKey)
    requires Lag.HasKey(FoundBy(scan), key)
    ensures Lag.HasKey(FoundByAll(before + [scan] + later), key)
  {
    FoundByAllConcat(before, [scan]);
    FoundByAllConcat(before + [scan], later);
    assert FoundByAll([scan]) == FoundBy(scan) + FoundByAll([scan][1..]) == FoundBy(scan);
    HasKeyConcat(FoundByAll(before), FoundBy(scan), key);
    HasKeyConcat(FoundByAll(before) + FoundBy(scan), FoundByAll(later), key);
  }

  // ----- A removal that is lost -----

  /** A key upserted and then removed, both drained in one pass: the removal is
      refused as stale, the row stays, and since the removal counts as applied it
      is not queued again however the run goes on. */
  lemma RemovalInOnePassIsLost(t: Lag.Trace<DedupKey, Change>, now: Lag.Time, target: Target, ts: nat,
                               outages: set<nat>, first: nat, second: nat, key: TableKey,
                               steps: seq<Lag.Step<DedupKey, Change>>)
    requires Lag.Inv(t)
    requires var due := Lag.Drain(t.s, now).1;
             && first < second < |due|
             && due[first].event.Upsert? && due[first].event.key == key && first !in outages
             && (forall i | 0 <= i < first :: due[i].event.key != key || i in outages)
             && due[second].key == DedupKey(key, Vanished)
    requires Admits(target, key, ts)
    ensures var due := Lag.Drain(t.s, now).1;
            var end := ApplyPass(target, Events(due), ts, outages).target;
            && key in end && end[key] == TargetRow(due[first].event.row, Some(ts))
            && !Lag.Queues(Lag.Run(Lag.Next(t, Lag.DrainAt(now)), steps).s, DedupKey(key, Vanished))
  {
    var due := Lag.Drain(t.s, now).1;
    FirstOfAPassWins(target, Events(due), ts, outages, first);
    var after := Lag.Next(t, Lag.DrainAt(now));
    Lag.NextKeepsInv(t, Lag.DrainAt(now));
    assert due[second] in due;
    Lag.DrainedNeverRequeued(after, steps, DedupKey(key, Vanished));
  }

  function Events(due: seq<Found>): seq<Change> {
    seq(|due|, i requires 0 <= i < |due| => due[i].event)
  }

  // ----- The poller -----

  lemma RowStep(rows: seq<Scanned>, i: nat, now: Lag.Time)
    requires i < |rows|
    ensures FoundRows(rows[..i + 1], now) ==
            if ExtractKey(rows[i].row).Some? then FoundRows(rows[..i], now) + FoundRow(rows[i], now)
            else FoundRows(rows[..i], now)
    ensures LiveKeys(rows[..i + 1]) ==
            LiveKeys(rows[..i]) + if ExtractKey(rows[i].row).Some? then {ExtractKey(rows[i].row).value} else {}
  {
    assert rows[..i + 1][..i] == rows[..i];
    assert forall x :: x in rows[..i + 1] <==> x in rows[..i] || x == rows[i];
  }

  lemma GoneStep(found: seq<Found>, gone: seq<TableKey>, key: TableKey, now: Lag.Time)
    ensures found + FoundGone(gone + [key], now) ==
            found + FoundGone(gone, now) + [Lag.Discovered(DedupKey(key, Vanished), Remove(key), now)]
  {
    assert (gone + [key])[..|gone|] == gone;
  }

  datatype Summary = Summary(applied: nat, stale: nat, failed: nat)

  function Counted(target: Target, summary: Summary): Pass {
    Pass(target, summary.applied, summary.stale, summary.failed)
  }

  class DdbPoller {
    const scheduler: Lag.LagScheduler<DedupKey, Change>
    var knownLive: set<TableKey>

    constructor (policy: Lag.LagPolicy)
      ensures fresh(scheduler) && knownLive == {}
      ensures scheduler.Abstract() == Lag.Scheduler(policy, [], {})
    {
      scheduler := new Lag.LagScheduler(policy);
      knownLive := {};
    }

    /** Offers one change to the scheduler, which has been offered `found`. */
    method Offer(key: DedupKey, change: Change, now: Lag.Time,
                 ghost start: Lag.Scheduler<DedupKey, Change>, ghost found: seq<Found>)
      returns (queued: nat)
      requires scheduler.Abstract() == DiscoverAll(start, found)
      modifies scheduler
      ensures scheduler.Abstract() == DiscoverAll(start, found + [Lag.Discovered(key, change, now)])
      ensures |scheduler.pending| == old(|scheduler.pending|) + queued
    {
      DiscoverAllAppend(start, found, Lag.Discovered(key, change, now));
      var isNew := scheduler.DiscoverChange(key, change, now);
      queued := if isNew then 1 else 0;
    }

    /** The rows of a scan, in the order read. */
    method OfferRows(rows: seq<Scanned>, now: Lag.Time) returns (queued: nat, current: set<TableKey>)
      modifies scheduler
      ensures current == LiveKeys(rows)
      ensures scheduler.Abstract() == DiscoverAll(old(scheduler.Abstract()), FoundRows(rows, now))
      ensures |scheduler.pending| == old(|scheduler.pending|) + queued
    {
      queued, current := 0, {};
      ghost var start := scheduler.Abstract();
      for i := 0 to |rows|
        invariant current == LiveKeys(rows[..i])
        invariant scheduler.Abstract() == DiscoverAll(start, FoundRows(rows[..i], now))
        invariant |scheduler.pending| == old(|scheduler.pending|) + queued
      {
        RowStep(rows, i, now);
        var key := ExtractKey(rows[i].row);
        if key.Some? {
          current := current + {key.value};
          var found, change := DedupKey(key.value, Content(rows[i].text)), Upsert(key.value, rows[i].row);
          var more := Offer(found, change, now, start, FoundRows(rows[..i], now));
          queued := queued + more;
        }
      }
      assert rows[..|rows|] == rows;
    }

    /** The vanished keys, in whatever order the set yields them. */
    method OfferGone(vanished: set<TableKey>, now: Lag.Time,
                     ghost start: Lag.Scheduler<DedupKey, Change>, ghost found: seq<Found>)
      returns (queued: nat, ghost gone: seq<TableKey>)
      requires scheduler.Abstract() == DiscoverAll(start, found)
      modifies scheduler
      ensures forall k :: k in gone <==> k in vanished
      ensures scheduler.Abstract() == DiscoverAll(start, found + FoundGone(gone, now))
      ensures |scheduler.pending| == old(|scheduler.pending|) + queued
    {
      queued, gone := 0, [];
      var left := vanished;
      assert found + FoundGone([], now) == found;
      while left != {}
        invariant left <= vanished && forall k :: k in gone <==> k in vanished - left
        invariant scheduler.Abstract() == DiscoverAll(start, found + FoundGone(gone, now))
        invariant |scheduler.pending| == old(|scheduler.pending|) + queued
        decreases |left|
      {
        var key :| key in left;
        GoneStep(found, gone, key, now);
        var more := Offer(DedupKey(key, Vanished), Remove(key), now, start, found + FoundGone(gone, now));
        queued, gone, left := queued + more, gone + [key], left - {key};
      }
    }

    /** Queues what one full scan shows, then what it no longer shows. */
    method Discover(rows: seq<Scanned>, now: Lag.Time) returns (queued: nat, ghost gone: seq<TableKey>)
      modifies this, scheduler
      ensures knownLive == LiveKeys(rows)
      ensures forall k :: k in gone <==> k in old(knownLive) - LiveKeys(rows)
      ensures scheduler.Abstract() == DiscoverAll(old(scheduler.Abstract()), FoundBy(Scan(rows, gone, now)))
      ensures |scheduler.pending| == old(|scheduler.pending|) + queued
    {
      var current, more;
      queued, current := OfferRows(rows, now);
      more, gone := OfferGone(knownLive - current, now, old(scheduler.Abstract()), FoundRows(rows, now));
      queued := queued + more;
      knownLive := current;
    }

    /** Applies what is due; a stale or failed change does not stop the rest. */
    method ApplyDue(target: Target, now: int, outages: set<nat>) returns (after: Target, summary: Summary)
      modifies scheduler
      ensures var (rest, due) := Lag.Drain(old(scheduler.Abstract()), now);
              && scheduler.Abstract() == rest
              && Counted(after, summary) == ApplyPass(target, Events(due), Millis(now), outages)
    {
      var due := scheduler.DrainDue(now);
      ghost var changes := Events(due);
      var ts := Millis(now);
      after, summary := target, Summary(0, 0, 0);
      for i := 0 to |due|
        invariant Counted(after, summary) == ApplyPass(target, changes[..i], ts, outages)
        invariant scheduler.Abstract() == Lag.Drain(old(scheduler.Abstract()), now).0
      {
        PassNext(target, changes, ts, outages, i);
        var change := due[i].event;
        if i in outages {
          summary := summary.(failed := summary.failed + 1);
        } else if Admits(after, change.key, ts) {
          after := ApplyOne(after, Write(change, ts));
          summary := summary.(applied := summary.applied + 1);
        } else {
          summary := summary.(stale := summary.stale + 1);
        }
      }
      assert changes[..|due|] == changes;
    }
  }
}
