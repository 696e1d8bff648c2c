/** Lag scheduling and dedup for one replication link. */
module LagScheduler {
  import opened Base

  type Time = int

  datatype LagPolicy = Fixed(lag: nat) | Stalled

  datatype Discovered<K, E> = Discovered(key: K, event: E, at: Time)

  datatype Scheduler<K, E> = Scheduler(policy: LagPolicy, pending: seq<Discovered<K, E>>, applied: set<K>)

  /** The age of an item; an item from the future has age zero. */
  function Age(at: Time, now: Time): nat {
    if now < at then 0 else now - at
  }

  predicate Due<K, E>(d: Discovered<K, E>, lag: nat, now: Time) {
    Age(d.at, now) >= lag
  }

  /** Due in terms of instants: the lag has passed since the discovery. */
  lemma DueIff<K, E>(d: Discovered<K, E>, lag: nat, now: Time)
    ensures Due(d, lag, now) <==> lag == 0 || d.at + lag <= now
  {
  }

  predicate HasKey<K(==), E(==)>(ds: seq<Discovered<K, E>>, key: K) {
    exists d :: d in ds && d.key == key
  }

  predicate Queues<K(==), E(==)>(s: Scheduler<K, E>, key: K) {
    key !in s.applied && !HasKey(s.pending, key)
  }

  function Discover<K(==), E(==)>(s: Scheduler<K, E>, d: Discovered<K, E>): Scheduler<K, E> {
    if Queues(s, d.key) then s.(pending := s.pending + [d]) else s
  }

  /** How many items at the front are due. */
  function DuePrefix<K, E>(pending: seq<Discovered<K, E>>, lag: nat, now: Time): (n: nat)
    ensures n <= |pending|
  {
    if pending == [] || !Due(pending[0], lag, now) then 0 else 1 + DuePrefix(pending[1..], lag, now)
  }

  lemma {:induction false} DuePrefixIsFirstStop<K, E>(pending: seq<Discovered<K, E>>, lag: nat, now: Time)
    ensures var n := DuePrefix(pending, lag, now);
            && (forall i | 0 <= i < n :: Due(pending[i], lag, now))
            && (n < |pending| ==> !Due(pending[n], lag, now))
  {
    if pending != [] && Due(pending[0], lag, now) {
      DuePrefixIsFirstStop(pending[1..], lag, now);
      assert forall i | 1 <= i < |pending| :: pending[i] == pending[1..][i - 1];
    }
  }

  function Released<K, E>(s: Scheduler<K, E>, now: Time): nat {
    if s.policy.Stalled? then 0 else DuePrefix(s.pending, s.policy.lag, now)
  }

  function Keys<K(==), E(==)>(ds: seq<Discovered<K, E>>): set<K> {
    set d | d in ds :: d.key
  }

  lemma KeysAppend<K, E>(ds: seq<Discovered<K, E>>, d: Discovered<K, E>)
    ensures Keys(ds + [d]) == Keys(ds) + {d.key}
  {
    assert forall e :: e in ds + [d] <==> e in ds || e == d;
  }

  function Drain<K(==), E(==)>(s: Scheduler<K, E>, now: Time): (Scheduler<K, E>, seq<Discovered<K, E>>) {
    var due := s.pending[..Released(s, now)];
    (s.(pending := s.pending[|due|..], applied := s.applied + Keys(due)), due)
  }

  lemma StalledDrains<K, E>(s: Scheduler<K, E>, now: Time)
    requires s.policy.Stalled?
    ensures Drain(s, now) == (s, [])
  {
    var due := s.pending[..0];
    assert due == [] && s.pending[|due|..] == s.pending;
    assert Keys(due) == {} && s.applied + Keys(due) == s.applied;
    assert Drain(s, now).0 == s.(pending := s.pending[|due|..], applied := s.applied + Keys(due));
  }

  lemma {:induction false} DuePrefixIs<K, E>(due: seq<Discovered<K, E>>, later: seq<Discovered<K, E>>,
                                             lag: nat, now: Time)
    requires forall i | 0 <= i < |due| :: Due(due[i], lag, now)
    requires later != [] ==> !Due(later[0], lag, now)
    ensures DuePrefix(due + later, lag, now) == |due|
  {
    if due == [] {
      assert due + later == later;
    } else {
      assert (due + later)[1..] == due[1..] + later;
      DuePrefixIs(due[1..], later, lag, now);
    }
  }

  lemma DrainedIs<K, E>(s: Scheduler<K, E>, due: seq<Discovered<K, E>>, later: seq<Discovered<K, E>>, now: Time)
    requires s.policy.Fixed? && s.pending == due + later
    requires forall i | 0 <= i < |due| :: Due(due[i], s.policy.lag, now)
    requires later != [] ==> !Due(later[0], s.policy.lag, now)
    ensures Drain(s, now) == (s.(pending := later, applied := s.applied + Keys(due)), due)
  {
    DuePrefixIs(due, later, s.policy.lag, now);
    assert s.pending[..|due|] == due && s.pending[|due|..] == later;
  }

  // ----- Exactness of one drain -----

  /** The items that are due, in order: what a drain is meant to release. */
  function AllDue<K, E>(pending: seq<Discovered<K, E>>, lag: nat, now: Time): seq<Discovered<K, E>> {
    if pending == [] then []
    else (if Due(pending[0], lag, now) then [pending[0]] else []) + AllDue(pending[1..], lag, now)
  }

  lemma {:induction false} NothingDue<K, E>(pending: seq<Discovered<K, E>>, lag: nat, now: Time)
    ensures AllDue(pending, lag, now) == [] <==> forall d | d in pending :: !Due(d, lag, now)
  {
    if pending != [] {
      NothingDue(pending[1..], lag, now);
      assert pending == [pending[0]] + pending[1..];
    }
  }

  /** No due item waits behind one that is not due. */
  ghost predicate DueItemsLead<K(!new), E(!new)>(pending: seq<Discovered<K, E>>, lag: nat, now: Time) {
    forall i, j | 0 <= i < j < |pending| && Due(pending[j], lag, now) :: Due(pending[i], lag, now)
  }

  lemma DueItemsLeadPeeled<K(!new), E(!new)>(pending: seq<Discovered<K, E>>, lag: nat, now: Time)
    requires pending != []
    ensures DueItemsLead(pending, lag, now) <==>
            if Due(pending[0], lag, now) then DueItemsLead(pending[1..], lag, now)
            else forall d | d in pending[1..] :: !Due(d, lag, now)
  {
    var rest := pending[1..];
    assert forall i | 0 < i < |pending| :: pending[i] == rest[i - 1];
    assert forall i | 0 <= i < |rest| :: rest[i] == pending[i + 1];
  }

  /** A drain releases exactly the due items if and only if they lead. */
  lemma {:induction false} DrainIsExactIff<K(!new), E(!new)>(pending: seq<Discovered<K, E>>, lag: nat, now: Time)
    ensures pending[..DuePrefix(pending, lag, now)] == AllDue(pending, lag, now) <==> DueItemsLead(pending, lag, now)
  {
    if pending != [] {
      var rest := pending[1..];
      DueItemsLeadPeeled(pending, lag, now);
      NothingDue(rest, lag, now);
      if Due(pending[0], lag, now) {
        DrainIsExactIff(rest, lag, now);
        var n := DuePrefix(rest, lag, now);
        assert pending[..n + 1] == [pending[0]] + rest[..n];
        assert AllDue(pending, lag, now)[1..] == AllDue(rest, lag, now) && pending[..n + 1][1..] == rest[..n];
      }
    }
  }

  predicate InTimeOrder<K, E>(ds: seq<Discovered<K, E>>) {
    forall i, j | 0 <= i < j < |ds| :: ds[i].at <= ds[j].at
  }

  lemma InOrderDrainIsExact<K(!new), E(!new)>(pending: seq<Discovered<K, E>>, lag: nat, now: Time)
    requires InTimeOrder(pending)
    ensures pending[..DuePrefix(pending, lag, now)] == AllDue(pending, lag, now)
  {
    DrainIsExactIff(pending, lag, now);
  }

  // ----- Runs -----

  datatype Step<K, E> = Found(d: Discovered<K, E>) | DrainAt(now: Time) | SetPolicy(policy: LagPolicy)

  /** A scheduler with everything it has accepted and drained so far. */
  datatype Trace<K, E> = Trace(s: Scheduler<K, E>, accepted: seq<Discovered<K, E>>, drained: seq<Discovered<K, E>>)

  function Next<K(==), E(==)>(t: Trace<K, E>, step: Step<K, E>): Trace<K, E> {
    match step
    case Found(d) =>
      Trace(Discover(t.s, d), if Queues(t.s, d.key) then t.accepted + [d] else t.accepted, t.drained)
    case DrainAt(now) => var (after, due) := Drain(t.s, now); Trace(after, t.accepted, t.drained + due)
    case SetPolicy(policy) => t.(s := t.s.(policy := policy))
  }

  function Run<K(==), E(==)>(t: Trace<K, E>, steps: seq<Step<K, E>>): Trace<K, E>
    decreases |steps|
  {
    if steps == [] then t else Run(Next(t, steps[0]), steps[1..])
  }

  function Start<K, E>(policy: LagPolicy): Trace<K, E> {
    Trace(Scheduler(policy, [], {}), [], [])
  }

  ghost predicate DistinctKeys<K(!new), E(!new)>(ds: seq<Discovered<K, E>>) {
    forall i, j | 0 <= i < j < |ds| :: ds[i].key != ds[j].key
  }

  ghost predicate Inv<K(!new), E(!new)>(t: Trace<K, E>) {
    && t.accepted == t.drained + t.s.pending
    && DistinctKeys(t.accepted)
    && t.s.applied == Keys(t.drained)
  }

  lemma AcceptsNewKeys<K(!new), E(!new)>(t: Trace<K, E>, key: K)
    requires Inv(t)
    ensures Queues(t.s, key) <==> !HasKey(t.accepted, key)
  {
    assert forall d :: d in t.accepted <==> d in t.drained || d in t.s.pending;
  }

  lemma AppendDistinct<K(!new), E(!new)>(ds: seq<Discovered<K, E>>, d: Discovered<K, E>)
    requires DistinctKeys(ds) && !HasKey(ds, d.key)
    ensures DistinctKeys(ds + [d])
  {
    assert forall i | 0 <= i < |ds| :: ds[i] in ds;
  }

  lemma FoundKeepsInv<K(!new), E(!new)>(t: Trace<K, E>, d: Discovered<K, E>)
    requires Inv(t)
    ensures Inv(Next(t, Found(d)))
  {
    AcceptsNewKeys(t, d.key);
    if Queues(t.s, d.key) {
      AppendDistinct(t.accepted, d);
      assert t.drained + (t.s.pending + [d]) == t.accepted + [d];
    }
  }

  lemma DrainKeepsInv<K(!new), E(!new)>(t: Trace<K, E>, now: Time)
    requires Inv(t)
    ensures Inv(Next(t, DrainAt(now)))
  {
    var n := Released(t.s, now);
    var due := t.s.pending[..n];
    assert t.s.pending == due + t.s.pending[n..];
    KeysConcat(t.drained, due);
    assert (t.drained + due) + t.s.pending[n..] == t.drained + (due + t.s.pending[n..]);
  }

  lemma KeysConcat<K, E>(a: seq<Discovered<K, E>>, b: seq<Discovered<K, E>>)
    ensures Keys(a + b) == Keys(a) + Keys(b)
  {
    assert forall d :: d in a + b <==> d in a || d in b;
  }

  lemma NextKeepsInv<K(!new), E(!new)>(t: Trace<K, E>, step: Step<K, E>)
    requires Inv(t)
    ensures Inv(Next(t, step))
  {
    match step
    case Found(d) => FoundKeepsInv(t, d);
    case DrainAt(now) => DrainKeepsInv(t, now);
    case SetPolicy(_) =>
  }

  /** Conservation over every run: what was accepted is what was drained, in
      order, followed by what is pending; no key occurs twice in it, so none is
      drained twice and no pending one has been applied; and the applied set is
      exactly the drained keys, which is never forgotten. */
  lemma {:induction false} Conservation<K(!new), E(!new)>(t: Trace<K, E>, steps: seq<Step<K, E>>)
    requires Inv(t)
    ensures var end := Run(t, steps);
            && Inv(end)
            && Keys(end.s.pending) !! end.s.applied && DistinctKeys(end.s.pending) && DistinctKeys(end.drained)
            && t.drained <= end.drained && t.s.applied <= end.s.applied
    decreases |steps|
  {
    if steps != [] {
      NextKeepsInv(t, steps[0]);
      Conservation(Next(t, steps[0]), steps[1..]);
    } else {
      PendingDisjointFromApplied(t);
    }
  }

  lemma PendingDisjointFromApplied<K(!new), E(!new)>(t: Trace<K, E>)
    requires Inv(t)
    ensures Keys(t.s.pending) !! t.s.applied && DistinctKeys(t.s.pending) && DistinctKeys(t.drained)
  {
    var n := |t.drained|;
    assert forall i | 0 <= i < |t.s.pending| :: t.accepted[n + i] == t.s.pending[i];
    assert forall i | 0 <= i < n :: t.accepted[i] == t.drained[i];
  }

  // ----- What gets accepted does not depend on drains or policies -----

  /** The first discovery of every key, in order. */
  function FirstByKey<K(==), E(==)>(found: seq<Discovered<K, E>>): seq<Discovered<K, E>> {
    if found == [] then []
    else
      var before := FirstByKey(found[..|found| - 1]);
      var last := found[|found| - 1];
      if HasKey(before, last.key) then before else before + [last]
  }

  function FoundIn<K, E>(steps: seq<Step<K, E>>): seq<Discovered<K, E>> {
    if steps == [] then []
    else FoundIn(steps[..|steps| - 1]) + if steps[|steps| - 1].Found? then [steps[|steps| - 1].d] else []
  }

  lemma {:induction false} RunAppend<K, E>(t: Trace<K, E>, steps: seq<Step<K, E>>, last: Step<K, E>)
    ensures Run(t, steps + [last]) == Next(Run(t, steps), last)
    decreases |steps|
  {
    if steps == [] {
      assert [last][1..] == [] && steps + [last] == [last];
      assert Run(t, [last]) == Run(Next(t, last), []);
    } else {
      assert (steps + [last])[1..] == steps[1..] + [last];
      RunAppend(Next(t, steps[0]), steps[1..], last);
    }
  }

  /** Over every run, drains and policy changes included, the scheduler accepts
      exactly the first discovery of each key. */
  lemma {:induction false} AcceptsFirstOfEachKey<K(!new), E(!new)>(policy: LagPolicy, steps: seq<Step<K, E>>)
    ensures Inv(Run(Start(policy), steps))
    ensures Run(Start(policy), steps).accepted == FirstByKey(FoundIn(steps))
    decreases |steps|
  {
    if steps != [] {
      var front, last := steps[..|steps| - 1], steps[|steps| - 1];
      assert steps == front + [last];
      AcceptsFirstOfEachKey(policy, front);
      RunAppend(Start(policy), front, last);
      var before := Run(Start(policy), front);
      NextKeepsInv(before, last);
      if last.Found? {
        AcceptsNewKeys(before, last.d.key);
        assert FoundIn(steps)[..|FoundIn(steps)| - 1] == FoundIn(front);
      } else {
        assert FoundIn(steps) == FoundIn(front);
      }
    }
  }

  lemma {:induction false} FirstByKeyHasAll<K(!new), E(!new)>(found: seq<Discovered<K, E>>, key: K)
    ensures HasKey(FirstByKey(found), key) <==> HasKey(found, key)
  {
    if found != [] {
      var front, last := found[..|found| - 1], found[|found| - 1];
      FirstByKeyHasAll(found[..|found| - 1], key);
      assert found == front + [last];
      assert forall d :: d in found <==> d in front || d == last;
      var before := FirstByKey(front);
      assert forall d :: d in before + [last] <==> d in before || d == last;
      if last.key == key { assert last in found && last in before + [last]; }
    }
  }

  lemma {:induction false} FirstByKeyFrom<K(!new), E(!new)>(found: seq<Discovered<K, E>>)
    ensures forall d | d in FirstByKey(found) :: d in found
  {
    if found != [] {
      FirstByKeyFrom(found[..|found| - 1]);
      assert forall d | d in found[..|found| - 1] :: d in found;
    }
  }

  /** Replaying discoveries already made, at any later times and with any drains
      in between, queues nothing and eventually drains nothing new. */
  lemma {:induction false} ReplayIsIdempotent<K(!new), E(!new)>(t: Trace<K, E>, steps: seq<Step<K, E>>)
    requires Inv(t)
    requires forall step | step in steps && step.Found? :: HasKey(t.accepted, step.d.key)
    ensures Inv(Run(t, steps))
    ensures Run(t, steps).accepted == t.accepted
    decreases |steps|
  {
    if steps != [] {
      assert steps[0] in steps;
      NextKeepsInv(t, steps[0]);
      if steps[0].Found? { AcceptsNewKeys(t, steps[0].d.key); }
      ReplayIsIdempotent(Next(t, steps[0]), steps[1..]);
    }
  }

  // ----- Time -----

  /** Discovery times never go backward. */
  ghost predicate FoundInOrder<K(!new), E(!new)>(steps: seq<Step<K, E>>) {
    forall i, j | 0 <= i < j < |steps| && steps[i].Found? && steps[j].Found? :: steps[i].d.at <= steps[j].d.at
  }

  ghost predicate FoundFrom<K(!new), E(!new)>(ds: seq<Discovered<K, E>>, steps: seq<Step<K, E>>) {
    forall d, step | d in ds && step in steps && step.Found? :: d.at <= step.d.at
  }

  lemma NextInOrder<K(!new), E(!new)>(t: Trace<K, E>, step: Step<K, E>, rest: seq<Step<K, E>>)
    requires InTimeOrder(t.s.pending) && FoundFrom(t.s.pending, [step] + rest)
    requires step.Found? ==> forall later | later in rest && later.Found? :: step.d.at <= later.d.at
    ensures InTimeOrder(Next(t, step).s.pending) && FoundFrom(Next(t, step).s.pending, rest)
  {
    var pending := t.s.pending;
    assert step in [step] + rest && forall later | later in rest :: later in [step] + rest;
    assert forall i | 0 <= i < |pending| :: pending[i] in pending;
    match step
    case Found(d) =>
      assert forall e :: e in pending + [d] <==> e in pending || e == d;
    case DrainAt(now) =>
      var left := pending[Released(t.s, now)..];
      assert forall e | e in left :: e in pending;
    case SetPolicy(_) =>
  }

  lemma {:induction false} PendingInOrder<K(!new), E(!new)>(t: Trace<K, E>, steps: seq<Step<K, E>>)
    requires InTimeOrder(t.s.pending) && FoundInOrder(steps) && FoundFrom(t.s.pending, steps)
    ensures InTimeOrder(Run(t, steps).s.pending)
    decreases |steps|
  {
    if steps != [] {
      var rest := steps[1..];
      assert steps == [steps[0]] + rest;
      assert forall j | 0 <= j < |rest| :: rest[j] == steps[j + 1];
      NextInOrder(t, steps[0], rest);
      PendingInOrder(Next(t, steps[0]), rest);
    }
  }

  /** The same, told by the discoveries alone. */
  lemma {:induction false} FoundInOrderIf<K(!new), E(!new)>(steps: seq<Step<K, E>>)
    requires InTimeOrder(FoundIn(steps))
    ensures FoundInOrder(steps)
    ensures forall step | step in steps && step.Found? :: step.d in FoundIn(steps)
  {
    if steps != [] {
      var front, last := steps[..|steps| - 1], steps[|steps| - 1];
      var found := FoundIn(front);
      assert steps == front + [last];
      assert found == FoundIn(steps)[..|found|];
      FoundInOrderIf(front);
      forall i, j | 0 <= i < j < |steps| && steps[i].Found? && steps[j].Found?
        ensures steps[i].d.at <= steps[j].d.at {
        assert steps[i] == front[i] && front[i] in front;
        if j < |front| {
          assert steps[j] == front[j];
        } else {
          assert FoundIn(steps)[|found|] == last.d;
        }
      }
    }
  }

  /** The accepted discovery of a key comes from the first part that has it. */
  lemma {:induction false} FirstByKeyInFront<K(!new), E(!new)>(a: seq<Discovered<K, E>>, b: seq<Discovered<K, E>>,
                                                               key: K)
    requires HasKey(a, key)
    ensures forall d | d in FirstByKey(a + b) && d.key == key :: d in a
  {
    if b == [] {
      assert a + b == a;
      FirstByKeyFrom(a);
    } else {
      var front, last := b[..|b| - 1], b[|b| - 1];
      assert (a + b)[..|a + b| - 1] == a + front;
      FirstByKeyInFront(a, front, key);
      FirstByKeyHasAll(a + front, key);
      assert HasKey(a + front, key) by {
        var d :| d in a && d.key == key;
        assert d in a + front;
      }
    }
  }

  /** In every run whose discovery times do not go backward, the next drain
      under a fixed lag releases, in discovery order, exactly the pending items
      whose lag has passed, and keeps exactly the others. */
  lemma DrainsExactly<K(!new), E(!new)>(policy: LagPolicy, steps: seq<Step<K, E>>, lag: nat, now: Time)
    requires FoundInOrder(steps)
    ensures var t := Run(Start(policy), steps + [SetPolicy(Fixed(lag))]);
            var (after, due) := Drain(t.s, now);
            && due == AllDue(t.s.pending, lag, now) && due + after.pending == t.s.pending
            && (forall d | d in t.s.pending :: d in due <==> lag == 0 || d.at + lag <= now)
            && (forall d | d in t.s.pending :: d in after.pending <==> lag > 0 && now < d.at + lag)
  {
    var start: Trace<K, E> := Start(policy);
    PendingInOrder(start, steps);
    RunAppend(start, steps, SetPolicy(Fixed(lag)));
    var pending := Run(start, steps).s.pending;
    var n := DuePrefix(pending, lag, now);
    InOrderDrainIsExact(pending, lag, now);
    ReleasesByInstant(pending, lag, now);
    assert forall d :: d in pending <==> d in pending[..n] || d in pending[n..];
  }

  lemma ReleasesByInstant<K(!new), E(!new)>(pending: seq<Discovered<K, E>>, lag: nat, now: Time)
    requires InTimeOrder(pending)
    ensures var n := DuePrefix(pending, lag, now);
            && (forall d | d in pending[..n] :: lag == 0 || d.at + lag <= now)
            && (forall d | d in pending[n..] :: lag > 0 && now < d.at + lag)
            && pending[..n] + pending[n..] == pending
  {
    PrefixByInstant(pending, lag, now);
    var n := DuePrefix(pending, lag, now);
    assert n < |pending| ==> pending[n..][0] == pending[n];
    forall i | n <= i < |pending| ensures lag > 0 && now < pending[i].at + lag {
      assert pending[n].at <= pending[i].at;
    }
  }

  /** The lag has passed for everything released, and not for what comes next. */
  ghost predicate SplitByInstant<K, E>(due: seq<Discovered<K, E>>, later: seq<Discovered<K, E>>, lag: nat, now: Time) {
    && (forall i | 0 <= i < |due| :: lag == 0 || due[i].at + lag <= now)
    && (later != [] ==> lag > 0 && now < later[0].at + lag)
  }

  lemma DueByInstant<K, E>(due: seq<Discovered<K, E>>, later: seq<Discovered<K, E>>, lag: nat, now: Time)
    requires forall i | 0 <= i < |due| :: Due(due[i], lag, now)
    requires later != [] ==> !Due(later[0], lag, now)
    ensures SplitByInstant(due, later, lag, now)
  {
    forall i | 0 <= i < |due| ensures lag == 0 || due[i].at + lag <= now { DueIff(due[i], lag, now); }
    if later != [] { DueIff(later[0], lag, now); }
  }

  lemma PrefixByInstant<K, E>(pending: seq<Discovered<K, E>>, lag: nat, now: Time)
    ensures var n := DuePrefix(pending, lag, now);
            SplitByInstant(pending[..n], pending[n..], lag, now)
  {
    DuePrefixIsFirstStop(pending, lag, now);
    var n := DuePrefix(pending, lag, now);
    DueByInstant(pending[..n], pending[n..], lag, now);
  }

  /** Nothing waits for ever: once the lag has passed for everything pending, in
      whatever order it was discovered, one drain releases all of it, and then all
      that was ever accepted has been applied. */
  lemma EverythingLeaves<K(!new), E(!new)>(t: Trace<K, E>, lag: nat, now: Time)
    requires Inv(t) && forall d | d in t.s.pending :: d.at + lag <= now
    ensures var end := Run(t, [SetPolicy(Fixed(lag)), DrainAt(now)]);
            end.s.pending == [] && end.drained == t.accepted && end.s.applied == Keys(t.accepted)
  {
    var resumed := t.(s := t.s.(policy := Fixed(lag)));
    TwoSteps(t, SetPolicy(Fixed(lag)), DrainAt(now));
    forall d | d in t.s.pending ensures Due(d, lag, now) { DueIff(d, lag, now); }
    DrainsAllIff(t.s.pending, lag, now);
    DrainKeepsInv(resumed, now);
    assert t.s.pending[..|t.s.pending|] == t.s.pending;
  }

  lemma TwoSteps<K, E>(t: Trace<K, E>, a: Step<K, E>, b: Step<K, E>)
    ensures Run(t, [a, b]) == Next(Next(t, a), b)
  {
    RunAppend(t, [a], b);
    assert [a] + [b] == [a, b];
    RunAppend(t, [], a);
    assert [] + [a] == [a];
  }

  /** The catch-up burst: nothing leaves during a stall. When it ends, one drain
      releases the longest due prefix in discovery order; that is everything
      exactly when everything pending is old enough for the new lag. */
  lemma CatchUpBurst<K(!new), E(!new)>(t: Trace<K, E>, lag: nat, now: Time)
    requires Inv(t) && t.s.policy.Stalled?
    ensures Drain(t.s, now) == (t.s, [])
    ensures var burst := Run(t, [SetPolicy(Fixed(lag)), DrainAt(now)]);
            && burst.drained == t.drained + t.s.pending[..DuePrefix(t.s.pending, lag, now)]
            && burst.drained + burst.s.pending == t.accepted
            && (burst.s.pending == [] <==> lag == 0 || forall d | d in t.s.pending :: d.at + lag <= now)
  {
    StalledDrains(t.s, now);
    var resumed := t.(s := t.s.(policy := Fixed(lag)));
    TwoSteps(t, SetPolicy(Fixed(lag)), DrainAt(now));
    DrainKeepsInv(resumed, now);
    DrainsAllIff(t.s.pending, lag, now);
    forall d | d in t.s.pending ensures Due(d, lag, now) <==> lag == 0 || d.at + lag <= now { DueIff(d, lag, now); }
  }

  lemma DrainsAllIff<K(!new), E(!new)>(pending: seq<Discovered<K, E>>, lag: nat, now: Time)
    ensures DuePrefix(pending, lag, now) == |pending| <==> forall d | d in pending :: Due(d, lag, now)
  {
    DuePrefixIsFirstStop(pending, lag, now);
    var n := DuePrefix(pending, lag, now);
    if n < |pending| {
      assert pending[n] in pending;
    }
  }

  /** A stall that ends with an item younger than the new lag: the first drain
      after it does not release everything queued. */
  lemma YoungItemOutlivesTheStall(key: string, event: string)
    ensures var young := Discovered(key, event, 10);
            var t := Run(Start(Stalled), [Found(young), SetPolicy(Fixed(5))]);
            t.s.pending == [young] && Drain(t.s, 12).1 == [] && Drain(t.s, 15).1 == [young]
  {
    var young := Discovered(key, event, 10);
    var start: Trace<string, string> := Start(Stalled);
    TwoSteps(start, Found(young), SetPolicy(Fixed(5)));
    var t := Run(start, [Found(young), SetPolicy(Fixed(5))]);
    assert t.s.pending == [young];
    assert DuePrefix([young], 5, 12) == 0;
    assert DuePrefix([young], 5, 15) == 1 by { assert [young][1..] == []; }
    assert [young][..0] == [] && [young][..1] == [young];
  }

  /** Discovery times that go backward: an item as old as the lag stays queued
      behind one that is not. */
  lemma DueItemStaysBehind(first: string, second: string, event: string)
    requires first != second
    ensures var a, b := Discovered(first, event, 10), Discovered(second, event, 0);
            var t := Run(Start(Fixed(5)), [Found(a), Found(b)]);
            && t.s.pending == [a, b] && Due(b, 5, 5)
            && Drain(t.s, 5).1 == [] && AllDue(t.s.pending, 5, 5) == [b]
  {
    var a, b := Discovered(first, event, 10), Discovered(second, event, 0);
    var start: Trace<string, string> := Start(Fixed(5));
    TwoSteps(start, Found(a), Found(b));
    assert Next(start, Found(a)).s.pending == [a];
    assert Run(start, [Found(a), Found(b)]).s.pending == [a, b];
    OnlySecondDue(a, b, 5, 5);
  }

  lemma OnlySecondDue<K, E>(a: Discovered<K, E>, b: Discovered<K, E>, lag: nat, now: Time)
    requires !Due(a, lag, now) && Due(b, lag, now)
    ensures [a, b][..DuePrefix([a, b], lag, now)] == [] && AllDue([a, b], lag, now) == [b]
  {
    assert [a, b][1..] == [b] && [b][1..] == [];
    assert AllDue([b], lag, now) == [b] + AllDue([], lag, now);
  }

  /** What has been drained is never queued again. */
  lemma DrainedNeverRequeued<K(!new), E(!new)>(t: Trace<K, E>, steps: seq<Step<K, E>>, key: K)
    requires Inv(t) && key in t.s.applied
    ensures !Queues(Run(t, steps).s, key)
  {
    Conservation(t, steps);
  }

  // ----- The scheduler itself -----

  class LagScheduler<K(==), E(==)> {
    var policy: LagPolicy
    var pending: seq<Discovered<K, E>>
    var applied: set<K>

    function Abstract(): Scheduler<K, E>
      reads this
    {
      Scheduler(policy, pending, applied)
    }

    constructor (policy: LagPolicy)
      ensures Abstract() == Scheduler(policy, [], {})
    {
      this.policy, this.pending, this.applied := policy, [], {};
    }

    method SetLagPolicy(policy: LagPolicy)
      modifies this
      ensures Abstract() == old(Abstract()).(policy := policy)
    {
      this.policy := policy;
    }

    method DiscoverChange(key: K, event: E, at: Time) returns (queued: bool)
      modifies this
      ensures queued == Queues(old(Abstract()), key)
      ensures Abstract() == Discover(old(Abstract()), Discovered(key, event, at))
    {
      if key in applied {
        return false;
      }
      for i := 0 to |pending|
        invariant Abstract() == old(Abstract())
        invariant forall j | 0 <= j < i :: pending[j].key != key
      {
        if pending[i].key == key {
          assert pending[i] in pending;
          return false;
        }
      }
      pending := pending + [Discovered(key, event, at)];
      return true;
    }

    /** Pops due items off the front until the first that is not due. */
    method DrainDue(now: Time) returns (due: seq<Discovered<K, E>>)
      modifies this
      ensures (Abstract(), due) == Drain(old(Abstract()), now)
      ensures policy == old(policy) && due + pending == old(pending)
      ensures if policy.Stalled? then due == [] else SplitByInstant(due, pending, policy.lag, now)
    {
      due := [];
      if policy.Stalled? {
        StalledDrains(Abstract(), now);
        return;
      }
      while pending != [] && Age(pending[0].at, now) >= policy.lag
        invariant policy == old(policy) && old(pending) == due + pending
        invariant applied == old(applied) + Keys(due)
        invariant forall i | 0 <= i < |due| :: Due(due[i], policy.lag, now)
        decreases |pending|
      {
        var item := pending[0];
        pending := pending[1..];
        applied := applied + {item.key};
        KeysAppend(due, item);
        due := due + [item];
      }
      DrainedIs(old(Abstract()), due, pending, now);
      DueByInstant(due, pending, policy.lag, now);
    }

    method OldestPendingAge(now: Time) returns (age: Option<nat>)
      ensures age.None? <==> pending == []
      ensures InTimeOrder(pending) ==> forall d | d in pending :: age.Some? && now - d.at <= age.value
      ensures age.Some? ==> exists d :: d in pending && Age(d.at, now) == age.value
    {
      if pending == [] {
        return None;
      }
      assert pending[0] in pending;
      return Some(Age(pending[0].at, now));
    }
  }
}
