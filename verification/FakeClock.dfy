/** A fake clock: one atomic word moved by compare-exchange loops of any number
    of threads, and sleepers woken by a notification sent after each move. */
module FakeClock {
  import opened Base

  // ----- What one operation does, had it run alone -----

  datatype ClockOp = Advance(delta: u64) | SetTo(target: u64)

  /** What a caller asks for: a duration of any length, or an instant (in
      nanoseconds after the epoch) anywhere on the time line. */
  datatype Call = AdvanceCall(delta: nat) | SetCall(instant: int)

  /** Instants clamp to the representable range. */
  function TimeToNanos(instant: int): u64 {
    if instant < 0 then 0 else Min(instant, U64_MAX)
  }

  /** Durations beyond 64 bits of nanoseconds are clamped too. */
  function OpOf(call: Call): ClockOp {
    match call
    case AdvanceCall(delta) => Advance(Min(delta, U64_MAX))
    case SetCall(instant) => SetTo(TimeToNanos(instant))
  }

  function Distance(a: int, b: int): nat {
    if a <= b then b - a else a - b
  }

  /** No representable instant is nearer to the one asked for. */
  lemma ClampIsNearest(instant: int, other: u64)
    ensures Distance(instant, TimeToNanos(instant)) <= Distance(instant, other)
    ensures 0 <= instant <= U64_MAX ==> TimeToNanos(instant) == instant
  {
  }

  predicate Refuses(op: ClockOp, now: u64) {
    op.SetTo? && op.target < now
  }

  function Effect(op: ClockOp, now: u64): u64 {
    match op
    case Advance(delta) => SaturatingAdd(now, delta)
    case SetTo(target) => if target < now then now else target
  }

  function Replay(start: u64, log: seq<ClockOp>): u64 {
    if log == [] then start else Effect(log[|log| - 1], Replay(start, log[..|log| - 1]))
  }

  function Delta(op: ClockOp): nat {
    if op.Advance? then op.delta else 0
  }

  function Total(log: seq<ClockOp>): nat {
    if log == [] then 0 else Total(log[..|log| - 1]) + Delta(log[|log| - 1])
  }

  predicate OnlyAdvances(log: seq<ClockOp>) {
    forall op | op in log :: op.Advance?
  }

  lemma {:induction false} ReplayConcat(start: u64, a: seq<ClockOp>, b: seq<ClockOp>)
    ensures Replay(start, a + b) == Replay(Replay(start, a), b)
  {
    if b == [] {
      assert a + b == a;
    } else {
      assert (a + b)[..|a + b| - 1] == a + b[..|b| - 1];
      ReplayConcat(start, a, b[..|b| - 1]);
    }
  }

  /** Time never goes backward. */
  lemma {:induction false} ReplayGrows(start: u64, log: seq<ClockOp>)
    ensures Replay(start, log) >= start
  {
    if log != [] {
      ReplayGrows(start, log[..|log| - 1]);
    }
  }

  /** Advances compose to one saturating addition, so their order is irrelevant. */
  lemma {:induction false} AdvancesCompose(start: u64, log: seq<ClockOp>)
    requires OnlyAdvances(log)
    ensures Replay(start, log) == Min(start + Total(log), U64_MAX)
  {
    if log != [] {
      AdvancesCompose(start, log[..|log| - 1]);
      assert log[|log| - 1] in log;
    }
  }

  // ----- Threads and sleepers -----

  /** A thread inside `advance` or `set`. `began` and `at` are positions in the
      clock's history: where the call started, and where `seen` was read. */
  datatype Thread =
    | Idle
    | Starting(op: ClockOp, began: nat)
    | Loaded(op: ClockOp, began: nat, seen: u64, at: nat)
    | OwesNotify

  /** A sleeper with the notification version it has seen. */
  datatype Sleeper =
    | Absent
    | Checking(deadline: int, version: nat)
    | Parked(deadline: int, version: nat)
    | Finished(deadline: int)

  datatype Refusal = Refusal(target: u64, reported: u64, began: nat)

  /** The clock's word is the last entry of `history`; `log` lists the
      operations that moved it. */
  datatype State = State(history: seq<u64>, log: seq<ClockOp>, version: nat, refusals: seq<Refusal>,
                         threads: seq<Thread>, sleepers: seq<Sleeper>)

  datatype Step =
    | Begin(t: nat, call: Call)
    | Load(t: nat)
    | Attempt(t: nat)
    | Notify(t: nat)
    | Subscribe(z: nat, deadline: int)
    | Check(z: nat)
    | Wake(z: nat)

  function Now(s: State): u64
    requires s.history != []
  {
    s.history[|s.history| - 1]
  }

  function AttemptBy(s: State, t: nat): State
    requires s.history != [] && t < |s.threads| && s.threads[t].Loaded?
  {
    var Loaded(op, began, seen, _) := s.threads[t];
    if Refuses(op, seen) then
      s.(refusals := s.refusals + [Refusal(op.target, seen, began)], threads := s.threads[t := Idle])
    else if Now(s) == seen then
      s.(history := s.history + [Effect(op, seen)], log := s.log + [op], threads := s.threads[t := OwesNotify])
    else
      s.(threads := s.threads[t := Loaded(op, began, Now(s), |s.history| - 1)])
  }

  /** A step that is not enabled leaves the state alone. */
  function Next(s: State, step: Step): State
    requires s.history != []
  {
    match step
    case Begin(t, call) =>
      if t < |s.threads| && s.threads[t].Idle?
      then s.(threads := s.threads[t := Starting(OpOf(call), |s.history| - 1)]) else s
    case Load(t) =>
      if t < |s.threads| && s.threads[t].Starting?
      then s.(threads := s.threads[t := Loaded(s.threads[t].op, s.threads[t].began, Now(s), |s.history| - 1)]) else s
    case Attempt(t) =>
      if t < |s.threads| && s.threads[t].Loaded? then AttemptBy(s, t) else s
    case Notify(t) =>
      if t < |s.threads| && s.threads[t].OwesNotify?
      then s.(version := s.version + 1, threads := s.threads[t := Idle]) else s
    case Subscribe(z, deadline) =>
      if z < |s.sleepers| && s.sleepers[z].Absent?
      then s.(sleepers := s.sleepers[z := Checking(deadline, s.version)]) else s
    case Check(z) =>
      if z < |s.sleepers| && s.sleepers[z].Checking? then
        var Checking(deadline, version) := s.sleepers[z];
        s.(sleepers := s.sleepers[z := if Now(s) < deadline then Parked(deadline, version) else Finished(deadline)])
      else s
    case Wake(z) =>
      if z < |s.sleepers| && s.sleepers[z].Parked? && s.sleepers[z].version != s.version
      then s.(sleepers := s.sleepers[z := Checking(s.sleepers[z].deadline, s.version)]) else s
  }

  function Run(s: State, steps: seq<Step>): (r: State)
    requires s.history != []
    ensures r.history != []
    decreases |steps|
  {
    if steps == [] then s else Run(Next(s, steps[0]), steps[1..])
  }

  ghost predicate Initial(start: u64, s: State) {
    && s.history == [start] && s.log == [] && s.refusals == []
    && (forall t | t in s.threads :: t.Idle?)
    && (forall z | z in s.sleepers :: z.Absent?)
  }

  // ----- The invariant -----

  /** Every move took the operation's sequential effect on the value before it. */
  ghost predicate Linear(s: State) {
    && |s.history| == |s.log| + 1
    && forall i | 0 <= i < |s.log| ::
         !Refuses(s.log[i], s.history[i]) && s.history[i + 1] == Effect(s.log[i], s.history[i])
  }

  ghost predicate ThreadSound(s: State, t: Thread) {
    match t
    case Starting(_, began) => began < |s.history|
    case Loaded(_, began, seen, at) => began <= at < |s.history| && seen == s.history[at]
    case _ => true
  }

  /** A refused set reported a value that the clock had during the call. */
  ghost predicate RefusalSound(s: State, r: Refusal) {
    r.target < r.reported && exists i: nat :: r.began <= i < |s.history| && s.history[i] == r.reported
  }

  predicate SomeoneOwes(s: State) {
    exists t :: t in s.threads && t.OwesNotify?
  }

  /** No lost wakeup: a sleeper that waits past its deadline has a notification
      it has not seen, or some thread is still to send one. */
  ghost predicate SleeperSound(s: State, z: Sleeper)
    requires s.history != []
  {
    match z
    case Parked(deadline, version) =>
      version <= s.version && (deadline <= Now(s) ==> version < s.version || SomeoneOwes(s))
    case Checking(_, version) => version <= s.version
    case Finished(deadline) => deadline <= Now(s)
    case Absent => true
  }

  ghost predicate Inv(s: State) {
    && Linear(s)
    && (forall t | t in s.threads :: ThreadSound(s, t))
    && (forall r | r in s.refusals :: RefusalSound(s, r))
    && (forall z | z in s.sleepers :: SleeperSound(s, z))
  }

  lemma HistoryGrows(s: State, i: nat, j: nat)
    requires Linear(s) && i <= j < |s.history|
    ensures s.history[i] <= s.history[j]
    decreases j - i
  {
    if i < j {
      HistoryGrows(s, i, j - 1);
      assert s.history[(j - 1) + 1] == Effect(s.log[j - 1], s.history[j - 1]);
    }
  }

  lemma MoveKeepsInv(s: State, t: nat)
    requires Inv(s) && t < |s.threads| && s.threads[t].Loaded?
    requires !Refuses(s.threads[t].op, s.threads[t].seen) && Now(s) == s.threads[t].seen
    ensures Inv(AttemptBy(s, t))
  {
    var after := AttemptBy(s, t);
    assert s.history <= after.history;
    forall i | 0 <= i < |after.log|
      ensures !Refuses(after.log[i], after.history[i])
      ensures after.history[i + 1] == Effect(after.log[i], after.history[i]) {
      if i < |s.log| { assert s.history[i + 1] == Effect(s.log[i], s.history[i]); }
    }
    forall u | u in after.threads ensures ThreadSound(after, u) {
      if u != OwesNotify { assert u in s.threads; }
    }
    forall r | r in after.refusals ensures RefusalSound(after, r) {
      var i: nat :| r.began <= i < |s.history| && s.history[i] == r.reported;
      assert after.history[i] == r.reported;
    }
    assert after.threads[t] in after.threads;
    assert SomeoneOwes(after);
    forall z | z in after.sleepers ensures SleeperSound(after, z) {
      assert SleeperSound(s, z);
    }
  }

  lemma AttemptKeepsInv(s: State, t: nat)
    requires Inv(s) && t < |s.threads| && s.threads[t].Loaded?
    ensures Inv(AttemptBy(s, t))
  {
    var Loaded(op, began, seen, at) := s.threads[t];
    assert s.threads[t] in s.threads;
    if !Refuses(op, seen) && Now(s) == seen {
      MoveKeepsInv(s, t);
    } else {
      var after := AttemptBy(s, t);
      forall u | u in after.threads ensures ThreadSound(after, u) {
        if u != after.threads[t] { assert u in s.threads; }
      }
      forall r | r in after.refusals ensures RefusalSound(after, r) {
        if r in s.refusals { assert RefusalSound(s, r); } else { assert s.history[at] == r.reported; }
      }
      OwingStays(s, after, t);
      forall z | z in after.sleepers ensures SleeperSound(after, z) {
        assert SleeperSound(s, z);
      }
    }
  }

  /** Replacing a thread that owes nothing loses no debt. */
  lemma OwingStays(s: State, after: State, t: nat)
    requires t < |s.threads| == |after.threads| && !s.threads[t].OwesNotify?
    requires forall i | 0 <= i < |s.threads| && i != t :: after.threads[i] == s.threads[i]
    ensures SomeoneOwes(s) ==> SomeoneOwes(after)
  {
    if SomeoneOwes(s) {
      var i :| 0 <= i < |s.threads| && s.threads[i].OwesNotify?;
      assert after.threads[i] in after.threads;
    }
  }

  lemma ThreadStepKeepsInv(s: State, t: nat, u: Thread)
    requires Inv(s) && t < |s.threads| && !s.threads[t].OwesNotify? && ThreadSound(s, u)
    ensures Inv(s.(threads := s.threads[t := u]))
  {
    var after := s.(threads := s.threads[t := u]);
    forall v | v in after.threads ensures ThreadSound(after, v) {
      if v != u { assert v in s.threads; }
    }
    OwingStays(s, after, t);
    assert forall r | r in s.refusals :: RefusalSound(s, r) ==> RefusalSound(after, r);
    forall z | z in after.sleepers ensures SleeperSound(after, z) {
      assert SleeperSound(s, z);
    }
  }

  lemma NotifyKeepsInv(s: State, t: nat)
    requires Inv(s) && t < |s.threads|
    ensures Inv(s.(version := s.version + 1, threads := s.threads[t := Idle]))
  {
    var after := s.(version := s.version + 1, threads := s.threads[t := Idle]);
    forall v | v in after.threads ensures ThreadSound(after, v) {
      if v != Idle { assert v in s.threads; }
    }
    assert forall r | r in s.refusals :: RefusalSound(s, r) ==> RefusalSound(after, r);
    forall z | z in after.sleepers ensures SleeperSound(after, z) {
      assert SleeperSound(s, z);
    }
  }

  lemma SleeperStepKeepsInv(s: State, z: nat, next: Sleeper)
    requires Inv(s) && z < |s.sleepers| && SleeperSound(s, next)
    ensures Inv(s.(sleepers := s.sleepers[z := next]))
  {
    var after := s.(sleepers := s.sleepers[z := next]);
    assert SomeoneOwes(after) == SomeoneOwes(s);
    assert forall r | r in s.refusals :: RefusalSound(s, r) ==> RefusalSound(after, r);
    forall y | y in after.sleepers ensures SleeperSound(after, y) {
      assert SleeperSound(s, y) by { if y != next { assert y in s.sleepers; } }
    }
  }

  lemma NextKeepsInv(s: State, step: Step)
    requires Inv(s)
    ensures Inv(Next(s, step))
  {
    match step
    case Begin(t, call) =>
      if t < |s.threads| && s.threads[t].Idle? {
        ThreadStepKeepsInv(s, t, Starting(OpOf(call), |s.history| - 1));
      }
    case Load(t) =>
      if t < |s.threads| && s.threads[t].Starting? {
        assert s.threads[t] in s.threads;
        ThreadStepKeepsInv(s, t, Loaded(s.threads[t].op, s.threads[t].began, Now(s), |s.history| - 1));
      }
    case Attempt(t) =>
      if t < |s.threads| && s.threads[t].Loaded? {
        AttemptKeepsInv(s, t);
      }
    case Notify(t) =>
      if t < |s.threads| {
        NotifyKeepsInv(s, t);
      }
    case Subscribe(z, deadline) =>
      if z < |s.sleepers| && s.sleepers[z].Absent? {
        SleeperStepKeepsInv(s, z, Checking(deadline, s.version));
      }
    case Check(z) =>
      if z < |s.sleepers| && s.sleepers[z].Checking? {
        assert SleeperSound(s, s.sleepers[z]);
        SleeperStepKeepsInv(s, z, Next(s, step).sleepers[z]);
      }
    case Wake(z) =>
      if z < |s.sleepers| && s.sleepers[z].Parked? {
        SleeperStepKeepsInv(s, z, Checking(s.sleepers[z].deadline, s.version));
      }
  }

  lemma {:induction false} RunKeepsInv(s: State, steps: seq<Step>)
    requires Inv(s)
    ensures Inv(Run(s, steps)) && s.history <= Run(s, steps).history
    decreases |steps|
  {
    if steps != [] {
      NextKeepsInv(s, steps[0]);
      RunKeepsInv(Next(s, steps[0]), steps[1..]);
    }
  }

  lemma InitialInv(start: u64, s: State)
    requires Initial(start, s)
    ensures Inv(s)
  {
  }

  // ----- Linearizability -----

  lemma {:induction false} HistoryReplays(s: State, n: nat)
    requires Linear(s) && n <= |s.log|
    ensures s.history[n] == Replay(s.history[0], s.log[..n])
  {
    if n > 0 {
      HistoryReplays(s, n - 1);
      assert s.log[..n][..n - 1] == s.log[..n - 1];
    }
  }

  /** An exchange that fails changes nothing the others can see. */
  ghost predicate FailsSilently(s: State, t: nat)
    requires s.history != [] && t < |s.threads|
  {
    var after := Next(s, Attempt(t));
    after.log == s.log ==>
      && after.history == s.history
      && after.version == s.version
      && after.sleepers == s.sleepers
  }

  /** Whatever the interleaving: the clock reads as if the operations that moved
      it had run one after another, its value never goes backward along the run,
      an attempt that does not move it has no effect on the others, and a refused
      set reported a value later than its target that the clock really had during
      the call, and which it never falls below again. */
  lemma Linearizable(start: u64, s: State, steps: seq<Step>)
    requires Initial(start, s)
    ensures var end := Run(s, steps);
            && Now(end) == Replay(start, end.log)
            && (forall i, j | 0 <= i <= j < |end.history| :: end.history[i] <= end.history[j])
            && (forall r | r in end.refusals :: RefusalSound(end, r) && r.target < Now(end))
            && (forall t | 0 <= t < |end.threads| :: FailsSilently(end, t))
  {
    InitialInv(start, s);
    RunKeepsInv(s, steps);
    var end := Run(s, steps);
    HistoryReplays(end, |end.log|);
    assert end.log[..|end.log|] == end.log;
    forall i, j | 0 <= i <= j < |end.history| ensures end.history[i] <= end.history[j] {
      HistoryGrows(end, i, j);
    }
    forall r | r in end.refusals ensures r.target < Now(end) {
      assert RefusalSound(end, r);
    }
  }

  /** Lock freedom: an attempt that must retry was overtaken by a completed move
      after its read, so the word kept moving. */
  lemma RetryMeansProgress(s: State, t: nat)
    requires Inv(s) && t < |s.threads| && s.threads[t].Loaded? && Next(s, Attempt(t)).threads[t].Loaded?
    ensures s.threads[t].at < |s.log| && s.threads[t].seen < Now(s)
  {
    assert s.threads[t] in s.threads;
    HistoryGrows(s, s.threads[t].at, |s.history| - 1);
  }

  /** A call that is left alone finishes: from any reachable state, whatever it has
      read before, a read and two attempts complete it. It has then moved the clock
      by its sequential effect, or been refused by the value shown. */
  lemma LeftAloneFinishes(s: State, t: nat)
    requires Inv(s) && t < |s.threads| && (s.threads[t].Starting? || s.threads[t].Loaded?)
    ensures var op := s.threads[t].op;
            var end := Next(Next(Next(s, Load(t)), Attempt(t)), Attempt(t));
            if Refuses(op, Now(s)) then
              end.threads == s.threads[t := Idle] && end.history == s.history && |end.refusals| == |s.refusals| + 1
            else end.threads == s.threads[t := OwesNotify] && end.history == s.history + [Effect(op, Now(s))]
                 && end.log == s.log + [op]
  {
    assert s.threads[t] in s.threads;
    if s.threads[t].Loaded? {
      HistoryGrows(s, s.threads[t].at, |s.history| - 1);
    }
  }

  // ----- Conservation of advances -----

  function Pending(threads: seq<Thread>): nat {
    if threads == [] then 0
    else
      var last := threads[|threads| - 1];
      Pending(threads[..|threads| - 1]) + if last.Starting? || last.Loaded? then Delta(last.op) else 0
  }

  function Owed(t: Thread): nat {
    if t.Starting? || t.Loaded? then Delta(t.op) else 0
  }

  lemma {:induction false} PendingUpdate(threads: seq<Thread>, t: nat, u: Thread)
    requires t < |threads|
    ensures Pending(threads[t := u]) + Owed(threads[t]) == Pending(threads) + Owed(u)
  {
    var n := |threads| - 1;
    if t < n {
      assert threads[t := u][..n] == threads[..n][t := u];
      PendingUpdate(threads[..n], t, u);
    } else {
      assert threads[t := u][..n] == threads[..n];
    }
  }

  predicate Begins(s: State, step: Step) {
    step.Begin? && step.t < |s.threads| && s.threads[step.t].Idle?
  }

  /** The time asked for by the calls that start during a run, as they ask for it. */
  function Requested(s: State, steps: seq<Step>): nat
    requires s.history != []
    decreases |steps|
  {
    if steps == [] then 0
    else
      (if Begins(s, steps[0]) && steps[0].call.AdvanceCall? then steps[0].call.delta else 0) +
      Requested(Next(s, steps[0]), steps[1..])
  }

  /** The same after each duration has been clamped. */
  function Clamped(s: State, steps: seq<Step>): nat
    requires s.history != []
    decreases |steps|
  {
    if steps == [] then 0
    else (if Begins(s, steps[0]) then Delta(OpOf(steps[0].call)) else 0) + Clamped(Next(s, steps[0]), steps[1..])
  }

  /** Clamping a duration shows only where the clock is at its end anyway. */
  lemma {:induction false} ClampingIsHidden(s: State, steps: seq<Step>)
    requires s.history != []
    ensures Clamped(s, steps) == Requested(s, steps) || U64_MAX <= Clamped(s, steps) <= Requested(s, steps)
    decreases |steps|
  {
    if steps != [] {
      ClampingIsHidden(Next(s, steps[0]), steps[1..]);
    }
  }

  ghost predicate AdvancesOnly(s: State) {
    OnlyAdvances(s.log) && forall t | t in s.threads && (t.Starting? || t.Loaded?) :: t.op.Advance?
  }

  lemma StepConserves(s: State, step: Step)
    requires Inv(s) && AdvancesOnly(s) && (step.Begin? ==> step.call.AdvanceCall?)
    ensures AdvancesOnly(Next(s, step))
    ensures Total(Next(s, step).log) + Pending(Next(s, step).threads) ==
            Total(s.log) + Pending(s.threads) + Clamped(s, [step])
  {
    match step
    case Begin(t, _) =>
      if t < |s.threads| && s.threads[t].Idle? {
        PendingUpdate(s.threads, t, Next(s, step).threads[t]);
      }
    case Load(t) =>
      if t < |s.threads| && s.threads[t].Starting? {
        assert s.threads[t] in s.threads;
        PendingUpdate(s.threads, t, Next(s, step).threads[t]);
      }
    case Attempt(t) =>
      if t < |s.threads| && s.threads[t].Loaded? { AttemptConserves(s, t); }
    case Notify(t) =>
      if t < |s.threads| { PendingUpdate(s.threads, t, Idle); }
    case _ =>
  }

  lemma AttemptConserves(s: State, t: nat)
    requires Inv(s) && AdvancesOnly(s) && t < |s.threads| && s.threads[t].Loaded?
    ensures AdvancesOnly(AttemptBy(s, t))
    ensures Total(AttemptBy(s, t).log) + Pending(AttemptBy(s, t).threads) == Total(s.log) + Pending(s.threads)
  {
    var after := AttemptBy(s, t);
    assert s.threads[t] in s.threads;
    PendingUpdate(s.threads, t, after.threads[t]);
    if after.log != s.log {
      assert after.log[..|after.log| - 1] == s.log;
    }
  }

  lemma {:induction false} RunConserves(s: State, steps: seq<Step>)
    requires Inv(s) && AdvancesOnly(s)
    requires forall step | step in steps && step.Begin? :: step.call.AdvanceCall?
    ensures AdvancesOnly(Run(s, steps))
    ensures Total(Run(s, steps).log) + Pending(Run(s, steps).threads) ==
            Total(s.log) + Pending(s.threads) + Clamped(s, steps)
    decreases |steps|
  {
    if steps != [] {
      assert steps[0] in steps;
      NextKeepsInv(s, steps[0]);
      StepConserves(s, steps[0]);
      RunConserves(Next(s, steps[0]), steps[1..]);
      assert [steps[0]][1..] == [];
    }
  }

  lemma {:induction false} NothingPending(threads: seq<Thread>)
    requires forall t | t in threads :: Owed(t) == 0
    ensures Pending(threads) == 0
  {
    if threads != [] {
      NothingPending(threads[..|threads| - 1]);
      assert threads[|threads| - 1] in threads;
    }
  }

  /** When only advances ran and all of them have landed, the clock shows the
      start plus every nanosecond the callers asked for, capped once, in any
      interleaving and for durations of any length. */
  lemma EveryNanosecondCounts(start: u64, s: State, steps: seq<Step>)
    requires Initial(start, s)
    requires forall step | step in steps && step.Begin? :: step.call.AdvanceCall?
    requires forall t | t in Run(s, steps).threads :: t.Idle? || t.OwesNotify?
    ensures Now(Run(s, steps)) == Min(start + Requested(s, steps), U64_MAX)
  {
    Linearizable(start, s, steps);
    InitialInv(start, s);
    RunConserves(s, steps);
    NothingPending(s.threads);
    NothingPending(Run(s, steps).threads);
    AdvancesCompose(start, Run(s, steps).log);
    ClampingIsHidden(s, steps);
  }

  // ----- Wakeups -----

  /** No wakeup is lost in any interleaving, and no sleeper finishes early. */
  lemma NoLostWakeup(start: u64, s: State, steps: seq<Step>)
    requires Initial(start, s)
    ensures var end := Run(s, steps);
            && (forall z | z in end.sleepers && z.Parked? && z.deadline <= Now(end) ::
                  z.version < end.version || SomeoneOwes(end))
            && (forall z | z in end.sleepers && z.Finished? :: z.deadline <= Now(end))
  {
    InitialInv(start, s);
    RunKeepsInv(s, steps);
    forall z | z in Run(s, steps).sleepers
      ensures z.Parked? && z.deadline <= Now(Run(s, steps)) ==>
                z.version < Run(s, steps).version || SomeoneOwes(Run(s, steps))
      ensures z.Finished? ==> z.deadline <= Now(Run(s, steps)) {
      assert SleeperSound(Run(s, steps), z);
    }
  }

  /** Once all notifications are out, a sleeper whose deadline has been reached
      finishes within two steps of its own, whatever it was doing. */
  lemma ReachedSleeperFinishes(s: State, z: nat)
    requires Inv(s) && !SomeoneOwes(s)
    requires z < |s.sleepers| && !s.sleepers[z].Absent? && s.sleepers[z].deadline <= Now(s)
    ensures z < |Run(s, [Wake(z), Check(z)]).sleepers|
    ensures Run(s, [Wake(z), Check(z)]).sleepers[z] == Finished(s.sleepers[z].deadline)
  {
    assert SleeperSound(s, s.sleepers[z]);
    var woken := Next(s, Wake(z));
    var steps := [Wake(z), Check(z)];
    assert steps[1..] == [Check(z)];
    assert Run(woken, [Check(z)]) == Next(woken, Check(z)) by {
      assert [Check(z)][1..] == [];
      assert Run(Next(woken, Check(z)), []) == Next(woken, Check(z));
    }
    assert Run(s, steps) == Run(woken, [Check(z)]);
  }

  // ----- The clock as its callers see it -----

  function Flatten(landed: seq<seq<ClockOp>>): seq<ClockOp> {
    if landed == [] then [] else Flatten(landed[..|landed| - 1]) + landed[|landed| - 1]
  }

  lemma FlattenNext(landed: seq<seq<ClockOp>>, i: nat)
    requires i < |landed|
    ensures Flatten(landed[..i + 1]) == Flatten(landed[..i]) + landed[i]
  {
    assert landed[..i + 1][..i] == landed[..i];
  }

  lemma ReplayNext(start: u64, log: seq<ClockOp>, op: ClockOp)
    ensures Replay(start, log + [op]) == Effect(op, Replay(start, log))
  {
    assert (log + [op])[..|log|] == log;
  }

  /** The log grew by the first `k` batches of the others, then by `own`. */
  ghost predicate Lands(before: seq<ClockOp>, after: seq<ClockOp>, others: seq<seq<ClockOp>>, k: nat,
                        own: seq<ClockOp>) {
    k <= |others| && after == before + Flatten(others[..k]) + own
  }

  /** The batch that lands during attempt `i`, none after the last. */
  function LandedAt(others: seq<seq<ClockOp>>, i: nat): seq<ClockOp> {
    if i < |others| then others[i] else []
  }

  lemma BatchLands(before: seq<ClockOp>, log: seq<ClockOp>, others: seq<seq<ClockOp>>, i: nat, own: seq<ClockOp>)
    requires Lands(before, log, others, i, [])
    ensures var next := if i < |others| then i + 1 else i;
            && Lands(before, log + LandedAt(others, i), others, next, [])
            && Lands(before, log + LandedAt(others, i) + own, others, next, own)
  {
    if i < |others| {
      FlattenNext(others, i);
    }
  }

  lemma LandedValue(start: u64, before: seq<ClockOp>, after: seq<ClockOp>, others: seq<seq<ClockOp>>, k: nat,
                    op: ClockOp)
    requires Lands(before, after, others, k, [op])
    ensures Replay(start, after) == Effect(op, Replay(Replay(start, before), Flatten(others[..k])))
  {
    ReplayNext(start, before + Flatten(others[..k]), op);
    ReplayConcat(start, before, Flatten(others[..k]));
  }

  /** One thread's view. `others[i]` is what other threads land between this
      thread's i-th read of the word and its compare-exchange. */
  class FakeClock {
    var nanos: u64
    var ticks: nat
    const start: u64
    ghost var log: seq<ClockOp>

    ghost predicate Valid()
      reads this
    {
      nanos == Replay(start, log)
    }

    constructor (instant: int)
      ensures Valid() && log == [] && nanos == TimeToNanos(instant)
      ensures 0 <= instant <= U64_MAX ==> nanos == instant
    {
      start := TimeToNanos(instant);
      nanos := TimeToNanos(instant);
      ticks := 0;
      log := [];
    }

    method Land(ops: seq<ClockOp>)
      requires Valid()
      modifies this`nanos, this`log
      ensures Valid() && log == old(log) + ops && nanos >= old(nanos)
      ensures ops == [] ==> nanos == old(nanos)
    {
      for i := 0 to |ops|
        invariant Valid() && log == old(log) + ops[..i] && nanos >= old(nanos)
        invariant i == 0 ==> nanos == old(nanos)
      {
        ReplayNext(start, log, ops[i]);
        nanos := Effect(ops[i], nanos);
        log := log + [ops[i]];
      }
    }

    /** The others' moves land, then the word is exchanged if it still holds what
        was read. */
    method CompareExchange(expected: u64, next: u64, ghost op: ClockOp, landed: seq<ClockOp>) returns (won: bool)
      requires Valid() && !Refuses(op, expected) && next == Effect(op, expected)
      modifies this`nanos, this`log
      ensures Valid() && nanos >= old(nanos)
      ensures won ==> log == old(log) + landed + [op] && nanos == next
      ensures !won ==> log == old(log) + landed
      ensures landed == [] && old(nanos) == expected ==> won
    {
      Land(landed);
      if nanos != expected {
        return false;
      }
      ReplayNext(start, log, op);
      nanos := next;
      log := log + [op];
      return true;
    }

    /** Adds the whole duration to whatever the word holds when the exchange
        succeeds; alone, it moves the clock by exactly what was asked for. */
    method AdvanceClock(delta: nat, others: seq<seq<ClockOp>>) returns (now: u64)
      requires Valid()
      modifies this
      ensures Valid() && now == nanos && ticks == old(ticks) + 1
      ensures exists k: nat ::
                && Lands(old(log), log, others, k, [OpOf(AdvanceCall(delta))])
                && now == Min(Replay(old(nanos), Flatten(others[..k])) + delta, U64_MAX)
      ensures others == [] ==> now == Min(old(nanos) + delta, U64_MAX)
    {
      var clamped := Min(delta, U64_MAX);
      ghost var op := OpOf(AdvanceCall(delta));
      var current: u64 := nanos;
      var i := 0;
      while true
        invariant 0 <= i <= |others| && (i == |others| ==> current == nanos)
        invariant Valid() && ticks == old(ticks) && Lands(old(log), log, others, i, [])
        decreases |others| - i
      {
        var landed := LandedAt(others, i);
        BatchLands(old(log), log, others, i, [op]);
        var won := CompareExchange(current, SaturatingAdd(current, clamped), op, landed);
        i := if i < |others| then i + 1 else i;
        if won {
          break;
        }
        current := nanos;
      }
      ticks := ticks + 1;
      LandedValue(start, old(log), log, others, i, op);
      return nanos;
    }

    /** Moves the word to the target, or reports the later value it read. */
    method Set(instant: int, others: seq<seq<ClockOp>>) returns (r: Result<Unit, u64>)
      requires Valid()
      modifies this
      ensures Valid()
      ensures r.Ok? ==> exists k: nat :: Lands(old(log), log, others, k, [OpOf(SetCall(instant))])
      ensures r.Ok? ==> nanos == TimeToNanos(instant) && ticks == old(ticks) + 1
      ensures r.Ok? && 0 <= instant <= U64_MAX ==> nanos == instant
      ensures r.Err? ==> exists k: nat :: Lands(old(log), log, others, k, [])
      ensures r.Err? ==> instant < r.error <= nanos && ticks == old(ticks)
      ensures others == [] ==> (r.Err? <==> instant < old(nanos) && 0 < old(nanos))
    {
      var target: u64 := TimeToNanos(instant);
      var current: u64 := nanos;
      var i := 0;
      while true
        invariant 0 <= i <= |others| && current <= nanos && (i == |others| ==> current == nanos)
        invariant Valid() && ticks == old(ticks) && Lands(old(log), log, others, i, [])
        decreases |others| - i
      {
        if target < current {
          return Err(current);
        }
        var landed := LandedAt(others, i);
        BatchLands(old(log), log, others, i, [OpOf(SetCall(instant))]);
        var won := CompareExchange(current, target, OpOf(SetCall(instant)), landed);
        i := if i < |others| then i + 1 else i;
        if won {
          break;
        }
        current := nanos;
      }
      ticks := ticks + 1;
      return Ok(Unit.Unit);
    }
  }
}
