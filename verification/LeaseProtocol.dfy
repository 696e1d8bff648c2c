/** Any number of coordinators contending for one lease item: every operation
    is split at its store calls and steps interleave freely. */
module LeaseProtocol {
  import opened Base
  import opened ReplicatedKv
  import opened MemoryKv
  import opened Transactions
  import opened Lease

  /** Who runs an operation. Clocks are not part of the state: every reading is
      an arbitrary input of the step that makes it. */
  datatype Identity = Identity(holder: string, region: string)

  /** What all coordinators of one log share. */
  datatype Config = Config(key: Key, latestInstant: nat) {
    function As(who: Identity): Coordinator {
      Coordinator(key, who.holder, who.region, latestInstant)
    }
  }

  /** A claim between its store calls: after its read, or after its clock check
      with the lease it is about to write. `seenAt` is the position in the history
      of the write whose lease it read. */
  datatype Attempt =
    | Observed(who: Identity, observed: Lease, seenAt: nat)
    | Ready(who: Identity, observed: Lease, seenAt: nat, now: u64, target: Lease)

  datatype Kind =
    | Acquired(who: Identity, now: u64)
    | Renewed(who: Identity, now: u64)
    | TookOver(winner: Identity, observed: Lease, now: u64)
    | Committed(token: u64)

  /** A successful write, with the lease stored right after it. */
  datatype Event = Event(kind: Kind, lease: Lease)

  datatype State = State(store: Store, attempts: map<nat, Attempt>, log: seq<Event>)

  datatype Step =
    | AcquireStep(who: Identity, now: u64)
    | RenewStep(who: Identity, epoch: u64, now: u64)
    | ReadStep(id: nat, who: Identity)
    | CheckStep(id: nat, now: u64)
    | CasStep(id: nat)
    | AbandonStep(id: nat)
    | CommitStep(token: u64, ops: seq<Operation>)
    | ElsewhereStep(op: Operation)

  /** The lease in the store, when the item is exactly an encoded lease. */
  function StoredLease(cfg: Config, store: Store): Lease
    requires cfg.key in store
  {
    var decoded := DecodeLease(Item(cfg.key, store[cfg.key]), U64_MAX);
    if decoded.Ok? then decoded.value else Lease("", "", 0, 0)
  }

  /** Appends an event carrying the lease now stored. */
  function Record(cfg: Config, s: State, after: Store, kind: Kind): State {
    if cfg.key in after then s.(store := after, log := s.log + [Event(kind, StoredLease(cfg, after))])
    else s.(store := after)
  }

  /** The guarded commit: the epoch check on the lease item, then the writes. */
  function FencedOps(cfg: Config, token: u64, ops: seq<Operation>): seq<Operation> {
    [ConditionCheck(cfg.key, [EpochCondition(token)])] + ops
  }

  function CasBy(cfg: Config, s: State, id: nat): State
    requires id in s.attempts && s.attempts[id].Ready?
  {
    var Ready(who, observed, _, now, target) := s.attempts[id];
    var done := s.(attempts := s.attempts - {id});
    if CasWins(cfg, s.store, observed, target)
    then Record(cfg, done, ClaimCasOp(cfg.As(who), s.store, observed, target).store, TookOver(who, observed, now))
    else done
  }

  function Next(cfg: Config, s: State, step: Step): State {
    match step
    case AcquireStep(who, now) =>
      var c := cfg.As(who);
      var written := PutOp(s.store, cfg.key,
                           EncodeLease(Lease(who.region, who.holder, INITIAL_EPOCH, SaturatingAdd(now, LEASE_TTL))),
                           [NotExists]).result.Ok?;
      if written then Record(cfg, s, AcquireOp(c, s.store, now).store, Acquired(who, now)) else s
    case RenewStep(who, epoch, now) =>
      var c := cfg.As(who);
      var written := AtomicUpdateOp(s.store, cfg.key, RenewActions(now), RenewConditions(c, epoch)).result.Ok?;
      if written then Record(cfg, s, RenewOp(c, s.store, epoch, now).store, Renewed(who, now)) else s
    case ReadStep(id, who) =>
      var read := ReadLeaseOp(cfg.As(who), s.store);
      var latest := if s.log == [] then 0 else |s.log| - 1;
      if read.Ok? then s.(attempts := s.attempts[id := Observed(who, read.value, latest)]) else s
    case CheckStep(id, now) =>
      if id in s.attempts && s.attempts[id].Observed? then
        var Observed(who, observed, seenAt) := s.attempts[id];
        match ClaimDecision(cfg.As(who), observed, now)
        case Err(_) => s.(attempts := s.attempts - {id})
        case Ok(target) => s.(attempts := s.attempts[id := Ready(who, observed, seenAt, now, target)])
      else s
    case CasStep(id) =>
      if id in s.attempts && s.attempts[id].Ready? then CasBy(cfg, s, id) else s
    case AbandonStep(id) => s.(attempts := s.attempts - {id})
    case CommitStep(token, ops) =>
      var Outcome(after, result) := TransactOp(s.store, FencedOps(cfg, token, ops));
      if result.Ok? then Record(cfg, s, after, Committed(token)) else s
    case ElsewhereStep(op) => s.(store := TransactOp(s.store, [op]).store)
  }

  predicate CasWins(cfg: Config, store: Store, observed: Lease, target: Lease) {
    AtomicUpdateOp(store, cfg.key, ClaimActions(target), [EpochCondition(observed.epoch)]).result.Ok?
  }

  /** The one discipline the protocol asks of the rest of the system: nothing
      but the coordinators writes, and nothing at all deletes, the lease item. */
  ghost predicate Disciplined(cfg: Config, step: Step) {
    match step
    case CommitStep(_, ops) => forall op | op in ops && op.key == cfg.key :: op.ConditionCheck?
    case ElsewhereStep(op) => op.key != cfg.key
    case _ => true
  }

  ghost predicate DisciplinedRun(cfg: Config, steps: seq<Step>) {
    forall step | step in steps :: Disciplined(cfg, step)
  }

  function Run(cfg: Config, s: State, steps: seq<Step>): State
    decreases |steps|
  {
    if steps == [] then s else Run(cfg, Next(cfg, s, steps[0]), steps[1..])
  }

  ghost predicate Initial(cfg: Config, s: State) {
    cfg.key !in s.store && s.attempts == map[] && s.log == []
  }

  // ----- The invariant -----

  /** How one successful write may follow another. */
  ghost predicate Follows(before: Event, after: Event) {
    match after.kind
    case Acquired(_, _) => false
    case Renewed(who, now) =>
      && who.holder == before.lease.holder
      && after.lease == before.lease.(expiresAt := SaturatingAdd(now, LEASE_TTL))
    case TookOver(winner, observed, now) =>
      && observed.epoch == before.lease.epoch < U64_MAX
      && after.lease == Lease(winner.region, winner.holder, before.lease.epoch + 1, SaturatingAdd(now, LEASE_TTL))
    case Committed(token) => token == before.lease.epoch && after.lease == before.lease
  }

  ghost predicate Opens(e: Event) {
    && e.kind.Acquired?
    && e.lease == Lease(e.kind.who.region, e.kind.who.holder, INITIAL_EPOCH, SaturatingAdd(e.kind.now, LEASE_TTL))
  }

  ghost predicate Chained(log: seq<Event>) {
    && (log != [] ==> Opens(log[0]))
    && forall i | 0 < i < |log| :: Follows(log[i - 1], log[i])
  }

  /** An attempt acts on a lease that was stored at some point, and a ready one
      passed its eligibility check against that lease. */
  ghost predicate AttemptSound(cfg: Config, log: seq<Event>, a: Attempt) {
    && a.seenAt < |log| && log[a.seenAt].lease == a.observed
    && (a.Ready? ==> ClaimDecision(cfg.As(a.who), a.observed, a.now) == Ok(a.target))
  }

  ghost predicate Inv(cfg: Config, s: State) {
    && (cfg.key in s.store <==> s.log != [])
    && (s.log != [] ==> s.store[cfg.key] == EncodeLease(s.log[|s.log| - 1].lease))
    && Chained(s.log)
    && (forall i | 0 <= i < |s.log| && s.log[i].kind.TookOver? ::
          TakeoverEligible(s.log[i].kind.now, s.log[i].kind.observed.expiresAt, TAKEOVER_SAFETY_MARGIN))
    && (forall id | id in s.attempts :: AttemptSound(cfg, s.log, s.attempts[id]))
  }

  lemma StoredIsLast(cfg: Config, s: State)
    requires Inv(cfg, s) && s.log != []
    ensures StoredLease(cfg, s.store) == s.log[|s.log| - 1].lease
  {
    DecodeEncode(cfg.key, s.log[|s.log| - 1].lease, U64_MAX);
  }

  /** A written lease extends the log by one event that follows the last. */
  lemma RecordKeepsInv(cfg: Config, s: State, kind: Kind, lease: Lease)
    requires Inv(cfg, s)
    requires if s.log == [] then Opens(Event(kind, lease))
             else Follows(s.log[|s.log| - 1], Event(kind, lease))
    requires kind.TookOver? ==> TakeoverEligible(kind.now, kind.observed.expiresAt, TAKEOVER_SAFETY_MARGIN)
    ensures forall after: Store | cfg.key in after && after[cfg.key] == EncodeLease(lease) ::
              && Record(cfg, s, after, kind) == State(after, s.attempts, s.log + [Event(kind, lease)])
              && Inv(cfg, Record(cfg, s, after, kind))
  {
    DecodeEncode(cfg.key, lease, U64_MAX);
    var log := s.log + [Event(kind, lease)];
    forall i | 0 < i < |log| ensures Follows(log[i - 1], log[i]) {
      if i < |s.log| { assert Follows(s.log[i - 1], s.log[i]); }
    }
    forall id | id in s.attempts ensures AttemptSound(cfg, log, s.attempts[id]) {
      AttemptStaysSound(cfg, s.log, Event(kind, lease), s.attempts[id]);
    }
  }

  lemma AttemptStaysSound(cfg: Config, log: seq<Event>, e: Event, a: Attempt)
    requires AttemptSound(cfg, log, a)
    ensures AttemptSound(cfg, log + [e], a)
  {
    assert (log + [e])[a.seenAt] == log[a.seenAt];
  }

  lemma AcquireKeepsInv(cfg: Config, s: State, who: Identity, now: u64)
    requires Inv(cfg, s)
    ensures Inv(cfg, Next(cfg, s, AcquireStep(who, now)))
    ensures var lease := Lease(who.region, who.holder, INITIAL_EPOCH, SaturatingAdd(now, LEASE_TTL));
            s.log == [] ==>
              && Next(cfg, s, AcquireStep(who, now)).log == [Event(Acquired(who, now), lease)]
              && Next(cfg, s, AcquireStep(who, now)).attempts == s.attempts
  {
    var lease := Lease(who.region, who.holder, INITIAL_EPOCH, SaturatingAdd(now, LEASE_TTL));
    assert Holds(Lookup(s.store, cfg.key), NotExists) <==> s.log == [];
    assert AllHold(Lookup(s.store, cfg.key), [NotExists]) <==> s.log == [] by {
      assert [NotExists][0] == NotExists;
    }
    if s.log == [] {
      RecordKeepsInv(cfg, s, Acquired(who, now), lease);
    }
  }

  lemma ConditionsMet(value: Option<Value>, a: Condition, b: Condition)
    ensures AllHold(value, [a]) <==> Holds(value, a)
    ensures AllHold(value, [a, b]) <==> Holds(value, a) && Holds(value, b)
  {
    assert [a][0] == a && [a, b][0] == a && [a, b][1] == b;
  }

  lemma RenewKeepsInv(cfg: Config, s: State, who: Identity, epoch: u64, now: u64)
    requires Inv(cfg, s)
    ensures Inv(cfg, Next(cfg, s, RenewStep(who, epoch, now)))
    ensures s.log != [] ==>
              var last := s.log[|s.log| - 1].lease;
              last.holder == who.holder && last.epoch == epoch ==>
                && Next(cfg, s, RenewStep(who, epoch, now)).log ==
                   s.log + [Event(Renewed(who, now), last.(expiresAt := SaturatingAdd(now, LEASE_TTL)))]
                && Next(cfg, s, RenewStep(who, epoch, now)).attempts == s.attempts
  {
    if s.log != [] {
      var last := s.log[|s.log| - 1].lease;
      var renewed := last.(expiresAt := SaturatingAdd(now, LEASE_TTL));
      RenewedLease(last, now);
      var conditions := RenewConditions(cfg.As(who), epoch);
      ConditionsMet(Some(EncodeLease(last)), conditions[0], conditions[1]);
      if last.holder == who.holder {
        RecordKeepsInv(cfg, s, Renewed(who, now), renewed);
      }
    }
  }

  lemma ReadKeepsInv(cfg: Config, s: State, id: nat, who: Identity)
    requires Inv(cfg, s)
    ensures Inv(cfg, Next(cfg, s, ReadStep(id, who)))
  {
    if s.log != [] {
      DecodeEncode(cfg.key, s.log[|s.log| - 1].lease, cfg.latestInstant);
    }
  }

  lemma CasKeepsInv(cfg: Config, s: State, id: nat)
    requires Inv(cfg, s) && id in s.attempts && s.attempts[id].Ready?
    ensures Inv(cfg, Next(cfg, s, CasStep(id)))
    ensures s.log != [] && s.log[|s.log| - 1].lease.epoch == s.attempts[id].observed.epoch ==>
              var Ready(who, observed, _, now, target) := s.attempts[id];
              Next(cfg, s, CasStep(id)).log == s.log + [Event(TookOver(who, observed, now), target)]
  {
    var Ready(who, observed, _, now, target) := s.attempts[id];
    var done := s.(attempts := s.attempts - {id});
    assert Inv(cfg, done);
    assert AttemptSound(cfg, s.log, s.attempts[id]);
    var last := s.log[|s.log| - 1].lease;
    ClaimedLease(last, target);
    ConditionsMet(Some(EncodeLease(last)), EpochCondition(observed.epoch), NotExists);
    if observed.epoch == last.epoch {
      RecordKeepsInv(cfg, done, TookOver(who, observed, now), target);
    }
  }

  lemma CommitKeepsInv(cfg: Config, s: State, token: u64, ops: seq<Operation>)
    requires Inv(cfg, s) && Disciplined(cfg, CommitStep(token, ops))
    ensures Inv(cfg, Next(cfg, s, CommitStep(token, ops)))
  {
    var fenced := FencedOps(cfg, token, ops);
    if AllPlannable(s.store, fenced) {
      ChecksWriteNothing(s.store, fenced, cfg.key);
      assert fenced[0] in fenced;
      ConditionsMet(Lookup(s.store, cfg.key), EpochCondition(token), NotExists);
      assert Lookup(ApplyPlans(s.store, fenced), cfg.key) == Lookup(s.store, cfg.key);
      if s.log != [] {
        RecordKeepsInv(cfg, s, Committed(token), s.log[|s.log| - 1].lease);
      }
    }
  }

  lemma ElsewhereKeepsInv(cfg: Config, s: State, op: Operation)
    requires Inv(cfg, s) && op.key != cfg.key
    ensures Inv(cfg, Next(cfg, s, ElsewhereStep(op)))
  {
    if AllPlannable(s.store, [op]) {
      ChecksWriteNothing(s.store, [op], cfg.key);
      assert Lookup(ApplyPlans(s.store, [op]), cfg.key) == Lookup(s.store, cfg.key);
    }
  }

  lemma NextKeepsInv(cfg: Config, s: State, step: Step)
    requires Inv(cfg, s) && Disciplined(cfg, step)
    ensures Inv(cfg, Next(cfg, s, step))
  {
    match step
    case AcquireStep(who, now) => AcquireKeepsInv(cfg, s, who, now);
    case RenewStep(who, epoch, now) => RenewKeepsInv(cfg, s, who, epoch, now);
    case ReadStep(id, who) => ReadKeepsInv(cfg, s, id, who);
    case CheckStep(id, now) =>
    case CasStep(id) =>
      if id in s.attempts && s.attempts[id].Ready? {
        CasKeepsInv(cfg, s, id);
      }
    case AbandonStep(id) =>
    case CommitStep(token, ops) => CommitKeepsInv(cfg, s, token, ops);
    case ElsewhereStep(op) => ElsewhereKeepsInv(cfg, s, op);
  }

  lemma {:induction false} RunKeepsInv(cfg: Config, s: State, steps: seq<Step>)
    requires Inv(cfg, s) && DisciplinedRun(cfg, steps)
    ensures Inv(cfg, Run(cfg, s, steps))
    decreases |steps|
  {
    if steps != [] {
      assert steps[0] in steps;
      NextKeepsInv(cfg, s, steps[0]);
      RunKeepsInv(cfg, Next(cfg, s, steps[0]), steps[1..]);
    }
  }

  /** The log only grows. */
  lemma {:induction false} LogGrows(cfg: Config, s: State, steps: seq<Step>)
    ensures s.log <= Run(cfg, s, steps).log
    decreases |steps|
  {
    if steps != [] {
      LogGrows(cfg, Next(cfg, s, steps[0]), steps[1..]);
    }
  }

  // ----- Consequences for the whole history -----

  /** Between two successful writes the epoch advances by exactly the number
      of takeovers after the first up to the second. */
  function TakeoversIn(log: seq<Event>, i: nat, j: nat): nat
    requires i <= j < |log|
    decreases j - i
  {
    if i == j then 0
    else TakeoversIn(log, i, j - 1) + if log[j].kind.TookOver? then 1 else 0
  }

  lemma {:induction false} EpochCountsTakeovers(log: seq<Event>, i: nat, j: nat)
    requires Chained(log) && i <= j < |log|
    ensures log[j].lease.epoch == log[i].lease.epoch + TakeoversIn(log, i, j)
    decreases j - i
  {
    if i < j {
      EpochCountsTakeovers(log, i, j - 1);
      assert Follows(log[j - 1], log[j]);
    }
  }

  /** Writes that agree on the epoch agree on who holds it. */
  lemma {:induction false} OneOwnerPerEpoch(log: seq<Event>, i: nat, j: nat)
    requires Chained(log) && i <= j < |log|
    requires log[i].lease.epoch == log[j].lease.epoch
    ensures log[i].lease.holder == log[j].lease.holder && log[i].lease.region == log[j].lease.region
    decreases j - i
  {
    if i < j {
      EpochCountsTakeovers(log, i, j - 1);
      assert Follows(log[j - 1], log[j]);
      OneOwnerPerEpoch(log, i, j - 1);
    }
  }

  /** Epoch safety of every interleaving: from a store without a lease, the
      successful writes start with one acquisition at the initial epoch, their
      epochs never decrease, every takeover raises the epoch by exactly one and
      nothing else changes it, each epoch belongs to one (holder, region), and
      at most one of the claims that observed an epoch succeeds. */
  lemma EpochSafety(cfg: Config, s: State, steps: seq<Step>)
    requires Initial(cfg, s) && DisciplinedRun(cfg, steps)
    ensures var log := Run(cfg, s, steps).log;
            && (forall i | 0 <= i < |log| :: log[i].kind.Acquired? <==> i == 0)
            && (log != [] ==> log[0].lease.epoch == INITIAL_EPOCH)
            && (forall i, j | 0 <= i <= j < |log| ::
                  log[j].lease.epoch == log[i].lease.epoch + TakeoversIn(log, i, j))
            && (forall i, j | 0 <= i <= j < |log| && log[i].lease.epoch == log[j].lease.epoch ::
                  log[i].lease.holder == log[j].lease.holder && log[i].lease.region == log[j].lease.region)
            && (forall i | 0 <= i < |log| && log[i].kind.TookOver? ::
                  log[i].lease.epoch == log[i].kind.observed.epoch + 1)
            && (forall i, j | 0 <= i < j < |log| && log[i].kind.TookOver? && log[j].kind.TookOver? ::
                  log[i].kind.observed.epoch < log[j].kind.observed.epoch)
  {
    RunKeepsInv(cfg, s, steps);
    var log := Run(cfg, s, steps).log;
    forall i | 0 <= i < |log| ensures log[i].kind.Acquired? <==> i == 0 {
      if i > 0 { assert Follows(log[i - 1], log[i]); }
    }
    forall i, j | 0 <= i <= j < |log|
      ensures log[j].lease.epoch == log[i].lease.epoch + TakeoversIn(log, i, j) {
      EpochCountsTakeovers(log, i, j);
    }
    forall i, j | 0 <= i <= j < |log| && log[i].lease.epoch == log[j].lease.epoch
      ensures log[i].lease.holder == log[j].lease.holder && log[i].lease.region == log[j].lease.region {
      OneOwnerPerEpoch(log, i, j);
    }
    forall i | 0 <= i < |log| && log[i].kind.TookOver?
      ensures log[i].lease.epoch == log[i].kind.observed.epoch + 1 {
      assert Follows(log[i - 1], log[i]);
    }
    forall i, j | 0 <= i < j < |log| && log[i].kind.TookOver? && log[j].kind.TookOver?
      ensures log[i].kind.observed.epoch < log[j].kind.observed.epoch {
      EpochCountsTakeovers(log, i, j - 1);
      assert Follows(log[i - 1], log[i]) && Follows(log[j - 1], log[j]);
    }
  }

  /** The stored epoch, with zero for a log that never had a primary. */
  function StoredEpoch(cfg: Config, s: State): nat {
    if cfg.key in s.store then StoredLease(cfg, s.store).epoch else 0
  }

  /** However a run continues, the stored epoch never goes down, and the item
      never disappears. */
  lemma StoredEpochMonotone(cfg: Config, s: State, steps: seq<Step>, more: seq<Step>)
    requires Initial(cfg, s) && DisciplinedRun(cfg, steps) && DisciplinedRun(cfg, more)
    ensures var mid := Run(cfg, s, steps);
            && StoredEpoch(cfg, mid) <= StoredEpoch(cfg, Run(cfg, mid, more))
            && (cfg.key in mid.store ==> cfg.key in Run(cfg, mid, more).store)
  {
    var mid := Run(cfg, s, steps);
    var end := Run(cfg, mid, more);
    RunKeepsInv(cfg, s, steps);
    RunKeepsInv(cfg, mid, more);
    LogGrows(cfg, mid, more);
    if mid.log != [] {
      StoredIsLast(cfg, mid);
      StoredIsLast(cfg, end);
      EpochCountsTakeovers(end.log, |mid.log| - 1, |end.log| - 1);
    }
  }

  /** Fencing: the epochs that commits carry never decrease, and once a
      takeover has installed an epoch no commit under an older one lands, no
      matter how renewals, reads and takeovers interleave. */
  lemma Fencing(cfg: Config, s: State, steps: seq<Step>)
    requires Initial(cfg, s) && DisciplinedRun(cfg, steps)
    ensures var log := Run(cfg, s, steps).log;
            && (forall j | 0 <= j < |log| && log[j].kind.Committed? :: log[j].kind.token == log[j].lease.epoch)
            && (forall i, j | 0 <= i < j < |log| && log[i].kind.Committed? && log[j].kind.Committed? ::
                  log[i].kind.token <= log[j].kind.token)
            && (forall i, j | 0 <= i < j < |log| && log[i].kind.TookOver? && log[j].kind.Committed? ::
                  log[i].kind.observed.epoch + 1 <= log[j].kind.token)
  {
    EpochSafety(cfg, s, steps);
    RunKeepsInv(cfg, s, steps);
    var log := Run(cfg, s, steps).log;
    forall j | 0 <= j < |log| && log[j].kind.Committed? ensures log[j].kind.token == log[j].lease.epoch {
      assert Follows(log[j - 1], log[j]);
    }
    forall i, j | 0 <= i < j < |log| ensures log[i].lease.epoch <= log[j].lease.epoch {
      EpochCountsTakeovers(log, i, j);
    }
  }

  /** A commit under an epoch lands exactly while that epoch is stored and the
      caller's own operations can be performed; otherwise nothing is written. */
  lemma CommitLandsIff(cfg: Config, s: State, token: u64, ops: seq<Operation>)
    requires Inv(cfg, s) && Disciplined(cfg, CommitStep(token, ops))
    ensures TransactOp(s.store, FencedOps(cfg, token, ops)).result.Ok? <==>
            s.log != [] && StoredEpoch(cfg, s) == token && AllPlannable(s.store, ops)
    ensures var Outcome(after, result) := TransactOp(s.store, FencedOps(cfg, token, ops));
            var next := Next(cfg, s, CommitStep(token, ops));
            && (result.Err? ==> next == s)
            && (result.Ok? ==> next == State(after, s.attempts,
                                             s.log + [Event(Committed(token), s.log[|s.log| - 1].lease)]))
  {
    var fenced := FencedOps(cfg, token, ops);
    ConditionsMet(Lookup(s.store, cfg.key), EpochCondition(token), NotExists);
    assert forall op :: op in fenced <==> op == fenced[0] || op in ops;
    if s.log != [] {
      StoredIsLast(cfg, s);
    }
    assert Plan(s.store, fenced[0]).Some? <==> s.log != [] && StoredEpoch(cfg, s) == token;
    if AllPlannable(s.store, fenced) {
      forall op | op in ops ensures Plan(s.store, op).Some? { assert op in fenced; }
      ChecksWriteNothing(s.store, fenced, cfg.key);
      assert Lookup(ApplyPlans(s.store, fenced), cfg.key) == Lookup(s.store, cfg.key);
    }
  }

  /** The verdict of a takeover write depends on the epoch alone: it wins exactly
      when the stored epoch is still the observed one, it is told that the epoch
      advanced exactly when it is not, and a losing write changes nothing. */
  lemma CasVerdict(cfg: Config, s: State, id: nat)
    requires Inv(cfg, s) && id in s.attempts && s.attempts[id].Ready?
    ensures var Ready(who, observed, _, _, target) := s.attempts[id];
            var outcome := ClaimCasOp(cfg.As(who), s.store, observed, target);
            && (CasWins(cfg, s.store, observed, target) <==> StoredEpoch(cfg, s) == observed.epoch)
            && (outcome.result == Err(EpochAdvanced) <==> StoredEpoch(cfg, s) != observed.epoch)
            && (StoredEpoch(cfg, s) != observed.epoch ==> outcome.store == s.store)
            && (StoredEpoch(cfg, s) == observed.epoch ==> outcome.store == s.store[cfg.key := EncodeLease(target)])
  {
    var Ready(who, observed, _, now, target) := s.attempts[id];
    assert AttemptSound(cfg, s.log, s.attempts[id]);
    StoredIsLast(cfg, s);
    var last := s.log[|s.log| - 1].lease;
    ClaimedLease(last, target);
    ConditionsMet(Some(EncodeLease(last)), EpochCondition(observed.epoch), NotExists);
    DecodeEncode(cfg.key, target, cfg.latestInstant);
  }

  /** Acquiring and renewing are one step each: the protocol's step leaves the store
      that the operation leaves, and the history gains the event exactly when the
      operation wrote. */
  lemma OperationIsStep(cfg: Config, s: State, who: Identity, epoch: u64, now: u64)
    requires Inv(cfg, s)
    ensures var next := Next(cfg, s, AcquireStep(who, now));
            && next.store == AcquireOp(cfg.As(who), s.store, now).store
            && (s.log != [] ==> next == s)
            && (s.log == [] ==> |next.log| == 1 && next.log[0].kind == Acquired(who, now))
    ensures var next := Next(cfg, s, RenewStep(who, epoch, now));
            var accepted := s.log != [] && s.log[|s.log| - 1].lease.holder == who.holder
                            && s.log[|s.log| - 1].lease.epoch == epoch;
            && next.store == RenewOp(cfg.As(who), s.store, epoch, now).store
            && (!accepted ==> next == s)
            && (accepted ==> |next.log| == |s.log| + 1 && next.log[|s.log|].kind == Renewed(who, now))
  {
    AcquireIsStep(cfg, s, who, now);
    RenewIsStep(cfg, s, who, epoch, now);
  }

  lemma AcquireIsStep(cfg: Config, s: State, who: Identity, now: u64)
    requires Inv(cfg, s)
    ensures var next := Next(cfg, s, AcquireStep(who, now));
            && next.store == AcquireOp(cfg.As(who), s.store, now).store
            && (s.log != [] ==> next == s)
            && (s.log == [] ==> |next.log| == 1 && next.log[0].kind == Acquired(who, now))
  {
    AcquireKeepsInv(cfg, s, who, now);
    ConditionsMet(Lookup(s.store, cfg.key), NotExists, NotExists);
  }

  lemma RenewIsStep(cfg: Config, s: State, who: Identity, epoch: u64, now: u64)
    requires Inv(cfg, s)
    ensures var next := Next(cfg, s, RenewStep(who, epoch, now));
            var accepted := s.log != [] && s.log[|s.log| - 1].lease.holder == who.holder
                            && s.log[|s.log| - 1].lease.epoch == epoch;
            && next.store == RenewOp(cfg.As(who), s.store, epoch, now).store
            && (!accepted ==> next == s)
            && (accepted ==> |next.log| == |s.log| + 1 && next.log[|s.log|].kind == Renewed(who, now))
  {
    RenewKeepsInv(cfg, s, who, epoch, now);
    RenewErrsAfterWritingIff(cfg, s, who, epoch, now);
    if s.log != [] { StoredIsLast(cfg, s); }
  }

  /** A claim without interference, in any reachable state: its store is the one
      that the read, the clock check and the write of the protocol leave when they
      run back to back, and no attempt stays behind. The history gains a takeover
      exactly when the claim installed its own lease. */
  lemma ClaimIsThreeSteps(cfg: Config, s: State, id: nat, who: Identity, now: u64)
    requires Inv(cfg, s) && id !in s.attempts
    ensures var claim := ClaimLeaseOp(cfg.As(who), s.store, now);
            var end := ReadCheckCas(cfg, s, id, who, now);
            && end.store == claim.store && end.attempts == s.attempts
            && (claim.store == s.store ==> end == s && claim.result.Err?)
            && (claim.store != s.store ==>
                  && s.log != [] && cfg.key in end.store
                  && end.log == s.log + [Event(TookOver(who, s.log[|s.log| - 1].lease, now),
                                               StoredLease(cfg, end.store))])
            && (claim.result.Ok? ==> claim.store != s.store && claim.result.value == StoredLease(cfg, end.store))
  {
    if s.log != [] {
      ReadLatest(cfg, s, id, who);
      var last := s.log[|s.log| - 1].lease;
      if last.expiresAt <= cfg.latestInstant && ClaimDecision(cfg.As(who), last, now).Ok? {
        ClaimTakesOver(cfg, s, id, who, now);
      } else {
        ClaimRefused(cfg, s, id, who, now);
      }
    }
  }

  /** The three steps of one claim, back to back. */
  function ReadCheckCas(cfg: Config, s: State, id: nat, who: Identity, now: u64): State {
    Next(cfg, Next(cfg, Next(cfg, s, ReadStep(id, who)), CheckStep(id, now)), CasStep(id))
  }

  lemma ClaimRefused(cfg: Config, s: State, id: nat, who: Identity, now: u64)
    requires Inv(cfg, s) && id !in s.attempts && s.log != []
    requires var last := s.log[|s.log| - 1].lease;
             last.expiresAt > cfg.latestInstant || ClaimDecision(cfg.As(who), last, now).Err?
    ensures var claim := ClaimLeaseOp(cfg.As(who), s.store, now);
            claim.store == s.store && claim.result.Err? && ReadCheckCas(cfg, s, id, who, now) == s
  {
    ReadLatest(cfg, s, id, who);
    assert Next(cfg, s, ReadStep(id, who)).attempts - {id} == s.attempts;
  }

  lemma ReadLatest(cfg: Config, s: State, id: nat, who: Identity)
    requires Inv(cfg, s) && s.log != []
    ensures var last := s.log[|s.log| - 1].lease;
            && ReadLeaseOp(cfg.As(who), s.store) ==
               (if last.expiresAt <= cfg.latestInstant then Ok(last) else Err(MalformedLease))
            && Next(cfg, s, ReadStep(id, who)) ==
               (if last.expiresAt <= cfg.latestInstant
                then s.(attempts := s.attempts[id := Observed(who, last, |s.log| - 1)]) else s)
  {
    DecodeEncode(cfg.key, s.log[|s.log| - 1].lease, cfg.latestInstant);
  }

  /** The state with one more attempt that has passed its check. */
  function ReadyAfter(s: State, id: nat, who: Identity, now: u64, target: Lease): State
    requires s.log != []
  {
    s.(attempts := s.attempts[id := Ready(who, s.log[|s.log| - 1].lease, |s.log| - 1, now, target)])
  }

  lemma ClaimPassesCheck(cfg: Config, s: State, id: nat, who: Identity, now: u64)
    requires Inv(cfg, s) && id !in s.attempts && s.log != []
    requires var last := s.log[|s.log| - 1].lease;
             last.expiresAt <= cfg.latestInstant && ClaimDecision(cfg.As(who), last, now).Ok?
    ensures Next(cfg, Next(cfg, s, ReadStep(id, who)), CheckStep(id, now)) ==
            ReadyAfter(s, id, who, now, ClaimDecision(cfg.As(who), s.log[|s.log| - 1].lease, now).value)
  {
    ReadLatest(cfg, s, id, who);
  }

  lemma ClaimWrites(cfg: Config, store: Store, who: Identity, last: Lease, now: u64)
    requires cfg.key in store && store[cfg.key] == EncodeLease(last) && last.expiresAt <= cfg.latestInstant
    requires ClaimDecision(cfg.As(who), last, now).Ok?
    ensures var target := ClaimDecision(cfg.As(who), last, now).value;
            var claim := ClaimLeaseOp(cfg.As(who), store, now);
            && claim.store == store[cfg.key := EncodeLease(target)] && claim.store != store
            && (claim.result.Ok? ==> claim.result.value == target)
            && StoredLease(cfg, claim.store) == target
  {
    var target := ClaimDecision(cfg.As(who), last, now).value;
    ClaimAnswers(cfg.As(who), store, last, now);
    DecodeEncode(cfg.key, target, U64_MAX);
    DecodeEncode(cfg.key, last, U64_MAX);
    assert target.epoch != last.epoch;
  }

  lemma ClaimTakesOver(cfg: Config, s: State, id: nat, who: Identity, now: u64)
    requires Inv(cfg, s) && id !in s.attempts && s.log != []
    requires var last := s.log[|s.log| - 1].lease;
             last.expiresAt <= cfg.latestInstant && ClaimDecision(cfg.As(who), last, now).Ok?
    ensures var last := s.log[|s.log| - 1].lease;
            var claim := ClaimLeaseOp(cfg.As(who), s.store, now);
            && claim.store != s.store && cfg.key in claim.store
            && (claim.result.Ok? ==> claim.result.value == StoredLease(cfg, claim.store))
            && ReadCheckCas(cfg, s, id, who, now) ==
               State(claim.store, s.attempts, s.log + [Event(TookOver(who, last, now), StoredLease(cfg, claim.store))])
  {
    var last := s.log[|s.log| - 1].lease;
    var target := ClaimDecision(cfg.As(who), last, now).value;
    ClaimPassesCheck(cfg, s, id, who, now);
    ClaimWrites(cfg, s.store, who, last, now);
    ReadyKeepsInv(cfg, s, id, who, now, target);
    CasLands(cfg, s, id, who, now, target);
  }

  lemma ReadyKeepsInv(cfg: Config, s: State, id: nat, who: Identity, now: u64, target: Lease)
    requires Inv(cfg, s) && s.log != []
    requires ClaimDecision(cfg.As(who), s.log[|s.log| - 1].lease, now) == Ok(target)
    ensures Inv(cfg, ReadyAfter(s, id, who, now, target))
  {
    var ready := ReadyAfter(s, id, who, now, target);
    assert AttemptSound(cfg, s.log, ready.attempts[id]);
    assert Chained(ready.log);
  }

  lemma CasLands(cfg: Config, s: State, id: nat, who: Identity, now: u64, target: Lease)
    requires Inv(cfg, s) && id !in s.attempts && s.log != []
    requires Inv(cfg, ReadyAfter(s, id, who, now, target))
    ensures CasBy(cfg, ReadyAfter(s, id, who, now, target), id) ==
            State(s.store[cfg.key := EncodeLease(target)], s.attempts,
                  s.log + [Event(TookOver(who, s.log[|s.log| - 1].lease, now), target)])
  {
    var ready := ReadyAfter(s, id, who, now, target);
    StoredIsLast(cfg, s);
    CasVerdict(cfg, ready, id);
    DecodeEncode(cfg.key, target, U64_MAX);
    assert ready.attempts - {id} == s.attempts;
  }

  // ----- Malformed items -----

  ghost predicate Representable(cfg: Config, step: Step) {
    match step
    case AcquireStep(_, now) => SaturatingAdd(now, LEASE_TTL) <= cfg.latestInstant
    case RenewStep(_, _, now) => SaturatingAdd(now, LEASE_TTL) <= cfg.latestInstant
    case CheckStep(_, now) => SaturatingAdd(now, LEASE_TTL) <= cfg.latestInstant
    case _ => true
  }

  /** The clock readings behind every write made or about to be made fit. */
  ghost predicate InstantsFit(cfg: Config, s: State) {
    && (forall i | 0 <= i < |s.log| && !s.log[i].kind.Committed? ::
          SaturatingAdd(s.log[i].kind.now, LEASE_TTL) <= cfg.latestInstant)
    && (forall id | id in s.attempts && s.attempts[id].Ready? ::
          SaturatingAdd(s.attempts[id].now, LEASE_TTL) <= cfg.latestInstant)
  }

  lemma NextKeepsInstants(cfg: Config, s: State, step: Step)
    requires InstantsFit(cfg, s) && Representable(cfg, step)
    ensures InstantsFit(cfg, Next(cfg, s, step))
  {
  }

  lemma {:induction false} ExpiriesFit(cfg: Config, s: State, i: nat)
    requires Chained(s.log) && InstantsFit(cfg, s) && i < |s.log|
    ensures s.log[i].lease.expiresAt <= cfg.latestInstant
  {
    if i > 0 {
      ExpiriesFit(cfg, s, i - 1);
      assert Follows(s.log[i - 1], s.log[i]);
    }
  }

  lemma {:induction false} RunKeepsInstants(cfg: Config, s: State, steps: seq<Step>)
    requires InstantsFit(cfg, s)
    requires forall step | step in steps :: Representable(cfg, step)
    ensures InstantsFit(cfg, Run(cfg, s, steps))
    decreases |steps|
  {
    if steps != [] {
      assert steps[0] in steps;
      NextKeepsInstants(cfg, s, steps[0]);
      RunKeepsInstants(cfg, Next(cfg, s, steps[0]), steps[1..]);
    }
  }

  /** Every lease item the protocol can produce decodes: with representable
      instants a read never reports a malformed lease. */
  lemma NeverMalformed(cfg: Config, s: State, steps: seq<Step>, who: Identity)
    requires Initial(cfg, s) && DisciplinedRun(cfg, steps)
    requires forall step | step in steps :: Representable(cfg, step)
    ensures var end := Run(cfg, s, steps);
            ReadLeaseOp(cfg.As(who), end.store) ==
            if end.log == [] then Err(NoLease(cfg.key)) else Ok(end.log[|end.log| - 1].lease)
  {
    RunKeepsInv(cfg, s, steps);
    RunKeepsInstants(cfg, s, steps);
    var end := Run(cfg, s, steps);
    if end.log != [] {
      ExpiriesFit(cfg, end, |end.log| - 1);
      DecodeEncode(cfg.key, end.log[|end.log| - 1].lease, cfg.latestInstant);
    }
  }

  /** Errors after a write. An acquisition that answers with an error has written
      the item if and only if there was none and its expiry is not representable. */
  lemma AcquireErrsAfterWritingIff(cfg: Config, s: State, who: Identity, now: u64)
    requires Inv(cfg, s)
    ensures var outcome := AcquireOp(cfg.As(who), s.store, now);
            && (outcome.result.Err? && outcome.store != s.store <==>
                  s.log == [] && SaturatingAdd(now, LEASE_TTL) > cfg.latestInstant)
            && (outcome.result.Err? && outcome.store != s.store ==>
                  outcome.result == Err(MalformedLease)
                  && Next(cfg, s, AcquireStep(who, now)).store == outcome.store)
  {
    ConditionsMet(Lookup(s.store, cfg.key), NotExists, NotExists);
    if s.log == [] {
      var lease := Lease(who.region, who.holder, INITIAL_EPOCH, SaturatingAdd(now, LEASE_TTL));
      assert AcquireOp(cfg.As(who), s.store, now).store == s.store[cfg.key := EncodeLease(lease)];
      assert cfg.key in AcquireOp(cfg.As(who), s.store, now).store;
    }
  }

  /** A renewal: its write is accepted exactly for the stored holder and epoch,
      and answered with an error exactly when the new expiry is not representable. */
  lemma RenewErrsAfterWritingIff(cfg: Config, s: State, who: Identity, epoch: u64, now: u64)
    requires Inv(cfg, s)
    ensures var c := cfg.As(who);
            var written := AtomicUpdateOp(s.store, cfg.key, RenewActions(now), RenewConditions(c, epoch)).result.Ok?;
            var outcome := RenewOp(c, s.store, epoch, now);
            && (written <==>
                  s.log != [] && s.log[|s.log| - 1].lease.holder == who.holder && StoredEpoch(cfg, s) == epoch)
            && (outcome.result.Err? && written <==>
                  written && SaturatingAdd(now, LEASE_TTL) > cfg.latestInstant)
            && (outcome.result.Err? && written ==> outcome.result == Err(MalformedLease))
            && (!written ==> outcome.result.Err? && outcome.store == s.store)
  {
    if s.log != [] {
      var last := s.log[|s.log| - 1].lease;
      StoredIsLast(cfg, s);
      RenewedLease(last, now);
      var conditions := RenewConditions(cfg.As(who), epoch);
      ConditionsMet(Some(EncodeLease(last)), conditions[0], conditions[1]);
      DecodeEncode(cfg.key, last.(expiresAt := SaturatingAdd(now, LEASE_TTL)), cfg.latestInstant);
    }
  }

  /** A takeover: it wins the epoch and is still answered with an error if and
      only if the epoch was the observed one and the expiry is not representable. */
  lemma ClaimErrsAfterWinningIff(cfg: Config, s: State, id: nat)
    requires Inv(cfg, s) && id in s.attempts && s.attempts[id].Ready?
    ensures var Ready(who, observed, _, _, target) := s.attempts[id];
            var outcome := ClaimCasOp(cfg.As(who), s.store, observed, target);
            && (outcome.result.Err? && CasWins(cfg, s.store, observed, target) <==>
                  StoredEpoch(cfg, s) == observed.epoch && target.expiresAt > cfg.latestInstant)
            && (outcome.result.Err? && CasWins(cfg, s.store, observed, target) ==>
                  outcome.result == Err(MalformedLease) && outcome.store == s.store[cfg.key := EncodeLease(target)])
  {
    var Ready(who, observed, _, _, target) := s.attempts[id];
    assert AttemptSound(cfg, s.log, s.attempts[id]);
    var last := s.log[|s.log| - 1].lease;
    StoredIsLast(cfg, s);
    ClaimedLease(last, target);
    ConditionsMet(Some(EncodeLease(last)), EpochCondition(observed.epoch), NotExists);
    DecodeEncode(cfg.key, target, cfg.latestInstant);
  }

  // ----- Why the item must never be deleted -----

  /** Outside the discipline: once the item is deleted the next acquisition is
      accepted whatever lease was held, and stores the initial epoch. The epoch
      goes down exactly when the deleted one had ever been advanced. */
  lemma DeletionResetsTheEpoch(cfg: Config, held: Lease, who: Identity, now: u64)
    ensures var before: Store := map[cfg.key := EncodeLease(held)];
            var deleted := TransactOp(before, [Delete(cfg.key, [])]).store;
            var after := AcquireOp(cfg.As(who), deleted, now).store;
            && cfg.key in after && StoredLease(cfg, after).epoch == INITIAL_EPOCH
            && StoredLease(cfg, before) == held
            && (StoredLease(cfg, after).epoch < StoredLease(cfg, before).epoch <==> held.epoch > INITIAL_EPOCH)
  {
    var store: Store := map[cfg.key := EncodeLease(held)];
    var op := Delete(cfg.key, []);
    assert ApplyPlans(store, [op][..0]) == store && Plan(store, op).Some?;
    assert TransactOp(store, [op]).store == store - {cfg.key};
    var deleted := store - {cfg.key};
    ConditionsMet(Lookup(deleted, cfg.key), NotExists, NotExists);
    DecodeEncode(cfg.key, held, U64_MAX);
    DecodeEncode(cfg.key, Lease(who.region, who.holder, INITIAL_EPOCH, SaturatingAdd(now, LEASE_TTL)), U64_MAX);
  }
}
