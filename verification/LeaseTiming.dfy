/** Timed exclusion: what the eligibility check says about the demoted
    holder's own clock. Unlike fencing it needs hypotheses about clocks. */
module LeaseTiming {
  import opened Base
  import opened ReplicatedKv
  import opened Lease
  import opened LeaseProtocol

  /** Two clocks read at the same moment differ by at most the safety margin. */
  predicate WithinSkew(a: nat, b: nat) {
    a <= b + TAKEOVER_SAFETY_MARGIN && b <= a + TAKEOVER_SAFETY_MARGIN
  }

  /** A claim about to win its takeover in a reachable state. */
  ghost predicate Winning(cfg: Config, s: State, id: nat) {
    && Inv(cfg, s)
    && id in s.attempts && s.attempts[id].Ready?
    && CasWins(cfg, s.store, s.attempts[id].observed, s.attempts[id].target)
  }

  /** The lease the demoted holder last had when the takeover lands. */
  function Demoted(s: State): Lease
    requires s.log != []
  {
    s.log[|s.log| - 1].lease
  }

  lemma WinningDemotes(cfg: Config, s: State, id: nat)
    requires Winning(cfg, s, id)
    ensures s.log != [] && Demoted(s).epoch == s.attempts[id].observed.epoch
    ensures s.store[cfg.key] == EncodeLease(Demoted(s))
    ensures TakeoverEligible(s.attempts[id].now, s.attempts[id].observed.expiresAt, TAKEOVER_SAFETY_MARGIN)
  {
    assert AttemptSound(cfg, s.log, s.attempts[id]);
    CasVerdict(cfg, s, id);
    StoredIsLast(cfg, s);
  }

  /** The lease item is the same at the takeover write as at the read, the clocks
      agree up to the margin and nothing saturates: then at the eligibility check
      the demoted holder's own clock had reached its last expiry. */
  lemma TimedExclusion(cfg: Config, s: State, id: nat, holderClock: nat)
    requires Winning(cfg, s, id)
    requires s.store[cfg.key] == EncodeLease(s.attempts[id].observed)
    requires WithinSkew(holderClock, s.attempts[id].now)
    requires s.attempts[id].observed.expiresAt + TAKEOVER_SAFETY_MARGIN <= U64_MAX
    ensures s.log != [] && Demoted(s).expiresAt <= holderClock
  {
    WinningDemotes(cfg, s, id);
    DecodeEncode(cfg.key, Demoted(s), U64_MAX);
    DecodeEncode(cfg.key, s.attempts[id].observed, U64_MAX);
  }

  /** Some renewal landed after the write at position `from`. */
  ghost predicate RenewedSince(log: seq<Event>, from: nat) {
    exists j :: from < j < |log| && log[j].kind.Renewed?
  }

  /** Within one epoch only a renewal changes the lease. */
  lemma {:induction false} OnlyRenewalsChange(log: seq<Event>, i: nat, j: nat)
    requires Chained(log) && i <= j < |log|
    requires log[i].lease.epoch == log[j].lease.epoch
    requires forall k | i < k <= j :: !log[k].kind.Renewed?
    ensures log[i].lease == log[j].lease
    decreases j - i
  {
    if i < j {
      EpochCountsTakeovers(log, i, j - 1);
      assert Follows(log[j - 1], log[j]);
      OnlyRenewalsChange(log, i, j - 1);
    }
  }

  /** Every clock within the margin of the claimant's had reached the expiry. */
  ghost predicate Excludes(expiry: u64, now: u64) {
    forall h: nat | WithinSkew(h, now) :: expiry <= h
  }

  /** When a winning takeover excludes the demoted holder in time, for every
      admissible skew: exactly when the margin has passed since the expiry stored
      at the takeover write, not merely since the one that was read. The two can
      only differ when the incumbent renewed between the claim's read and its
      write: without such a renewal, and without saturation, it always excludes. */
  lemma ExclusionExactly(cfg: Config, s: State, id: nat)
    requires Winning(cfg, s, id)
    ensures s.log != []
    ensures Excludes(Demoted(s).expiresAt, s.attempts[id].now) <==>
            Demoted(s).expiresAt == 0 || Demoted(s).expiresAt + TAKEOVER_SAFETY_MARGIN <= s.attempts[id].now
    ensures !Excludes(Demoted(s).expiresAt, s.attempts[id].now) ==>
              || RenewedSince(s.log, s.attempts[id].seenAt)
              || s.attempts[id].observed.expiresAt + TAKEOVER_SAFETY_MARGIN > U64_MAX
  {
    WinningDemotes(cfg, s, id);
    var now, seenAt := s.attempts[id].now, s.attempts[id].seenAt;
    var earliest := if now <= TAKEOVER_SAFETY_MARGIN then 0 else now - TAKEOVER_SAFETY_MARGIN;
    assert WithinSkew(earliest, now);
    if !RenewedSince(s.log, seenAt) {
      assert AttemptSound(cfg, s.log, s.attempts[id]);
      OnlyRenewalsChange(s.log, seenAt, |s.log| - 1);
    }
  }

  /** The gap between read and write is real: the incumbent renews inside it,
      the takeover still wins on the epoch, and the incumbent's clock, in perfect
      agreement with the challenger's, is a minute short of its new expiry. The
      epoch fence is what stops the incumbent: its next commit is refused. */
  lemma RenewalInTheGap(cfg: Config, s: State, a: Identity, b: Identity, ops: seq<Operation>)
    requires Initial(cfg, s) && 240_000 <= cfg.latestInstant
    requires Disciplined(cfg, CommitStep(1, ops))
    ensures var steps := [AcquireStep(a, 0), ReadStep(7, b), CheckStep(7, 120_000), RenewStep(a, 1, 120_000)];
            var mid := Run(cfg, s, steps);
            && Winning(cfg, mid, 7)
            && Demoted(mid).expiresAt == 180_000
            && mid.attempts[7].now == 120_000
            && Next(cfg, Next(cfg, mid, CasStep(7)), CommitStep(1, ops)) == Next(cfg, mid, CasStep(7))
  {
    var s3 := Next(cfg, Next(cfg, Next(cfg, s, AcquireStep(a, 0)), ReadStep(7, b)), CheckStep(7, 120_000));
    FourSteps(cfg, s, AcquireStep(a, 0), ReadStep(7, b), CheckStep(7, 120_000), RenewStep(a, 1, 120_000));
    GapOpens(cfg, s, a, b);
    RenewKeepsInv(cfg, s3, a, 1, 120_000);
    var s4 := Next(cfg, s3, RenewStep(a, 1, 120_000));
    StoredIsLast(cfg, s4);
    CasVerdict(cfg, s4, 7);
    CasKeepsInv(cfg, s4, 7);
    var s5 := Next(cfg, s4, CasStep(7));
    StoredIsLast(cfg, s5);
    CommitLandsIff(cfg, s5, 1, ops);
  }

  /** The run up to the challenger's successful eligibility check. */
  lemma GapOpens(cfg: Config, s: State, a: Identity, b: Identity)
    requires Initial(cfg, s) && 240_000 <= cfg.latestInstant
    ensures var acquired := Lease(a.region, a.holder, 1, 60_000);
            var s3 := Next(cfg, Next(cfg, Next(cfg, s, AcquireStep(a, 0)), ReadStep(7, b)), CheckStep(7, 120_000));
            && Inv(cfg, s3)
            && s3.log == [Event(Acquired(a, 0), acquired)]
            && s3.attempts == map[7 := Ready(b, acquired, 0, 120_000, Lease(b.region, b.holder, 2, 180_000))]
  {
    var acquired := Lease(a.region, a.holder, 1, 60_000);
    AcquireKeepsInv(cfg, s, a, 0);
    var s1 := Next(cfg, s, AcquireStep(a, 0));
    assert acquired == Lease(a.region, a.holder, INITIAL_EPOCH, SaturatingAdd(0, LEASE_TTL));
    ReadAndCheck(cfg, s1, a, b, acquired);
  }

  lemma ReadAndCheck(cfg: Config, s1: State, a: Identity, b: Identity, acquired: Lease)
    requires Inv(cfg, s1) && 240_000 <= cfg.latestInstant && acquired == Lease(a.region, a.holder, 1, 60_000)
    requires s1.log == [Event(Acquired(a, 0), acquired)] && s1.attempts == map[]
    ensures var s3 := Next(cfg, Next(cfg, s1, ReadStep(7, b)), CheckStep(7, 120_000));
            && Inv(cfg, s3)
            && s3.log == s1.log
            && s3.attempts == map[7 := Ready(b, acquired, 0, 120_000, Lease(b.region, b.holder, 2, 180_000))]
  {
    DecodeEncode(cfg.key, acquired, cfg.latestInstant);
    ReadKeepsInv(cfg, s1, 7, b);
    var s2 := Next(cfg, s1, ReadStep(7, b));
    assert ReadLeaseOp(cfg.As(b), s1.store) == Ok(acquired);
    assert s2 == s1.(attempts := map[7 := Observed(b, acquired, 0)]);
    assert ClaimDecision(cfg.As(b), acquired, 120_000) == Ok(Lease(b.region, b.holder, 2, 180_000));
    NextKeepsInv(cfg, s2, CheckStep(7, 120_000));
  }

  lemma FourSteps(cfg: Config, s: State, a: Step, b: Step, c: Step, d: Step)
    ensures Run(cfg, s, [a, b, c, d]) == Next(cfg, Next(cfg, Next(cfg, Next(cfg, s, a), b), c), d)
  {
    FirstStep(cfg, s, a, [b, c, d]);
    FirstStep(cfg, Next(cfg, s, a), b, [c, d]);
    FirstStep(cfg, Next(cfg, Next(cfg, s, a), b), c, [d]);
    FirstStep(cfg, Next(cfg, Next(cfg, Next(cfg, s, a), b), c), d, []);
  }

  lemma FirstStep(cfg: Config, s: State, step: Step, rest: seq<Step>)
    ensures Run(cfg, s, [step] + rest) == Run(cfg, Next(cfg, s, step), rest)
  {
    assert ([step] + rest)[1..] == rest;
  }
}
