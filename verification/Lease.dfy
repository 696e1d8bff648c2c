/** The primary-region lease item and one coordinator's operations on it. */
module Lease {
  import opened Base
  import opened ReplicatedKv
  import opened MemoryKv

  const LEASE_SORT_KEY := "primary-region-lease"
  const ATTR_REGION := "region"
  const ATTR_EXPIRES_AT := "expires_at"
  const ATTR_EPOCH := "epoch"
  const ATTR_HOLDER_ID := "holder_id"

  const LEASE_TTL: u64 := 60_000
  const TAKEOVER_SAFETY_MARGIN: u64 := 60_000
  const INITIAL_EPOCH: u64 := 1

  /** A decoded lease. Instants are whole milliseconds since the Unix epoch. */
  datatype Lease = Lease(region: string, holder: string, epoch: u64, expiresAt: u64)

  datatype LeaseError =
    | LeaseHeld
    | LostLease
    | EpochAdvanced
    | NoLease(key: string)
    | MalformedLease
    | EpochOverflow(current: u64)
    | Backend(cause: CloudError)

  /** Who a coordinator acts as, on which item, and the last millisecond its
      platform can represent as a system time. */
  datatype Coordinator = Coordinator(key: Key, holder: string, region: string, latestInstant: nat)

  function LeaseKey(logId: string): Key {
    "log#" + logId + "/" + LEASE_SORT_KEY
  }

  // ----- Codec -----

  function EncodeLease(lease: Lease): Value {
    Map(map[ATTR_REGION := Str(lease.region),
            ATTR_HOLDER_ID := Str(lease.holder),
            ATTR_EPOCH := U64(lease.epoch),
            ATTR_EXPIRES_AT := U64(lease.expiresAt)])
  }

  function RequireU64(entries: Attributes, attribute: string): Result<u64, LeaseError> {
    if attribute in entries && entries[attribute].U64? then Ok(entries[attribute].number) else Err(MalformedLease)
  }

  function RequireString(entries: Attributes, attribute: string): Result<string, LeaseError> {
    if attribute in entries && entries[attribute].Str? then Ok(entries[attribute].text) else Err(MalformedLease)
  }

  function DecodeLease(item: Item, latestInstant: nat): Result<Lease, LeaseError> {
    if !item.value.Map? then Err(MalformedLease)
    else
      var region := RequireString(item.value.entries, ATTR_REGION);
      var holder := RequireString(item.value.entries, ATTR_HOLDER_ID);
      var epoch := RequireU64(item.value.entries, ATTR_EPOCH);
      var expiresAt := RequireU64(item.value.entries, ATTR_EXPIRES_AT);
      if region.Err? || holder.Err? || epoch.Err? || expiresAt.Err? || expiresAt.value > latestInstant
      then Err(MalformedLease)
      else Ok(Lease(region.value, holder.value, epoch.value, expiresAt.value))
  }

  /** Decoding inverts encoding, except that an expiry beyond the platform's
      range is reported as malformed. */
  lemma DecodeEncode(key: Key, lease: Lease, latestInstant: nat)
    ensures DecodeLease(Item(key, EncodeLease(lease)), latestInstant) ==
            if lease.expiresAt <= latestInstant then Ok(lease) else Err(MalformedLease)
  {
  }

  /** Decoding succeeds exactly on items that carry the four attributes of an
      encoded lease, whatever else they carry. */
  lemma DecodesExactly(item: Item, lease: Lease, latestInstant: nat)
    ensures DecodeLease(item, latestInstant) == Ok(lease) <==>
            && lease.expiresAt <= latestInstant
            && item.value.Map?
            && forall a | a in EncodeLease(lease).entries ::
                 a in item.value.entries && item.value.entries[a] == EncodeLease(lease).entries[a]
  {
    var wanted := EncodeLease(lease).entries;
    assert wanted.Keys == {ATTR_REGION, ATTR_HOLDER_ID, ATTR_EPOCH, ATTR_EXPIRES_AT};
    if item.value.Map? && forall a | a in wanted :: a in item.value.entries && item.value.entries[a] == wanted[a] {
      assert ATTR_REGION in wanted && ATTR_HOLDER_ID in wanted && ATTR_EPOCH in wanted && ATTR_EXPIRES_AT in wanted;
    }
  }

  // ----- Protocol decisions -----

  /** The fencing token in condition form. */
  function EpochCondition(epoch: u64): Condition {
    AttributeEquals(ATTR_EPOCH, U64(epoch))
  }

  function TakeoverEligible(now: u64, expiresAt: u64, margin: u64): bool {
    now >= SaturatingAdd(expiresAt, margin)
  }

  function CheckedNext(epoch: u64): Result<u64, LeaseError> {
    if epoch < U64_MAX then Ok(epoch + 1) else Err(EpochOverflow(epoch))
  }

  function OwnLease(c: Coordinator, epoch: u64, expiresAt: u64): Result<Lease, LeaseError> {
    if expiresAt <= c.latestInstant then Ok(Lease(c.region, c.holder, epoch, expiresAt)) else Err(MalformedLease)
  }

  /** The state after an operation and what it answered. */
  datatype LeaseOutcome = LeaseOutcome(store: Store, result: Result<Lease, LeaseError>)

  function ReadLeaseOp(c: Coordinator, store: Store): Result<Lease, LeaseError> {
    match GetOp(store, c.key)
    case Ok(item) => DecodeLease(item, c.latestInstant)
    case Err(NotFound(key)) => Err(NoLease(key))
    case Err(other) => Err(Backend(other))
  }

  function AcquireOp(c: Coordinator, store: Store, now: u64): LeaseOutcome {
    var expiresAt := SaturatingAdd(now, LEASE_TTL);
    var value := EncodeLease(Lease(c.region, c.holder, INITIAL_EPOCH, expiresAt));
    var Outcome(after, result) := PutOp(store, c.key, value, [NotExists]);
    match result
    case Ok(_) => LeaseOutcome(after, OwnLease(c, INITIAL_EPOCH, expiresAt))
    case Err(ConditionFailed) => LeaseOutcome(after, Err(LeaseHeld))
    case Err(other) => LeaseOutcome(after, Err(Backend(other)))
  }

  function RenewConditions(c: Coordinator, epoch: u64): seq<Condition> {
    [AttributeEquals(ATTR_HOLDER_ID, Str(c.holder)), EpochCondition(epoch)]
  }

  function RenewActions(now: u64): seq<UpdateAction> {
    [Set(ATTR_EXPIRES_AT, U64(SaturatingAdd(now, LEASE_TTL)))]
  }

  /** An update's answer, with a lost condition reported as `lost`. */
  function Answer(c: Coordinator, result: Result<Item, CloudError>, lost: LeaseError): Result<Lease, LeaseError> {
    match result
    case Ok(item) => DecodeLease(item, c.latestInstant)
    case Err(ConditionFailed) => Err(lost)
    case Err(NotFound(key)) => Err(NoLease(key))
    case Err(other) => Err(Backend(other))
  }

  function RenewOp(c: Coordinator, store: Store, epoch: u64, now: u64): LeaseOutcome {
    var Outcome(after, result) := AtomicUpdateOp(store, c.key, RenewActions(now), RenewConditions(c, epoch));
    LeaseOutcome(after, Answer(c, result, LostLease))
  }

  /** The decision a claim makes after its read: refuse, or write this lease. */
  function ClaimDecision(c: Coordinator, observed: Lease, now: u64): Result<Lease, LeaseError> {
    if !TakeoverEligible(now, observed.expiresAt, TAKEOVER_SAFETY_MARGIN) then Err(LeaseHeld)
    else
      match CheckedNext(observed.epoch)
      case Err(e) => Err(e)
      case Ok(next) => Ok(Lease(c.region, c.holder, next, SaturatingAdd(now, LEASE_TTL)))
  }

  function ClaimActions(target: Lease): seq<UpdateAction> {
    [Set(ATTR_EPOCH, U64(target.epoch)),
     Set(ATTR_HOLDER_ID, Str(target.holder)),
     Set(ATTR_REGION, Str(target.region)),
     Set(ATTR_EXPIRES_AT, U64(target.expiresAt))]
  }

  /** The takeover write: the linearization point of a claim. */
  function ClaimCasOp(c: Coordinator, store: Store, observed: Lease, target: Lease): LeaseOutcome {
    var Outcome(after, result) := AtomicUpdateOp(store, c.key, ClaimActions(target), [EpochCondition(observed.epoch)]);
    LeaseOutcome(after, Answer(c, result, EpochAdvanced))
  }

  /** Read, decide and write with nothing in between. */
  function ClaimLeaseOp(c: Coordinator, store: Store, now: u64): LeaseOutcome {
    match ReadLeaseOp(c, store)
    case Err(e) => LeaseOutcome(store, Err(e))
    case Ok(observed) =>
      match ClaimDecision(c, observed, now)
      case Err(e) => LeaseOutcome(store, Err(e))
      case Ok(target) => ClaimCasOp(c, store, observed, target)
  }

  // ----- What the writes do to a stored lease -----

  lemma SetsApply(entries: Attributes, first: UpdateAction, rest: seq<UpdateAction>)
    requires first.Set?
    ensures ApplyActions(entries, [first] + rest) == ApplyActions(entries[first.attribute := first.value], rest)
    decreases |rest|
  {
    var actions := [first] + rest;
    if rest == [] {
      assert actions[..0] == [] && actions == [first];
    } else {
      assert actions[..|actions| - 1] == [first] + rest[..|rest| - 1];
      SetsApply(entries, first, rest[..|rest| - 1]);
    }
  }

  lemma RenewedLease(lease: Lease, now: u64)
    ensures Updated(EncodeLease(lease), RenewActions(now)) ==
            Some(EncodeLease(lease.(expiresAt := SaturatingAdd(now, LEASE_TTL))))
  {
    var entries := EncodeLease(lease).entries;
    var action := RenewActions(now)[0];
    assert RenewActions(now) == [action] + [];
    SetsApply(entries, action, []);
    assert entries[action.attribute := action.value] ==
           EncodeLease(lease.(expiresAt := SaturatingAdd(now, LEASE_TTL))).entries;
  }

  lemma ClaimedLease(lease: Lease, target: Lease)
    ensures Updated(EncodeLease(lease), ClaimActions(target)) == Some(EncodeLease(target))
  {
    var a := ClaimActions(target);
    var e0 := EncodeLease(lease).entries;
    var e1 := e0[ATTR_EPOCH := U64(target.epoch)];
    var e2 := e1[ATTR_HOLDER_ID := Str(target.holder)];
    var e3 := e2[ATTR_REGION := Str(target.region)];
    var e4 := e3[ATTR_EXPIRES_AT := U64(target.expiresAt)];
    assert a == [a[0]] + a[1..];
    SetsApply(e0, a[0], a[1..]);
    assert a[1..] == [a[1]] + a[2..];
    SetsApply(e1, a[1], a[2..]);
    assert a[2..] == [a[2]] + a[3..];
    SetsApply(e2, a[2], a[3..]);
    assert a[3..] == [a[3]] + [];
    SetsApply(e3, a[3], []);
    assert e4 == EncodeLease(target).entries;
  }

  // ----- What each operation answers and leaves -----

  /** The stored lease and the answer after a write of `target`: the write stands
      even when its expiry is not representable and the answer is an error. */
  predicate Wrote(c: Coordinator, store: Store, outcome: LeaseOutcome, target: Lease) {
    && outcome.store == store[c.key := EncodeLease(target)]
    && outcome.result == if target.expiresAt <= c.latestInstant then Ok(target) else Err(MalformedLease)
  }

  lemma AcquireAnswers(c: Coordinator, store: Store, now: u64)
    ensures var outcome := AcquireOp(c, store, now);
            if c.key in store then outcome == LeaseOutcome(store, Err(LeaseHeld))
            else Wrote(c, store, outcome, Lease(c.region, c.holder, 1, Min(now + 60_000, U64_MAX)))
  {
    assert [NotExists][0] == NotExists;
    assert Holds(Lookup(store, c.key), [NotExists][0]) <==> c.key !in store;
  }

  /** A renewal lands for the stored holder and epoch, and only for them. */
  lemma RenewAnswers(c: Coordinator, store: Store, lease: Lease, epoch: u64, now: u64)
    ensures c.key !in store ==> RenewOp(c, store, epoch, now) == LeaseOutcome(store, Err(NoLease(c.key)))
    ensures c.key in store && store[c.key] == EncodeLease(lease) ==>
              var outcome := RenewOp(c, store, epoch, now);
              if lease.holder == c.holder && lease.epoch == epoch
              then Wrote(c, store, outcome, Lease(lease.region, c.holder, epoch, Min(now + 60_000, U64_MAX)))
              else outcome == LeaseOutcome(store, Err(LostLease))
  {
    if c.key in store && store[c.key] == EncodeLease(lease) {
      var conditions := RenewConditions(c, epoch);
      RenewedLease(lease, now);
      assert conditions[0] in conditions && conditions[1] in conditions;
      DecodeEncode(c.key, lease.(expiresAt := Min(now + 60_000, U64_MAX)), c.latestInstant);
    }
  }

  /** A claim on a held lease: refused with nothing written while the expiry and a
      further minute lie ahead, and otherwise the lease is the caller's under the
      next epoch. */
  lemma ClaimAnswers(c: Coordinator, store: Store, lease: Lease, now: u64)
    requires c.key in store ==> store[c.key] == EncodeLease(lease)
    ensures var outcome := ClaimLeaseOp(c, store, now);
            if c.key !in store then outcome == LeaseOutcome(store, Err(NoLease(c.key)))
            else if lease.expiresAt > c.latestInstant then outcome == LeaseOutcome(store, Err(MalformedLease))
            else if now < Min(lease.expiresAt + 60_000, U64_MAX) then outcome == LeaseOutcome(store, Err(LeaseHeld))
            else if lease.epoch == U64_MAX then outcome == LeaseOutcome(store, Err(EpochOverflow(U64_MAX)))
            else Wrote(c, store, outcome, Lease(c.region, c.holder, lease.epoch + 1, Min(now + 60_000, U64_MAX)))
  {
    if c.key in store {
      DecodeEncode(c.key, lease, c.latestInstant);
      if ClaimDecision(c, lease, now).Ok? {
        var target := ClaimDecision(c, lease, now).value;
        ClaimedLease(lease, target);
        assert AllHold(Some(store[c.key]), [EpochCondition(lease.epoch)]);
        DecodeEncode(c.key, target, c.latestInstant);
      }
    }
  }

  // ----- The coordinator -----

  /** One region's coordinator over a shared store. */
  class LeaseCoordinator {
    const kv: MemoryReplicatedKv
    const me: Coordinator

    constructor (kv: MemoryReplicatedKv, logId: string, holder: string, region: string, latestInstant: nat)
      ensures this.kv == kv
      ensures me == Coordinator(LeaseKey(logId), holder, region, latestInstant)
    {
      this.kv := kv;
      this.me := Coordinator(LeaseKey(logId), holder, region, latestInstant);
    }

    method ReadLease() returns (r: Result<Lease, LeaseError>)
      ensures r == ReadLeaseOp(me, kv.items)
    {
      var got := kv.Get(me.key);
      match got {
        case Ok(item) => return DecodeLease(item, me.latestInstant);
        case Err(NotFound(key)) => return Err(NoLease(key));
        case Err(other) => return Err(Backend(other));
      }
    }

    method Acquire(now: u64) returns (r: Result<Lease, LeaseError>)
      modifies kv
      ensures LeaseOutcome(kv.items, r) == AcquireOp(me, old(kv.items), now)
    {
      var expiresAt := SaturatingAdd(now, LEASE_TTL);
      var value := EncodeLease(Lease(me.region, me.holder, INITIAL_EPOCH, expiresAt));
      var put := kv.Put(me.key, value, [NotExists]);
      match put {
        case Ok(_) => return OwnLease(me, INITIAL_EPOCH, expiresAt);
        case Err(ConditionFailed) => return Err(LeaseHeld);
        case Err(other) => return Err(Backend(other));
      }
    }

    method Renew(epoch: u64, now: u64) returns (r: Result<Lease, LeaseError>)
      modifies kv
      ensures LeaseOutcome(kv.items, r) == RenewOp(me, old(kv.items), epoch, now)
    {
      var updated := kv.AtomicUpdate(me.key, RenewActions(now), RenewConditions(me, epoch));
      return Answer(me, updated, LostLease);
    }

    method ClaimLease(now: u64) returns (r: Result<Lease, LeaseError>)
      modifies kv
      ensures LeaseOutcome(kv.items, r) == ClaimLeaseOp(me, old(kv.items), now)
    {
      var observed := ReadLease();
      if observed.Err? {
        return observed;
      }
      var current := observed.value;
      if !TakeoverEligible(now, current.expiresAt, TAKEOVER_SAFETY_MARGIN) {
        return Err(LeaseHeld);
      }
      var next := CheckedNext(current.epoch);
      if next.Err? {
        return Err(next.error);
      }
      var target := Lease(me.region, me.holder, next.value, SaturatingAdd(now, LEASE_TTL));
      var updated := kv.AtomicUpdate(me.key, ClaimActions(target), [EpochCondition(current.epoch)]);
      return Answer(me, updated, EpochAdvanced);
    }
  }
}
