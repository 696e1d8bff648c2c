/** Waiting for an instant of clock time, and the cadence ticker built on it. */
module Interval {
  import opened Base

  type Time = int

  /** The position of the first reading at which a deadline has been reached. */
  ghost predicate FirstReached(readings: seq<Time>, deadline: Time, at: Option<nat>) {
    match at
    case Some(i) => i < |readings| && deadline <= readings[i] && forall j | 0 <= j < i :: readings[j] < deadline
    case None => forall j | 0 <= j < |readings| :: readings[j] < deadline
  }

  /** `readings[0]` is read after subscribing, each later one after one more
      notification; `None` is a sleeper still waiting when they end. */
  method SleepUntil(readings: seq<Time>, deadline: Time) returns (at: Option<nat>)
    ensures FirstReached(readings, deadline, at)
  {
    var i := 0;
    while i < |readings| && readings[i] < deadline
      invariant 0 <= i <= |readings|
      invariant forall j | 0 <= j < i :: readings[j] < deadline
    {
      i := i + 1;
    }
    return if i < |readings| then Some(i) else None;
  }

  /** `latest` is the last instant the platform can represent. */
  function CheckedAdd(instant: Time, period: nat, latest: Time): Option<Time> {
    if instant + period <= latest then Some(instant + period) else None
  }

  /** A tick that completed, with the schedule it leaves; or one still waiting. */
  function TickOp(next: Option<Time>, period: nat, latest: Time, now: Time): Option<(Time, Option<Time>)> {
    if next.None? || now < next.value then None
    else Some((next.value, CheckedAdd(next.value, period, latest)))
  }

  class Ticker {
    const period: nat
    const latest: Time
    var next: Option<Time>

    constructor (now: Time, period: nat, latest: Time)
      ensures this.period == period && this.latest == latest && next == CheckedAdd(now, period, latest)
    {
      this.period, this.latest := period, latest;
      next := CheckedAdd(now, period, latest);
    }

    /** Waits through the readings; a schedule that has overflowed never ticks. */
    method Tick(readings: seq<Time>) returns (tick: Option<Time>)
      modifies this
      ensures tick.Some? ==> exists i ::
                0 <= i < |readings| && TickOp(old(next), period, latest, readings[i]) == Some((tick.value, next))
      ensures tick.None? ==> next == old(next)
      ensures tick.None? ==> forall j | 0 <= j < |readings| :: TickOp(next, period, latest, readings[j]) == None
    {
      if next.None? {
        return None;
      }
      var deadline := next.value;
      var at := SleepUntil(readings, deadline);
      if at.None? {
        return None;
      }
      next := CheckedAdd(deadline, period, latest);
      return Some(deadline);
    }
  }

  /** The ticks that complete, of `calls` made one after another while the clock
      shows `now`, and the schedule they leave. */
  function Burst(next: Option<Time>, period: nat, latest: Time, now: Time, calls: nat): (seq<Time>, Option<Time>)
    decreases calls
  {
    if calls == 0 then ([], next)
    else
      match TickOp(next, period, latest, now)
      case None => ([], next)
      case Some((tick, later)) =>
        var (rest, end) := Burst(later, period, latest, now, calls - 1);
        ([tick] + rest, end)
  }

  /** The i-th scheduled instant, without an end to the schedule. */
  function Scheduled(first: Time, period: nat, i: nat): Time
    decreases i
  {
    if i == 0 then first else Scheduled(first + period, period, i - 1)
  }

  lemma {:induction false} ScheduledIs(first: Time, period: nat, i: nat)
    ensures Scheduled(first, period, i) == first + i * period
    decreases i
  {
    if i > 0 {
      ScheduledIs(first + period, period, i - 1);
      assert (i - 1) * period + period == i * period;
    }
  }

  lemma {:induction false} BurstFollowsSchedule(first: Time, period: nat, latest: Time, now: Time, calls: nat)
    requires now <= latest
    ensures var (ticks, end) := Burst(Some(first), period, latest, now, calls);
            && |ticks| <= calls
            && (forall i | 0 <= i < |ticks| :: ticks[i] == Scheduled(first, period, i) <= now)
            && (|ticks| < calls ==> now < Scheduled(first, period, |ticks|))
            && end == if Scheduled(first, period, |ticks|) <= latest || ticks == []
                      then Some(Scheduled(first, period, |ticks|)) else None
    decreases calls
  {
    if calls > 0 && first <= now {
      if first + period <= latest {
        BurstFollowsSchedule(first + period, period, latest, now, calls - 1);
      } else {
        assert Burst(None, period, latest, now, calls - 1) == ([], None);
        assert Scheduled(first, period, 1) == Scheduled(first + period, period, 0);
      }
    }
  }

  /** After a jump of the clock the missed ticks fire back to back, every one of
      them at its own scheduled time, for as many calls as are made or until the
      schedule has caught up: none is skipped and none is early. With a zero
      period the schedule stands still and every call ticks. */
  lemma BurstCatchesUp(first: Time, period: nat, latest: Time, now: Time, calls: nat)
    requires now <= latest
    ensures var (ticks, end) := Burst(Some(first), period, latest, now, calls);
            && (forall i | 0 <= i < |ticks| :: ticks[i] == first + i * period <= now)
            && |ticks| <= calls && (|ticks| < calls ==> now < first + |ticks| * period)
            && (end.Some? ==> end.value == first + |ticks| * period)
            && (end.None? ==> first + |ticks| * period > latest)
            && (period == 0 && first <= now ==> |ticks| == calls)
  {
    BurstFollowsSchedule(first, period, latest, now, calls);
    var ticks := Burst(Some(first), period, latest, now, calls).0;
    ScheduledIs(first, period, |ticks|);
    forall i | 0 <= i < |ticks| ensures ticks[i] == first + i * period <= now {
      ScheduledIs(first, period, i);
    }
  }
}
