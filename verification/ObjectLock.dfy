/** The in-memory object store and its retention lock: one map behind two
    interfaces, judged against clock readings that are inputs of each call. */
module ObjectLock {
  import opened Base
  import opened ReplicatedKv

  type Time = int

  datatype PutMode = IfNotExists | Overwrite

  datatype StoredObject = StoredObject(data: seq<byte>, lastModified: Time, retainUntil: Option<Time>)

  datatype Metadata = Metadata(sizeBytes: u64, lastModified: Time)

  type Objects = map<string, StoredObject>

  datatype Outcome = Outcome(objects: Objects, result: Result<Unit, CloudError>)

  /** The calls that can write. `now` is the reading a retention check uses and
      `stamp` the later one recorded as modification time. */
  datatype Call =
    | Put(key: string, data: seq<byte>, mode: PutMode, now: Time, stamp: Time)
    | Delete(key: string, now: Time)
    | PutWithRetention(key: string, data: seq<byte>, retainUntil: Time, stamp: Time)
    | ExtendRetention(key: string, retainUntil: Time)

  predicate Retained(stored: StoredObject, now: Time) {
    stored.retainUntil.Some? && now < stored.retainUntil.value
  }

  function Verdict(objects: Objects, call: Call): Result<Unit, CloudError> {
    match call
    case Put(key, _, mode, now, _) =>
      if key !in objects then Ok(Unit.Unit)
      else if mode == IfNotExists then Err(AlreadyExists(key))
      else if Retained(objects[key], now) then Err(RetentionViolation)
      else Ok(Unit.Unit)
    case Delete(key, now) =>
      if key !in objects then Err(NotFound(key))
      else if Retained(objects[key], now) then Err(RetentionViolation)
      else Ok(Unit.Unit)
    case PutWithRetention(key, _, _, _) =>
      if key in objects then Err(AlreadyExists(key)) else Ok(Unit.Unit)
    case ExtendRetention(key, retainUntil) =>
      if key !in objects || objects[key].retainUntil.None? then Err(NotFound(key))
      else if retainUntil <= objects[key].retainUntil.value then Err(RetentionViolation)
      else Ok(Unit.Unit)
  }

  /** What an accepted call leaves at its key. */
  function Written(objects: Objects, call: Call): Option<StoredObject>
    requires Verdict(objects, call).Ok?
  {
    match call
    case Put(_, data, _, _, stamp) => Some(StoredObject(data, stamp, None))
    case Delete(_, _) => None
    case PutWithRetention(_, data, retainUntil, stamp) => Some(StoredObject(data, stamp, Some(retainUntil)))
    case ExtendRetention(key, retainUntil) => Some(objects[key].(retainUntil := Some(retainUntil)))
  }

  function Perform(objects: Objects, call: Call): Outcome {
    var result := Verdict(objects, call);
    if result.Err? then Outcome(objects, result)
    else
      match Written(objects, call)
      case Some(stored) => Outcome(objects[call.key := stored], result)
      case None => Outcome(objects - {call.key}, result)
  }

  function Run(objects: Objects, calls: seq<Call>): Objects
    decreases |calls|
  {
    if calls == [] then objects else Run(Perform(objects, calls[0]).objects, calls[1..])
  }

  // ----- Immutability over runs -----

  /** The object holds this data under a retention of at least `until`. */
  predicate Locked(objects: Objects, key: string, data: seq<byte>, until: Time) {
    && key in objects
    && objects[key].data == data
    && objects[key].retainUntil.Some? && objects[key].retainUntil.value >= until
  }

  /** A call that could legally replace or remove an object retained `until`. */
  predicate CanRelease(call: Call, key: string, until: Time) {
    && call.key == key
    && (call.Delete? || (call.Put? && call.mode == Overwrite))
    && call.now >= until
  }

  lemma StepKeepsLock(objects: Objects, call: Call, key: string, data: seq<byte>, until: Time)
    requires Locked(objects, key, data, until) && !CanRelease(call, key, until)
    ensures Locked(Perform(objects, call).objects, key, data, until)
  {
  }

  /** Only an overwrite or a delete that reads the clock at or after the
      retention instant can ever release a locked object, clock order aside. */
  lemma {:induction false} ReleaseNeedsExpiry(objects: Objects, calls: seq<Call>, key: string, data: seq<byte>,
                                              until: Time)
    requires Locked(objects, key, data, until)
    ensures || Locked(Run(objects, calls), key, data, until)
            || exists call :: call in calls && CanRelease(call, key, until)
    decreases |calls|
  {
    if calls != [] {
      if CanRelease(calls[0], key, until) {
        assert calls[0] in calls;
      } else {
        StepKeepsLock(objects, calls[0], key, data, until);
        ReleaseNeedsExpiry(Perform(objects, calls[0]).objects, calls[1..], key, data, until);
      }
    }
  }

  predicate ReadsClock(call: Call) {
    call.Put? || call.Delete?
  }

  /** Clock readings never go backward along the run, from `from` up to `to`. */
  ghost predicate ClockRuns(calls: seq<Call>, from: Time, to: Time)
    decreases |calls|
  {
    if calls == [] then from <= to
    else if !ReadsClock(calls[0]) then ClockRuns(calls[1..], from, to)
    else from <= calls[0].now && ClockRuns(calls[1..], calls[0].now, to)
  }

  lemma {:induction false} ReadingsBounded(calls: seq<Call>, from: Time, to: Time)
    requires ClockRuns(calls, from, to)
    ensures from <= to && forall call | call in calls && ReadsClock(call) :: from <= call.now <= to
    decreases |calls|
  {
    if calls != [] {
      ReadingsBounded(calls[1..], if ReadsClock(calls[0]) then calls[0].now else from, to);
      assert calls == [calls[0]] + calls[1..];
    }
  }

  /** Retention safety: once a retained put has succeeded, every later state
      whose time is before the retention instant still holds exactly its bytes
      with at least its retention, whatever calls were attempted meanwhile. */
  lemma RetentionSafety(objects: Objects, create: Call, calls: seq<Call>, from: Time, to: Time)
    requires create.PutWithRetention? && Verdict(objects, create).Ok?
    requires ClockRuns(calls, from, to) && to < create.retainUntil
    ensures Locked(Run(Perform(objects, create).objects, calls), create.key, create.data, create.retainUntil)
  {
    ReadingsBounded(calls, from, to);
    ReleaseNeedsExpiry(Perform(objects, create).objects, calls, create.key, create.data, create.retainUntil);
  }

  /** The boundary is exact: a locked object can be deleted, and can be
      overwritten, at a reading precisely when its retention has been reached;
      it can never be re-created, and its retention only moves forward. */
  lemma RejectionBoundary(objects: Objects, key: string, data: seq<byte>, until: Time)
    requires key in objects && objects[key].retainUntil == Some(until)
    ensures forall now :: Verdict(objects, Call.Delete(key, now)).Ok? <==> now >= until
    ensures forall now, stamp :: Verdict(objects, Call.Put(key, data, Overwrite, now, stamp)).Ok? <==> now >= until
    ensures forall now, stamp ::
              Verdict(objects, Call.Put(key, data, IfNotExists, now, stamp)) == Err(AlreadyExists(key))
    ensures forall r, stamp :: Verdict(objects, PutWithRetention(key, data, r, stamp)) == Err(AlreadyExists(key))
    ensures forall r :: Verdict(objects, ExtendRetention(key, r)).Ok? <==> r > until
  {
  }

  /** After expiry a plain overwrite is accepted and the new object carries no
      retention at all: nothing is left to extend. */
  lemma OverwriteDropsRetention(objects: Objects, key: string, data: seq<byte>, until: Time, now: Time, stamp: Time,
                                later: Time)
    requires key in objects && objects[key].retainUntil == Some(until) && until <= now
    ensures var after := Run(objects, [Call.Put(key, data, Overwrite, now, stamp)]);
            && key in after && after[key].data == data
            && Verdict(after, ExtendRetention(key, later)) == Err(NotFound(key))
            && Verdict(after, Call.Delete(key, now)).Ok?
  {
    var put := Call.Put(key, data, Overwrite, now, stamp);
    assert [put][1..] == [];
  }

  predicate Overwrites(call: Call, key: string) {
    call.key == key && (call.Delete? || (call.Put? && call.mode == Overwrite))
  }

  /** Without deletes and overwrites of its key a stored object keeps its bytes
      and its modification time, retained or not. */
  lemma {:induction false} AppendOnly(objects: Objects, calls: seq<Call>, key: string)
    requires key in objects && forall call | call in calls :: !Overwrites(call, key)
    ensures var after := Run(objects, calls);
            key in after && after[key].data == objects[key].data && after[key].lastModified == objects[key].lastModified
    decreases |calls|
  {
    if calls != [] {
      assert calls[0] in calls;
      AppendOnly(Perform(objects, calls[0]).objects, calls[1..], key);
    }
  }

  function Retention(objects: Objects, key: string): Option<Time> {
    if key in objects then objects[key].retainUntil else None
  }

  /** An extension lengthens the retention and touches nothing else. */
  lemma ExtendOnlyExtends(objects: Objects, key: string, until: Time)
    ensures var Outcome(after, result) := Perform(objects, ExtendRetention(key, until));
            && after.Keys == objects.Keys
            && (forall k | k in objects ::
                  after[k].data == objects[k].data && after[k].lastModified == objects[k].lastModified)
            && (result.Ok? <==> Retention(objects, key).Some? && Retention(objects, key).value < until)
            && (forall k | k in objects ::
                  Retention(after, k) == if result.Ok? && k == key then Some(until) else Retention(objects, k))
  {
  }

  // ----- What a reader gets -----

  function Fetch(objects: Objects, key: string): Result<seq<byte>, CloudError> {
    if key in objects then Ok(objects[key].data) else Err(NotFound(key))
  }

  predicate Stores(call: Call) {
    call.Put? || call.PutWithRetention?
  }

  /** When each call is refused, and that a refused call changes nothing. */
  lemma RefusedIff(objects: Objects, call: Call)
    ensures var Outcome(after, result) := Perform(objects, call);
            var found := Fetch(objects, call.key);
            var retention := Retention(objects, call.key);
            && (result == Err(NotFound(call.key)) <==>
                  || (call.Delete? && found.Err?)
                  || (call.ExtendRetention? && retention.None?))
            && (result == Err(AlreadyExists(call.key)) <==>
                  found.Ok? && (call.PutWithRetention? || (call.Put? && call.mode.IfNotExists?)))
            && (result == Err(RetentionViolation) <==>
                  && retention.Some?
                  && match call
                     case Put(_, _, mode, now, _) => mode.Overwrite? && now < retention.value
                     case Delete(_, now) => now < retention.value
                     case PutWithRetention(_, _, _, _) => false
                     case ExtendRetention(_, until) => until <= retention.value)
            && (result.Err? ==> after == objects)
            && (result.Err? ==> result == Err(NotFound(call.key)) || result == Err(AlreadyExists(call.key))
                                || result == Err(RetentionViolation))
  {
  }

  /** An accepted put, of either interface, in either mode and whatever was there
      before, leaves exactly its bytes, its time and its retention at its key, and
      every other key as it was; an accepted delete leaves nothing there. */
  lemma AcceptedLeaves(objects: Objects, call: Call)
    requires Verdict(objects, call).Ok?
    ensures var after := Perform(objects, call).objects;
            && (forall k | k != call.key :: k in after <==> k in objects)
            && (forall k | k != call.key && k in objects :: after[k] == objects[k])
            && (Stores(call) ==>
                  && call.key in after && after[call.key].data == call.data
                  && after[call.key].lastModified == call.stamp
                  && Retention(after, call.key) == if call.Put? then None else Some(call.retainUntil))
            && (call.Delete? ==> call.key !in after)
            && (call.ExtendRetention? ==> Fetch(after, call.key) == Fetch(objects, call.key))
  {
  }

  /** Call `i` of the run was accepted and put or removed the object at the key. */
  predicate Replaced(objects: Objects, calls: seq<Call>, key: string, i: nat) {
    && i < |calls| && calls[i].key == key && !calls[i].ExtendRetention?
    && Verdict(Run(objects, calls[..i]), calls[i]).Ok?
  }

  ghost predicate LastReplaced(objects: Objects, calls: seq<Call>, key: string, i: nat) {
    Replaced(objects, calls, key, i) && forall j: nat | i < j :: !Replaced(objects, calls, key, j)
  }

  lemma {:induction false} RunAppend(objects: Objects, calls: seq<Call>, last: Call)
    ensures Run(objects, calls + [last]) == Perform(Run(objects, calls), last).objects
    decreases |calls|
  {
    var all := calls + [last];
    if calls == [] {
      assert all[0] == last && all[1..] == [];
      assert Run(objects, all) == Run(Perform(objects, last).objects, []);
    } else {
      assert all[0] == calls[0] && all[1..] == calls[1..] + [last];
      RunAppend(Perform(objects, calls[0]).objects, calls[1..], last);
    }
  }

  lemma ReplacedAppend(objects: Objects, front: seq<Call>, last: Call, key: string)
    ensures forall j: nat | j < |front| ::
              Replaced(objects, front + [last], key, j) <==> Replaced(objects, front, key, j)
    ensures Replaced(objects, front + [last], key, |front|) <==>
            last.key == key && !last.ExtendRetention? && Verdict(Run(objects, front), last).Ok?
  {
    var all := front + [last];
    assert all[..|front|] == front;
    forall j: nat | j < |front| ensures Replaced(objects, all, key, j) <==> Replaced(objects, front, key, j) {
      assert all[..j] == front[..j] && all[j] == front[j];
    }
  }

  /** Read your writes, over any run of attempted calls: a reader gets the bytes and
      the time of the last accepted put of the key, or nothing if a delete was the
      last to be accepted, or else what was there at the start. */
  lemma {:induction false} ReadYourWrites(objects: Objects, calls: seq<Call>, key: string)
    ensures var end := Run(objects, calls);
            && (forall i: nat | LastReplaced(objects, calls, key, i) ::
                  && (Stores(calls[i]) ==> Fetch(end, key) == Ok(calls[i].data))
                  && (Stores(calls[i]) ==> key in end && end[key].lastModified == calls[i].stamp)
                  && (calls[i].Delete? ==> Fetch(end, key) == Err(NotFound(key))))
            && ((forall i: nat :: !Replaced(objects, calls, key, i)) ==> Fetch(end, key) == Fetch(objects, key))
  {
    if calls != [] {
      var front, last := calls[..|calls| - 1], calls[|calls| - 1];
      assert calls == front + [last];
      ReadYourWrites(objects, front, key);
      RunAppend(objects, front, last);
      ReplacedAppend(objects, front, last, key);
      LastCallReads(objects, front, last, key);
    }
  }

  lemma LastCallReads(objects: Objects, front: seq<Call>, last: Call, key: string)
    requires Run(objects, front + [last]) == Perform(Run(objects, front), last).objects
    ensures var before, end := Run(objects, front), Run(objects, front + [last]);
            if Replaced(objects, front + [last], key, |front|)
            then if Stores(last) then key in end && end[key].data == last.data && end[key].lastModified == last.stamp
                 else key !in end
            else && Fetch(end, key) == Fetch(before, key)
                 && (key in end ==> end[key].lastModified == before[key].lastModified)
  {
    ReplacedAppend(objects, front, last, key);
    if Verdict(Run(objects, front), last).Ok? {
      AcceptedLeaves(Run(objects, front), last);
    }
  }

  // ----- The store -----

  class MemoryObjectStore {
    var objects: Objects

    constructor ()
      ensures objects == map[]
    {
      objects := map[];
    }

    method RejectIfRetained(existing: StoredObject, now: Time) returns (r: Result<Unit, CloudError>)
      ensures r == if Retained(existing, now) then Err(RetentionViolation) else Ok(Unit.Unit)
    {
      if existing.retainUntil.Some? {
        if now < existing.retainUntil.value {
          return Err(RetentionViolation);
        }
      }
      return Ok(Unit.Unit);
    }

    method PutObject(key: string, data: seq<byte>, mode: PutMode, now: Time, stamp: Time)
      returns (r: Result<Unit, CloudError>)
      modifies this
      ensures Outcome(objects, r) == Perform(old(objects), Call.Put(key, data, mode, now, stamp))
    {
      match mode {
        case IfNotExists =>
          if key in objects {
            return Err(AlreadyExists(key));
          }
        case Overwrite =>
          if key in objects {
            var checked := RejectIfRetained(objects[key], now);
            if checked.Err? {
              return checked;
            }
          }
      }
      objects := objects[key := StoredObject(data, stamp, None)];
      return Ok(Unit.Unit);
    }

    method Get(key: string) returns (r: Result<seq<byte>, CloudError>)
      ensures r == Fetch(objects, key)
    {
      if key in objects {
        return Ok(objects[key].data);
      }
      return Err(NotFound(key));
    }

    method Head(key: string) returns (r: Result<Metadata, CloudError>)
      ensures key in objects ==> r == Ok(Metadata(Min(|objects[key].data|, U64_MAX), objects[key].lastModified))
      ensures key !in objects ==> r == Err(NotFound(key))
    {
      if key in objects {
        return Ok(Metadata(Min(|objects[key].data|, U64_MAX), objects[key].lastModified));
      }
      return Err(NotFound(key));
    }

    method DeleteObject(key: string, now: Time) returns (r: Result<Unit, CloudError>)
      modifies this
      ensures Outcome(objects, r) == Perform(old(objects), Call.Delete(key, now))
    {
      if key !in objects {
        return Err(NotFound(key));
      }
      var checked := RejectIfRetained(objects[key], now);
      if checked.Err? {
        return checked;
      }
      objects := objects - {key};
      return Ok(Unit.Unit);
    }

    method PutRetained(key: string, data: seq<byte>, retainUntil: Time, stamp: Time)
      returns (r: Result<Unit, CloudError>)
      modifies this
      ensures Outcome(objects, r) == Perform(old(objects), PutWithRetention(key, data, retainUntil, stamp))
    {
      if key in objects {
        return Err(AlreadyExists(key));
      }
      objects := objects[key := StoredObject(data, stamp, Some(retainUntil))];
      return Ok(Unit.Unit);
    }

    method Extend(key: string, retainUntil: Time) returns (r: Result<Unit, CloudError>)
      modifies this
      ensures Outcome(objects, r) == Perform(old(objects), ExtendRetention(key, retainUntil))
    {
      if key !in objects {
        return Err(NotFound(key));
      }
      var current := objects[key].retainUntil;
      if current.None? {
        return Err(NotFound(key));
      }
      if retainUntil <= current.value {
        return Err(RetentionViolation);
      }
      objects := objects[key := objects[key].(retainUntil := Some(retainUntil))];
      return Ok(Unit.Unit);
    }

    method GetRetention(key: string) returns (r: Result<Time, CloudError>)
      ensures r == if Retention(objects, key).Some? then Ok(Retention(objects, key).value) else Err(NotFound(key))
    {
      if key !in objects || objects[key].retainUntil.None? {
        return Err(NotFound(key));
      }
      return Ok(objects[key].retainUntil.value);
    }
  }
}
