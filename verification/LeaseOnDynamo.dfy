/** The lease protocol run on the DynamoDB backend: every request it issues lies
    in the fragment on which the backends agree. */
module LeaseOnDynamo {
  import opened Base
  import opened ReplicatedKv
  import opened DynamoCodec
  import opened Lease
  import opened LeaseProtocol
  import opened DynamoService
  import opened DynamoSimulation
  import opened DynamoRuns
  import Dynamo = DynamoKv
  import Memory = MemoryKv

  /** Every log has its own lease item, and both backends accept its key. */
  lemma LeaseKeysAccepted(a: string, b: string)
    ensures SplitKey(LeaseKey(a)).Some?
    ensures LeaseKey(a) == LeaseKey(b) <==> a == b
  {
    var key := LeaseKey(a);
    SplitOnceFindsFirstSlash(key);
    assert key[|"log#" + a|] == '/';
    var t := SplitOnce(key).value;
    assert key == RenderKey(t) && key[0] == 'l' && key[|key| - 1] == 'e';
    assert a == key[4..|key| - |"/" + LEASE_SORT_KEY|];
    assert b == LeaseKey(b)[4..|LeaseKey(b)| - |"/" + LEASE_SORT_KEY|];
  }

  /** The store call a step makes, if it makes one. */
  function CallOf(cfg: Config, s: State, step: Step): Option<Call> {
    match step
    case AcquireStep(who, now) =>
      Some(PutCall(cfg.key, EncodeLease(Lease(who.region, who.holder, INITIAL_EPOCH, SaturatingAdd(now, LEASE_TTL))),
                   [NotExists]))
    case RenewStep(who, epoch, now) =>
      Some(UpdateCall(cfg.key, RenewActions(now), RenewConditions(cfg.As(who), epoch)))
    case ReadStep(_, _) => Some(GetCall(cfg.key))
    case CheckStep(_, _) => None
    case CasStep(id) =>
      if id in s.attempts && s.attempts[id].Ready?
      then
        var Ready(_, observed, _, _, target) := s.attempts[id];
        Some(UpdateCall(cfg.key, ClaimActions(target), [EpochCondition(observed.epoch)]))
      else None
    case AbandonStep(_) => None
    case CommitStep(token, ops) => Some(TransactCall(FencedOps(cfg, token, ops)))
    case ElsewhereStep(op) => Some(TransactCall([op]))
  }

  function CallsOf(cfg: Config, s: State, steps: seq<Step>): seq<Call>
    decreases |steps|
  {
    if steps == [] then []
    else
      var call := CallOf(cfg, s, steps[0]);
      (if call.Some? then [call.value] else []) + CallsOf(cfg, Next(cfg, s, steps[0]), steps[1..])
  }

  /** The only thing asked of the callers: what they write beside the lease, or
      under its fence, is itself a transaction in the fragment. */
  ghost predicate CallersInFragment(s: State, step: Step) {
    match step
    case CommitStep(_, ops) => ops == [] || SimpleTransaction(s.store, ops)
    case ElsewhereStep(op) => SimpleTransaction(s.store, [op])
    case _ => true
  }

  ghost predicate CallersStayInFragment(cfg: Config, s: State, steps: seq<Step>)
    decreases |steps|
  {
    steps != [] ==> CallersInFragment(s, steps[0]) && CallersStayInFragment(cfg, Next(cfg, s, steps[0]), steps[1..])
  }

  /** A step changes the store exactly as its call does. */
  lemma StepIsItsCall(cfg: Config, s: State, step: Step)
    ensures Next(cfg, s, step).store ==
            match CallOf(cfg, s, step)
            case None => s.store
            case Some(call) => MemoryStep(s.store, call).0
  {
  }

  lemma LeaseUpdatesNameDistinctAttributes(now: u64, target: Lease)
    ensures DistinctAttributes(RenewActions(now)) && DistinctAttributes(ClaimActions(target))
  {
  }

  lemma SetsNeverOverflow(entries: Memory.Attributes, now: u64, target: Lease)
    ensures !OutOfRange(entries, RenewActions(now)) && !OutOfRange(entries, ClaimActions(target))
  {
  }

  /** A fenced commit is in the fragment when the caller's part is, and does not
      name the lease item itself. */
  lemma FencedInFragment(cfg: Config, s: State, token: u64, ops: seq<Operation>)
    requires SplitKey(cfg.key).Some?
    requires ops == [] || SimpleTransaction(s.store, ops)
    requires forall op | op in ops :: op.key != cfg.key
    ensures SimpleTransaction(s.store, FencedOps(cfg, token, ops))
  {
    var fenced := FencedOps(cfg, token, ops);
    assert forall op :: op in fenced <==> op == fenced[0] || op in ops;
    forall i, j | 0 <= i < j < |fenced| ensures fenced[i].key != fenced[j].key {
      assert fenced[j] == ops[j - 1];
      if i > 0 {
        assert fenced[i] == ops[i - 1];
      }
    }
  }

  /** A commit on this backend must not name the lease item twice. */
  ghost predicate FenceStandsAlone(cfg: Config, step: Step) {
    step.CommitStep? ==> forall op | op in step.ops :: op.key != cfg.key
  }

  /** Every request the protocol issues lies in the fragment. */
  lemma RequestsInFragment(cfg: Config, s: State, step: Step)
    requires Inv(cfg, s) && SplitKey(cfg.key).Some?
    requires CallersInFragment(s, step) && FenceStandsAlone(cfg, step)
    ensures CallOf(cfg, s, step).Some? ==> InFragment(s.store, CallOf(cfg, s, step).value)
  {
    match step
    case RenewStep(who, epoch, now) =>
      LeaseUpdatesNameDistinctAttributes(now, Lease("", "", 0, 0));
      if cfg.key in s.store {
        SetsNeverOverflow(s.store[cfg.key].entries, now, Lease("", "", 0, 0));
      }
    case CasStep(id) =>
      if id in s.attempts && s.attempts[id].Ready? {
        LeaseUpdatesNameDistinctAttributes(0, s.attempts[id].target);
        if cfg.key in s.store {
          SetsNeverOverflow(s.store[cfg.key].entries, 0, s.attempts[id].target);
        }
      }
    case CommitStep(token, ops) => FencedInFragment(cfg, s, token, ops);
    case _ =>
  }

  /** The protocol on DynamoDB: along every interleaving the table answers each
      request as the reference store does and keeps representing it, so the
      safety results about the protocol hold of both backends. */
  lemma {:induction false} ProtocolRunsAgree(cfg: Config, s: State, table: Table, steps: seq<Step>)
    requires Inv(cfg, s) && DisciplinedRun(cfg, steps) && SplitKey(cfg.key).Some?
    requires CallersStayInFragment(cfg, s, steps) && forall step | step in steps :: FenceStandsAlone(cfg, step)
    requires Represents(table, s.store)
    ensures var calls := CallsOf(cfg, s, steps);
            && DynamoRun(table, calls).1 == MemoryRun(s.store, calls).1
            && MemoryRun(s.store, calls).0 == Run(cfg, s, steps).store
            && Represents(DynamoRun(table, calls).0, Run(cfg, s, steps).store)
    decreases |steps|
  {
    if steps != [] {
      var step := steps[0];
      assert step in steps;
      var next, rest := Next(cfg, s, step), steps[1..];
      var call := CallOf(cfg, s, step);
      var later := CallsOf(cfg, next, rest);
      RequestsInFragment(cfg, s, step);
      StepIsItsCall(cfg, s, step);
      NextKeepsInv(cfg, s, step);
      if call.Some? {
        StepAgrees(table, s.store, call.value);
        ProtocolRunsAgree(cfg, next, DynamoStep(table, call.value).0, rest);
        assert ([call.value] + later)[1..] == later;
      } else {
        ProtocolRunsAgree(cfg, next, table, rest);
        assert [] + later == later;
      }
    }
  }

  /** From an empty table: at the end of any run the lease row decodes to the
      lease last written. */
  lemma LeaseRowDecodes(cfg: Config, table: Table, s: State, steps: seq<Step>)
    requires Initial(cfg, s) && Represents(table, s.store) && SplitKey(cfg.key).Some?
    requires DisciplinedRun(cfg, steps)
    requires CallersStayInFragment(cfg, s, steps) && forall step | step in steps :: FenceStandsAlone(cfg, step)
    ensures var end := Run(cfg, s, steps);
            Dynamo.GetOp(DynamoRun(table, CallsOf(cfg, s, steps)).0, cfg.key) ==
            if end.log == [] then Err(NotFound(cfg.key))
            else Ok(Item(cfg.key, EncodeLease(end.log[|end.log| - 1].lease)))
  {
    ProtocolRunsAgree(cfg, s, table, steps);
    RunKeepsInv(cfg, s, steps);
    GetAgrees(DynamoRun(table, CallsOf(cfg, s, steps)).0, Run(cfg, s, steps).store, cfg.key);
  }
}
