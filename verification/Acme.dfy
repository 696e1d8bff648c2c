/** Single-use nonces, accounts, and the new-account handler that drives both
    (sections 6.5 and 7.3 of RFC 8555). */
module Acme {
  import opened Base

  type Time = int

  datatype AcmeError =
    | BadNonce
    | BadSignatureAlgorithm
    | Malformed
    | AccountDoesNotExist
    | UrlMismatch
    | BadPublicKey
    | Internal

  // ----- Nonces -----

  /** Outstanding nonces with the last instant each may be spent. */
  type Nonces = map<string, Time>

  function Prune(nonces: Nonces, now: Time): Nonces {
    map v | v in nonces && now <= nonces[v] :: nonces[v]
  }

  /** `entropy` is what the random source yields, or `None` when it fails; it
      may repeat a value already outstanding. */
  function IssueNonce(nonces: Nonces, ttl: nat, now: Time, entropy: Option<string>)
    : (Nonces, Result<string, AcmeError>)
  {
    match entropy
    case None => (Prune(nonces, now), Err(Internal))
    case Some(v) => (Prune(nonces, now)[v := now + ttl], Ok(v))
  }

  /** An expired nonce is dropped by the attempt to spend it. */
  function ConsumeNonce(nonces: Nonces, v: string, now: Time): (Nonces, Result<Unit, AcmeError>) {
    (nonces - {v}, if v in nonces && now <= nonces[v] then Ok(Unit.Unit) else Err(BadNonce))
  }

  class NonceStore {
    const ttl: nat
    var issued: Nonces

    constructor (ttl: nat)
      ensures this.ttl == ttl && issued == map[]
    {
      this.ttl, this.issued := ttl, map[];
    }

    method PruneExpired(now: Time)
      modifies this
      ensures issued == Prune(old(issued), now)
    {
      issued := map v | v in issued && now <= issued[v] :: issued[v];
    }

    method Issue(now: Time, entropy: Option<string>) returns (r: Result<string, AcmeError>)
      modifies this
      ensures (issued, r) == IssueNonce(old(issued), ttl, now, entropy)
      ensures forall v | v in issued :: now <= issued[v]
    {
      PruneExpired(now);
      if entropy.None? {
        return Err(Internal);
      }
      issued := issued[entropy.value := now + ttl];
      return Ok(entropy.value);
    }

    method Consume(v: string, now: Time) returns (r: Result<Unit, AcmeError>)
      modifies this
      ensures (issued, r) == ConsumeNonce(old(issued), v, now)
      ensures v !in issued
    {
      var deadline := if v in issued then Some(issued[v]) else None;
      issued := issued - {v};
      if deadline.Some? && now <= deadline.value {
        return Ok(Unit.Unit);
      }
      return Err(BadNonce);
    }
  }

  // ----- Accounts -----

  /** A public key with its thumbprint; both are opaque. */
  datatype Jwk = Jwk(material: string, thumbprint: string)

  datatype NewAccountRequest = NewAccountRequest(contact: seq<string>, termsAgreed: bool, onlyReturnExisting: bool)

  datatype Account = Account(id: nat, key: Jwk, contact: seq<string>, termsAgreed: bool)

  datatype Accounts = Accounts(nextId: nat, byThumbprint: map<string, Account>, idIndex: map<nat, string>)

  const NO_ACCOUNTS := Accounts(1, map[], map[])

  function FindById(a: Accounts, id: nat): Option<Account> {
    if id in a.idIndex && a.idIndex[id] in a.byThumbprint then Some(a.byThumbprint[a.idIndex[id]]) else None
  }

  function FindByThumbprint(a: Accounts, thumbprint: string): Option<Account> {
    if thumbprint in a.byThumbprint then Some(a.byThumbprint[thumbprint]) else None
  }

  function GetOrCreate(a: Accounts, key: Jwk, request: NewAccountRequest): (Accounts, Account, bool) {
    match FindByThumbprint(a, key.thumbprint)
    case Some(existing) => (a, existing, false)
    case None =>
      var account := Account(a.nextId, key, request.contact, request.termsAgreed);
      (Accounts(a.nextId + 1, a.byThumbprint[key.thumbprint := account], a.idIndex[a.nextId := key.thumbprint]),
       account, true)
  }

  /** Identifiers and thumbprints are in bijection, and the identifiers handed
      out are exactly the numbers from one up. */
  ghost predicate AccountsValid(a: Accounts) {
    && a.nextId >= 1
    && (forall id :: id in a.idIndex <==> 1 <= id < a.nextId)
    && (forall id | id in a.idIndex :: a.idIndex[id] in a.byThumbprint && a.byThumbprint[a.idIndex[id]].id == id)
    && (forall t | t in a.byThumbprint ::
          && a.byThumbprint[t].key.thumbprint == t
          && a.byThumbprint[t].id in a.idIndex && a.idIndex[a.byThumbprint[t].id] == t)
  }

  /** Every stored account is found under its identifier and under its
      thumbprint, and nothing else is. */
  lemma LookupsAgree(a: Accounts, id: nat, thumbprint: string)
    requires AccountsValid(a)
    ensures FindById(a, id).Some? <==> 1 <= id < a.nextId
    ensures FindById(a, id).Some? ==> FindByThumbprint(a, FindById(a, id).value.key.thumbprint) == FindById(a, id)
    ensures FindByThumbprint(a, thumbprint).Some? ==>
              FindById(a, FindByThumbprint(a, thumbprint).value.id) == FindByThumbprint(a, thumbprint)
  {
  }

  /** Creation keeps the bijection, uses a fresh larger identifier, and changes
      no account; registering again returns the account as it was. */
  lemma GetOrCreateKeeps(a: Accounts, key: Jwk, request: NewAccountRequest)
    requires AccountsValid(a)
    ensures var (after, account, created) := GetOrCreate(a, key, request);
            && AccountsValid(after)
            && (created <==> FindByThumbprint(a, key.thumbprint).None?)
            && (created ==> account.id == a.nextId && FindById(a, account.id).None?)
            && (created ==> account.key == key
                            && account.contact == request.contact && account.termsAgreed == request.termsAgreed)
            && (!created ==> after == a && FindByThumbprint(a, key.thumbprint) == Some(account))
            && (forall id | FindById(a, id).Some? :: FindById(after, id) == FindById(a, id))
            && FindById(after, account.id) == Some(account)
            && |after.byThumbprint| == |a.byThumbprint| + if created then 1 else 0
  {
  }

  class AccountStore {
    var nextId: nat
    var byThumbprint: map<string, Account>
    var idIndex: map<nat, string>

    function Contents(): Accounts
      reads this
    {
      Accounts(nextId, byThumbprint, idIndex)
    }

    constructor ()
      ensures Contents() == NO_ACCOUNTS && AccountsValid(Contents())
    {
      nextId, byThumbprint, idIndex := 1, map[], map[];
    }

    method ById(id: nat) returns (r: Option<Account>)
      ensures r == FindById(Contents(), id)
      ensures AccountsValid(Contents()) && r.Some? ==> r.value.id == id
    {
      if id in idIndex && idIndex[id] in byThumbprint {
        return Some(byThumbprint[idIndex[id]]);
      }
      return None;
    }

    method Register(key: Jwk, request: NewAccountRequest) returns (account: Account, created: bool)
      requires AccountsValid(Contents())
      modifies this
      ensures (Contents(), account, created) == GetOrCreate(old(Contents()), key, request)
      ensures AccountsValid(Contents())
    {
      GetOrCreateKeeps(Contents(), key, request);
      if key.thumbprint in byThumbprint {
        return byThumbprint[key.thumbprint], false;
      }
      var id := nextId;
      nextId := nextId + 1;
      account := Account(id, key, request.contact, request.termsAgreed);
      idIndex := idIndex[id := key.thumbprint];
      byThumbprint := byThumbprint[key.thumbprint := account];
      created := true;
    }
  }

  // ----- The new-account request -----

  datatype UrlClaim = NoUrl | OtherUrl | ThisUrl

  datatype KeySource = Inline(key: Jwk, usable: bool) | Kid | BothOrNeither

  /** A request as its checks see it. What cryptography and JSON decide is given
      as the verdict of the check. */
  datatype Request = Request(joseJson: bool, wellFormed: bool, es256: bool, nonce: Option<string>, url: UrlClaim,
                             source: KeySource, signatureVerifies: bool, payload: Option<NewAccountRequest>)

  /** The checks made before the nonce is spent. */
  function BeforeNonce(r: Request): Result<string, AcmeError> {
    if !r.joseJson || !r.wellFormed then Err(Malformed)
    else if !r.es256 then Err(BadSignatureAlgorithm)
    else if r.nonce.None? || r.nonce.value == "" then Err(BadNonce)
    else Ok(r.nonce.value)
  }

  /** The checks made after it, up to the account store. */
  function AfterNonce(r: Request): Result<(Jwk, NewAccountRequest), AcmeError> {
    if r.url.NoUrl? then Err(Malformed)
    else if r.url.OtherUrl? then Err(UrlMismatch)
    else if !r.source.Inline? then Err(Malformed)
    else if !r.source.usable then Err(BadPublicKey)
    else if !r.signatureVerifies then Err(Malformed)
    else if r.payload.None? then Err(Malformed)
    else Ok((r.source.key, r.payload.value))
  }

  datatype Reply = Reply(account: Account, created: bool)

  /** The part under the account lock. */
  function FindOrRegister(a: Accounts, key: Jwk, request: NewAccountRequest): (Accounts, Result<Reply, AcmeError>) {
    match FindByThumbprint(a, key.thumbprint)
    case Some(existing) => (a, Ok(Reply(existing, false)))
    case None =>
      if request.onlyReturnExisting then (a, Err(AccountDoesNotExist))
      else var (after, account, created) := GetOrCreate(a, key, request); (after, Ok(Reply(account, created)))
  }

  function RegisterWith(a: Accounts, r: Request): (Accounts, Result<Reply, AcmeError>) {
    match AfterNonce(r)
    case Err(e) => (a, Err(e))
    case Ok((key, request)) => FindOrRegister(a, key, request)
  }

  // ----- Every interleaving of requests -----

  datatype Issued = Issued(value: string, at: Time, deadline: Time)

  /** An accepted nonce, with the position of the issue that pays for it. */
  datatype Accepted = Accepted(value: string, at: Time, ticket: nat, request: Request)

  /** `pending` holds the requests whose nonce was accepted and which have not
      reached the account store yet. */
  datatype State = State(nonces: Nonces, accounts: Accounts, pending: map<nat, Request>,
                         issues: seq<Issued>, accepts: seq<Accepted>)

  datatype Step =
    | Stamp(now: Time, entropy: Option<string>)
    | Admit(id: nat, request: Request, now: Time)
    | Finish(id: nat)

  const START := State(map[], NO_ACCOUNTS, map[], [], [])

  /** The position of the last issue of a value, or their number if none. */
  function LastIssue(issues: seq<Issued>, v: string): (n: nat)
    ensures n <= |issues|
    ensures n < |issues| ==> issues[n].value == v
  {
    if issues == [] then 0
    else if issues[|issues| - 1].value == v then |issues| - 1
    else
      var n := LastIssue(issues[..|issues| - 1], v);
      if n < |issues| - 1 then n else |issues|
  }

  function StampStep(ttl: nat, s: State, now: Time, entropy: Option<string>): State {
    var (nonces, r) := IssueNonce(s.nonces, ttl, now, entropy);
    s.(nonces := nonces, issues := if r.Ok? then s.issues + [Issued(r.value, now, now + ttl)] else s.issues)
  }

  function AdmitStep(s: State, id: nat, request: Request, now: Time): State {
    match BeforeNonce(request)
    case Err(_) => s
    case Ok(v) =>
      var (nonces, r) := ConsumeNonce(s.nonces, v, now);
      if r.Err? then s.(nonces := nonces)
      else s.(nonces := nonces, pending := s.pending[id := request],
              accepts := s.accepts + [Accepted(v, now, LastIssue(s.issues, v), request)])
  }

  function FinishStep(s: State, id: nat, accounts: Accounts): State {
    s.(pending := s.pending - {id}, accounts := accounts)
  }

  function Next(ttl: nat, s: State, step: Step): State {
    match step
    case Stamp(now, entropy) => StampStep(ttl, s, now, entropy)
    case Admit(id, request, now) => if id in s.pending then s else AdmitStep(s, id, request, now)
    case Finish(id) =>
      if id in s.pending then FinishStep(s, id, RegisterWith(s.accounts, s.pending[id]).0) else s
  }

  function Run(ttl: nat, s: State, steps: seq<Step>): State
    decreases |steps|
  {
    if steps == [] then s else Run(ttl, Next(ttl, s, steps[0]), steps[1..])
  }

  /** Each accepted request is paid for by its own issue of that value, in time. */
  ghost predicate Paid(issues: seq<Issued>, accepts: seq<Accepted>) {
    && (forall i | 0 <= i < |accepts| ::
          var a := accepts[i];
          a.ticket < |issues| && issues[a.ticket].value == a.value && a.at <= issues[a.ticket].deadline)
    && (forall i, j | 0 <= i < j < |accepts| :: accepts[i].ticket != accepts[j].ticket)
  }

  /** An outstanding nonce is backed by its last issue, not yet spent. */
  ghost predicate Backed(nonces: Nonces, issues: seq<Issued>, accepts: seq<Accepted>) {
    forall v | v in nonces ::
      && LastIssue(issues, v) < |issues|
      && issues[LastIssue(issues, v)].deadline == nonces[v]
      && forall i | 0 <= i < |accepts| :: accepts[i].ticket != LastIssue(issues, v)
  }

  /** A request that passed every check for creating this account: its key signed
      it, and it asked for these contacts and terms. */
  predicate SelfSigned(r: Request, account: Account) {
    && r.joseJson && r.wellFormed && r.es256 && r.url.ThisUrl? && r.signatureVerifies
    && r.source == Inline(account.key, true)
    && r.payload == Some(NewAccountRequest(account.contact, account.termsAgreed, false))
  }

  ghost predicate Admitted(accepts: seq<Accepted>, request: Request) {
    exists a :: a in accepts && a.request == request
  }

  ghost predicate Sponsored(accepts: seq<Accepted>, account: Account) {
    exists a :: a in accepts && SelfSigned(a.request, account)
  }

  lemma AcceptsGrow(accepts: seq<Accepted>, a: Accepted, request: Request, account: Account)
    ensures Admitted(accepts, request) ==> Admitted(accepts + [a], request)
    ensures Sponsored(accepts, account) ==> Sponsored(accepts + [a], account)
    ensures Admitted(accepts + [a], a.request)
  {
    assert forall b :: b in accepts + [a] <==> b in accepts || b == a;
  }

  /** Accounts come from accepted requests, at most one from each. */
  ghost predicate Earned(accounts: Accounts, pending: map<nat, Request>, accepts: seq<Accepted>) {
    && AccountsValid(accounts)
    && (forall id | id in pending :: Admitted(accepts, pending[id]))
    && (forall t | t in accounts.byThumbprint :: Sponsored(accepts, accounts.byThumbprint[t]))
    && |accounts.byThumbprint| + |pending| <= |accepts|
    && (forall a | a in accepts :: BeforeNonce(a.request) == Ok(a.value))
  }

  ghost predicate Inv(s: State) {
    && Paid(s.issues, s.accepts)
    && Backed(s.nonces, s.issues, s.accepts)
    && Earned(s.accounts, s.pending, s.accepts)
  }

  lemma LastIssueAppend(issues: seq<Issued>, e: Issued, v: string)
    ensures LastIssue(issues + [e], v) ==
            if e.value == v then |issues|
            else if LastIssue(issues, v) < |issues| then LastIssue(issues, v) else |issues| + 1
  {
    assert (issues + [e])[..|issues|] == issues;
  }

  lemma StampKeepsPaid(issues: seq<Issued>, accepts: seq<Accepted>, e: Issued)
    requires Paid(issues, accepts)
    ensures Paid(issues + [e], accepts)
  {
  }

  lemma StampKeepsBacked(nonces: Nonces, after: Nonces, issues: seq<Issued>, accepts: seq<Accepted>, e: Issued)
    requires Paid(issues, accepts) && Backed(nonces, issues, accepts)
    requires forall v | v in after :: if v == e.value then after[v] == e.deadline
                                      else v in nonces && after[v] == nonces[v]
    ensures Backed(after, issues + [e], accepts)
  {
    forall v | v in after
      ensures LastIssue(issues + [e], v) < |issues + [e]|
      ensures (issues + [e])[LastIssue(issues + [e], v)].deadline == after[v]
      ensures forall i | 0 <= i < |accepts| :: accepts[i].ticket != LastIssue(issues + [e], v) {
      LastIssueAppend(issues, e, v);
    }
  }

  lemma FewerNonces(nonces: Nonces, after: Nonces, issues: seq<Issued>, accepts: seq<Accepted>)
    requires Backed(nonces, issues, accepts)
    requires forall v | v in after :: v in nonces && after[v] == nonces[v]
    ensures Backed(after, issues, accepts)
  {
  }

  lemma StampKeepsInv(ttl: nat, s: State, now: Time, entropy: Option<string>)
    requires Inv(s)
    ensures Inv(StampStep(ttl, s, now, entropy))
  {
    var after := StampStep(ttl, s, now, entropy);
    if entropy.Some? {
      var e := Issued(entropy.value, now, now + ttl);
      StampKeepsPaid(s.issues, s.accepts, e);
      StampKeepsBacked(s.nonces, after.nonces, s.issues, s.accepts, e);
    } else {
      FewerNonces(s.nonces, after.nonces, s.issues, s.accepts);
    }
  }

  lemma AdmitKeepsInv(s: State, id: nat, request: Request, now: Time)
    requires Inv(s) && id !in s.pending
    ensures Inv(AdmitStep(s, id, request, now))
  {
    if BeforeNonce(request).Ok? {
      var v := BeforeNonce(request).value;
      FewerNonces(s.nonces, s.nonces - {v}, s.issues, s.accepts);
      if v in s.nonces && now <= s.nonces[v] {
        var a := Accepted(v, now, LastIssue(s.issues, v), request);
        AdmitKeepsPaid(s.nonces, s.issues, s.accepts, a);
        AdmitKeepsEarned(s.accounts, s.pending, s.accepts, id, a);
      }
    }
  }

  lemma AdmitKeepsPaid(nonces: Nonces, issues: seq<Issued>, accepts: seq<Accepted>, a: Accepted)
    requires Paid(issues, accepts) && Backed(nonces, issues, accepts)
    requires a.value in nonces && a.at <= nonces[a.value] && a.ticket == LastIssue(issues, a.value)
    ensures Paid(issues, accepts + [a]) && Backed(nonces - {a.value}, issues, accepts + [a])
  {
    forall v | v in nonces - {a.value}
      ensures forall i | 0 <= i < |accepts + [a]| :: (accepts + [a])[i].ticket != LastIssue(issues, v) {
      assert issues[LastIssue(issues, v)].value == v;
    }
  }

  lemma AdmitKeepsEarned(accounts: Accounts, pending: map<nat, Request>, accepts: seq<Accepted>, id: nat, a: Accepted)
    requires Earned(accounts, pending, accepts) && id !in pending && BeforeNonce(a.request) == Ok(a.value)
    ensures Earned(accounts, pending[id := a.request], accepts + [a])
  {
    var after := pending[id := a.request];
    forall k | k in after ensures Admitted(accepts + [a], after[k]) {
      AcceptsGrow(accepts, a, after[k], Account(0, Jwk("", ""), [], false));
    }
    forall t | t in accounts.byThumbprint ensures Sponsored(accepts + [a], accounts.byThumbprint[t]) {
      AcceptsGrow(accepts, a, a.request, accounts.byThumbprint[t]);
    }
  }

  /** Finishing adds at most the account the request signed for. */
  lemma RegisterEarns(a: Accounts, request: Request, thumbprint: string)
    requires AccountsValid(a) && BeforeNonce(request).Ok?
    ensures var after := RegisterWith(a, request).0;
            && AccountsValid(after)
            && |after.byThumbprint| <= |a.byThumbprint| + 1
            && (thumbprint in after.byThumbprint ==>
                  || (thumbprint in a.byThumbprint && after.byThumbprint[thumbprint] == a.byThumbprint[thumbprint])
                  || SelfSigned(request, after.byThumbprint[thumbprint]))
  {
    if AfterNonce(request).Ok? {
      var (key, wanted) := AfterNonce(request).value;
      GetOrCreateKeeps(a, key, wanted);
    }
  }

  lemma FinishKeepsEarned(accounts: Accounts, pending: map<nat, Request>, accepts: seq<Accepted>, id: nat,
                          after: Accounts)
    requires Earned(accounts, pending, accepts) && id in pending && after == RegisterWith(accounts, pending[id]).0
    ensures Earned(after, pending - {id}, accepts)
  {
    assert (pending - {id}).Keys == pending.Keys - {id};
    assert |pending - {id}| == |(pending - {id}).Keys| && |pending| == |pending.Keys|;
    var a :| a in accepts && a.request == pending[id];
    RegisterEarns(accounts, pending[id], "");
    forall t | t in after.byThumbprint ensures Sponsored(accepts, after.byThumbprint[t]) {
      RegisterEarns(accounts, pending[id], t);
      if t in accounts.byThumbprint && after.byThumbprint[t] == accounts.byThumbprint[t] {
        assert Sponsored(accepts, accounts.byThumbprint[t]);
      } else {
        assert SelfSigned(a.request, after.byThumbprint[t]);
      }
    }
  }

  lemma FinishKeepsInv(s: State, id: nat, accounts: Accounts)
    requires Inv(s) && id in s.pending && accounts == RegisterWith(s.accounts, s.pending[id]).0
    ensures Inv(FinishStep(s, id, accounts))
  {
    FinishKeepsEarned(s.accounts, s.pending, s.accepts, id, accounts);
  }

  lemma FinishedKeepsInv(ttl: nat, s: State, id: nat)
    requires Inv(s)
    ensures Inv(Next(ttl, s, Finish(id)))
  {
    if id in s.pending {
      var accounts := RegisterWith(s.accounts, s.pending[id]).0;
      FinishKeepsInv(s, id, accounts);
      assert Next(ttl, s, Finish(id)) == FinishStep(s, id, accounts);
    }
  }

  lemma AdmittedKeepsInv(ttl: nat, s: State, id: nat, request: Request, now: Time)
    requires Inv(s)
    ensures Inv(Next(ttl, s, Admit(id, request, now)))
  {
    if id !in s.pending {
      AdmitKeepsInv(s, id, request, now);
    }
  }

  lemma NextKeepsInv(ttl: nat, s: State, step: Step)
    requires Inv(s)
    ensures Inv(Next(ttl, s, step))
  {
    match step
    case Stamp(now, entropy) => StampKeepsInv(ttl, s, now, entropy);
    case Admit(id, request, now) => AdmittedKeepsInv(ttl, s, id, request, now);
    case Finish(id) => FinishedKeepsInv(ttl, s, id);
  }

  lemma {:induction false} RunKeepsInv(ttl: nat, s: State, steps: seq<Step>)
    requires Inv(s)
    ensures Inv(Run(ttl, s, steps))
    decreases |steps|
  {
    if steps != [] {
      NextKeepsInv(ttl, s, steps[0]);
      RunKeepsInv(ttl, Next(ttl, s, steps[0]), steps[1..]);
    }
  }

  /** Over every interleaving of requests: each accepted request is paid for by
      an issue of its nonce that no other request used, no later than that
      issue's deadline; identifiers and thumbprints stay in bijection; and there
      are never more accounts than accepted requests, each account standing on
      an accepted request that its own key signed. */
  lemma EveryAcceptIsPaid(ttl: nat, steps: seq<Step>)
    ensures var end := Run(ttl, START, steps);
            && Paid(end.issues, end.accepts)
            && Backed(end.nonces, end.issues, end.accepts)
            && Earned(end.accounts, end.pending, end.accepts)
  {
    RunKeepsInv(ttl, START, steps);
  }

  /** The positions at which a value was accepted. */
  function AcceptsOf(accepts: seq<Accepted>, v: string): set<nat> {
    set i | 0 <= i < |accepts| && accepts[i].value == v
  }

  function TicketsOf(accepts: seq<Accepted>, v: string): set<nat> {
    set i | 0 <= i < |accepts| && accepts[i].value == v :: accepts[i].ticket
  }

  function IssuesOf(issues: seq<Issued>, v: string): set<nat> {
    set i | 0 <= i < |issues| && issues[i].value == v
  }

  lemma LastAccept(front: seq<Accepted>, last: Accepted, v: string)
    ensures AcceptsOf(front + [last], v) == AcceptsOf(front, v) + if last.value == v then {|front|} else {}
    ensures TicketsOf(front + [last], v) == TicketsOf(front, v) + if last.value == v then {last.ticket} else {}
  {
    var all := front + [last];
    assert all[|front|] == last && forall i | 0 <= i < |front| :: all[i] == front[i];
    forall i ensures i in AcceptsOf(all, v) <==> i in AcceptsOf(front, v) || (last.value == v && i == |front|) {
    }
  }

  lemma NewTicket(front: seq<Accepted>, last: Accepted, v: string)
    requires forall i, j | 0 <= i < j < |front + [last]| :: (front + [last])[i].ticket != (front + [last])[j].ticket
    ensures |front| !in AcceptsOf(front, v) && last.ticket !in TicketsOf(front, v)
  {
    var all := front + [last];
    forall i | 0 <= i < |front| ensures front[i].ticket != last.ticket {
      assert all[i] == front[i] && all[|front|] == last;
    }
  }

  /** No two accepts share a ticket, so counting either counts the other. */
  lemma {:induction false} OneTicketEach(accepts: seq<Accepted>, v: string)
    requires forall i, j | 0 <= i < j < |accepts| :: accepts[i].ticket != accepts[j].ticket
    ensures |AcceptsOf(accepts, v)| == |TicketsOf(accepts, v)|
  {
    if accepts != [] {
      var front, last := accepts[..|accepts| - 1], accepts[|accepts| - 1];
      OneTicketEach(front, v);
      assert accepts == front + [last];
      LastAccept(front, last, v);
      NewTicket(front, last, v);
    }
  }

  /** In numbers: a value is accepted at most as often as it was issued, and
      strictly less often while it is outstanding. */
  lemma AcceptsBoundedByIssues(ttl: nat, steps: seq<Step>, v: string)
    ensures var end := Run(ttl, START, steps);
            |AcceptsOf(end.accepts, v)| + (if v in end.nonces then 1 else 0) <= |IssuesOf(end.issues, v)|
  {
    RunKeepsInv(ttl, START, steps);
    var end := Run(ttl, START, steps);
    OneTicketEach(end.accepts, v);
    TicketsBounded(end.nonces, end.issues, end.accepts, v);
  }

  lemma TicketsBounded(nonces: Nonces, issues: seq<Issued>, accepts: seq<Accepted>, v: string)
    requires Paid(issues, accepts) && Backed(nonces, issues, accepts)
    ensures |TicketsOf(accepts, v)| + (if v in nonces then 1 else 0) <= |IssuesOf(issues, v)|
  {
    var spent, issued := TicketsOf(accepts, v), IssuesOf(issues, v);
    assert spent <= issued;
    if v in nonces {
      var last := LastIssue(issues, v);
      assert last in issued && last !in spent;
      SubsetSize(spent + {last}, issued);
    } else {
      SubsetSize(spent, issued);
    }
  }

  lemma SubsetSize(a: set<nat>, b: set<nat>)
    requires a <= b
    ensures |a| <= |b|
  {
    assert b == a + (b - a);
  }

  /** Every issue is recorded with the lifetime of the store. */
  ghost predicate Lifetimes(ttl: nat, issues: seq<Issued>) {
    forall i | 0 <= i < |issues| :: issues[i].deadline == issues[i].at + ttl
  }

  lemma {:induction false} RunKeepsLifetimes(ttl: nat, s: State, steps: seq<Step>)
    requires Lifetimes(ttl, s.issues)
    ensures Lifetimes(ttl, Run(ttl, s, steps).issues)
    decreases |steps|
  {
    if steps != [] {
      RunKeepsLifetimes(ttl, Next(ttl, s, steps[0]), steps[1..]);
    }
  }

  /** Right after an attempt to issue a nonce, each stored one can still be spent
      and was last issued within one lifetime before. */
  lemma OutstandingAreRecent(ttl: nat, steps: seq<Step>, now: Time, entropy: Option<string>)
    ensures var s := StampStep(ttl, Run(ttl, START, steps), now, entropy);
            forall v | v in s.nonces ::
              && now <= s.nonces[v]
              && LastIssue(s.issues, v) < |s.issues|
              && now - ttl <= s.issues[LastIssue(s.issues, v)].at
  {
    var before := Run(ttl, START, steps);
    var s := StampStep(ttl, before, now, entropy);
    RunKeepsInv(ttl, START, steps);
    RunKeepsLifetimes(ttl, START, steps);
    StampKeepsInv(ttl, before, now, entropy);
    StampLeavesFresh(ttl, before, now, entropy);
    RecentlyIssued(ttl, s.nonces, s.issues, s.accepts, now);
  }

  lemma RecentlyIssued(ttl: nat, nonces: Nonces, issues: seq<Issued>, accepts: seq<Accepted>, now: Time)
    requires Backed(nonces, issues, accepts) && Lifetimes(ttl, issues)
    requires forall v | v in nonces :: now <= nonces[v]
    ensures forall v | v in nonces :: LastIssue(issues, v) < |issues| && now - ttl <= issues[LastIssue(issues, v)].at
  {
  }

  lemma StampLeavesFresh(ttl: nat, before: State, now: Time, entropy: Option<string>)
    requires Lifetimes(ttl, before.issues)
    ensures var s := StampStep(ttl, before, now, entropy);
            Lifetimes(ttl, s.issues) && forall v | v in s.nonces :: now <= s.nonces[v]
  {
  }

  // ----- A nonce that is presented in time -----

  /** What `v` still has to do with its issue at the last position: it is stored
      with that deadline if at all, and it is stored unless it expired. */
  ghost predicate Waiting(nonces: Nonces, v: string, deadline: Time, latest: Time) {
    && (v in nonces ==> nonces[v] == deadline)
    && (latest <= deadline ==> v in nonces)
  }

  /** Nothing spends `v` or issues it again, and no clock is read after `latest`. */
  ghost predicate LeavesAlone(step: Step, v: string, latest: Time) {
    match step
    case Stamp(now, entropy) => now <= latest && entropy != Some(v)
    case Admit(_, request, _) => BeforeNonce(request) != Ok(v)
    case Finish(_) => true
  }

  lemma {:induction false} WaitsUntilPresented(ttl: nat, s: State, steps: seq<Step>, v: string, deadline: Time,
                                               latest: Time)
    requires Waiting(s.nonces, v, deadline, latest)
    requires forall step | step in steps :: LeavesAlone(step, v, latest)
    ensures Waiting(Run(ttl, s, steps).nonces, v, deadline, latest)
    decreases |steps|
  {
    if steps != [] {
      assert LeavesAlone(steps[0], v, latest);
      StepWaits(ttl, s, steps[0], v, deadline, latest);
      WaitsUntilPresented(ttl, Next(ttl, s, steps[0]), steps[1..], v, deadline, latest);
    }
  }

  lemma StepWaits(ttl: nat, s: State, step: Step, v: string, deadline: Time, latest: Time)
    requires Waiting(s.nonces, v, deadline, latest) && LeavesAlone(step, v, latest)
    ensures Waiting(Next(ttl, s, step).nonces, v, deadline, latest)
  {
  }

  /** The other half of paying: a nonce that was handed out, that nobody has spent
      and that was not issued again is accepted if and only if it is presented no
      later than one lifetime after its issue, and then the request is admitted.
      Clocks are read in order: none before the presentation is later than it. */
  lemma UnspentIsAcceptedIff(ttl: nat, s: State, at: Time, v: string, steps: seq<Step>, id: nat, request: Request,
                             now: Time)
    requires BeforeNonce(request) == Ok(v)
    requires forall step | step in steps :: LeavesAlone(step, v, now)
    ensures var later := Run(ttl, StampStep(ttl, s, at, Some(v)), steps);
            var after := AdmitStep(later, id, request, now);
            && (ConsumeNonce(later.nonces, v, now).1.Ok? <==> now <= at + ttl)
            && (now <= at + ttl ==> id in after.pending && after.pending[id] == request
                                    && |after.accepts| == |later.accepts| + 1)
            && (now > at + ttl ==> after.pending == later.pending && after.accepts == later.accepts)
  {
    var issued := StampStep(ttl, s, at, Some(v));
    assert issued.nonces[v] == at + ttl;
    WaitsUntilPresented(ttl, issued, steps, v, at + ttl, now);
  }

  predicate Reissues(steps: seq<Step>, v: string) {
    exists step :: step in steps && step.Stamp? && step.entropy == Some(v)
  }

  lemma {:induction false} SpentStaysSpent(ttl: nat, s: State, steps: seq<Step>, v: string)
    requires v !in s.nonces && !Reissues(steps, v)
    ensures v !in Run(ttl, s, steps).nonces
    decreases |steps|
  {
    if steps != [] {
      assert steps[0] in steps;
      assert !Reissues(steps[1..], v);
      SpentStaysSpent(ttl, Next(ttl, s, steps[0]), steps[1..], v);
    }
  }

  /** A replay: once a request with a nonce has been handled, and until the same
      value happens to be issued again, any request carrying it is refused with
      nothing changed at all. */
  lemma ReplayRefused(ttl: nat, s: State, first: Request, at: Time, steps: seq<Step>, id: nat, again: Request,
                      now: Time)
    requires BeforeNonce(first).Ok? && BeforeNonce(again) == BeforeNonce(first)
    requires !Reissues(steps, BeforeNonce(first).value)
    ensures var later := Run(ttl, AdmitStep(s, id, first, at), steps);
            && ConsumeNonce(later.nonces, BeforeNonce(again).value, now).1 == Err(BadNonce)
            && AdmitStep(later, id, again, now) == later
  {
    var v := BeforeNonce(first).value;
    SpentStaysSpent(ttl, AdmitStep(s, id, first, at), steps, v);
    var later := Run(ttl, AdmitStep(s, id, first, at), steps);
    assert later.nonces - {v} == later.nonces;
  }

  lemma StepKeepsAccount(ttl: nat, s: State, step: Step, id: nat)
    requires AccountsValid(s.accounts) && FindById(s.accounts, id).Some?
    ensures FindById(Next(ttl, s, step).accounts, id) == FindById(s.accounts, id)
    ensures s.accounts.nextId <= Next(ttl, s, step).accounts.nextId
  {
    match step
    case Finish(k) =>
      if k in s.pending && AfterNonce(s.pending[k]).Ok? {
        var (key, wanted) := AfterNonce(s.pending[k]).value;
        GetOrCreateKeeps(s.accounts, key, wanted);
      }
    case _ =>
  }

  /** Accounts never change and never disappear, along any run. */
  lemma {:induction false} AccountsArePermanent(ttl: nat, s: State, steps: seq<Step>, id: nat)
    requires Inv(s) && FindById(s.accounts, id).Some?
    ensures FindById(Run(ttl, s, steps).accounts, id) == FindById(s.accounts, id)
    ensures s.accounts.nextId <= Run(ttl, s, steps).accounts.nextId
    decreases |steps|
  {
    if steps != [] {
      NextKeepsInv(ttl, s, steps[0]);
      StepKeepsAccount(ttl, s, steps[0], id);
      AccountsArePermanent(ttl, Next(ttl, s, steps[0]), steps[1..], id);
    }
  }

  /** What the handler leaves and answers, run on its own. */
  function HandlerOp(nonces: Nonces, accounts: Accounts, r: Request, now: Time)
    : (Nonces, Accounts, Result<Reply, AcmeError>)
  {
    match BeforeNonce(r)
    case Err(e) => (nonces, accounts, Err(e))
    case Ok(v) =>
      var (rest, spent) := ConsumeNonce(nonces, v, now);
      match spent
      case Err(e) => (rest, accounts, Err(e))
      case Ok(_) => var (after, reply) := RegisterWith(accounts, r); (rest, after, reply)
  }

  datatype Check = Check(passed: bool, error: AcmeError)

  /** Every check of the handler, in the order it is made. The fifth one spends the
      nonce, whether it passes or not. */
  function Checks(nonces: Nonces, accounts: Accounts, r: Request, now: Time): seq<Check> {
    [Check(r.joseJson, Malformed),
     Check(r.wellFormed, Malformed),
     Check(r.es256, BadSignatureAlgorithm),
     Check(r.nonce.Some? && r.nonce.value != "", BadNonce),
     Check(r.nonce.Some? && r.nonce.value in nonces && now <= nonces[r.nonce.value], BadNonce),
     Check(!r.url.NoUrl?, Malformed),
     Check(!r.url.OtherUrl?, UrlMismatch),
     Check(r.source.Inline?, Malformed),
     Check(r.source.Inline? && r.source.usable, BadPublicKey),
     Check(r.signatureVerifies, Malformed),
     Check(r.payload.Some?, Malformed),
     Check(r.source.Inline? && r.payload.Some? &&
           (r.source.key.thumbprint in accounts.byThumbprint || !r.payload.value.onlyReturnExisting),
           AccountDoesNotExist)]
  }

  const NONCE_CHECK := 4

  ghost predicate FirstFailure(checks: seq<Check>, i: nat) {
    i < |checks| && !checks[i].passed && forall j | 0 <= j < i :: checks[j].passed
  }

  /** The nonce a request carries, if any. */
  function Carried(r: Request): string {
    match r.nonce
    case Some(v) => v
    case None => ""
  }

  /** A refusal: the error of the first check that fails, with the accounts as they
      were and the nonce spent exactly when its check was reached. */
  lemma HandlerRefuses(nonces: Nonces, accounts: Accounts, r: Request, now: Time, i: nat)
    requires FirstFailure(Checks(nonces, accounts, r, now), i)
    ensures var (rest, after, reply) := HandlerOp(nonces, accounts, r, now);
            && reply == Err(Checks(nonces, accounts, r, now)[i].error) && after == accounts
            && rest == if i < NONCE_CHECK then nonces else nonces - {Carried(r)}
  {
    var checks := Checks(nonces, accounts, r, now);
    assert i > 0 ==> checks[0].passed;
    assert i > 1 ==> checks[1].passed;
    assert i > 2 ==> checks[2].passed;
    assert i > 3 ==> checks[3].passed;
    assert i > 4 ==> checks[4].passed;
    assert i > 5 ==> checks[5].passed;
    assert i > 6 ==> checks[6].passed;
    assert i > 7 ==> checks[7].passed;
    assert i > 8 ==> checks[8].passed;
    assert i > 9 ==> checks[9].passed;
    assert i > 10 ==> checks[10].passed;
  }

  /** When every check passes, the answer is the account of the key, created with
      what the request asked for if there was none, and no other account moves. */
  lemma HandlerGrants(nonces: Nonces, accounts: Accounts, r: Request, now: Time)
    requires forall c | c in Checks(nonces, accounts, r, now) :: c.passed
    ensures r.source.Inline? && r.payload.Some?
    ensures var (rest, after, reply) := HandlerOp(nonces, accounts, r, now);
            var key, request := r.source.key, r.payload.value;
            && rest == nonces - {Carried(r)}
            && reply.Ok? && FindByThumbprint(after, key.thumbprint) == Some(reply.value.account)
            && (reply.value.created <==> FindByThumbprint(accounts, key.thumbprint).None?)
            && (!reply.value.created ==> after == accounts)
            && (reply.value.created ==>
                  && reply.value.account == Account(accounts.nextId, key, request.contact, request.termsAgreed)
                  && forall t | t != key.thumbprint :: FindByThumbprint(after, t) == FindByThumbprint(accounts, t))
  {
    var checks := Checks(nonces, accounts, r, now);
    assert checks[0].passed && checks[1].passed && checks[2].passed && checks[3].passed;
    assert checks[4].passed && checks[5].passed && checks[6].passed && checks[7].passed;
    assert checks[8].passed && checks[9].passed && checks[10].passed && checks[11].passed;
  }

  /** One handler run on its own is an admission followed by a finish. */
  lemma HandlerIsTwoSteps(ttl: nat, s: State, id: nat, r: Request, now: Time)
    requires id !in s.pending
    ensures var end := Next(ttl, Next(ttl, s, Admit(id, r, now)), Finish(id));
            var (nonces, accounts, reply) := HandlerOp(s.nonces, s.accounts, r, now);
            && end.pending == s.pending && end.nonces == nonces && end.accounts == accounts
            && (reply.Ok? ==> |end.accepts| == |s.accepts| + 1)
            && (|end.accepts| == |s.accepts| ==> accounts == s.accounts && reply.Err?)
  {
    assert s.pending[id := r] - {id} == s.pending;
  }

  // ----- The handler -----

  class AcmeServer {
    const nonces: NonceStore
    const accounts: AccountStore

    constructor (ttl: nat)
      ensures fresh(nonces) && fresh(accounts)
      ensures nonces.ttl == ttl && nonces.issued == map[] && accounts.Contents() == NO_ACCOUNTS
    {
      nonces := new NonceStore(ttl);
      accounts := new AccountStore();
    }

    /** The nonce is spent before any check that could tell requests apart. */
    method NewAccount(r: Request, now: Time) returns (reply: Result<Reply, AcmeError>)
      requires AccountsValid(accounts.Contents())
      modifies nonces, accounts
      ensures AccountsValid(accounts.Contents())
      ensures (nonces.issued, accounts.Contents(), reply) ==
              HandlerOp(old(nonces.issued), old(accounts.Contents()), r, now)
    {
      if !r.joseJson || !r.wellFormed {
        return Err(Malformed);
      }
      if !r.es256 {
        return Err(BadSignatureAlgorithm);
      }
      if r.nonce.None? || r.nonce.value == "" {
        return Err(BadNonce);
      }
      var spent := nonces.Consume(r.nonce.value, now);
      if spent.Err? {
        return Err(spent.error);
      }
      var checked := AfterNonce(r);
      if checked.Err? {
        return Err(checked.error);
      }
      var (key, request) := checked.value;
      if key.thumbprint in accounts.byThumbprint {
        return Ok(Reply(accounts.byThumbprint[key.thumbprint], false));
      }
      if request.onlyReturnExisting {
        return Err(AccountDoesNotExist);
      }
      var account, created := accounts.Register(key, request);
      return Ok(Reply(account, created));
    }

    /** Runs the handler, then stamps a fresh nonce on whatever it answered; a
        failing random source turns the answer into a server error. */
    method Respond(r: Request, now: Time, stampedAt: Time, entropy: Option<string>)
      returns (reply: Result<Reply, AcmeError>, replayNonce: Option<string>)
      requires AccountsValid(accounts.Contents())
      modifies nonces, accounts
      ensures AccountsValid(accounts.Contents())
      ensures var (rest, after, handled) := HandlerOp(old(nonces.issued), old(accounts.Contents()), r, now);
              && nonces.issued == IssueNonce(rest, nonces.ttl, stampedAt, entropy).0
              && accounts.Contents() == after
              && reply == (if entropy.Some? then handled else Err(Internal))
      ensures replayNonce == entropy
      ensures forall v | v in nonces.issued :: stampedAt <= nonces.issued[v]
      ensures entropy.Some? ==> entropy.value in nonces.issued && nonces.issued[entropy.value] == stampedAt + nonces.ttl
    {
      reply := NewAccount(r, now);
      var stamped := nonces.Issue(stampedAt, entropy);
      match stamped {
        case Ok(v) => replayNonce := Some(v);
        case Err(e) => reply, replayNonce := Err(e), None;
      }
    }
  }
}
