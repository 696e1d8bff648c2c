/** Signing a checkpoint on an HSM that may fail transiently. */
module CheckpointSigner {
  import opened Base
  import opened ReplicatedKv
  import opened CheckpointFraming

  // ----- Backoff -----

  const U128_MAX: nat := 0xFFFF_FFFF_FFFF_FFFF_FFFF_FFFF_FFFF_FFFF

  /** Durations are in nanoseconds and may exceed 64 bits. */
  datatype RetryPolicy = RetryPolicy(maxRetries: u32, baseBackoff: nat, maxBackoff: nat)

  function Pow2(k: nat): (p: nat)
    ensures p > 0
  {
    if k == 0 then 1 else 2 * Pow2(k - 1)
  }

  /** The delay before retry `i`, computed in saturating 128-bit arithmetic. */
  function BackoffFor(p: RetryPolicy, i: nat): u64 {
    var scaled := Min(p.baseBackoff * Pow2(Min(i, 63)), U128_MAX);
    var capped := Min(scaled, p.maxBackoff);
    if capped <= U64_MAX then capped else U64_MAX
  }

  /** Neither the saturation nor the narrowing shows: the delay is the exact
      product under two caps. */
  lemma BackoffIsExact(p: RetryPolicy, i: nat)
    ensures BackoffFor(p, i) == Min(Min(p.baseBackoff * Pow2(Min(i, 63)), p.maxBackoff), U64_MAX)
  {
  }

  lemma {:induction false} Pow2Grows(a: nat, b: nat)
    requires a <= b
    ensures Pow2(a) <= Pow2(b)
  {
    if a < b {
      Pow2Grows(a, b - 1);
    }
  }

  lemma ScaledGrows(base: nat, x: nat, y: nat)
    requires x <= y
    ensures base * x <= base * y
  {
  }

  /** Delays never shrink, never exceed the cap, and stop growing after the
      sixty-fourth retry. */
  lemma BackoffGrows(p: RetryPolicy, i: nat, j: nat)
    requires i <= j
    ensures BackoffFor(p, i) <= BackoffFor(p, j) <= p.maxBackoff
    ensures i >= 63 ==> BackoffFor(p, i) == BackoffFor(p, j)
  {
    Pow2Grows(Min(i, 63), Min(j, 63));
    ScaledGrows(p.baseBackoff, Pow2(Min(i, 63)), Pow2(Min(j, 63)));
  }

  /** Narrowing to 64 bits shows at some index if and only if the cap exceeds 64
      bits and the base can be doubled past them. */
  lemma NarrowingShowsIff(p: RetryPolicy)
    ensures (exists i: nat :: BackoffFor(p, i) != Uncut(p, i)) <==> p.maxBackoff > U64_MAX && p.baseBackoff >= 2
  {
    Pow2Of63();
    if p.maxBackoff > U64_MAX && p.baseBackoff >= 2 {
      ScaledGrows(Pow2(63), 2, p.baseBackoff);
      assert Uncut(p, 63) > U64_MAX;
    } else if p.maxBackoff > U64_MAX {
      forall i: nat ensures BackoffFor(p, i) == Uncut(p, i) {
        Pow2Grows(Min(i, 63), 63);
        ScaledGrows(Pow2(Min(i, 63)), p.baseBackoff, 1);
      }
    }
  }

  /** The delay before it is narrowed to 64 bits. */
  function Uncut(p: RetryPolicy, i: nat): nat {
    Min(p.baseBackoff * Pow2(Min(i, 63)), p.maxBackoff)
  }

  lemma {:induction false} Pow2Sum(a: nat, b: nat)
    ensures Pow2(a + b) == Pow2(a) * Pow2(b)
  {
    if b > 0 {
      Pow2Sum(a, b - 1);
    }
  }

  lemma Pow2Of63()
    ensures 2 * Pow2(63) == U64_MAX + 1
  {
    assert Pow2(7) == 0x80;
    assert Pow2(14) == 0x80 * 0x80 by { Pow2Sum(7, 7); }
    assert Pow2(28) == Pow2(14) * Pow2(14) by { Pow2Sum(14, 14); }
    assert Pow2(56) == Pow2(28) * Pow2(28) by { Pow2Sum(28, 28); }
    assert Pow2(63) == Pow2(56) * Pow2(7) by { Pow2Sum(56, 7); }
  }

  /** From index 63 on the delay is the cap if and only if the base is zero with
      the cap, is at least two, or is one under a cap of at most 2^63. */
  lemma CapReachedIff(p: RetryPolicy, i: nat)
    requires i >= 63
    ensures BackoffFor(p, i) == Min(p.maxBackoff, U64_MAX) <==>
            p.maxBackoff == 0 || p.baseBackoff >= 2 || (p.baseBackoff == 1 && p.maxBackoff <= Pow2(63))
  {
    Pow2Of63();
    ScaledGrows(Pow2(63), 2, if p.baseBackoff >= 2 then p.baseBackoff else 2);
  }

  /** Two policies the schedule's own comments rule out: a delay cut short by the
      narrowing, and an index past 63 that has not reached the cap. */
  lemma CapsThatShow()
    ensures var long := RetryPolicy(64, 2, U64_MAX + 2);
            BackoffFor(long, 63) == U64_MAX < Uncut(long, 63)
    ensures var slow := RetryPolicy(70, 1, U64_MAX);
            BackoffFor(slow, 64) == Pow2(63) < slow.maxBackoff
  {
    Pow2Of63();
  }

  /** Until a cap is reached each delay is exactly twice the one before. */
  lemma BackoffDoubles(p: RetryPolicy, i: nat)
    requires i < 63 && BackoffFor(p, i + 1) < p.maxBackoff && BackoffFor(p, i + 1) < U64_MAX
    ensures BackoffFor(p, i + 1) == 2 * BackoffFor(p, i)
  {
    assert p.baseBackoff * Pow2(i + 1) == 2 * (p.baseBackoff * Pow2(i));
  }

  // ----- Retrying -----

  /** How the HSM answers its n-th call, given the bytes it is asked to sign. */
  type Hsm = (seq<byte>, nat) -> Result<seq<byte>, CloudError>

  /** The answers to one input asked for again and again. */
  type Answers = nat -> Result<seq<byte>, CloudError>

  function Asked(hsm: Hsm, input: seq<byte>): Answers {
    (n: nat) => hsm(input, n)
  }

  datatype SignError = Rejected(cause: FramingError) | HsmSigningFailed(attempts: u32, source: CloudError)

  /** A transport failure that says it may be tried again; nothing else is. */
  predicate Transient(r: Result<seq<byte>, CloudError>) {
    r == Err(Transport(true))
  }

  /** The call the loop ends on: the first answer that is not transient, or the
      last one the budget allows. */
  ghost predicate EndsAt(p: RetryPolicy, answers: Answers, n: nat) {
    && n <= p.maxRetries
    && (forall i | 0 <= i < n :: Transient(answers(i)))
    && (n < p.maxRetries ==> !Transient(answers(n)))
  }

  lemma EndsOnce(p: RetryPolicy, answers: Answers, m: nat, n: nat)
    requires EndsAt(p, answers, m) && EndsAt(p, answers, n)
    ensures m == n
  {
  }

  /** What the caller gets back after the loop ended on call `n`. */
  function SignResult(answers: Answers, n: nat): Result<seq<byte>, SignError> {
    match answers(n)
    case Ok(signature) => Ok(signature)
    case Err(source) => Err(HsmSigningFailed(SaturatingIncrement(n), source))
  }

  function SaturatingIncrement(n: nat): u32 {
    Min(n + 1, U32_MAX)
  }

  /** Calls, then sleeps before each further call; terminates on every answer
      sequence after at most one call more than the retry budget. */
  method SignWithRetry(p: RetryPolicy, input: seq<byte>, hsm: Hsm)
    returns (r: Result<seq<byte>, SignError>, calls: nat, sleeps: seq<u64>)
    ensures calls > 0 && EndsAt(p, Asked(hsm, input), calls - 1)
    ensures r == SignResult(Asked(hsm, input), calls - 1)
    ensures |sleeps| == calls - 1 && forall i | 0 <= i < |sleeps| :: sleeps[i] == BackoffFor(p, i)
  {
    var retries: u32 := 0;
    calls, sleeps := 0, [];
    while true
      invariant calls == retries == |sleeps| && retries <= p.maxRetries
      invariant forall i | 0 <= i < retries :: Transient(Asked(hsm, input)(i)) && sleeps[i] == BackoffFor(p, i)
      decreases p.maxRetries - retries
    {
      var answer := hsm(input, calls);
      calls := calls + 1;
      match answer {
        case Ok(signature) =>
          return Ok(signature), calls, sleeps;
        case Err(error) =>
          var attempts := SaturatingIncrement(retries);
          if IsRetryable(error) && retries < p.maxRetries {
            var backoff := BackoffFor(p, retries);
            retries := retries + 1;
            sleeps := sleeps + [backoff];
          } else {
            return Err(HsmSigningFailed(attempts, error)), calls, sleeps;
          }
      }
    }
  }

  /** The first answer that is not transient, if there is one early enough. */
  ghost predicate FirstSettled(answers: Answers, n: nat) {
    !Transient(answers(n)) && forall i | 0 <= i < n :: Transient(answers(i))
  }

  /** Signing succeeds if and only if the first answer that is not a transient
      failure is a signature and comes within the budget; and a failure reports
      the exact number of calls, except when all of 2^32 calls were made. */
  lemma SucceedsIff(p: RetryPolicy, answers: Answers, end: nat)
    requires EndsAt(p, answers, end)
    ensures SignResult(answers, end).Ok? <==>
            exists n: nat :: n <= p.maxRetries && FirstSettled(answers, n) && answers(n).Ok?
    ensures SignResult(answers, end).Err? ==>
            (SignResult(answers, end).error.attempts == end + 1 <==> end + 1 <= U32_MAX)
    ensures end + 1 > U32_MAX ==> p.maxRetries == U32_MAX && forall i | 0 <= i < U32_MAX :: Transient(answers(i))
  {
    if SignResult(answers, end).Ok? {
      assert FirstSettled(answers, end);
    }
    if n: nat :| n <= p.maxRetries && FirstSettled(answers, n) && answers(n).Ok? {
      assert EndsAt(p, answers, n);
      EndsOnce(p, answers, end, n);
    }
  }

  /** A terminal error is never retried. */
  lemma TerminalSurfaces(p: RetryPolicy, answers: Answers, end: nat, source: CloudError)
    requires EndsAt(p, answers, end) && answers(0) == Err(source) && source != Transport(true)
    ensures end == 0 && SignResult(answers, end) == Err(HsmSigningFailed(1, source))
  {
  }

  // ----- The whole signing step -----

  datatype SignedObject = SignedObject(key: string, bytes: seq<byte>, treeSize: u64)

  /** `asked` is what the HSM is given: every byte of it is read back as this log,
      twice, the range from zero to the tree size, and the root. */
  method SignCheckpoint(p: RetryPolicy, c: Checkpoint, hsm: Hsm)
    returns (r: Result<SignedObject, SignError>, calls: nat, ghost asked: seq<byte>)
    requires WellTyped(c)
    ensures calls == 0 <==> !(1 <= |c.logId| <= 255)
    ensures calls == 0 ==> r == Err(Rejected(Input(|c.logId|)))
    ensures calls > 0 ==>
              && ReadSubtreeInput(asked) == Some(SubtreeInput(c.logId, c.logId, 0, c.treeSize, c.rootHash))
              && EndsAt(p, Asked(hsm, asked), calls - 1)
    ensures calls > 0 ==>
              match hsm(asked, calls - 1)
              case Err(source) => r == Err(HsmSigningFailed(Min(calls, U32_MAX), source))
              case Ok(signature) =>
                if |signature| != 64 then r == Err(Rejected(MalformedSignature(64, |signature|)))
                else && r.Ok? && r.value.key == ObjectKey(c.treeSize) && r.value.treeSize == c.treeSize
                     && Parse(r.value.bytes) == Some(Parsed(c, signature))
  {
    if c.logId == [] || |c.logId| > 255 {
      return Err(Rejected(Input(|c.logId|))), 0, [];
    }
    asked := SignatureInput(c);
    InputReads(c);
    var signed, sleeps;
    signed, calls, sleeps := SignWithRetry(p, SignatureInput(c), hsm);
    match signed {
      case Err(e) => r := Err(e);
      case Ok(signature) =>
        if |signature| != P1363_SIGNATURE_LEN {
          r := Err(Rejected(MalformedSignature(P1363_SIGNATURE_LEN, |signature|)));
        } else {
          var framed := FrameSignedCheckpoint(c, signature);
          ParseFrame(c, signature);
          r := Ok(SignedObject(ObjectKey(c.treeSize), framed.value, c.treeSize));
        }
    }
  }
}
