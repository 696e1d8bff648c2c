/** The signed-checkpoint object: its bytes, the reader's parser for them, and
    the object key it is stored under. */
module CheckpointFraming {
  import opened Base
  import opened StringOrder
  import Decimal

  const HASH_LEN := 32
  const P1363_SIGNATURE_LEN := 64
  const CHECKPOINT_OBJECT_PREFIX := "checkpoints/"
  const CHECKPOINT_OBJECT_SUFFIX := ".signed"
  const KEY_DIGITS := 16

  datatype Checkpoint = Checkpoint(logId: seq<byte>, treeSize: u64, rootHash: seq<byte>, signedAt: u64)

  /** The type of a root hash: exactly 32 bytes. */
  predicate Hashed(c: Checkpoint) {
    |c.rootHash| == HASH_LEN
  }

  /** What the types of a checkpoint promise: the identifier is a string. */
  predicate WellTyped(c: Checkpoint) {
    Hashed(c) && IsUtf8(c.logId)
  }

  // ----- UTF-8 (section 4 of RFC 3629) -----

  predicate Within(b: seq<byte>, i: nat, lo: nat, hi: nat) {
    i < |b| && lo <= b[i] <= hi
  }

  /** The bytes of the leading character, or zero when there is none. */
  function LeadingWidth(b: seq<byte>): (n: nat)
    ensures n <= |b|
  {
    if Within(b, 0, 0x00, 0x7F) then 1
    else if Within(b, 0, 0xC2, 0xDF) && Within(b, 1, 0x80, 0xBF) then 2
    else if Within(b, 2, 0x80, 0xBF) &&
            (|| (b[0] == 0xE0 && Within(b, 1, 0xA0, 0xBF))
             || (Within(b, 0, 0xE1, 0xEC) && Within(b, 1, 0x80, 0xBF))
             || (b[0] == 0xED && Within(b, 1, 0x80, 0x9F))
             || (Within(b, 0, 0xEE, 0xEF) && Within(b, 1, 0x80, 0xBF))) then 3
    else if Within(b, 2, 0x80, 0xBF) && Within(b, 3, 0x80, 0xBF) &&
            (|| (b[0] == 0xF0 && Within(b, 1, 0x90, 0xBF))
             || (Within(b, 0, 0xF1, 0xF3) && Within(b, 1, 0x80, 0xBF))
             || (b[0] == 0xF4 && Within(b, 1, 0x80, 0x8F))) then 4
    else 0
  }

  predicate IsUtf8(b: seq<byte>) {
    b == [] || (LeadingWidth(b) > 0 && IsUtf8(b[LeadingWidth(b)..]))
  }

  datatype FramingError = Input(actual: nat) | MalformedSignature(expected: nat, actual: nat)

  // ----- Big-endian integers -----

  function Pow256(width: nat): (p: nat)
    ensures p > 0
  {
    if width == 0 then 1 else 256 * Pow256(width - 1)
  }

  function BigEndian(n: nat, width: nat): (b: seq<byte>)
    ensures |b| == width
  {
    if width == 0 then [] else BigEndian(n / 256, width - 1) + [n % 256]
  }

  function FromBigEndian(b: seq<byte>): nat {
    if b == [] then 0 else 256 * FromBigEndian(b[..|b| - 1]) + b[|b| - 1]
  }

  lemma {:induction false} FromToBigEndian(n: nat, width: nat)
    requires n < Pow256(width)
    ensures FromBigEndian(BigEndian(n, width)) == n
  {
    if width > 0 {
      FromToBigEndian(n / 256, width - 1);
      assert BigEndian(n, width)[..width - 1] == BigEndian(n / 256, width - 1);
    }
  }

  lemma {:induction false} ToFromBigEndian(b: seq<byte>)
    ensures FromBigEndian(b) < Pow256(|b|)
    ensures BigEndian(FromBigEndian(b), |b|) == b
  {
    if b != [] {
      ToFromBigEndian(b[..|b| - 1]);
      assert b == b[..|b| - 1] + [b[|b| - 1]];
    }
  }

  lemma WidthsFit()
    ensures Pow256(8) == U64_MAX + 1 && Pow256(2) == U16_MAX + 1
  {
    assert Pow256(2) == 0x1_0000;
    assert Pow256(4) == 0x1_0000_0000;
    assert Pow256(6) == 0x1_0000_0000_0000;
  }

  // ----- Layout -----

  function FrameBytes(c: Checkpoint, signature: seq<byte>): seq<byte>
    requires |c.logId| < 256
  {
    [|c.logId|] + c.logId + BigEndian(c.treeSize, 8) + c.rootHash + BigEndian(c.signedAt, 8) +
    BigEndian(|signature|, 2) + signature
  }

  /** When framing succeeds. */
  predicate Framable(c: Checkpoint, signature: seq<byte>) {
    1 <= |c.logId| <= 255 && |signature| <= U16_MAX
  }

  /** Appends the fields one after another to an output buffer. */
  method FrameSignedCheckpoint(c: Checkpoint, signature: seq<byte>) returns (r: Result<seq<byte>, FramingError>)
    ensures !(1 <= |c.logId| <= 255) ==> r == Err(Input(|c.logId|))
    ensures 1 <= |c.logId| <= 255 && |signature| > U16_MAX ==> r == Err(MalformedSignature(64, |signature|))
    ensures 1 <= |c.logId| <= 255 && |signature| <= U16_MAX ==> r == Ok(FrameBytes(c, signature))
  {
    if c.logId == [] {
      return Err(Input(0));
    }
    if |c.logId| > 255 {
      return Err(Input(|c.logId|));
    }
    if |signature| > U16_MAX {
      return Err(MalformedSignature(P1363_SIGNATURE_LEN, |signature|));
    }
    var out: seq<byte> := [];
    out := out + [|c.logId|];
    out := out + c.logId;
    out := out + BigEndian(c.treeSize, 8);
    out := out + c.rootHash;
    out := out + BigEndian(c.signedAt, 8);
    out := out + BigEndian(|signature|, 2);
    out := out + signature;
    assert [] + [|c.logId|] == [|c.logId|];
    assert out == FrameBytes(c, signature);
    return Ok(out);
  }

  // ----- The reader -----

  datatype Read<T> = Read(value: T, rest: seq<byte>)

  function Take(b: seq<byte>, n: nat): Option<Read<seq<byte>>> {
    if |b| < n then None else Some(Read(b[..n], b[n..]))
  }

  function TakeInt(b: seq<byte>, width: nat): Option<Read<nat>> {
    match Take(b, width)
    case None => None
    case Some(Read(digits, rest)) => Some(Read(FromBigEndian(digits), rest))
  }

  /** A byte string behind a big-endian length of the given width. */
  function TakeOpaque(b: seq<byte>, width: nat): Option<Read<seq<byte>>> {
    match TakeInt(b, width)
    case None => None
    case Some(Read(n, rest)) => Take(rest, n)
  }

  datatype Parsed = Parsed(checkpoint: Checkpoint, signature: seq<byte>)

  function ParseBody(logId: seq<byte>, b: seq<byte>): Option<Parsed> {
    match TakeInt(b, 8)
    case None => None
    case Some(Read(treeSize, b1)) =>
      match Take(b1, HASH_LEN)
      case None => None
      case Some(Read(rootHash, b2)) =>
        match TakeInt(b2, 8)
        case None => None
        case Some(Read(signedAt, b3)) =>
          match TakeOpaque(b3, 2)
          case None => None
          case Some(Read(signature, b4)) =>
            if b4 != [] || treeSize > U64_MAX || signedAt > U64_MAX then None
            else Some(Parsed(Checkpoint(logId, treeSize, rootHash, signedAt), signature))
  }

  /** Reads the whole object; an identifier that is empty or not UTF-8, and
      left-over bytes, are errors. */
  function Parse(b: seq<byte>): Option<Parsed> {
    match TakeOpaque(b, 1)
    case None => None
    case Some(Read(logId, rest)) => if logId == [] || !IsUtf8(logId) then None else ParseBody(logId, rest)
  }

  lemma TakeFront(front: seq<byte>, rest: seq<byte>)
    ensures Take(front + rest, |front|) == Some(Read(front, rest))
  {
    assert (front + rest)[..|front|] == front && (front + rest)[|front|..] == rest;
  }

  lemma TakeIntFront(n: nat, width: nat, rest: seq<byte>)
    requires n < Pow256(width)
    ensures TakeInt(BigEndian(n, width) + rest, width) == Some(Read(n, rest))
  {
    TakeFront(BigEndian(n, width), rest);
    FromToBigEndian(n, width);
  }

  lemma TakeOpaqueFront(data: seq<byte>, width: nat, rest: seq<byte>)
    requires |data| < Pow256(width)
    ensures TakeOpaque(BigEndian(|data|, width) + (data + rest), width) == Some(Read(data, rest))
  {
    TakeIntFront(|data|, width, data + rest);
    TakeFront(data, rest);
  }

  function BodyBytes(c: Checkpoint, signature: seq<byte>): seq<byte> {
    BigEndian(c.treeSize, 8) +
    (c.rootHash + (BigEndian(c.signedAt, 8) + (BigEndian(|signature|, 2) + (signature + []))))
  }

  lemma FrameNested(c: Checkpoint, signature: seq<byte>)
    requires |c.logId| < 256
    ensures FrameBytes(c, signature) == BigEndian(|c.logId|, 1) + (c.logId + BodyBytes(c, signature))
  {
    assert BigEndian(|c.logId|, 1) == [|c.logId|];
  }

  lemma BodyParses(c: Checkpoint, signature: seq<byte>)
    requires Hashed(c) && |signature| <= U16_MAX
    ensures ParseBody(c.logId, BodyBytes(c, signature)) == Some(Parsed(c, signature))
  {
    WidthsFit();
    var b3 := BigEndian(|signature|, 2) + (signature + []);
    var b2 := BigEndian(c.signedAt, 8) + b3;
    var b1 := c.rootHash + b2;
    TakeIntFront(c.treeSize, 8, b1);
    TakeFront(c.rootHash, b2);
    TakeIntFront(c.signedAt, 8, b3);
    TakeOpaqueFront(signature, 2, []);
  }

  /** The reader gets back every field and consumes every byte. */
  lemma ParseFrame(c: Checkpoint, signature: seq<byte>)
    requires WellTyped(c) && Framable(c, signature)
    ensures Parse(FrameBytes(c, signature)) == Some(Parsed(c, signature))
  {
    FrameNested(c, signature);
    assert Pow256(1) == 256 * Pow256(0);
    TakeOpaqueFront(c.logId, 1, BodyBytes(c, signature));
    BodyParses(c, signature);
  }

  lemma TakeRebuilds(b: seq<byte>, n: nat)
    requires Take(b, n).Some?
    ensures b == Take(b, n).value.value + Take(b, n).value.rest && |Take(b, n).value.value| == n
  {
  }

  lemma TakeIntRebuilds(b: seq<byte>, width: nat)
    requires TakeInt(b, width).Some?
    ensures b == BigEndian(TakeInt(b, width).value.value, width) + TakeInt(b, width).value.rest
    ensures TakeInt(b, width).value.value < Pow256(width)
  {
    ToFromBigEndian(b[..width]);
  }

  lemma TakeOpaqueRebuilds(b: seq<byte>, width: nat)
    requires TakeOpaque(b, width).Some?
    ensures var Read(data, rest) := TakeOpaque(b, width).value;
            b == BigEndian(|data|, width) + (data + rest) && |data| < Pow256(width)
  {
    TakeIntRebuilds(b, width);
    TakeRebuilds(TakeInt(b, width).value.rest, TakeInt(b, width).value.value);
  }

  lemma BodyRebuilds(logId: seq<byte>, b: seq<byte>)
    requires ParseBody(logId, b).Some?
    ensures var Parsed(c, signature) := ParseBody(logId, b).value;
            c.logId == logId && Hashed(c) && |signature| <= U16_MAX && b == BodyBytes(c, signature)
  {
    WidthsFit();
    TakeIntRebuilds(b, 8);
    var b1 := TakeInt(b, 8).value.rest;
    TakeRebuilds(b1, HASH_LEN);
    var b2 := Take(b1, HASH_LEN).value.rest;
    TakeIntRebuilds(b2, 8);
    var b3 := TakeInt(b2, 8).value.rest;
    TakeOpaqueRebuilds(b3, 2);
  }

  /** The encoding is unique: the only bytes that parse to a checkpoint are its
      frame, so parsing and framing are inverse bijections. */
  lemma ParseIffFrame(b: seq<byte>, c: Checkpoint, signature: seq<byte>)
    ensures Parse(b) == Some(Parsed(c, signature)) <==>
            WellTyped(c) && Framable(c, signature) && b == FrameBytes(c, signature)
  {
    if Parse(b) == Some(Parsed(c, signature)) {
      ParsedIsFrame(b, c, signature);
    }
    if WellTyped(c) && Framable(c, signature) && b == FrameBytes(c, signature) {
      ParseFrame(c, signature);
    }
  }

  lemma ParsedIsFrame(b: seq<byte>, c: Checkpoint, signature: seq<byte>)
    requires Parse(b) == Some(Parsed(c, signature))
    ensures WellTyped(c) && Framable(c, signature) && b == FrameBytes(c, signature)
  {
    assert Pow256(1) == 256 * Pow256(0);
    TakeOpaqueRebuilds(b, 1);
    var Read(logId, rest) := TakeOpaque(b, 1).value;
    BodyRebuilds(logId, rest);
    FrameNested(c, signature);
  }

  // ----- What is signed -----

  /** The domain-separation label: `mtc-subtree/v1`, a newline, a zero byte. */
  const SUBTREE_SIGNATURE_LABEL: seq<byte> :=
    [0x6D, 0x74, 0x63, 0x2D, 0x73, 0x75, 0x62, 0x74, 0x72, 0x65, 0x65, 0x2F, 0x76, 0x31, 0x0A, 0x00]

  /** A checkpoint signature covers the subtree from zero to the tree size. */
  function SignatureInput(c: Checkpoint): seq<byte>
    requires |c.logId| < 256
  {
    SUBTREE_SIGNATURE_LABEL + [|c.logId|] + c.logId + [|c.logId|] + c.logId +
    BigEndian(0, 8) + BigEndian(c.treeSize, 8) + c.rootHash
  }

  function Ascii(text: string): (b: seq<byte>)
    requires forall i | 0 <= i < |text| :: text[i] < 128 as char
  {
    seq(|text|, i requires 0 <= i < |text| => text[i] as int)
  }

  /** What a verifier reads from the signed bytes. */
  datatype SubtreeInput = SubtreeInput(cosigner: seq<byte>, log: seq<byte>, first: nat, end: nat, hash: seq<byte>)

  /** The reader of the layout: the label as text, two identifiers behind a length
      byte each, two 64-bit bounds, a hash, and the end of the bytes. */
  function ReadSubtreeInput(b: seq<byte>): Option<SubtreeInput> {
    match Take(b, 16)
    case None => None
    case Some(Read(text, b1)) =>
      if text != Ascii("mtc-subtree/v1\n\0") then None
      else
        match TakeOpaque(b1, 1)
        case None => None
        case Some(Read(cosigner, b2)) =>
          match TakeOpaque(b2, 1)
          case None => None
          case Some(Read(log, b3)) => ReadSubtree(cosigner, log, b3)
  }

  function ReadSubtree(cosigner: seq<byte>, log: seq<byte>, b: seq<byte>): Option<SubtreeInput> {
    match TakeInt(b, 8)
    case None => None
    case Some(Read(first, b1)) =>
      match TakeInt(b1, 8)
      case None => None
      case Some(Read(end, b2)) =>
        if |b2| != HASH_LEN then None else Some(SubtreeInput(cosigner, log, first, end, b2))
  }

  lemma LabelText()
    ensures SUBTREE_SIGNATURE_LABEL == Ascii("mtc-subtree/v1\n\0")
  {
  }

  /** The end of the layout, nested as the reader takes it apart. */
  function SubtreeTail(c: Checkpoint): seq<byte> {
    BigEndian(0, 8) + (BigEndian(c.treeSize, 8) + c.rootHash)
  }

  lemma InputNested(c: Checkpoint)
    requires |c.logId| < 256
    ensures SignatureInput(c) ==
            SUBTREE_SIGNATURE_LABEL +
            (BigEndian(|c.logId|, 1) + (c.logId + (BigEndian(|c.logId|, 1) + (c.logId + SubtreeTail(c)))))
  {
    assert BigEndian(|c.logId|, 1) == [|c.logId|];
  }

  lemma TailReads(c: Checkpoint)
    requires Hashed(c)
    ensures ReadSubtree(c.logId, c.logId, SubtreeTail(c)) ==
            Some(SubtreeInput(c.logId, c.logId, 0, c.treeSize, c.rootHash))
  {
    WidthsFit();
    TakeIntFront(0, 8, BigEndian(c.treeSize, 8) + c.rootHash);
    TakeIntFront(c.treeSize, 8, c.rootHash);
  }

  lemma TailRebuilds(c: Checkpoint, b: seq<byte>)
    requires ReadSubtree(c.logId, c.logId, b) == Some(SubtreeInput(c.logId, c.logId, 0, c.treeSize, c.rootHash))
    ensures b == SubtreeTail(c)
  {
    TakeIntRebuilds(b, 8);
    TakeIntRebuilds(TakeInt(b, 8).value.rest, 8);
  }

  lemma InputReads(c: Checkpoint)
    requires |c.logId| < 256 && Hashed(c)
    ensures ReadSubtreeInput(SignatureInput(c)) == Some(SubtreeInput(c.logId, c.logId, 0, c.treeSize, c.rootHash))
  {
    var b2 := BigEndian(|c.logId|, 1) + (c.logId + SubtreeTail(c));
    assert Pow256(1) == 256 * Pow256(0);
    LabelText();
    InputNested(c);
    TakeFront(SUBTREE_SIGNATURE_LABEL, BigEndian(|c.logId|, 1) + (c.logId + b2));
    TakeOpaqueFront(c.logId, 1, b2);
    TakeOpaqueFront(c.logId, 1, SubtreeTail(c));
    TailReads(c);
  }

  lemma ReadIsInput(b: seq<byte>, c: Checkpoint)
    requires ReadSubtreeInput(b) == Some(SubtreeInput(c.logId, c.logId, 0, c.treeSize, c.rootHash))
    ensures |c.logId| < 256 && Hashed(c) && b == SignatureInput(c)
  {
    assert Pow256(1) == 256 * Pow256(0);
    LabelText();
    TakeRebuilds(b, 16);
    var b1 := Take(b, 16).value.rest;
    TakeOpaqueRebuilds(b1, 1);
    var b2 := TakeOpaque(b1, 1).value.rest;
    TakeOpaqueRebuilds(b2, 1);
    TailRebuilds(c, TakeOpaque(b2, 1).value.rest);
    InputNested(c);
  }

  /** What is signed: bytes read as "both identifiers are the log's, from zero to
      the tree size, with this root" exactly when they are the signature input. */
  lemma ReadIffSignatureInput(b: seq<byte>, c: Checkpoint)
    ensures ReadSubtreeInput(b) == Some(SubtreeInput(c.logId, c.logId, 0, c.treeSize, c.rootHash)) <==>
            |c.logId| < 256 && Hashed(c) && b == SignatureInput(c)
  {
    if ReadSubtreeInput(b) == Some(SubtreeInput(c.logId, c.logId, 0, c.treeSize, c.rootHash)) {
      ReadIsInput(b, c);
    }
    if |c.logId| < 256 && Hashed(c) && b == SignatureInput(c) {
      InputReads(c);
    }
  }

  /** The signed bytes determine the log, the size and the root, and nothing
      about the time, which is not authenticated. */
  lemma SignatureInputBinds(a: Checkpoint, b: Checkpoint)
    requires |a.logId| < 256 && |b.logId| < 256 && Hashed(a) && Hashed(b)
    ensures SignatureInput(a) == SignatureInput(b) <==>
            a.logId == b.logId && a.treeSize == b.treeSize && a.rootHash == b.rootHash
  {
    InputReads(a);
    InputReads(b);
  }

  // ----- The object key -----

  function Zeros(n: nat): (s: string)
    ensures |s| == n
  {
    if n == 0 then "" else ['0'] + Zeros(n - 1)
  }

  /** `{:016}`: zero-padded on the left to sixteen digits, never truncated. */
  function Padded(n: nat): string {
    var digits := Decimal.Render(n);
    if |digits| < KEY_DIGITS then Zeros(KEY_DIGITS - |digits|) + digits else digits
  }

  function ObjectKey(treeSize: nat): string {
    CHECKPOINT_OBJECT_PREFIX + Padded(treeSize) + CHECKPOINT_OBJECT_SUFFIX
  }

  function Pow10(k: nat): (p: nat)
    ensures p > 0
  {
    if k == 0 then 1 else 10 * Pow10(k - 1)
  }

  /** The last `width` decimal digits. */
  function Digits(n: nat, width: nat): (s: string)
    ensures |s| == width
  {
    if width == 0 then "" else Digits(n / 10, width - 1) + [Decimal.DigitChar(n % 10)]
  }

  lemma {:induction false} DigitsOfZero(width: nat)
    ensures Digits(0, width) == Zeros(width)
  {
    if width > 0 {
      DigitsOfZero(width - 1);
      ZerosEnd(width - 1);
    }
  }

  lemma {:induction false} ZerosEnd(n: nat)
    ensures Zeros(n) + ['0'] == Zeros(n + 1)
  {
    if n > 0 {
      ZerosEnd(n - 1);
      assert Zeros(n) + ['0'] == ['0'] + (Zeros(n - 1) + ['0']);
    }
  }

  lemma {:induction false} RenderIsDigits(n: nat, width: nat)
    requires |Decimal.Render(n)| <= width
    ensures Zeros(width - |Decimal.Render(n)|) + Decimal.Render(n) == Digits(n, width)
  {
    if n < 10 {
      DigitsOfZero(width - 1);
    } else {
      RenderIsDigits(n / 10, width - 1);
      var high := Decimal.Render(n / 10);
      assert Zeros(width - |Decimal.Render(n)|) + Decimal.Render(n) ==
             (Zeros(width - 1 - |high|) + high) + [Decimal.DigitChar(n % 10)];
    }
  }

  function KeyWidth(n: nat): nat {
    if |Decimal.Render(n)| < KEY_DIGITS then KEY_DIGITS else |Decimal.Render(n)|
  }

  lemma PaddedIsDigits(n: nat)
    ensures Padded(n) == Digits(n, KeyWidth(n)) && n < Pow10(KeyWidth(n))
  {
    RenderIsDigits(n, KeyWidth(n));
    RenderWidth(n);
    Pow10Grows(|Decimal.Render(n)|, KeyWidth(n));
    assert Zeros(0) + Decimal.Render(n) == Decimal.Render(n);
  }

  lemma {:induction false} RenderWidth(n: nat)
    ensures n < Pow10(|Decimal.Render(n)|)
    ensures |Decimal.Render(n)| > 1 ==> Pow10(|Decimal.Render(n)| - 1) <= n
  {
    if n >= 10 {
      RenderWidth(n / 10);
    }
  }

  lemma {:induction false} Pow10Grows(a: nat, b: nat)
    requires a <= b
    ensures Pow10(a) <= Pow10(b)
  {
    if a < b {
      Pow10Grows(a, b - 1);
    }
  }

  /** Fixed-width digits compare like numbers, then like what follows them. */
  lemma {:induction false} DigitsOrder(a: nat, b: nat, width: nat, s: string, t: string)
    requires a < Pow10(width) && b < Pow10(width)
    ensures Less(Digits(a, width) + s, Digits(b, width) + t) <==> a < b || (a == b && Less(s, t))
  {
    if width == 0 {
      assert "" + s == s && "" + t == t;
    } else {
      var d, e := Decimal.DigitChar(a % 10), Decimal.DigitChar(b % 10);
      assert Digits(a, width) + s == Digits(a / 10, width - 1) + ([d] + s);
      assert Digits(b, width) + t == Digits(b / 10, width - 1) + ([e] + t);
      DigitsOrder(a / 10, b / 10, width - 1, [d] + s, [e] + t);
      assert ([d] + s)[1..] == s && ([e] + t)[1..] == t;
    }
  }

  lemma Associative(a: string, b: string, c: string)
    ensures (a + b) + c == a + (b + c)
  {
  }

  /** All but the last `k` digits. */
  function Lead(n: nat, k: nat): nat {
    if k == 0 then n else Lead(n / 10, k - 1)
  }

  lemma {:induction false} LeadIsQuotient(n: nat, k: nat)
    ensures Lead(n, k) == n / Pow10(k)
  {
    if k > 0 {
      LeadIsQuotient(n / 10, k - 1);
      DivideTwice(n, k);
    }
  }

  lemma {:induction false} DigitsSplit(n: nat, width: nat, k: nat)
    ensures Digits(n, width + k) == Digits(Lead(n, k), width) + Digits(n, k)
  {
    if k > 0 {
      DigitsSplit(n / 10, width, k - 1);
      Associative(Digits(Lead(n, k), width), Digits(n / 10, k - 1), [Decimal.DigitChar(n % 10)]);
    }
  }

  lemma DivideTwice(n: nat, k: nat)
    requires k > 0
    ensures n / 10 / Pow10(k - 1) == n / Pow10(k)
  {
    var p := Pow10(k - 1);
    var q := n / 10 / p;
    var r := n / 10 % p;
    assert n / 10 == q * p + r;
    assert n == 10 * (q * p + r) + n % 10;
    assert 10 * (q * p) == q * (10 * p);
    assert n == q * (10 * p) + (10 * r + n % 10) && 0 <= 10 * r + n % 10 < 10 * p;
    QuotientUnique(n, 10 * p, q, 10 * r + n % 10);
  }

  lemma QuotientUnique(n: nat, d: nat, q: nat, r: nat)
    requires d > 0 && r < d && n == q * d + r
    ensures n / d == q
  {
    var p := n / d;
    assert n == p * d + n % d;
    if p < q {
      TimesMonotone(p + 1, q, d);
    } else if q < p {
      TimesMonotone(q + 1, p, d);
    }
  }

  lemma TimesMonotone(a: nat, b: nat, d: nat)
    requires a <= b
    ensures a * d <= b * d
  {
  }

  lemma {:induction false} LeadFits(n: nat, width: nat, k: nat)
    requires n < Pow10(width + k)
    ensures Lead(n, k) < Pow10(width)
  {
    if k > 0 {
      LeadFits(n / 10, width, k - 1);
    }
  }

  lemma KeyOrderByLead(m: nat, n: nat)
    requires KeyWidth(m) <= KeyWidth(n)
    ensures var extra := KeyWidth(n) - KeyWidth(m);
            Less(ObjectKey(m), ObjectKey(n)) <==> m < Lead(n, extra) || (m == Lead(n, extra) && extra > 0)
  {
    var width, extra := KeyWidth(m), KeyWidth(n) - KeyWidth(m);
    var lead, tail := Lead(n, extra), Digits(n, extra) + CHECKPOINT_OBJECT_SUFFIX;
    KeySplits(m, width, 0);
    KeySplits(n, width, extra);
    var short := Digits(m, width) + CHECKPOINT_OBJECT_SUFFIX;
    LessAfterCommonPrefix(CHECKPOINT_OBJECT_PREFIX, short, Digits(lead, width) + tail);
    DigitsOrder(m, lead, width, CHECKPOINT_OBJECT_SUFFIX, tail);
    SuffixOrder(n, extra);
  }

  /** Exactly how keys compare, for any two sizes: a size sorts before one that
      is at least as wide when it does not exceed the leading digits of it. */
  lemma KeyOrderExactly(m: nat, n: nat)
    requires KeyWidth(m) <= KeyWidth(n)
    ensures var extra := KeyWidth(n) - KeyWidth(m);
            Less(ObjectKey(m), ObjectKey(n)) <==> if extra == 0 then m < n else m <= n / Pow10(extra)
  {
    KeyOrderByLead(m, n);
    LeadIsQuotient(n, KeyWidth(n) - KeyWidth(m));
  }

  /** A key of at least `width` digits, with its leading ones apart. */
  lemma KeySplits(n: nat, width: nat, extra: nat)
    requires KeyWidth(n) == width + extra
    ensures Lead(n, extra) < Pow10(width)
    ensures extra == 0 ==> Digits(n, extra) + CHECKPOINT_OBJECT_SUFFIX == CHECKPOINT_OBJECT_SUFFIX
    ensures ObjectKey(n) ==
            CHECKPOINT_OBJECT_PREFIX + (Digits(Lead(n, extra), width) + (Digits(n, extra) + CHECKPOINT_OBJECT_SUFFIX))
  {
    PaddedIsDigits(n);
    DigitsSplit(n, width, extra);
    LeadFits(n, width, extra);
    var lead, low := Digits(Lead(n, extra), width), Digits(n, extra);
    Associative(CHECKPOINT_OBJECT_PREFIX, lead + low, CHECKPOINT_OBJECT_SUFFIX);
    Associative(lead, low, CHECKPOINT_OBJECT_SUFFIX);
  }

  /** The dot that ends a key sorts before every digit. */
  lemma SuffixOrder(n: nat, extra: nat)
    ensures Less(CHECKPOINT_OBJECT_SUFFIX, Digits(n, extra) + CHECKPOINT_OBJECT_SUFFIX) <==> extra > 0
  {
    if extra == 0 {
      assert Digits(n, 0) + CHECKPOINT_OBJECT_SUFFIX == CHECKPOINT_OBJECT_SUFFIX;
      LessIrreflexive(CHECKPOINT_OBJECT_SUFFIX);
    } else {
      DigitsStartWithDigit(n, extra);
    }
  }

  lemma {:induction false} DigitsStartWithDigit(n: nat, width: nat)
    requires width > 0
    ensures '0' <= Digits(n, width)[0] <= '9'
  {
    if width > 1 {
      DigitsStartWithDigit(n / 10, width - 1);
    }
  }

  /** Below ten to the sixteenth, keys sort as the tree sizes do. */
  lemma KeyOrder(m: nat, n: nat)
    requires m < Pow10(KEY_DIGITS) && n < Pow10(KEY_DIGITS)
    ensures Less(ObjectKey(m), ObjectKey(n)) <==> m < n
  {
    NarrowWidth(m);
    NarrowWidth(n);
    KeyOrderExactly(m, n);
  }

  lemma NarrowWidth(n: nat)
    requires n < Pow10(KEY_DIGITS)
    ensures KeyWidth(n) == KEY_DIGITS
  {
    RenderWidth(n);
    if |Decimal.Render(n)| > KEY_DIGITS {
      Pow10Grows(KEY_DIGITS, |Decimal.Render(n)| - 1);
    }
  }

  /** At ten to the sixteenth the order breaks: the larger size sorts first. */
  lemma KeyOrderBreaks()
    ensures Less(ObjectKey(Pow10(KEY_DIGITS)), ObjectKey(Pow10(KEY_DIGITS) - 1))
  {
    var m, n := Pow10(KEY_DIGITS) - 1, Pow10(KEY_DIGITS);
    NarrowWidth(m);
    RenderWidth(n);
    assert n == 10 * Pow10(15);
    if |Decimal.Render(n)| < 17 {
      Pow10Grows(|Decimal.Render(n)|, KEY_DIGITS);
    } else if |Decimal.Render(n)| > 17 {
      Pow10Grows(17, |Decimal.Render(n)| - 1);
    }
    assert KeyWidth(n) == 17 && Pow10(17) == 10 * n && Pow10(1) == 10 * Pow10(0);
    KeyOrderExactly(m, n);
    assert Pow10(15) >= Pow10(1) by { Pow10Grows(1, 15); }
    LessTotal(ObjectKey(m), ObjectKey(n));
    assert n / 10 == Pow10(15);
    KeyInjective(m, n);
  }

  /** No two tree sizes share a key, whatever their width. */
  lemma KeyInjective(m: nat, n: nat)
    ensures ObjectKey(m) == ObjectKey(n) <==> m == n
  {
    if ObjectKey(m) == ObjectKey(n) {
      PaddedIsDigits(m);
      PaddedIsDigits(n);
      assert |ObjectKey(m)| == |CHECKPOINT_OBJECT_PREFIX| + KeyWidth(m) + |CHECKPOINT_OBJECT_SUFFIX|;
      assert |ObjectKey(n)| == |CHECKPOINT_OBJECT_PREFIX| + KeyWidth(n) + |CHECKPOINT_OBJECT_SUFFIX|;
      KeyOrderExactly(m, n);
      KeyOrderExactly(n, m);
      LessIrreflexive(ObjectKey(m));
    }
  }
}
