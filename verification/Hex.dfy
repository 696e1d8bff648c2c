/** The hex codec of the conformance vectors, on the bytes of its text. */
module Hex {
  import opened Base

  datatype HexError = OddLength(len: nat) | InvalidDigit(offset: nat, found: byte)

  const ZERO: byte := 0x30
  const UPPER_A: byte := 0x41
  const LOWER_A: byte := 0x61

  predicate IsHexDigit(c: byte) {
    ZERO <= c < ZERO + 10 || UPPER_A <= c < UPPER_A + 6 || LOWER_A <= c < LOWER_A + 6
  }

  function DigitByte(d: nat): byte
    requires d < 16
  {
    if d < 10 then ZERO + d else LOWER_A + d - 10
  }

  /** One digit's value, or the error that names its offset. */
  function HexDigit(c: byte, offset: nat): (r: Result<nat, HexError>)
    ensures r.Ok? <==> IsHexDigit(c)
    ensures r.Ok? ==> r.value < 16 && DigitByte(r.value) == LowerByte(c)
    ensures r.Err? ==> r.error == InvalidDigit(offset, c)
  {
    if ZERO <= c < ZERO + 10 then Ok(c - ZERO)
    else if LOWER_A <= c < LOWER_A + 6 then Ok(c - LOWER_A + 10)
    else if UPPER_A <= c < UPPER_A + 6 then Ok(c - UPPER_A + 10)
    else Err(InvalidDigit(offset, c))
  }

  /** ASCII lower case. */
  function LowerByte(c: byte): byte {
    if UPPER_A <= c < UPPER_A + 26 then c + 32 else c
  }

  function Lower(s: seq<byte>): seq<byte> {
    seq(|s|, i requires 0 <= i < |s| => LowerByte(s[i]))
  }

  function Encoded(b: seq<byte>): (s: seq<byte>)
    ensures |s| == 2 * |b|
  {
    if b == [] then []
    else Encoded(b[..|b| - 1]) + [DigitByte(b[|b| - 1] / 16), DigitByte(b[|b| - 1] % 16)]
  }

  function PairValue(hi: byte, lo: byte): byte
    requires IsHexDigit(hi) && IsHexDigit(lo)
  {
    16 * HexDigit(hi, 0).value + HexDigit(lo, 0).value
  }

  /** The text consists of one pair of digits per byte. */
  ghost predicate Denotes(s: seq<byte>, b: seq<byte>) {
    var n := |s|;
    if b == [] then s == []
    else
      && n >= 2
      && IsHexDigit(s[n - 2]) && IsHexDigit(s[n - 1])
      && b[|b| - 1] == PairValue(s[n - 2], s[n - 1])
      && Denotes(s[..n - 2], b[..|b| - 1])
  }

  ghost predicate FirstInvalid(s: seq<byte>, offset: nat) {
    offset < |s| && !IsHexDigit(s[offset]) && forall i | 0 <= i < offset :: IsHexDigit(s[i])
  }

  method Encode(b: seq<byte>) returns (out: seq<byte>)
    ensures out == Encoded(b)
  {
    out := [];
    for i := 0 to |b|
      invariant out == Encoded(b[..i])
    {
      assert b[..i + 1][..i] == b[..i];
      out := out + [DigitByte(b[i] / 16), DigitByte(b[i] % 16)];
    }
    assert b[..|b|] == b;
  }

  lemma DigitsBefore(s: seq<byte>, i: nat, b: seq<byte>)
    requires i <= |s| && Denotes(s[..i], b)
    ensures forall j | 0 <= j < i :: IsHexDigit(s[j])
  {
    DigitsOnly(s[..i], b);
    assert forall j | 0 <= j < i :: s[j] == s[..i][j];
  }

  /** Decoding succeeds exactly on even-length text of hex digits; otherwise an
      odd length is reported before any digit, and then the first bad digit. */
  ghost predicate Decodes(s: seq<byte>, r: Result<seq<byte>, HexError>) {
    if |s| % 2 == 1 then r == Err(OddLength(|s|))
    else
      match r
      case Ok(b) => Denotes(s, b)
      case Err(InvalidDigit(offset, found)) => FirstInvalid(s, offset) && found == s[offset]
      case Err(_) => false
  }

  method Decode(s: seq<byte>) returns (r: Result<seq<byte>, HexError>)
    ensures Decodes(s, r)
  {
    if |s| % 2 != 0 {
      return Err(OddLength(|s|));
    }
    var out: seq<byte> := [];
    var i := 0;
    while i < |s|
      invariant 0 <= i <= |s| && i == 2 * |out|
      invariant Denotes(s[..i], out)
    {
      var hi := HexDigit(s[i], i);
      if hi.Err? {
        DigitsBefore(s, i, out);
        return Err(hi.error);
      }
      var lo := HexDigit(s[i + 1], i + 1);
      if lo.Err? {
        DigitsBefore(s, i, out);
        return Err(lo.error);
      }
      DenotesNext(s, i, out, hi.value, lo.value);
      out := out + [16 * hi.value + lo.value];
      i := i + 2;
    }
    assert s[..i] == s;
    return Ok(out);
  }

  lemma DenotesAppend(s: seq<byte>, b: seq<byte>, hi: byte, lo: byte)
    requires Denotes(s, b) && IsHexDigit(hi) && IsHexDigit(lo)
    ensures Denotes(s + [hi, lo], b + [PairValue(hi, lo)])
  {
    assert (s + [hi, lo])[..|s|] == s && (b + [PairValue(hi, lo)])[..|b|] == b;
  }

  lemma DenotesNext(s: seq<byte>, i: nat, b: seq<byte>, hi: nat, lo: nat)
    requires i + 2 <= |s| && Denotes(s[..i], b)
    requires HexDigit(s[i], i) == Ok(hi) && HexDigit(s[i + 1], i + 1) == Ok(lo)
    ensures Denotes(s[..i + 2], b + [16 * hi + lo])
  {
    DenotesAppend(s[..i], b, s[i], s[i + 1]);
    assert s[..i] + [s[i], s[i + 1]] == s[..i + 2];
  }

  lemma DigitRoundTrip(d: nat)
    requires d < 16
    ensures IsHexDigit(DigitByte(d)) && HexDigit(DigitByte(d), 0) == Ok(d)
  {
  }

  lemma PairRoundTrip(c: byte)
    ensures var hi, lo := DigitByte(c / 16), DigitByte(c % 16);
            IsHexDigit(hi) && IsHexDigit(lo) && PairValue(hi, lo) == c
  {
    DigitRoundTrip(c / 16);
    DigitRoundTrip(c % 16);
  }

  lemma {:induction false} EncodedDenotes(b: seq<byte>)
    ensures Denotes(Encoded(b), b)
  {
    if b != [] {
      var front, last := b[..|b| - 1], b[|b| - 1];
      EncodedDenotes(front);
      PairRoundTrip(last);
      var hi, lo := DigitByte(last / 16), DigitByte(last % 16);
      DenotesAppend(Encoded(front), front, hi, lo);
      assert front + [PairValue(hi, lo)] == b && Encoded(b) == Encoded(front) + [hi, lo];
    }
  }

  // ----- What the digits mean -----

  /** A digit is worth its place in the alphabet, in either case. */
  lemma DigitWorth(c: byte, v: nat)
    requires v < 16
    ensures HexDigit(c, 0) == Ok(v) <==>
            c == "0123456789abcdef"[v] as int || c == "0123456789ABCDEF"[v] as int
  {
  }

  /** The number a text writes in base sixteen, most significant digit first. */
  function HexNumber(s: seq<byte>): nat {
    if s == [] then 0
    else
      var digit := HexDigit(s[|s| - 1], 0);
      16 * HexNumber(s[..|s| - 1]) + if digit.Ok? then digit.value else 0
  }

  /** The number bytes write in base 256, most significant byte first. */
  function ByteNumber(b: seq<byte>): nat {
    if b == [] then 0 else 256 * ByteNumber(b[..|b| - 1]) + b[|b| - 1]
  }

  /** A text and the bytes decoded from it write the same number. */
  lemma {:induction false} SameNumber(s: seq<byte>, b: seq<byte>)
    requires Denotes(s, b)
    ensures HexNumber(s) == ByteNumber(b) && |s| == 2 * |b|
  {
    if b != [] {
      var n := |s|;
      SameNumber(s[..n - 2], b[..|b| - 1]);
      assert s[..n - 1][..n - 2] == s[..n - 2];
      assert HexNumber(s[..n - 1]) == 16 * HexNumber(s[..n - 2]) + HexDigit(s[n - 2], 0).value;
    }
  }

  /** Decoding then encoding gives the same text in lower case. */
  lemma {:induction false} DecodedEncodesLower(s: seq<byte>, b: seq<byte>)
    requires Denotes(s, b)
    ensures Encoded(b) == Lower(s)
  {
    if b != [] {
      var n := |s|;
      DecodedEncodesLower(s[..n - 2], b[..|b| - 1]);
      assert b[|b| - 1] / 16 == HexDigit(s[n - 2], 0).value && b[|b| - 1] % 16 == HexDigit(s[n - 1], 0).value;
      assert Lower(s) == Lower(s[..n - 2]) + [LowerByte(s[n - 2]), LowerByte(s[n - 1])];
    }
  }

  lemma {:induction false} DenotesOnce(s: seq<byte>, b: seq<byte>, c: seq<byte>)
    requires Denotes(s, b) && Denotes(s, c)
    ensures b == c
  {
    if b != [] && c != [] {
      DenotesOnce(s[..|s| - 2], b[..|b| - 1], c[..|c| - 1]);
      assert b == b[..|b| - 1] + [b[|b| - 1]] && c == c[..|c| - 1] + [c[|c| - 1]];
    }
  }

  lemma {:induction false} DigitsOnly(s: seq<byte>, b: seq<byte>)
    requires Denotes(s, b)
    ensures |s| % 2 == 0 && forall j | 0 <= j < |s| :: IsHexDigit(s[j])
  {
    if b != [] {
      var front := s[..|s| - 2];
      DigitsOnly(front, b[..|b| - 1]);
      forall j | 0 <= j < |s| ensures IsHexDigit(s[j]) {
        if j < |front| { assert front[j] == s[j]; }
      }
    }
  }

  lemma DecodesDenoted(s: seq<byte>, b: seq<byte>, r: Result<seq<byte>, HexError>)
    requires Denotes(s, b)
    ensures Decodes(s, r) <==> r == Ok(b)
  {
    DigitsOnly(s, b);
    if r.Ok? && Denotes(s, r.value) {
      DenotesOnce(s, b, r.value);
    }
  }

  /** Decoding what was encoded gives the bytes back. */
  lemma RoundTrip(b: seq<byte>, r: Result<seq<byte>, HexError>)
    ensures Decodes(Encoded(b), r) <==> r == Ok(b)
  {
    EncodedDenotes(b);
    DecodesDenoted(Encoded(b), b, r);
  }
}
