/** Vocabulary shared by every component: optional values, results, and the
    machine integers whose bounds the code relies on. */
module Base {

  datatype Option<+T> = None | Some(value: T)

  datatype Result<+T, +E> = Ok(value: T) | Err(error: E)

  datatype Unit = Unit

  const U16_MAX: nat := 0xFFFF
  const U32_MAX: nat := 0xFFFF_FFFF
  const U64_MAX: nat := 0xFFFF_FFFF_FFFF_FFFF

  type u32 = n: nat | n <= U32_MAX
  type u64 = n: nat | n <= U64_MAX
  type byte = n: nat | n < 256

  function Min(a: nat, b: nat): nat {
    if a <= b then a else b
  }

  /** `u64::saturating_add`. */
  function SaturatingAdd(a: u64, b: u64): u64 {
    Min(a + b, U64_MAX)
  }
}

/** Decimal rendering and parsing of naturals (`to_string`, `parse::<u64>`). */
module Decimal {
  import opened Base

  function DigitChar(d: nat): char
    requires d < 10
  {
    '0' + d as char
  }

  predicate IsDigit(c: char) {
    '0' <= c <= '9'
  }

  function DigitValue(c: char): nat
    requires IsDigit(c)
  {
    c as int - '0' as int
  }

  /** The decimal digits of `n`, without leading zeros. */
  function Render(n: nat): string {
    if n < 10 then [DigitChar(n)] else Render(n / 10) + [DigitChar(n % 10)]
  }

  /** The number a non-empty string of digits denotes. */
  function ParseNat(s: string): Option<nat> {
    if s == [] || !IsDigit(s[|s| - 1]) then None
    else if |s| == 1 then Some(DigitValue(s[0]))
    else
      match ParseNat(s[..|s| - 1])
      case None => None
      case Some(high) => Some(10 * high + DigitValue(s[|s| - 1]))
  }

  /** `str::parse::<u64>`: an optional plus sign, digits, and no overflow. */
  function ParseU64(s: string): Option<u64> {
    var digits := if s != [] && s[0] == '+' then s[1..] else s;
    match ParseNat(digits)
    case None => None
    case Some(n) => if n <= U64_MAX then Some(n) else None
  }

  lemma {:induction false} ParseRender(n: nat)
    ensures ParseNat(Render(n)) == Some(n)
    ensures IsDigit(Render(n)[0])
  {
    if n >= 10 {
      ParseRender(n / 10);
      var s := Render(n);
      assert s[..|s| - 1] == Render(n / 10);
    }
  }

  lemma ParseU64Render(n: nat)
    ensures ParseU64(Render(n)) == if n <= U64_MAX then Some(n) else None
  {
    ParseRender(n);
  }

  lemma RenderInjective(m: nat, n: nat)
    requires Render(m) == Render(n)
    ensures m == n
  {
    ParseRender(m);
    ParseRender(n);
  }
}

/** Lexicographic order on strings by code point, which is also the byte order
    of their UTF-8 encodings. */
module StringOrder {

  predicate Less(a: string, b: string) {
    b != [] && (a == [] || a[0] < b[0] || (a[0] == b[0] && Less(a[1..], b[1..])))
  }

  lemma {:induction false} LessTransitive(a: string, b: string, c: string)
    requires Less(a, b) && Less(b, c)
    ensures Less(a, c)
  {
    if a != [] && a[0] == b[0] == c[0] {
      LessTransitive(a[1..], b[1..], c[1..]);
    }
  }

  lemma {:induction false} LessIrreflexive(a: string)
    ensures !Less(a, a)
  {
    if a != [] {
      LessIrreflexive(a[1..]);
    }
  }

  lemma {:induction false} LessTotal(a: string, b: string)
    ensures a == b || Less(a, b) || Less(b, a)
  {
    if a != [] && b != [] && a[0] == b[0] {
      LessTotal(a[1..], b[1..]);
      assert a == [a[0]] + a[1..] && b == [b[0]] + b[1..];
    }
  }

  lemma LessAsymmetric(a: string, b: string)
    requires Less(a, b)
    ensures !Less(b, a)
  {
    if Less(b, a) {
      LessTransitive(a, b, a);
      LessIrreflexive(a);
    }
  }

  /** A common prefix does not influence the comparison. */
  lemma {:induction false} LessAfterCommonPrefix(p: string, a: string, b: string)
    ensures Less(p + a, p + b) <==> Less(a, b)
  {
    if p == [] {
      assert p + a == a && p + b == b;
    } else {
      assert (p + a)[1..] == p[1..] + a && (p + b)[1..] == p[1..] + b;
      LessAfterCommonPrefix(p[1..], a, b);
    }
  }

  predicate IsLeast(x: string, s: set<string>) {
    x in s && forall other | other in s && other != x :: Less(x, other)
  }

  lemma LessOrElse(x: string, y: string) returns (least: string)
    ensures least == x || least == y
    ensures least == x || Less(least, x)
    ensures least == y || Less(least, y)
  {
    LessTotal(x, y);
    least := if Less(x, y) then x else y;
  }

  /** Every non-empty finite set of strings has a least element. */
  lemma {:induction false} LeastExists(s: set<string>) returns (least: string)
    requires s != {}
    ensures IsLeast(least, s)
  {
    var x :| x in s;
    var rest := s - {x};
    if rest == {} {
      least := x;
      assert s == rest + {x};
    } else {
      var y := LeastExists(rest);
      least := LessOrElse(x, y);
      forall other | other in s && other != least ensures Less(least, other) {
        if other in rest && other != y && least == x { LessTransitive(x, y, other); }
      }
    }
  }
}
