/**
  The pieces of Java's arithmetic and string library that the download
  engine relies on: 64-bit `long` and 32-bit `int` wrap-around, truncating
  `/` and `%`, decimal printing (string concatenation of a number) and
  `Long.parseLong`, and `String.indexOf`.
 */
module JavaLang {
  import opened Wrappers

  const LONG_MIN: int := -0x8000_0000_0000_0000
  const LONG_MAX: int := 0x7FFF_FFFF_FFFF_FFFF
  const INT_MIN: int := -0x8000_0000
  const INT_MAX: int := 0x7FFF_FFFF

  predicate IsLong(x: int) { LONG_MIN <= x <= LONG_MAX }

  predicate IsInt(x: int) { INT_MIN <= x <= INT_MAX }

  /** The value a `long` holds after an operation whose exact result is `x`: the one long congruent to `x` modulo 2^64. */
  function WrapLong(x: int): (r: int)
    ensures IsLong(r)
    ensures IsLong(x) ==> r == x
    ensures (x - r) % 0x1_0000_0000_0000_0000 == 0
  {
    (x - LONG_MIN) % 0x1_0000_0000_0000_0000 + LONG_MIN
  }

  /** The `(int)` cast: keeps the low 32 bits, two's complement, so the one int congruent to `x` modulo 2^32. */
  function WrapInt(x: int): (r: int)
    ensures IsInt(r)
    ensures IsInt(x) ==> r == x
    ensures (x - r) % 0x1_0000_0000 == 0
  {
    (x - INT_MIN) % 0x1_0000_0000 + INT_MIN
  }

  function Abs(x: int): nat { if x < 0 then -x else x }

  /** The quotient of two magnitudes, by repeated subtraction. */
  function Div(a: nat, b: nat): nat
    requires b > 0
    decreases a
  {
    if a < b then 0 else 1 + Div(a - b, b)
  }

  /** Multiplying by a positive factor is monotone. */
  lemma MulMonotone(t: int, a: int, b: int)
    requires t > 0 && a <= b
    ensures t * a <= t * b
  {
  }

  /** The quotient and remainder of Euclidean division are unique. */
  lemma DivUnique(a: int, b: int, q: int, r: int)
    requires b > 0 && 0 <= r < b && a == b * q + r
    ensures a / b == q
  {
    var q0, r0 := a / b, a % b;
    assert a == b * q0 + r0 && 0 <= r0 < b;
    assert b * (q + 1) == b * q + b && b * (q0 + 1) == b * q0 + b;
    if q0 > q {
      MulMonotone(b, q + 1, q0);
      assert false;
    }
    if q0 < q {
      MulMonotone(b, q0 + 1, q);
      assert false;
    }
  }

  /** Repeated subtraction computes Dafny's (Euclidean) quotient. */
  lemma {:induction false} DivIsQuotient(a: nat, b: nat)
    requires b > 0
    ensures Div(a, b) == a / b
    decreases a
  {
    if a < b {
      DivUnique(a, b, 0, a);
    } else {
      DivIsQuotient(a - b, b);
      var q := (a - b) / b;
      var r := (a - b) % b;
      assert a - b == b * q + r;
      assert a == b * (q + 1) + r;
      DivUnique(a, b, q + 1, r);
    }
  }

  /** Java's integer `/`: the quotient of the magnitudes, negated when the signs differ, so it rounds toward zero. */
  function Quot(a: int, b: int): (q: int)
    requires b != 0
    ensures Abs(q) == Div(Abs(a), Abs(b))
    ensures q != 0 ==> (q > 0 <==> (a > 0) == (b > 0))
  {
    var m: int := Div(Abs(a), Abs(b));
    if (a >= 0) == (b > 0) then m else -m
  }

  /** On non-negative operands Java's `/` agrees with Dafny's. */
  lemma QuotOfNatural(a: int, b: int)
    requires a >= 0 && b > 0
    ensures Quot(a, b) == a / b
  {
    DivIsQuotient(a, b);
  }

  /** Java's quotient has the magnitude of the quotient of the magnitudes: it rounds toward zero. */
  lemma QuotMagnitude(a: int, b: int)
    requires b != 0
    ensures Abs(Quot(a, b)) == Abs(a) / Abs(b)
  {
    DivIsQuotient(Abs(a), Abs(b));
  }

  /** Java's integer `%`: the remainder takes the sign of the dividend. */
  function Rem(a: int, b: int): int
    requires b != 0
  {
    a - b * Quot(a, b)
  }

  /** On a non-negative dividend Java's `%` agrees with Dafny's. */
  lemma RemOfNatural(a: int, m: int)
    requires a >= 0 && m > 0
    ensures Rem(a, m) == a % m
  {
    QuotOfNatural(a, m);
  }

  predicate IsDigit(c: char) { '0' <= c <= '9' }

  predicate AllDigits(s: string) { forall i :: 0 <= i < |s| ==> IsDigit(s[i]) }

  function DigitChar(d: nat): (c: char)
    requires d < 10
    ensures IsDigit(c)
  {
    ('0' as int + d) as char
  }

  function DigitValue(c: char): (d: nat)
    requires IsDigit(c)
    ensures d < 10 && DigitChar(d) == c
  {
    c as int - '0' as int
  }

  /** The decimal text of a non-negative number, as `"" + n` prints it. */
  function Decimal(n: nat): (s: string)
    ensures |s| >= 1 && AllDigits(s)
    ensures n >= 10 ==> s[0] != '0'
    decreases n
  {
    if n < 10 then [DigitChar(n)] else Decimal(n / 10) + [DigitChar(n % 10)]
  }

  /** `"" + x` for a signed `int` or `long`. */
  function JavaString(x: int): (s: string)
    ensures |s| >= 1
    ensures x < 0 <==> s[0] == '-'
  {
    if x < 0 then "-" + Decimal(-x) else Decimal(x)
  }

  /** The number a string of decimal digits denotes. */
  function Value(s: string): nat
    requires AllDigits(s)
  {
    if |s| == 0 then 0 else Value(s[..|s| - 1]) * 10 + DigitValue(s[|s| - 1])
  }

  /**
    `Long.parseLong(s)` in radix 10: an optional sign followed by at least one
    digit, and a value that fits in a `long`; anything else throws
    `NumberFormatException`, modelled as None.
   */
  function ParseLong(s: string): (r: Option<int>)
    ensures r.Some? ==> IsLong(r.value)
    ensures r.Some? ==> |s| >= 1 && AllDigits(if s[0] == '-' || s[0] == '+' then s[1..] else s)
    ensures r.Some? ==> (s[0] == '-' || s[0] == '+' ==> |s| >= 2)
    ensures |s| == 0 ==> r.None?
  {
    if |s| == 0 then None
    else
      var digits := if s[0] == '-' || s[0] == '+' then s[1..] else s;
      if |digits| == 0 || !AllDigits(digits) then None
      else
        var v: int := if s[0] == '-' then 0 - Value(digits) else Value(digits);
        if IsLong(v) then Some(v) else None
  }

  /** `s.indexOf(c)`: the first position of `c`, or -1 when there is none. */
  function IndexOf(s: string, c: char): (i: int)
    ensures -1 <= i < |s|
    ensures i == -1 <==> c !in s
    ensures 0 <= i ==> s[i] == c && c !in s[..i]
  {
    if |s| == 0 then -1
    else if s[0] == c then 0
    else
      var j := IndexOf(s[1..], c);
      assert s[1..][..if j < 0 then 0 else j] == s[1..if j < 0 then 1 else j + 1];
      if j == -1 then -1 else j + 1
  }

  /** Reading the decimal text of a number back gives the number. */
  lemma {:induction false} ValueOfDecimal(n: nat)
    ensures Value(Decimal(n)) == n
    decreases n
  {
    if n >= 10 {
      var s := Decimal(n);
      assert s[..|s| - 1] == Decimal(n / 10);
      ValueOfDecimal(n / 10);
    }
  }

  /** `Long.parseLong` inverts Java's printing of every `long`. */
  lemma ParseLongRoundTrip(x: int)
    requires IsLong(x)
    ensures ParseLong(JavaString(x)) == Some(x)
  {
    var s := JavaString(x);
    if x < 0 {
      assert s[1..] == Decimal(-x);
      ValueOfDecimal(-x);
    } else {
      assert s == Decimal(x);
      ValueOfDecimal(x);
    }
  }

  /** `indexOf` finds a separator that the text before it does not contain. */
  lemma IndexOfAfterPrefix(p: string, c: char, q: string)
    requires c !in p
    ensures IndexOf(p + [c] + q, c) == |p|
  {
    var s := p + [c] + q;
    var i := IndexOf(s, c);
    assert s[|p|] == c;
    assert s[..|p|] == p;
  }

  lemma DigitsHaveNoChar(s: string, c: char)
    requires AllDigits(s) && !IsDigit(c)
    ensures c !in s
  {
  }
}
