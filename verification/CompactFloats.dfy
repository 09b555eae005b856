/** The four-decimal form in which confidence and quality delta travel, and what it keeps of a float. */
module CompactFloats {
  import opened Text
  import opened Numbers
  import opened FloatLaws

  /** `m * 10^e` in ten-thousandths, rounded half to even. */
  function TenThousandths(m: nat, e: int): nat {
    if e >= -4 then m * Pow10(e + 4) else RoundHalfEven(m, Pow10(-4 - e))
  }

  function RoundHalfEven(m: nat, p: nat): (n: nat)
    requires p >= 1
    ensures -(p as int) <= 2 * (n * p - m) <= p
  {
    var q, r := m / p, m % p;
    assert m == q * p + r;
    assert (q + 1) * p == q * p + p;
    if 2 * r < p || (2 * r == p && q % 2 == 0) then q else q + 1
  }

  /** `k` as exactly four digits. */
  function FourDigits(k: nat): (s: string)
    requires k < 10000
    ensures |s| == 4 && AllDigits(s)
  {
    [DigitChar(k / 1000), DigitChar(k / 100 % 10), DigitChar(k / 10 % 10), DigitChar(k % 10)]
  }

  function Sign(neg: bool): string { if neg then "-" else "" }

  /** `f"{value:.4f}"` */
  function FixedText(f: Float): string {
    match f
    case NaN => "nan"
    case Infinite(neg) => Sign(neg) + "inf"
    case Finite(neg, m, e) =>
      var n := TenThousandths(m, e);
      Sign(neg) + NatText(n / 10000) + "." + FourDigits(n % 10000)
  }

  /** `_compact_float`: the `.4f` text without trailing zeros and without a trailing point. */
  function CompactFloat(f: Float): string {
    var text := RStripChar(RStripChar(FixedText(f), '0'), '.');
    if text == "" then "0" else text
  }

  /** The float that the compact text denotes. */
  function Quantised(f: Float): (q: Float)
    ensures q.Canonical()
  {
    match f
    case Finite(neg, m, e) => Normal(neg, TenThousandths(m, e), -4)
    case _ => f
  }

  // ---- the shape of the text ------------------------------------------------------------------

  lemma {:induction false} RStripCharAppend(a: string, b: string, c: char)
    ensures RStripChar(a + b, c) == if RStripChar(b, c) == "" then RStripChar(a, c) else a + RStripChar(b, c)
    decreases |b|
  {
    if b == "" {
      assert a + b == a;
    } else {
      assert (a + b)[|a + b| - 1] == b[|b| - 1];
      if b[|b| - 1] == c {
        assert (a + b)[..|a + b| - 1] == a + b[..|b| - 1];
        RStripCharAppend(a, b[..|b| - 1], c);
      }
    }
  }

  lemma NothingStripped(a: string, c: char)
    requires a != "" && a[|a| - 1] != c
    ensures RStripChar(a, c) == a
  {}

  lemma {:induction false} StrippedZeros(s: string)
    requires AllDigits(s)
    ensures AllDigits(RStripChar(s, '0'))
    ensures NatOf(s) == NatOf(RStripChar(s, '0')) * Pow10(|s| - |RStripChar(s, '0')|)
  {
    if s != "" && s[|s| - 1] == '0' {
      var t := s[..|s| - 1];
      var r := RStripChar(t, '0');
      StrippedZeros(t);
      assert RStripChar(s, '0') == r;
      TimesTen(NatOf(r), Pow10(|t| - |r|));
    } else {
      assert RStripChar(s, '0') == s;
    }
  }

  lemma FourDigitsValue(k: nat)
    requires k < 10000
    ensures NatOf(FourDigits(k)) == k
  {
    var s := FourDigits(k);
    assert s[..3][..2] == s[..2] && s[..2][..1] == s[..1] && s[..1][..0] == "";
    assert NatOf(s[..1]) == k / 1000;
    assert NatOf(s[..2]) == k / 100;
    assert NatOf(s[..3]) == k / 10;
  }

  /** The fraction digits that survive the stripping. */
  function Fraction(f: Float): (y: string)
    requires f.Finite?
    ensures AllDigits(y)
  {
    StrippedZeros(FourDigits(TenThousandths(f.m, f.e) % 10000));
    RStripChar(FourDigits(TenThousandths(f.m, f.e) % 10000), '0')
  }

  /** Zero-stripping never reaches the integer digits, which are printed in full. */
  lemma CompactShape(f: Float)
    requires f.Finite?
    ensures var n := TenThousandths(f.m, f.e);
            CompactFloat(f) == Sign(f.neg) + MantissaText(NatText(n / 10000), Fraction(f), Fraction(f) != "")
  {
    hide TenThousandths, NatText, FourDigits, RStripChar;
    var n := TenThousandths(f.m, f.e);
    var x, z, y := NatText(n / 10000), FourDigits(n % 10000), Fraction(f);
    var a := Sign(f.neg) + x;
    assert a[|a| - 1] == x[|x| - 1];
    assert FixedText(f) == (a + ".") + z;
    RStripCharAppend(a + ".", z, '0');
    if y == "" {
      NothingStripped(a + ".", '0');
      RStripCharAppend(a, ".", '.');
      NothingStripped(a, '.');
    } else {
      assert IsDigit(y[|y| - 1]);
      NothingStripped(a + "." + y, '.');
      assert a + "." + y == Sign(f.neg) + (x + "." + y);
    }
  }

  lemma CompactWords(f: Float)
    requires !f.Finite?
    ensures CompactFloat(f) == FixedText(f) == FloatText(f)
  {
    var t := FixedText(f);
    assert t[|t| - 1] == 'n' || t[|t| - 1] == 'f';
    NothingStripped(t, '0');
    NothingStripped(t, '.');
  }

  // ---- reading it back --------------------------------------------------------------------------

  /** Decoding the compact text gives exactly the quantised float. */
  lemma CompactRead(f: Float)
    ensures ParseFloat(CompactFloat(f)) == Some(Quantised(f))
  {
    hide ParseFloat, TenThousandths, NatText, Normal;
    if !f.Finite? {
      CompactWords(f);
      FloatRoundTrip(f);
    } else {
      var n := TenThousandths(f.m, f.e);
      var x, z, y := NatText(n / 10000), FourDigits(n % 10000), Fraction(f);
      CompactShape(f);
      PlainRead(f.neg, x, y, y != "");
      var k := 4 - |y|;
      assert NatOf(x + y) * Pow10(k) == n by { FractionValue(n, x, y, k); }
      NormalScale(f.neg, NatOf(x + y), -|y|, k);
    }
  }

  lemma FractionValue(n: nat, x: string, y: string, k: nat)
    requires x == NatText(n / 10000)
    requires AllDigits(y) && |y| + k == 4 && y == RStripChar(FourDigits(n % 10000), '0')
    ensures AllDigits(x + y) && NatOf(x + y) * Pow10(k) == n
  {
    hide NatText, FourDigits, RStripChar, NatOf, Pow10;
    NatOfText(n / 10000);
    NatOfAppend(x, y);
    StrippedZeros(FourDigits(n % 10000));
    FourDigitsValue(n % 10000);
    Pow10Sum(|y|, k);
    Pow10Four();
    Regroup(n / 10000, Pow10(|y|), Pow10(k), NatOf(y));
  }

  lemma Pow10Four()
    ensures Pow10(4) == 10000
  {
    assert Pow10(2) == 100;
  }

  lemma Regroup(q: int, a: int, b: int, r: int)
    ensures (q * a + r) * b == q * (a * b) + r * b
  {}

  lemma {:induction false} Pow10Sum(a: nat, b: nat)
    ensures Pow10(a) * Pow10(b) == Pow10(a + b)
  {
    if a > 0 { Pow10Sum(a - 1, b); TimesTen(Pow10(b), Pow10(a - 1)); }
  }

  /** Printing the decoded value again gives the same text. */
  lemma CompactAgain(f: Float)
    ensures CompactFloat(Quantised(f)) == CompactFloat(f)
  {
    hide NatText, FourDigits, RStripChar;
    if f.Finite? {
      NormalTenThousandths(f.neg, TenThousandths(f.m, f.e), -4);
    }
  }

  lemma {:induction false} NormalTenThousandths(neg: bool, m: nat, e: int)
    requires e >= -4
    ensures Normal(neg, m, e).e >= -4
    ensures Normal(neg, m, e).m * Pow10(Normal(neg, m, e).e + 4) == m * Pow10(e + 4)
    decreases m
  {
    if m != 0 && m % 10 == 0 {
      var q := m / 10;
      assert m == 10 * q && Pow10(e + 5) == 10 * Pow10(e + 4);
      hide Normal, Pow10;
      NormalTenThousandths(neg, q, e + 1);
      NormalStep(neg, q, e);
      TimesTen(q, Pow10(e + 4));
      Associate(q, Pow10(e + 4));
    }
  }

  lemma Associate(a: int, p: int)
    ensures (10 * a) * p == 10 * (a * p)
  {}

  /** A float survives the compact form exactly when it has at most four decimals. */
  lemma QuantisedExact(f: Float)
    requires f.Canonical()
    ensures Quantised(f) == f <==> (f.Finite? ==> f.e >= -4)
  {
    if f.Finite? {
      NormalExponent(f.neg, TenThousandths(f.m, f.e), -4);
      if f.e >= -4 {
        NormalScale(f.neg, f.m, f.e, f.e + 4);
        CanonicalNormal(f);
      }
    }
  }

  lemma {:induction false} NormalExponent(neg: bool, m: nat, e: int)
    ensures Normal(neg, m, e).e >= e || m == 0
    decreases m
  {
    if m != 0 && m % 10 == 0 { NormalExponent(neg, m / 10, e + 1); }
  }

  // ---- what is lost -------------------------------------------------------------------------------

  lemma RoundError(m: nat, e: int)
    ensures -1.0 / 20000.0 <= Scaled(TenThousandths(m, e), -4) - Scaled(m, e) <= 1.0 / 20000.0
  {
    var n := TenThousandths(m, e);
    Pow10Four();
    if e >= 0 {
      Pow10Sum(e, 4);
      assert n == m * Pow10(e) * 10000;
    } else if e >= -4 {
      Pow10Sum(-e, e + 4);
      assert Pow10(-e) * Pow10(e + 4) == 10000;
      Quotient(m, Pow10(e + 4), Pow10(-e));
    } else {
      Pow10Sum(-4 - e, 4);
      Rounded(m, n, Pow10(-4 - e));
    }
  }

  lemma Quotient(m: nat, a: nat, b: nat)
    requires a >= 1 && b >= 1 && a * b == 10000
    ensures (m * a) as real / 10000.0 == m as real / b as real
  {
    var x := m as real / b as real;
    assert x * b as real == m as real;
    assert (m * a) as real == x * b as real * a as real == x * (b as real * a as real);
    assert b as real * a as real == (a * b) as real == 10000.0;
  }

  lemma Rounded(m: nat, n: nat, p: nat)
    requires p >= 1 && -(p as int) <= 2 * (n * p - m) <= p
    ensures -1.0 / 20000.0 <= n as real / 10000.0 - m as real / (p * 10000) as real <= 1.0 / 20000.0
  {
    var np := n * p;
    assert np as real == n as real * p as real;
    assert np as real - m as real == (np - m) as real;
    assert (p * 10000) as real == p as real * 10000.0;
    RoundedReal(m as real, n as real, p as real);
  }

  lemma RoundedReal(m: real, n: real, r: real)
    requires r > 0.0 && -r <= 2.0 * (n * r - m) <= r
    ensures r * 10000.0 != 0.0
    ensures -1.0 / 20000.0 <= n / 10000.0 - m / (r * 10000.0) <= 1.0 / 20000.0
  {
    var x := m / (r * 10000.0);
    TimesDivisor(m, r * 10000.0);
    var y := n - x * 10000.0;
    assert x * (r * 10000.0) == x * 10000.0 * r;
    assert y * r == n * r - m;
    HalfBound(y, r);
  }

  lemma TimesDivisor(a: real, b: real)
    requires b != 0.0
    ensures a / b * b == a
  {}

  lemma HalfBound(y: real, r: real)
    requires r > 0.0 && -r <= 2.0 * (y * r) <= r
    ensures -0.5 <= y <= 0.5
  {
    assert (2.0 * y - 1.0) * r <= 0.0 <= (2.0 * y + 1.0) * r;
  }

  /** Four-decimal printing loses at most 1/20000. */
  lemma CompactError(f: Float)
    requires f.Finite?
    ensures Quantised(f).Finite?
    ensures -1.0 / 20000.0 <= ValueOf(Quantised(f)) - ValueOf(f) <= 1.0 / 20000.0
  {
    hide TenThousandths, Scaled;
    RoundError(f.m, f.e);
    NormalValue(f.neg, TenThousandths(f.m, f.e), -4);
  }

  /** The range pydantic enforces on a confidence. */
  predicate InUnitInterval(f: Float) {
    f.Finite? && 0.0 <= ValueOf(f) <= 1.0
  }

  /** A confidence in [0, 1] is still in [0, 1] after the codec. */
  lemma UnitIntervalKept(f: Float)
    requires InUnitInterval(f)
    ensures InUnitInterval(Quantised(f))
  {
    hide TenThousandths;
    var n := TenThousandths(f.m, f.e);
    NormalValue(f.neg, n, -4);
    Pow10Four();
    RoundError(f.m, f.e);
    assert Scaled(f.m, f.e) >= 0.0 by { ScaledNonNegative(f.m, f.e); }
    assert Scaled(n, -4) == n as real / 10000.0;
    if f.neg {
      assert Scaled(f.m, f.e) == 0.0;
      assert n as real <= 0.5;
    } else {
      assert n as real <= 10000.5;
    }
  }

  lemma ScaledNonNegative(m: nat, e: int)
    ensures Scaled(m, e) >= 0.0
  {
    if e < 0 {
      var x := m as real / Pow10(-e) as real;
      assert x * Pow10(-e) as real == m as real;
    }
  }
}
