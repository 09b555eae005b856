/** Python's decimal text for integers and floats: `str`, `int`, `float` and the `.4f` format. */
module Numbers {
  import opened Text

  // ---- decimal digits -------------------------------------------------------------------------

  predicate IsDigit(c: char) { '0' <= c <= '9' }

  predicate AllDigits(s: string) { forall i :: 0 <= i < |s| ==> IsDigit(s[i]) }

  function DigitChar(d: nat): (c: char)
    requires d < 10
    ensures IsDigit(c)
  {
    ('0' as int + d) as char
  }

  function DigitOf(c: char): (d: nat)
    requires IsDigit(c)
    ensures d < 10 && DigitChar(d) == c
  {
    c as int - '0' as int
  }

  /** The decimal digits of `n`, without leading zeros. */
  function NatText(n: nat): (s: string)
    ensures s != "" && AllDigits(s)
    ensures n > 0 ==> s[0] != '0'
  {
    if n < 10 then [DigitChar(n)] else NatText(n / 10) + [DigitChar(n % 10)]
  }

  function NatOf(s: string): nat
    requires AllDigits(s)
  {
    if s == "" then 0 else 10 * NatOf(s[..|s| - 1]) + DigitOf(s[|s| - 1])
  }

  lemma {:induction false} NatOfText(n: nat)
    ensures NatOf(NatText(n)) == n
  {
    var s := NatText(n);
    if n < 10 {
      assert s[..|s| - 1] == "";
    } else {
      assert s[..|s| - 1] == NatText(n / 10);
      NatOfText(n / 10);
    }
  }

  function Pow10(k: nat): (p: nat)
    ensures p >= 1
  {
    if k == 0 then 1 else 10 * Pow10(k - 1)
  }

  function Zeros(k: nat): (s: string)
    ensures |s| == k && AllDigits(s)
    ensures forall i :: 0 <= i < k ==> s[i] == '0'
  {
    seq(k, i => '0')
  }

  lemma {:induction false} NatOfAppend(a: string, b: string)
    requires AllDigits(a) && AllDigits(b)
    ensures AllDigits(a + b)
    ensures NatOf(a + b) == NatOf(a) * Pow10(|b|) + NatOf(b)
    decreases |b|
  {
    if b == "" {
      assert a + b == a;
    } else {
      var b' := b[..|b| - 1];
      NatOfAppend(a, b');
      assert (a + b)[..|a + b| - 1] == a + b';
      var d := DigitOf(b[|b| - 1]);
      assert NatOf(a + b) == 10 * NatOf(a + b') + d && NatOf(b) == 10 * NatOf(b') + d;
      assert Pow10(|b|) == 10 * Pow10(|b'|);
      hide NatOf, Pow10;
      ShiftDigit(NatOf(a), Pow10(|b'|), NatOf(b'), d);
    }
  }

  lemma TimesTen(a: int, p: int)
    ensures 10 * (a * p) == a * (10 * p)
  {}

  lemma ShiftDigit(a: int, p: int, b: int, d: int)
    ensures 10 * (a * p + b) + d == a * (10 * p) + (10 * b + d)
  {}

  lemma {:induction false} NatOfZeros(k: nat)
    ensures NatOf(Zeros(k)) == 0
  {
    if k > 0 {
      assert Zeros(k)[..k - 1] == Zeros(k - 1);
      NatOfZeros(k - 1);
    }
  }

  /** Python's digit runs: `digit ("_"? digit)*`; the result drops the underscores. */
  function Ungrouped(s: string): (r: Option<string>)
    ensures r.Some? ==> r.value != "" && AllDigits(r.value)
    ensures r.Some? ==> forall i :: 0 <= i < |s| ==> IsDigit(s[i]) || s[i] == '_'
    decreases |s|
  {
    if s == "" || !IsDigit(s[0]) then None
    else if |s| == 1 then Some(s)
    else
      var t := if s[1] == '_' then s[2..] else s[1..];
      match Ungrouped(t)
      case None => None
      case Some(d) =>
        assert forall i :: 1 <= i < |s| && s[1] == '_' && i >= 2 ==> s[i] == t[i - 2];
        assert forall i :: 1 <= i < |s| && s[1] != '_' ==> s[i] == t[i - 1];
        Some([s[0]] + d)
  }

  lemma {:induction false} UngroupedDigits(s: string)
    requires s != "" && AllDigits(s)
    ensures Ungrouped(s) == Some(s)
  {
    if |s| > 1 {
      UngroupedDigits(s[1..]);
      assert s == [s[0]] + s[1..];
    }
  }

  /** An optional sign: is it a minus, and what follows. */
  function Signed(s: string): (bool, string) {
    if s != "" && s[0] == '-' then (true, s[1..])
    else if s != "" && s[0] == '+' then (false, s[1..])
    else (false, s)
  }

  function WithSign(neg: bool, n: int): int { if neg then -n else n }

  // ---- integers -------------------------------------------------------------------------------

  /** Python's `str(n)`. */
  function IntText(n: int): (s: string)
    ensures s != ""
  {
    if n < 0 then "-" + NatText(-n) else NatText(n)
  }

  /** Python's `int(s)` in base 10; `None` is its `ValueError`. */
  function ParseInt(s: string): Option<int> {
    var (neg, u) := Signed(Strip(s));
    match Ungrouped(u)
    case None => None
    case Some(d) => Some(WithSign(neg, NatOf(d)))
  }

  /** Digits, possibly signed, are read the same with the surrounding trimming and sign handling. */
  lemma SignedDigits(neg: bool, d: string, t: string)
    requires d != "" && AllDigits(d)
    requires t == (if neg then "-" else "") + d
    ensures Strip(t) == t && Signed(t) == (neg, d)
  {
    hide Strip;
    assert !IsSpace(d[0]) && !IsSpace(d[|d| - 1]);
    assert t[|t| - 1] == d[|d| - 1];
    StripIdentity(t);
    if neg { assert t[1..] == d; } else { assert t == d; }
  }

  lemma IntRoundTrip(n: int)
    ensures ParseInt(IntText(n)) == Some(n)
  {
    var m: nat := if n < 0 then -n else n;
    SignedDigits(n < 0, NatText(m), IntText(n));
    NatOfText(m);
    UngroupedDigits(NatText(m));
  }

  /** The characters an integer text may contain. */
  predicate IntChar(c: char) { IsDigit(c) || c in "_+-" || IsSpace(c) }

  lemma ParseIntChars(s: string)
    requires ParseInt(s).Some?
    ensures forall i :: 0 <= i < |s| ==> IntChar(s[i])
  {
    hide NatOf;
    StripChars(s);
    hide Strip;
    var r := Strip(s);
    var u := Signed(r).1;
    assert r == u || r == [r[0]] + u;
    assert forall i :: 0 <= i < |u| ==> IsDigit(u[i]) || u[i] == '_';
    assert forall c :: c in s ==> IsSpace(c) || c in r;
    assert forall c :: c in r ==> IntChar(c);
  }

  lemma StripChars(s: string)
    ensures forall c :: c in s ==> IsSpace(c) || c in Strip(s)
  {
    LStripSpaces(s);
    var t := LStrip(s);
    forall c | c in s ensures IsSpace(c) || c in RStrip(t) {
      var i :| 0 <= i < |s| && s[i] == c;
      var o := |s| - |t|;
      if i >= o {
        assert t[i - o] == c;
        if i - o < |RStrip(t)| { assert RStrip(t)[i - o] == c; }
      }
    }
  }

  lemma {:induction false} LStripSpaces(s: string)
    ensures forall i :: 0 <= i < |s| - |LStrip(s)| ==> IsSpace(s[i])
  {
    if s != "" && IsSpace(s[0]) { LStripSpaces(s[1..]); }
  }

  // ---- floats ---------------------------------------------------------------------------------

  /** A Python float, identified with its shortest decimal `m * 10^e`; the sign of zero is kept. */
  datatype Float = Finite(neg: bool, m: nat, e: int) | Infinite(neg: bool) | NaN
  {
    /** Exactly one `Finite` stands for each sign and magnitude. */
    predicate Canonical() {
      Finite? ==> if m == 0 then e == 0 else m % 10 != 0
    }
  }

  /** The one decimal without trailing zeros that denotes `m * 10^e`. */
  function Normal(neg: bool, m: nat, e: int): (f: Float)
    ensures f.Finite? && f.Canonical() && f.neg == neg
    decreases m
  {
    if m == 0 then Finite(neg, 0, 0)
    else if m % 10 == 0 then Normal(neg, m / 10, e + 1)
    else Finite(neg, m, e)
  }

  lemma NormalStep(neg: bool, p: nat, e: int)
    ensures Normal(neg, 10 * p, e) == Normal(neg, p, e + 1)
  {}

  lemma {:induction false} NormalScale(neg: bool, m: nat, e: int, k: nat)
    ensures Normal(neg, m * Pow10(k), e - k) == Normal(neg, m, e)
  {
    hide Normal;
    if k > 0 {
      NormalScale(neg, m, e, k - 1);
      TimesTen(m, Pow10(k - 1));
      NormalStep(neg, m * Pow10(k - 1), e - k);
    }
  }

  /** The magnitude of a finite float, exactly. */
  function Scaled(m: nat, e: int): real {
    if e >= 0 then (m * Pow10(e)) as real else m as real / Pow10(-e) as real
  }

  function ValueOf(f: Float): real
    requires f.Finite?
  {
    if f.neg then -Scaled(f.m, f.e) else Scaled(f.m, f.e)
  }

  lemma {:induction false} NormalValue(neg: bool, m: nat, e: int)
    ensures ValueOf(Normal(neg, m, e)) == (if neg then -Scaled(m, e) else Scaled(m, e))
    decreases m
  {
    if m == 0 {
      ScaledZero(e);
    } else if m % 10 == 0 {
      hide Scaled;
      NormalValue(neg, m / 10, e + 1);
      ScaledStep(m / 10, e);
    }
  }

  lemma ScaledZero(e: int)
    ensures Scaled(0, e) == 0.0
  {
    if e < 0 { assert 0.0 / Pow10(-e) as real == 0.0; }
  }

  lemma ScaledStep(q: nat, e: int)
    ensures Scaled(10 * q, e) == Scaled(q, e + 1)
  {
    if e >= 0 { TimesTen(q, Pow10(e)); } else { ScaleDown(q, -e - 1); }
  }

  lemma ScaleDown(q: nat, k: nat)
    ensures (10 * q) as real / Pow10(k + 1) as real == q as real / Pow10(k) as real
  {
    var p := Pow10(k) as real;
    assert Pow10(k + 1) as real == 10.0 * p;
    assert (10 * q) as real == 10.0 * q as real;
    var x := q as real / p;
    assert x * p == q as real;
    assert x * (10.0 * p) == 10.0 * q as real;
  }

  function AsciiLower(s: string): (r: string)
    ensures |r| == |s|
    ensures forall i :: 0 <= i < |s| ==> r[i] == LowerChar(s[i])
  {
    seq(|s|, i requires 0 <= i < |s| => LowerChar(s[i]))
  }

  function LowerChar(c: char): char {
    if 'A' <= c <= 'Z' then (c as int + 32) as char else c
  }

  /** Digits on one side of the point; they may be missing. */
  function Side(s: string): (r: Option<string>)
    ensures r.Some? ==> AllDigits(r.value)
  {
    if s == "" then Some("") else Ungrouped(s)
  }

  /** `digits [. digits]` scaled by `10^e`. */
  function ParseMantissa(neg: bool, s: string, e: int): Option<Float> {
    var (a, b) := match Find(".", s) case None => (s, "") case Some(i) => (s[..i], s[i + 1..]);
    match (Side(a), Side(b))
    case (Some(x), Some(y)) =>
      if x == "" && y == "" then None
      else (assert AllDigits(x + y); Some(Normal(neg, NatOf(x + y), e - |y|)))
    case _ => None
  }

  function ExponentMark(s: string): (r: Option<nat>)
    ensures r.Some? ==> r.value < |s|
  {
    FindFrom("e", AsciiLower(s), 0)
  }

  function ParseExponent(s: string): Option<int> {
    var (neg, u) := Signed(s);
    match Ungrouped(u)
    case None => None
    case Some(d) => Some(WithSign(neg, NatOf(d)))
  }

  /** Python's `float(s)` without binary rounding; `None` is its `ValueError`. */
  function ParseFloat(s: string): (r: Option<Float>)
    ensures r.Some? ==> r.value.Canonical()
  {
    var (neg, u) := Signed(Strip(s));
    var w := AsciiLower(u);
    if w == "inf" || w == "infinity" then Some(Infinite(neg))
    else if w == "nan" then Some(NaN)
    else ParseNumeral(neg, u)
  }

  function ParseNumeral(neg: bool, u: string): (r: Option<Float>)
    ensures r.Some? ==> r.value.Canonical()
  {
    match ExponentMark(u)
    case None => ParseMantissa(neg, u, 0)
    case Some(i) =>
      match ParseExponent(u[i + 1..])
      case None => None
      case Some(e) => ParseMantissa(neg, u[..i], e)
  }

  /** Python's `str` of a float: fixed notation for decimal exponents in (-4, 16], else scientific. */
  function FloatText(f: Float): string {
    match f
    case NaN => "nan"
    case Infinite(neg) => if neg then "-inf" else "inf"
    case Finite(neg, m, e) => (if neg then "-" else "") + MagnitudeText(NatText(m), e)
  }

  function MagnitudeText(ds: string, e: int): (s: string)
    requires ds != "" && AllDigits(ds)
    ensures s != "" && IsDigit(s[0])
  {
    var point := |ds| + e;
    if -4 < point <= 16 then
      if point <= 0 then "0." + Zeros(-point) + ds
      else if e >= 0 then ds + Zeros(e) + ".0"
      else ds[..point] + "." + ds[point..]
    else
      ScientificText(ds, point - 1)
  }

  /** `d[.ddd]e±XX`, with at least two exponent digits. */
  function ScientificText(ds: string, x: int): (s: string)
    requires ds != "" && AllDigits(ds)
    ensures s != "" && IsDigit(s[0])
  {
    var digits := NatText(if x < 0 then -x else x);
    ds[..1] + (if |ds| > 1 then "." + ds[1..] else "")
    + "e" + (if x < 0 then "-" else "+") + (if |digits| < 2 then "0" else "") + digits
  }
}
