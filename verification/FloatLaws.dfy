/** Float text read back: `float(str(x)) == x`, and what the `.4f` form keeps. */
module FloatLaws {
  import opened Text
  import opened Numbers

  predicate NoMark(s: string) { forall i :: 0 <= i < |s| ==> LowerChar(s[i]) != 'e' }

  lemma FindChar(a: string, c: char, b: string)
    requires c !in a
    ensures Find([c], a + [c] + b) == Some(|a|)
    ensures Find([c], a) == None
  {
    var s := a + [c] + b;
    assert s[|a|..|a| + 1] == [c];
    assert OccursAt([c], s, |a|);
    forall k | 0 <= k < |a| ensures !OccursAt([c], s, k) && !OccursAt([c], a, k) {
      assert s[k..k + 1][0] == a[k..k + 1][0] == a[k];
    }
  }

  lemma FindMark(a: string, b: string)
    requires NoMark(a)
    ensures ExponentMark(a + "e" + b) == Some(|a|)
    ensures ExponentMark(a) == None
  {
    var s := a + "e" + b;
    var l := AsciiLower(a);
    forall i | 0 <= i < |a| ensures l[i] != 'e' { assert l[i] == LowerChar(a[i]); }
    FindChar(l, 'e', AsciiLower(b));
    assert AsciiLower(s) == l + ['e'] + AsciiLower(b);
    assert ExponentMark(s) == Find(['e'], AsciiLower(s));
  }

  /** `x`, or `x.y`: the digits of one mantissa. */
  function MantissaText(x: string, y: string, dot: bool): string {
    if dot then x + "." + y else x
  }

  lemma MantissaRead(neg: bool, x: string, y: string, dot: bool, e: int)
    requires x != "" && AllDigits(x) && AllDigits(y) && (!dot ==> y == "")
    ensures ParseMantissa(neg, MantissaText(x, y, dot), e) == Some(Normal(neg, NatOf(x + y), e - |y|))
  {
    hide Find, FindFrom, Ungrouped, NatOf, Normal;
    var s := MantissaText(x, y, dot);
    UngroupedDigits(x);
    if y != "" { UngroupedDigits(y); }
    FindChar(x, '.', y);
    if dot {
      assert s == x + ['.'] + y;
      assert s[..|x|] == x && s[|x| + 1..] == y;
    } else {
      assert x + y == x;
    }
  }

  /** A signed text that starts with a digit and ends in a digit is not trimmed and is no word. */
  lemma NumeralFrame(neg: bool, u: string, s: string)
    requires u != "" && IsDigit(u[0]) && !IsSpace(u[|u| - 1])
    requires s == (if neg then "-" else "") + u
    ensures ParseFloat(s) == ParseNumeral(neg, u)
  {
    hide Strip, AsciiLower, ParseNumeral;
    assert Strip(s) == s by { assert s[|s| - 1] == u[|u| - 1]; StripIdentity(s); }
    if neg { assert s[1..] == u; } else { assert s == u; }
    var w := AsciiLower(u);
    assert w[0] == LowerChar(u[0]) == u[0];
    assert "inf"[0] == 'i' && "infinity"[0] == 'i' && "nan"[0] == 'n';
    assert w != "inf" && w != "infinity" && w != "nan";
    assert Signed(s).0 == neg && Signed(s).1 == u;
  }

  lemma PlainRead(neg: bool, x: string, y: string, dot: bool)
    requires x != "" && AllDigits(x) && AllDigits(y) && (!dot ==> y == "") && (dot ==> y != "")
    ensures ParseFloat((if neg then "-" else "") + MantissaText(x, y, dot)) == Some(Normal(neg, NatOf(x + y), -|y|))
  {
    hide ParseFloat, ParseMantissa, ExponentMark, NatOf, Normal;
    var u := MantissaText(x, y, dot);
    assert u[|u| - 1] == if dot then y[|y| - 1] else x[|x| - 1];
    NumeralFrame(neg, u, (if neg then "-" else "") + u);
    FindMark(u, "");
    MantissaRead(neg, x, y, dot, 0);
  }

  lemma ScientificRead(neg: bool, x: string, y: string, dot: bool, minus: bool, z: string)
    requires x != "" && AllDigits(x) && AllDigits(y) && (!dot ==> y == "")
    requires z != "" && AllDigits(z)
    ensures ParseFloat((if neg then "-" else "") + MantissaText(x, y, dot) + "e" + (if minus then "-" else "+") + z)
         == Some(Normal(neg, NatOf(x + y), WithSign(minus, NatOf(z)) - |y|))
  {
    hide ParseFloat, ParseMantissa, ExponentMark, NatOf, Normal, Ungrouped, MantissaText;
    var a := MantissaText(x, y, dot);
    assert a[0] == x[0] by { MantissaStarts(x, y, dot); }
    var sg, em := if neg then "-" else "", if minus then "-" else "+";
    var b := em + z;
    var u := a + "e" + b;
    assert u[|u| - 1] == z[|z| - 1];
    assert sg + a + "e" + em + z == sg + u;
    NumeralFrame(neg, u, sg + u);
    assert NoMark(a) by { MantissaStarts(x, y, dot); }
    FindMark(a, b);
    assert u[..|a|] == a && u[|a| + 1..] == b;
    assert b[1..] == z;
    UngroupedDigits(z);
    MantissaRead(neg, x, y, dot, WithSign(minus, NatOf(z)));
  }

  lemma MantissaStarts(x: string, y: string, dot: bool)
    requires x != "" && AllDigits(x) && AllDigits(y)
    ensures MantissaText(x, y, dot) != "" && MantissaText(x, y, dot)[0] == x[0] && NoMark(MantissaText(x, y, dot))
  {}

  /** Padding the front of a digit run with zeros does not change its value. */
  lemma LeadingZeros(k: nat, ds: string)
    requires AllDigits(ds)
    ensures AllDigits(Zeros(k) + ds) && NatOf(Zeros(k) + ds) == NatOf(ds)
  {
    NatOfAppend(Zeros(k), ds);
    NatOfZeros(k);
  }

  lemma TrailingZeros(ds: string, k: nat)
    requires AllDigits(ds)
    ensures AllDigits(ds + Zeros(k)) && NatOf(ds + Zeros(k)) == NatOf(ds) * Pow10(k)
  {
    NatOfAppend(ds, Zeros(k));
    NatOfZeros(k);
  }

  lemma CanonicalNormal(f: Float)
    requires f.Finite? && f.Canonical()
    ensures Normal(f.neg, f.m, f.e) == f
  {}

  lemma FixedSmall(neg: bool, m: nat, e: int)
    requires -4 < |NatText(m)| + e <= 0
    ensures ParseFloat((if neg then "-" else "") + MagnitudeText(NatText(m), e)) == Some(Normal(neg, m, e))
  {
    hide ParseFloat, NatOf, NatText, Normal, ParseMantissa;
    var ds := NatText(m);
    NatOfText(m);
    var z := Zeros(-(|ds| + e));
    var y := z + ds;
    LeadingZeros(-(|ds| + e), ds);
    LeadingZeros(1, y);
    assert Zeros(1) == "0";
    assert MagnitudeText(ds, e) == MantissaText("0", y, true) by {
      assert "0." + z + ds == "0." + y && "0." == "0" + ".";
    }
    hide MagnitudeText, MantissaText, Zeros;
    PlainRead(neg, "0", y, true);
  }

  lemma FixedLarge(neg: bool, m: nat, e: nat)
    requires |NatText(m)| + e <= 16
    ensures ParseFloat((if neg then "-" else "") + MagnitudeText(NatText(m), e)) == Some(Normal(neg, m, e))
  {
    hide ParseFloat, NatOf, NatText, Normal;
    var ds := NatText(m);
    NatOfText(m);
    var x := ds + Zeros(e);
    assert MagnitudeText(ds, e) == MantissaText(x, "0", true);
    PlainRead(neg, x, "0", true);
    assert Zeros(e) + "0" == Zeros(e + 1);
    assert x + "0" == ds + Zeros(e + 1);
    TrailingZeros(ds, e + 1);
    NormalScale(neg, m, e, e + 1);
  }

  lemma FixedMiddle(neg: bool, m: nat, e: int)
    requires e < 0 < |NatText(m)| + e <= 16
    ensures ParseFloat((if neg then "-" else "") + MagnitudeText(NatText(m), e)) == Some(Normal(neg, m, e))
  {
    hide ParseFloat, NatOf, NatText, Normal;
    var ds := NatText(m);
    NatOfText(m);
    var p := |ds| + e;
    assert MagnitudeText(ds, e) == MantissaText(ds[..p], ds[p..], true);
    PlainRead(neg, ds[..p], ds[p..], true);
    assert ds[..p] + ds[p..] == ds;
  }

  /** The exponent digits, padded to two. */
  function ExponentDigits(k: nat): (z: string)
    ensures z != ""
  {
    (if |NatText(k)| < 2 then "0" else "") + NatText(k)
  }

  lemma ExponentDigitsRead(k: nat)
    ensures AllDigits(ExponentDigits(k)) && NatOf(ExponentDigits(k)) == k
  {
    NatOfText(k);
    LeadingZeros(1, NatText(k));
    assert Zeros(1) == "0";
    assert "" + NatText(k) == NatText(k);
  }

  lemma ScientificShape(s: string, ds: string, x: int)
    requires ds != "" && AllDigits(ds)
    ensures s + ScientificText(ds, x)
         == s + MantissaText(ds[..1], ds[1..], |ds| > 1) + "e" + (if x < 0 then "-" else "+")
            + ExponentDigits(if x < 0 then -x else x)
  {
    hide NatText;
    var k: nat := if x < 0 then -x else x;
    var a := MantissaText(ds[..1], ds[1..], |ds| > 1);
    var sg := if x < 0 then "-" else "+";
    var pad := if |NatText(k)| < 2 then "0" else "";
    assert a == ds[..1] + (if |ds| > 1 then "." + ds[1..] else "");
    assert ScientificText(ds, x) == a + "e" + sg + pad + NatText(k) == a + "e" + sg + ExponentDigits(k);
    assert s + (a + "e" + sg + ExponentDigits(k)) == s + a + "e" + sg + ExponentDigits(k);
  }

  lemma Scientific(neg: bool, m: nat, e: int)
    requires !(-4 < |NatText(m)| + e <= 16)
    ensures ParseFloat((if neg then "-" else "") + MagnitudeText(NatText(m), e)) == Some(Normal(neg, m, e))
  {
    hide ParseFloat, NatOf, NatText, Normal, ScientificText, MantissaText, ExponentDigits;
    var ds := NatText(m);
    NatOfText(m);
    var x := |ds| + e - 1;
    var k: nat := if x < 0 then -x else x;
    ExponentDigitsRead(k);
    ScientificShape(if neg then "-" else "", ds, x);
    ScientificRead(neg, ds[..1], ds[1..], |ds| > 1, x < 0, ExponentDigits(k));
    assert ds[..1] + ds[1..] == ds;
  }

  /** Python's `float(str(x)) == x`. */
  lemma FloatRoundTrip(f: Float)
    requires f.Canonical()
    ensures ParseFloat(FloatText(f)) == Some(f)
  {
    hide ParseFloat, NatText, Normal, MagnitudeText;
    match f
    case NaN => WordRead(false, "nan"); assert "" + "nan" == "nan";
    case Infinite(neg) => WordRead(neg, "inf"); assert "-" + "inf" == "-inf" && "" + "inf" == "inf";
    case Finite(neg, m, e) =>
      var p := |NatText(m)| + e;
      if !(-4 < p <= 16) { Scientific(neg, m, e); }
      else if p <= 0 { FixedSmall(neg, m, e); }
      else if e >= 0 { FixedLarge(neg, m, e); }
      else { FixedMiddle(neg, m, e); }
      CanonicalNormal(f);
  }

  lemma WordRead(neg: bool, w: string)
    requires w == "inf" || w == "nan"
    ensures ParseFloat((if neg then "-" else "") + w) == Some(if w == "nan" then NaN else Infinite(neg))
  {
    hide Strip, ParseNumeral;
    var s := (if neg then "-" else "") + w;
    assert s[|s| - 1] == w[2];
    StripIdentity(s);
    if neg { assert s[1..] == w; } else { assert s == w; }
    assert AsciiLower(w) == w;
  }

  /** The text of a float is never an integer text. */
  lemma FloatTextIsNoInt(f: Float)
    ensures ParseInt(FloatText(f)) == None
    ensures FloatText(f) != "true" && FloatText(f) != "false"
  {
    hide ParseInt, NatText, MagnitudeText;
    var t := FloatText(f);
    if ParseInt(t).Some? { ParseIntChars(t); }
    match f
    case NaN => assert t[0] == 'n';
    case Infinite(neg) => assert t[|t| - 2] == 'n';
    case Finite(neg, m, e) =>
      var u := MagnitudeText(NatText(m), e);
      assert t[|t| - |u|] == u[0];
      var i := PointOrMark(NatText(m), e);
      assert t[|t| - |u| + i] == u[i];
  }

  lemma PointOrMark(ds: string, e: int) returns (i: nat)
    requires ds != "" && AllDigits(ds)
    ensures i < |MagnitudeText(ds, e)|
    ensures MagnitudeText(ds, e)[i] == '.' || MagnitudeText(ds, e)[i] == 'e'
  {
    hide NatText;
    var point := |ds| + e;
    if -4 < point <= 16 {
      i := if point <= 0 then 1 else point;
    } else {
      i := if |ds| > 1 then 1 + |ds| else 1;
    }
  }
}
