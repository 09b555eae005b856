/** Which texts `int` and `float` read, and as what; and how `str` and the `.4f` form spell a number. */
module NumberSpellings {
  import opened Text
  import opened Numbers
  import opened FloatLaws
  import opened CompactFloats

  // ---- digits with underscores ------------------------------------------------------------------------------------

  /** Digits in groups: between underscores there is at least one digit, and nothing else. */
  predicate Grouped(s: string) { forall g | g in SplitOn(s, '_') :: g != "" && AllDigits(g) }

  function Glued(parts: seq<string>): string {
    if |parts| == 0 then [] else parts[0] + Glued(parts[1..])
  }

  /** The text without its underscores. */
  function Digits(s: string): string { Glued(SplitOn(s, '_')) }

  lemma GluedMore(a: string, rest: seq<string>)
    ensures Glued([a] + rest) == a + Glued(rest)
  {
    assert ([a] + rest)[1..] == rest;
  }

  lemma GluedFirst(c: char, first: string, rest: seq<string>)
    ensures Glued([[c] + first] + rest) == [c] + Glued([first] + rest)
  {
    GluedMore([c] + first, rest);
    GluedMore(first, rest);
    hide Glued;
    var glued := Glued(rest);
    assert ([c] + first) + glued == [c] + (first + glued);
  }

  lemma SplitAfterDigit(s: string)
    requires |s| > 1 && s[0] != '_'
    ensures s[1] == '_' ==> SplitOn(s, '_') == [[s[0]]] + SplitOn(s[2..], '_')
    ensures s[1] != '_' ==>
      var t := SplitOn(s[1..], '_');
      SplitOn(s, '_') == [[s[0]] + t[0]] + t[1..] && t[0] != ""
  {
    var t := SplitOn(s[1..], '_');
    assert s[1..][0] == s[1] && s[1..][1..] == s[2..];
    if s[1] == '_' {
      assert t == [""] + SplitOn(s[2..], '_');
      assert [s[0]] + "" == [s[0]] && t[1..] == SplitOn(s[2..], '_');
    }
  }

  /** A digit text is read exactly if it is grouped, as its digits. */
  lemma {:induction false} UngroupedExactly(s: string)
    ensures Ungrouped(s) == if Grouped(s) then Some(Digits(s)) else None
    decreases |s|
  {
    var parts := SplitOn(s, '_');
    if |s| == 0 {
      assert parts == [""] && "" in parts;
    } else if !IsDigit(s[0]) {
      assert parts[0] in parts;
      if s[0] != '_' { assert parts[0][0] == s[0]; }
    } else if |s| == 1 {
      SplitOnWhole(s, '_');
      assert parts == [s] && parts[1..] == [];
      assert Glued(parts[1..]) == [] && s + [] == s;
    } else {
      SplitAfterDigit(s);
      hide SplitOn, Glued;
      if s[1] == '_' {
        var rest := SplitOn(s[2..], '_');
        UngroupedExactly(s[2..]);
        GluedMore([s[0]], rest);
        assert parts == [[s[0]]] + rest;
        GroupedFirst([s[0]], rest);
      } else {
        var t := SplitOn(s[1..], '_');
        UngroupedExactly(s[1..]);
        GluedFirst(s[0], t[0], t[1..]);
        assert [t[0]] + t[1..] == t;
        GroupedLonger(s[0], t);
      }
    }
  }

  predicate GroupsOf(parts: seq<string>) { forall g | g in parts :: g != "" && AllDigits(g) }

  lemma GroupedFirst(a: string, rest: seq<string>)
    requires a != "" && AllDigits(a)
    ensures GroupsOf([a] + rest) <==> GroupsOf(rest)
  {
    if GroupsOf([a] + rest) {
      forall g | g in rest ensures g != "" && AllDigits(g) { assert g in [a] + rest; }
    }
  }

  lemma GroupedLonger(c: char, t: seq<string>)
    requires |t| > 0 && t[0] != "" && IsDigit(c)
    ensures GroupsOf([[c] + t[0]] + t[1..]) <==> GroupsOf(t)
  {
    var a := [[c] + t[0]] + t[1..];
    assert AllDigits([c] + t[0]) <==> AllDigits(t[0]) by {
      if AllDigits([c] + t[0]) {
        forall i | 0 <= i < |t[0]| ensures IsDigit(t[0][i]) { assert ([c] + t[0])[i + 1] == t[0][i]; }
      }
    }
    if GroupsOf(a) {
      assert a[0] in a;
      forall g | g in t ensures g != "" && AllDigits(g) {
        var i :| 0 <= i < |t| && t[i] == g;
        if i > 0 { assert a[i] == g && a[i] in a; }
      }
    }
    if GroupsOf(t) {
      assert t[0] in t;
      forall g | g in a ensures g != "" && AllDigits(g) {
        var i :| 0 <= i < |a| && a[i] == g;
        if i > 0 { assert t[i] == g && t[i] in t; }
      }
    }
  }

  lemma DigitsAreDigits(s: string)
    requires Grouped(s)
    ensures AllDigits(Digits(s)) && Digits(s) != ""
  {
    UngroupedExactly(s);
  }

  /** What digits with underscores denote. */
  function Denoted(s: string): Option<nat> {
    if Grouped(s) then (DigitsAreDigits(s); Some(NatOf(Digits(s)))) else None
  }

  // ---- integers -----------------------------------------------------------------------------------------------------

  /** `int` reads a text, after stripping, exactly as an optional sign and grouped digits. */
  lemma ParseIntExactly(t: string)
    ensures var u := Strip(t);
      ParseInt(t) ==
        if "-" <= u then (match Denoted(u[1..]) case Some(n) => Some(-(n as int)) case None => None)
        else
          match Denoted(if "+" <= u then u[1..] else u)
          case Some(n) => Some(n as int)
          case None => None
  {
    var u := Strip(t);
    SignExactly(u);
    hide Strip, Signed, Grouped, Digits, Ungrouped;
    UngroupedExactly(Signed(u).1);
  }

  lemma SignExactly(u: string)
    ensures Signed(u) ==
      if "-" <= u then (true, u[1..]) else if "+" <= u then (false, u[1..]) else (false, u)
  {
    if u != "" && u[0] == '-' { assert u[..1] == "-"; }
    if u != "" && u[0] == '+' { assert u[..1] == "+"; }
  }

  /** `str` of an integer is its digits without leading zeros, behind a minus if it is negative. */
  lemma IntTextShape(n: int)
    ensures var t := IntText(n);
      if n < 0 then t[0] == '-' && |t| > 1 && AllDigits(t[1..]) && t[1] != '0'
      else AllDigits(t) && (n > 0 ==> t[0] != '0') && (n == 0 ==> t == "0")
  {
    if n < 0 { assert IntText(n)[1..] == NatText(-n); }
  }

  // ---- floats -------------------------------------------------------------------------------------------------------

  predicate NoExponent(s: string) { forall i :: 0 <= i < |s| ==> s[i] != 'e' && s[i] != 'E' }

  lemma LowerE(c: char)
    ensures LowerChar(c) == 'e' <==> c == 'e' || c == 'E'
  {}

  lemma OccursOne(needle: string, text: string, i: nat)
    requires |needle| == 1
    ensures OccursAt(needle, text, i) <==> i < |text| && text[i] == needle[0]
  {}

  /** The mark is the first `e` of either case. */
  lemma NoMarkExactly(a: string)
    requires NoExponent(a)
    ensures ExponentMark(a) == None
  {
    var l, mark := AsciiLower(a), ExponentMark(a);
    if mark.Some? {
      OccursOne("e", l, mark.value);
      LowerE(a[mark.value]);
    }
  }

  lemma MarkExactly(a: string, c: char, b: string)
    requires NoExponent(a) && (c == 'e' || c == 'E')
    ensures ExponentMark(a + [c] + b) == Some(|a|)
  {
    var s := a + [c] + b;
    var l := AsciiLower(s);
    assert s[|a|] == c && l[|a|] == 'e';
    OccursOne("e", l, |a|);
    forall i: nat | i < |a| ensures !OccursAt("e", l, i) {
      LowerE(s[i]);
      assert s[i] == a[i];
      OccursOne("e", l, i);
    }
  }

  /** Without an exponent the text is all mantissa. */
  lemma NumeralPlain(neg: bool, a: string)
    requires NoExponent(a)
    ensures ParseNumeral(neg, a) == ParseMantissa(neg, a, 0)
  {
    NoMarkExactly(a);
    hide ParseMantissa, ExponentMark;
  }

  /** Behind the mark there is an optional sign and grouped digits: the power of ten. */
  lemma NumeralExponent(neg: bool, a: string, c: char, b: string)
    requires NoExponent(a) && (c == 'e' || c == 'E')
    ensures ParseNumeral(neg, a + [c] + b) ==
      match Denoted(if "-" <= b || "+" <= b then b[1..] else b)
      case Some(z) => ParseMantissa(neg, a, if "-" <= b then -(z as int) else z)
      case None => None
  {
    var u := a + [c] + b;
    MarkExactly(a, c, b);
    assert u[..|a|] == a && u[|a| + 1..] == b;
    ExponentExactly(b);
    hide ParseMantissa, ExponentMark, ParseExponent, Denoted;
  }

  lemma ExponentExactly(b: string)
    ensures ParseExponent(b) ==
      match Denoted(if "-" <= b || "+" <= b then b[1..] else b)
      case Some(z) => Some(if "-" <= b then -(z as int) else z)
      case None => None
  {
    SignExactly(b);
    hide Signed, Grouped, Digits, Ungrouped;
    UngroupedExactly(Signed(b).1);
  }

  /** The digits on one side of the point; none are fine. */
  predicate SideOk(s: string) { s == "" || Grouped(s) }

  function SideDigits(s: string): string { if s == "" then "" else Digits(s) }

  lemma SideExactly(s: string)
    ensures Side(s) == if SideOk(s) then Some(SideDigits(s)) else None
    ensures SideOk(s) ==> AllDigits(SideDigits(s)) && (s != "" ==> SideDigits(s) != "")
  {
    if s != "" { UngroupedExactly(s); }
  }

  lemma MantissaPlain(neg: bool, x: string, e: int)
    requires '.' !in x
    ensures ParseMantissa(neg, x, e) ==
      match Denoted(x) case Some(n) => Some(Normal(neg, n, e)) case None => None
  {
    var blank: string := [];
    NoPoint(x);
    SideExactly(x);
    SideExactly(blank);
    if x == "" { UngroupedExactly(x); }
    hide Side, Find, Normal, Grouped, Digits;
    if Grouped(x) { assert Digits(x) + "" == Digits(x); }
  }

  lemma NoPoint(x: string)
    requires '.' !in x
    ensures Find(".", x) == None
  {
    var at := Find(".", x);
    if at.Some? { OccursOne(".", x, at.value); }
  }

  lemma FirstPoint(x: string, y: string)
    requires '.' !in x
    ensures Find(".", x + "." + y) == Some(|x|)
  {
    var s := x + "." + y;
    OccursOne(".", s, |x|);
    forall i: nat | i < |x| ensures !OccursAt(".", s, i) {
      OccursOne(".", s, i);
      assert s[i] == x[i];
    }
  }

  /** A mantissa with a point has grouped digits on at least one side of it and nothing else on the other;
      the digits behind the point scale it down. */
  lemma MantissaPoint(neg: bool, x: string, y: string, e: int)
    requires '.' !in x
    ensures (SideOk(x) && SideOk(y)) ==> AllDigits(SideDigits(x) + SideDigits(y))
    ensures ParseMantissa(neg, x + "." + y, e) ==
      if SideOk(x) && SideOk(y) && (x != "" || y != "")
      then Some(Normal(neg, NatOf(SideDigits(x) + SideDigits(y)), e - |SideDigits(y)|))
      else None
  {
    FirstPoint(x, y);
    SideExactly(x);
    SideExactly(y);
    hide Find, SideOk, SideDigits, NatOf, Normal;
    CutAtPoint(x, y, x + "." + y);
    MantissaCut(neg, x + "." + y, x, y, e);
  }

  lemma CutAtPoint(x: string, y: string, s: string)
    requires s == x + "." + y
    ensures |x| < |s| && s[..|x|] == x && s[|x| + 1..] == y
  {}

  lemma MantissaCut(neg: bool, s: string, x: string, y: string, e: int)
    requires Find(".", s) == Some(|x|) && |x| < |s| && s[..|x|] == x && s[|x| + 1..] == y
    ensures SideOk(x) && SideOk(y) ==> AllDigits(SideDigits(x) + SideDigits(y))
    ensures ParseMantissa(neg, s, e) ==
      if SideOk(x) && SideOk(y) && (x != "" || y != "")
      then Some(Normal(neg, NatOf(SideDigits(x) + SideDigits(y)), e - |SideDigits(y)|))
      else None
  {
    SideExactly(x);
    SideExactly(y);
    NoSideDigits(x);
    NoSideDigits(y);
    hide Side, Find, Normal, SideOk, SideDigits, NatOf;
  }

  lemma NoSideDigits(x: string)
    ensures x == "" ==> SideDigits(x) == "" && SideOk(x)
  {}

  /** `float` reads, after stripping and an optional sign, infinity and nan in any case, and numerals. */
  lemma ParseFloatExactly(t: string)
    ensures var u := Strip(t);
      var neg, body := "-" <= u, if "-" <= u || "+" <= u then u[1..] else u;
      var word := AsciiLower(body);
      ParseFloat(t) ==
        if word == "inf" || word == "infinity" then Some(Infinite(neg))
        else if word == "nan" then Some(NaN)
        else ParseNumeral(neg, body)
  {
    SignExactly(Strip(t));
    hide Strip, Signed, AsciiLower, ParseNumeral;
  }

  // ---- how floats are printed ---------------------------------------------------------------------------------------

  /** The decimal exponent of a finite float: the power of ten of its first digit. */
  function DecimalExponent(f: Float): int
    requires f.Finite?
  {
    |NatText(f.m)| + f.e - 1
  }

  /** `str` of a float uses scientific notation exactly below 0.0001 and from 10^16 on. */
  lemma NotationExactly(f: Float)
    requires f.Finite?
    ensures 'e' in FloatText(f) <==> DecimalExponent(f) < -4 || DecimalExponent(f) >= 16
  {
    var ds, x := NatText(f.m), DecimalExponent(f);
    var sign := if f.neg then "-" else "";
    assert 'e' !in sign;
    if x < -4 || x >= 16 {
      assert FloatText(f) == sign + ScientificText(ds, x);
      MarkIsThere(ds, x);
    } else {
      NoMarkThere(ds, f.e);
    }
  }

  lemma MarkIsThere(ds: string, x: int)
    requires ds != "" && AllDigits(ds)
    ensures 'e' in ScientificText(ds, x)
  {
    hide NatText;
  }

  lemma NoMarkThere(ds: string, e: int)
    requires ds != "" && AllDigits(ds) && -4 < |ds| + e <= 16
    ensures 'e' !in MagnitudeText(ds, e)
  {
    forall i | 0 <= i < |ds| ensures ds[i] != 'e' {}
    hide ScientificText;
  }

  /** The scientific form has one digit before the point, no point without digits behind it, and a signed
      exponent of at least two digits. */
  lemma ScientificForm(f: Float)
    requires f.Finite? && (DecimalExponent(f) < -4 || DecimalExponent(f) >= 16)
    ensures var ds, x := NatText(f.m), DecimalExponent(f);
      var power := NatText(if x < 0 then -x else x);
      FloatText(f) ==
        Sign(f.neg) + (ds[..1] + (if |ds| == 1 then "" else "." + ds[1..])
        + "e" + (if x < 0 then "-" else "+") + (if |power| == 1 then "0" else "") + power)
  {
    hide NatText;
  }

  /** Otherwise all digits are written out, with at least one on either side of the point. */
  lemma FixedForm(f: Float)
    requires f.Finite? && -4 <= DecimalExponent(f) < 16
    ensures var ds, x := NatText(f.m), DecimalExponent(f);
      FloatText(f) == Sign(f.neg) + (
        if x < 0 then "0." + Zeros(-1 - x) + ds
        else if f.e >= 0 then ds + Zeros(f.e) + ".0"
        else ds[..x + 1] + "." + ds[x + 1..])
  {
    hide NatText, ScientificText, Zeros;
  }

  // ---- rounding to four decimals ------------------------------------------------------------------------------------

  /** A tie goes to the even neighbour, everything else to the nearest. */
  lemma TiesToEven(m: nat, p: nat)
    requires p >= 1
    ensures var n := RoundHalfEven(m, p);
      && -(p as int) <= 2 * (n * p - m) <= p
      && (2 * (n * p - m) == p || 2 * (n * p - m) == -(p as int) ==> n % 2 == 0)
  {
    var q, r, n := m / p, m % p, RoundHalfEven(m, p);
    assert m == q * p + r;
    assert (q + 1) * p == q * p + p;
  }
}
