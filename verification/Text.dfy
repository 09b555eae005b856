/** Strings as the Python code sees them: code-point order, splitting, joining, searching, replacing. */
module Text {

  datatype Option<+T> = None | Some(value: T)

  // ---- code-point order -------------------------------------------------------------------

  /** Python's `<=` on `str`. */
  predicate Le(a: string, b: string)
  {
    a == "" || (b != "" && (a[0] < b[0] || (a[0] == b[0] && Le(a[1..], b[1..]))))
  }

  lemma {:induction false} LeTotal(a: string, b: string)
    ensures Le(a, b) || Le(b, a)
    decreases |a|
  {
    if a != "" && b != "" && a[0] == b[0] {
      LeTotal(a[1..], b[1..]);
    }
  }

  lemma {:induction false} LeAntisymmetric(a: string, b: string)
    requires Le(a, b) && Le(b, a)
    ensures a == b
    decreases |a|
  {
    if a != "" && b != "" {
      LeAntisymmetric(a[1..], b[1..]);
      assert a == [a[0]] + a[1..] && b == [b[0]] + b[1..];
    }
  }

  lemma {:induction false} LeTransitive(a: string, b: string, c: string)
    requires Le(a, b) && Le(b, c)
    ensures Le(a, c)
    decreases |a|
  {
    if a != "" && a[0] == b[0] == c[0] {
      LeTransitive(a[1..], b[1..], c[1..]);
    }
  }

  predicate IsLeast(m: string, s: set<string>) {
    m in s && forall k | k in s :: Le(m, k)
  }

  lemma {:induction false} LeastExists(s: set<string>) returns (m: string)
    requires s != {}
    ensures IsLeast(m, s)
  {
    var x :| x in s;
    m := x;
    LeTotal(x, x);
    if s != {x} {
      var y := LeastExists(s - {x});
      LeTotal(x, y);
      if !Le(x, y) {
        m := y;
      }
      forall k | k in s ensures Le(m, k) {
        if k != x && m == x { LeTransitive(x, y, k); }
      }
    }
  }

  lemma LeastUnique(a: string, b: string, s: set<string>)
    requires IsLeast(a, s) && IsLeast(b, s)
    ensures a == b
  {
    LeAntisymmetric(a, b);
  }

  /** The first element of `s` in code-point order. */
  function Least(s: set<string>): (m: string)
    requires s != {}
    ensures IsLeast(m, s)
  {
    assert exists m :: IsLeast(m, s) by { var w := LeastExists(s); }
    assert forall a, b :: IsLeast(a, s) && IsLeast(b, s) ==> a == b by {
      forall a, b | IsLeast(a, s) && IsLeast(b, s) ensures a == b { LeastUnique(a, b, s); }
    }
    var m :| m in s && IsLeast(m, s);
    m
  }

  ghost predicate StrictlyAscending(r: seq<string>) {
    forall i, j :: 0 <= i < j < |r| ==> Le(r[i], r[j]) && r[i] != r[j]
  }

  /** Python's `sorted` on a collection of distinct strings. */
  function Sorted(s: set<string>): (r: seq<string>)
    ensures forall k :: k in r <==> k in s
    ensures StrictlyAscending(r)
  {
    if s == {} then [] else
      var m := Least(s);
      [m] + Sorted(s - {m})
  }

  // ---- splitting and joining ----------------------------------------------------------------

  /** Python's `sep.join(parts)`. */
  function Join(sep: string, parts: seq<string>): string
  {
    if |parts| == 0 then ""
    else if |parts| == 1 then parts[0]
    else parts[0] + sep + Join(sep, parts[1..])
  }

  /** Python's `s.split(c)`: always at least one piece. */
  function SplitOn(s: string, c: char): (r: seq<string>)
    ensures |r| >= 1
    ensures forall i :: 0 <= i < |r| ==> c !in r[i]
  {
    if s == "" then [""]
    else if s[0] == c then [""] + SplitOn(s[1..], c)
    else
      var t := SplitOn(s[1..], c);
      [[s[0]] + t[0]] + t[1..]
  }

  /** Splitting distributes over a separator between any two texts. */
  lemma {:induction false} SplitOnConcat(a: string, b: string, c: char)
    ensures SplitOn(a + [c] + b, c) == SplitOn(a, c) + SplitOn(b, c)
  {
    if a == "" {
      assert a + [c] + b == [c] + b;
    } else {
      assert (a + [c] + b)[1..] == a[1..] + [c] + b && (a + [c] + b)[0] == a[0];
      SplitOnConcat(a[1..], b, c);
      var t, u := SplitOn(a[1..], c), SplitOn(b, c);
      if a[0] == c {
        assert [""] + (t + u) == ([""] + t) + u;
      } else {
        assert [[a[0]] + t[0]] + (t + u)[1..] == ([[a[0]] + t[0]] + t[1..]) + u;
      }
    }
  }

  lemma {:induction false} SplitOnWhole(a: string, c: char)
    requires c !in a
    ensures SplitOn(a, c) == [a]
  {
    if a != "" {
      SplitOnWhole(a[1..], c);
      assert a == [a[0]] + a[1..];
    }
  }

  /** Joining pieces that do not contain the separator can be undone by splitting. */
  lemma {:induction false} SplitOnJoin(parts: seq<string>, c: char)
    requires |parts| >= 1
    requires forall i :: 0 <= i < |parts| ==> c !in parts[i]
    ensures SplitOn(Join([c], parts), c) == parts
  {
    SplitOnWhole(parts[0], c);
    if |parts| > 1 {
      SplitOnConcat(parts[0], Join([c], parts[1..]), c);
      SplitOnJoin(parts[1..], c);
      assert parts == [parts[0]] + parts[1..];
    }
  }

  /** Splitting and joining again with the same separator gives the text back. */
  lemma {:induction false} JoinSplitOn(s: string, c: char)
    ensures Join([c], SplitOn(s, c)) == s
  {
    if s != "" {
      var t := SplitOn(s[1..], c);
      JoinSplitOn(s[1..], c);
      if s[0] == c {
        assert ([""] + t)[1..] == t;
        assert s == [c] + s[1..];
      } else {
        var h := [s[0]] + t[0];
        assert ([h] + t[1..])[1..] == t[1..];
        assert s == [s[0]] + s[1..];
        if |t| > 1 {
          assert h + [c] + Join([c], t[1..]) == [s[0]] + (t[0] + [c] + Join([c], t[1..]));
        }
      }
    }
  }

  /** The pieces of a joined text are the pieces of its parts. */
  lemma {:induction false} PiecesOfJoin(parts: seq<string>, c: char, x: string)
    requires |parts| >= 1
    ensures x in SplitOn(Join([c], parts), c) <==> exists i :: 0 <= i < |parts| && x in SplitOn(parts[i], c)
  {
    if |parts| > 1 {
      var rest := parts[1..];
      SplitOnConcat(parts[0], Join([c], rest), c);
      PiecesOfJoin(rest, c, x);
      assert forall i :: 0 <= i < |rest| ==> rest[i] == parts[i + 1];
      assert forall i :: 1 <= i < |parts| ==> parts[i] == rest[i - 1];
    }
  }

  /** `[item for item in items if item]` */
  function NonEmpty(items: seq<string>): (r: seq<string>)
    ensures forall i :: 0 <= i < |r| ==> r[i] != "" && r[i] in items
  {
    if |items| == 0 then []
    else if items[0] == "" then NonEmpty(items[1..])
    else [items[0]] + NonEmpty(items[1..])
  }

  lemma {:induction false} NonEmptyIdentity(items: seq<string>)
    ensures NonEmpty(items) == items <==> "" !in items
    ensures |NonEmpty(items)| <= |items|
  {
    if |items| > 0 {
      NonEmptyIdentity(items[1..]);
      assert items == [items[0]] + items[1..];
      if items[0] != "" && NonEmpty(items) == items {
        assert NonEmpty(items)[1..] == items[1..];
      }
    }
  }

  // ---- searching and replacing ---------------------------------------------------------------

  predicate OccursAt(needle: string, text: string, i: int) {
    0 <= i <= |text| - |needle| && text[i..i + |needle|] == needle
  }

  /** Python's `text.find(needle)` at or after `from`. */
  function FindFrom(needle: string, text: string, from: nat): (r: Option<nat>)
    requires from <= |text|
    ensures r.Some? ==> from <= r.value && OccursAt(needle, text, r.value)
                        && forall k :: from <= k < r.value ==> !OccursAt(needle, text, k)
    ensures r.None? ==> forall k :: from <= k ==> !OccursAt(needle, text, k)
    decreases |text| - from
  {
    if OccursAt(needle, text, from) then Some(from)
    else if from == |text| then None
    else FindFrom(needle, text, from + 1)
  }

  function Find(needle: string, text: string): (r: Option<nat>)
    ensures r.Some? ==> OccursAt(needle, text, r.value) && forall k :: 0 <= k < r.value ==> !OccursAt(needle, text, k)
    ensures r.None? ==> forall k :: 0 <= k ==> !OccursAt(needle, text, k)
  {
    FindFrom(needle, text, 0)
  }

  /** Python's `needle in text`. */
  predicate Contains(needle: string, text: string) { Find(needle, text).Some? }

  /** Python's `text.replace(needle, new, 1)`. */
  function ReplaceFirst(text: string, needle: string, replacement: string): string {
    match Find(needle, text)
    case None => text
    case Some(i) => text[..i] + replacement + text[i + |needle|..]
  }

  /** Python's `s.startswith(p)`. */
  predicate StartsWith(s: string, p: string) { p <= s }

  // ---- trimming -------------------------------------------------------------------------------

  predicate IsSpace(c: char) { c in " \t\n\r" || c == 11 as char || c == 12 as char }

  function LStrip(s: string): (r: string)
    ensures r == "" || !IsSpace(r[0])
    ensures |r| <= |s| && r == s[|s| - |r|..]
  {
    if s != "" && IsSpace(s[0]) then LStrip(s[1..]) else s
  }

  function RStrip(s: string): (r: string)
    ensures r == "" || !IsSpace(r[|r| - 1])
    ensures r <= s
    ensures forall i :: |r| <= i < |s| ==> IsSpace(s[i])
  {
    if s != "" && IsSpace(s[|s| - 1]) then RStrip(s[..|s| - 1]) else s
  }

  /** Python's `s.strip()`. */
  function Strip(s: string): string { RStrip(LStrip(s)) }

  lemma StripIdentity(s: string)
    requires s == "" || (!IsSpace(s[0]) && !IsSpace(s[|s| - 1]))
    ensures Strip(s) == s
  {}

  /** Nothing is left of a text exactly if it is all whitespace. */
  lemma StripsToNothing(s: string)
    ensures |Strip(s)| == 0 <==> forall c | c in s :: IsSpace(c)
  {
    LStripsToNothing(s);
    var t := LStrip(s);
    if |t| > 0 {
      assert |RStrip(t)| > 0 by { assert !IsSpace(t[0]); }
    }
  }

  lemma {:induction false} LStripsToNothing(s: string)
    ensures |LStrip(s)| == 0 <==> forall c | c in s :: IsSpace(c)
  {
    hide IsSpace;
    if |s| > 0 {
      LStripsToNothing(s[1..]);
      assert s == [s[0]] + s[1..];
    }
  }

  /** Python's `s.rstrip(c)` for one character. */
  function RStripChar(s: string, c: char): (r: string)
    ensures r == "" || r[|r| - 1] != c
    ensures r <= s
  {
    if s != "" && s[|s| - 1] == c then RStripChar(s[..|s| - 1], c) else s
  }
}
