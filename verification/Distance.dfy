/** Textual retelling distance: the tokeniser, the Jaccard distance as a metric, and the planner. */
module Distance {
  import opened Text
  import opened Numbers

  /** ASCII `str.isalnum` */
  predicate Alnum(c: char) { '0' <= c <= '9' || 'a' <= c <= 'z' || 'A' <= c <= 'Z' }

  /** `t[i..j]` is alphanumeric and cannot be extended on either side. */
  predicate MaximalRun(t: string, i: int, j: int) {
    && 0 <= i < j <= |t|
    && (forall k :: i <= k < j ==> Alnum(t[k]))
    && (i == 0 || !Alnum(t[i - 1]))
    && (j == |t| || !Alnum(t[j]))
  }

  /** The maximal runs that end before `n`. */
  function RunsBefore(t: string, n: int): set<string>
    requires n <= |t| + 1
  {
    set i, j | 0 <= i < j <= |t| && j < n && MaximalRun(t, i, j) :: t[i..j]
  }

  /** The maximal alphanumeric runs of the lower-cased text that have at least two characters. */
  function TokenSet(text: string): set<string> {
    LongEnough(RunsBefore(AsciiLower(text), |text| + 1))
  }

  function LongEnough(words: set<string>): set<string> { set w | w in words && |w| >= 2 }

  lemma InRuns(t: string, n: int, w: string)
    requires n <= |t| + 1
    ensures w in RunsBefore(t, n) <==> exists i, j :: 0 <= i < j <= |t| && j < n && MaximalRun(t, i, j) && w == t[i..j]
  {}

  /** The alphanumeric run that is still open at `i` starts at `start`; it is empty if they are equal. */
  predicate OpenRun(t: string, start: int, i: int) {
    && 0 <= start <= i <= |t|
    && (forall k :: start <= k < i ==> Alnum(t[k]))
    && (start == 0 || !Alnum(t[start - 1]))
  }

  /** One more character: a run ends there exactly if the character is not alphanumeric. */
  lemma RunsStep(t: string, start: int, i: int)
    requires OpenRun(t, start, i) && i < |t|
    ensures Alnum(t[i]) || start == i ==> RunsBefore(t, i + 1) == RunsBefore(t, i)
    ensures !Alnum(t[i]) && start < i ==> RunsBefore(t, i + 1) == RunsBefore(t, i) + {t[start..i]}
    ensures OpenRun(t, if Alnum(t[i]) then start else i + 1, i + 1)
    ensures t[start..i + 1] == t[start..i] + [t[i]] && t[i + 1..i + 1] == []
  {
    if !Alnum(t[i]) && start < i { assert MaximalRun(t, start, i); }
    forall w ensures w in RunsBefore(t, i + 1) <==>
      w in RunsBefore(t, i) || (!Alnum(t[i]) && start < i && w == t[start..i])
    {
      if w in RunsBefore(t, i + 1) && w !in RunsBefore(t, i) {
        var a, b :| 0 <= a < b <= |t| && b < i + 1 && MaximalRun(t, a, b) && w == t[a..b];
        assert b == i;
        SameStart(t, start, a, i);
      }
    }
  }

  lemma SameStart(t: string, a: int, b: int, i: int)
    requires 0 <= a <= i <= |t| && 0 <= b < i
    requires (forall k :: a <= k < i ==> Alnum(t[k])) && (a == 0 || !Alnum(t[a - 1]))
    requires (forall k :: b <= k < i ==> Alnum(t[k])) && (b == 0 || !Alnum(t[b - 1]))
    ensures a == b
  {}

  lemma RunsEnd(t: string, start: int)
    requires OpenRun(t, start, |t|)
    ensures start == |t| ==> RunsBefore(t, |t| + 1) == RunsBefore(t, |t|)
    ensures start < |t| ==> RunsBefore(t, |t| + 1) == RunsBefore(t, |t|) + {t[start..]}
  {
    if start < |t| { assert MaximalRun(t, start, |t|) && t[start..|t|] == t[start..]; }
    forall w ensures w in RunsBefore(t, |t| + 1) <==> w in RunsBefore(t, |t|) || (start < |t| && w == t[start..]) {
      if w in RunsBefore(t, |t| + 1) && w !in RunsBefore(t, |t|) {
        var a, b :| 0 <= a < b <= |t| && b < |t| + 1 && MaximalRun(t, a, b) && w == t[a..b];
        SameStart(t, start, a, |t|);
      }
    }
  }

  lemma RunsStart(t: string)
    ensures RunsBefore(t, 0) == {} && OpenRun(t, 0, 0)
  {}

  /** Before position `i`: the words found, and the characters of the run that is still open. */
  ghost predicate Scanned(t: string, out: set<string>, cur: string, start: int, i: nat) {
    OpenRun(t, start, i) && cur == t[start..i] && out == RunsBefore(t, i)
  }

  lemma ScannedStep(t: string, out: set<string>, cur: string, start: int, i: nat)
    requires i < |t| && Scanned(t, out, cur, start, i)
    ensures Alnum(t[i]) ==> Scanned(t, out, cur + [t[i]], start, i + 1)
    ensures !Alnum(t[i]) ==> Scanned(t, if |cur| > 0 then out + {cur} else out, [], i + 1, i + 1)
  {
    hide Alnum, RunsBefore, MaximalRun;
    RunsStep(t, start, i);
  }

  lemma ScannedEnd(t: string, out: set<string>, cur: string, start: int)
    requires Scanned(t, out, cur, start, |t|)
    ensures (if |cur| > 0 then out + {cur} else out) == RunsBefore(t, |t| + 1)
  {
    hide Alnum, RunsBefore, MaximalRun;
    assert t[start..|t|] == t[start..];
    RunsEnd(t, start);
  }

  lemma ScannedStart(t: string)
    ensures Scanned(t, {}, [], 0, 0)
  {
    RunsStart(t);
  }

  /** `_tokenize`: one pass over the characters computes exactly the token set. */
  method Tokenize(text: string) returns (tokens: set<string>)
    ensures tokens == TokenSet(text)
  {
    var t := AsciiLower(text);
    assert TokenSet(text) == LongEnough(RunsBefore(t, |t| + 1));
    hide *;
    ScannedStart(t);
    var out: set<string> := {};
    var cur: string := [];
    ghost var start := 0;
    var i := 0;
    while i < |t|
      invariant 0 <= i <= |t| && Scanned(t, out, cur, start, i)
    {
      ScannedStep(t, out, cur, start, i);
      if Alnum(t[i]) {
        cur := cur + [t[i]];
      } else {
        if |cur| > 0 {
          out := out + {cur};
          cur := [];
        }
        assert |cur| == 0 && cur == [];
        start := i + 1;
      }
      i := i + 1;
    }
    ScannedEnd(t, out, cur, start);
    if |cur| > 0 {
      out := out + {cur};
    }
    tokens := LongEnough(out);
  }

  lemma LowerAlnum(c: char)
    ensures Alnum(LowerChar(c)) == Alnum(c)
  {}

  lemma RunLeft(x: string, s: char, y: string, i: int, j: int)
    requires !Alnum(s)
    ensures MaximalRun(x, i, j) <==> j <= |x| && MaximalRun(x + [s] + y, i, j)
  {
    var t := x + [s] + y;
    assert t[..|x|] == x && t[|x|] == s;
    assert forall k :: 0 <= k < |x| ==> t[k] == x[k];
  }

  lemma RunRight(x: string, s: char, y: string, i: int, j: int)
    requires !Alnum(s)
    ensures MaximalRun(y, i, j) <==> |x| + 1 <= i + |x| + 1 && MaximalRun(x + [s] + y, i + |x| + 1, j + |x| + 1)
  {
    var t, n := x + [s] + y, |x| + 1;
    hide Alnum;
    assert t[|x|] == s && |t| == n + |y|;
    assert forall k :: n <= k < |t| ==> t[k] == y[k - n];
    assert forall k :: 0 <= k < |y| ==> t[k + n] == y[k];
  }

  lemma RunsConcatSplit(x: string, s: char, y: string, w: string)
    requires !Alnum(s) && w in RunsBefore(x + [s] + y, |x| + |y| + 2)
    ensures w in RunsBefore(x, |x| + 1) || w in RunsBefore(y, |y| + 1)
  {
    var t, n := x + [s] + y, |x| + 1;
    var i, j :| 0 <= i < j <= |t| && j < |t| + 1 && MaximalRun(t, i, j) && w == t[i..j];
    assert t[|x|] == s;
    assert !(i <= |x| < j);
    hide Alnum;
    hide MaximalRun;
    if j <= |x| {
      RunLeft(x, s, y, i, j);
      assert t[i..j] == x[i..j];
    } else {
      RunRight(x, s, y, i - n, j - n);
      assert t[i..j] == y[i - n..j - n];
    }
  }

  lemma RunsConcatLeft(x: string, s: char, y: string, w: string)
    requires !Alnum(s) && w in RunsBefore(x, |x| + 1)
    ensures w in RunsBefore(x + [s] + y, |x| + |y| + 2)
  {
    var i, j :| 0 <= i < j <= |x| && j < |x| + 1 && MaximalRun(x, i, j) && w == x[i..j];
    RunLeft(x, s, y, i, j);
    assert w == (x + [s] + y)[i..j];
  }

  lemma RunsConcatRight(x: string, s: char, y: string, w: string)
    requires !Alnum(s) && w in RunsBefore(y, |y| + 1)
    ensures w in RunsBefore(x + [s] + y, |x| + |y| + 2)
  {
    var n := |x| + 1;
    var i, j :| 0 <= i < j <= |y| && j < |y| + 1 && MaximalRun(y, i, j) && w == y[i..j];
    RunRight(x, s, y, i, j);
    assert w == (x + [s] + y)[i + n..j + n];
  }

  /** Runs never cross a separator. */
  lemma RunsConcat(x: string, s: char, y: string, w: string)
    requires !Alnum(s)
    ensures w in RunsBefore(x + [s] + y, |x| + |y| + 2) <==> w in RunsBefore(x, |x| + 1) || w in RunsBefore(y, |y| + 1)
  {
    hide RunsBefore;
    if w in RunsBefore(x + [s] + y, |x| + |y| + 2) { RunsConcatSplit(x, s, y, w); }
    if w in RunsBefore(x, |x| + 1) { RunsConcatLeft(x, s, y, w); }
    if w in RunsBefore(y, |y| + 1) { RunsConcatRight(x, s, y, w); }
  }

  /** Tokenising two texts around any non-alphanumeric separator gives the union of their tokens. */
  lemma TokensConcat(x: string, s: char, y: string)
    requires !Alnum(s)
    ensures TokenSet(x + [s] + y) == TokenSet(x) + TokenSet(y)
  {
    var lx, ly := AsciiLower(x), AsciiLower(y);
    LowerAlnum(s);
    assert AsciiLower(x + [s] + y) == lx + [LowerChar(s)] + ly;
    forall w ensures w in TokenSet(x + [s] + y) <==> w in TokenSet(x) || w in TokenSet(y) {
      RunsConcat(lx, LowerChar(s), ly, w);
    }
  }

  lemma NoTokens(blank: string)
    requires |blank| == 0
    ensures TokenSet(blank) == {}
  {
    assert AsciiLower(blank) == blank;
    forall w | w in RunsBefore(blank, 1) ensures false { InRuns(blank, 1, w); }
  }

  lemma {:induction false} TokensBehind(sep: string, y: string)
    requires forall i :: 0 <= i < |sep| ==> !Alnum(sep[i])
    ensures TokenSet(sep + y) == TokenSet(y)
    decreases |sep|
  {
    hide TokenSet, Alnum;
    if |sep| == 0 {
      assert sep + y == y;
    } else {
      var blank: string := [];
      NoTokens(blank);
      TokensConcat(blank, sep[0], sep[1..] + y);
      assert blank + [sep[0]] + (sep[1..] + y) == sep + y;
      TokensBehind(sep[1..], y);
    }
  }

  /** The same for any separator that is not empty and has no alphanumeric character. */
  lemma TokensSeparated(x: string, sep: string, y: string)
    requires |sep| > 0 && forall i :: 0 <= i < |sep| ==> !Alnum(sep[i])
    ensures TokenSet(x + sep + y) == TokenSet(x) + TokenSet(y)
  {
    hide TokenSet, Alnum;
    assert x + sep + y == x + [sep[0]] + (sep[1..] + y);
    TokensConcat(x, sep[0], sep[1..] + y);
    TokensBehind(sep[1..], y);
  }

  // ---- the metric -------------------------------------------------------------------------------------------

  function Clamp(x: real): real {
    var low := if x < 1.0 then x else 1.0;
    if low > 0.0 then low else 0.0
  }

  /** The body of `communication_distance` on token sets, over exact reals. */
  function SetDistance(s: set<string>, r: set<string>): real {
    if s == {} && r == {} then 0.0
    else if s == {} || r == {} then 1.0
    else if |s + r| == 0 then 0.0
    else Clamp(1.0 - |s * r| as real / |s + r| as real)
  }

  /** `communication_distance` */
  function CommunicationDistance(sender: string, receiver: string): real {
    SetDistance(TokenSet(sender), TokenSet(receiver))
  }

  /** The number of tokens in exactly one of the two sets. */
  function Difference(a: set<string>, b: set<string>): nat { |a - b| + |b - a| }

  lemma Sizes(a: set<string>, b: set<string>)
    ensures |a + b| == |a * b| + Difference(a, b)
    ensures |a| + |b| == 2 * |a * b| + Difference(a, b)
  {
    assert a == (a * b) + (a - b) && b == (a * b) + (b - a);
    assert a + b == (a * b) + ((a - b) + (b - a));
  }

  lemma DifferenceTriangle(a: set<string>, b: set<string>, c: set<string>)
    ensures Difference(a, c) <= Difference(a, b) + Difference(b, c)
    ensures |c| <= |b| + Difference(b, c) && |a| <= |b| + Difference(a, b)
  {
    SubsetSize(a - c, (a - b) + (b - c));
    SubsetSize(c - a, (c - b) + (b - a));
    Sizes(b, c);
    Sizes(a, b);
  }

  lemma {:induction false} SubsetSize(s: set<string>, t: set<string>)
    requires s <= t
    ensures |s| <= |t|
  {
    if s != {} {
      var x :| x in s;
      SubsetSize(s - {x}, t - {x});
    }
  }

  /** Twice the difference over the sum of all three sizes: the form in which the triangle is simple. */
  function Ratio(d: nat, sum: nat): real
    requires sum > 0
  {
    (2 * d) as real / sum as real
  }

  lemma DistanceAsRatio(a: set<string>, b: set<string>)
    requires a != {} || b != {}
    ensures |a| + |b| + Difference(a, b) > 0
    ensures SetDistance(a, b) == Ratio(Difference(a, b), |a| + |b| + Difference(a, b))
  {
    Sizes(a, b);
    var i, d, u := |a * b|, Difference(a, b), |a + b|;
    assert u > 0 by { var x :| x in a + b; }
    if a == {} || b == {} {
      assert a * b == {};
    }
    RatioForm(i, d, u);
  }

  lemma RatioForm(i: nat, d: nat, u: nat)
    requires u == i + d && u > 0
    ensures Clamp(1.0 - i as real / u as real) == Ratio(d, 2 * u)
    ensures i == 0 ==> Ratio(d, 2 * u) == 1.0
  {
    var x, y := i as real / u as real, d as real / u as real;
    SumToOne(i as real, d as real, u as real);
    Positive(x, u as real, i as real);
    Positive(y, u as real, d as real);
    Halves(d as real, u as real);
    assert (2 * d) as real == 2.0 * d as real && (2 * u) as real == 2.0 * u as real;
  }

  lemma SumToOne(i: real, d: real, u: real)
    requires u > 0.0 && u == i + d
    ensures i / u + d / u == 1.0
  {
    assert i / u + d / u == (i + d) / u;
  }

  lemma Halves(d: real, u: real)
    requires u > 0.0
    ensures (2.0 * d) / (2.0 * u) == d / u
  {
    var y := d / u;
    assert y * u == d;
    assert y * (2.0 * u) == 2.0 * d;
  }

  lemma Positive(x: real, u: real, p: real)
    requires u > 0.0 && p >= 0.0 && x * u == p
    ensures x >= 0.0
  {}

  /** A ratio of naturals is at most another if the cross products are. */
  lemma CrossMultiply(a: nat, b: nat, c: nat, d: nat)
    requires b > 0 && d > 0 && a * d <= c * b
    ensures a as real / b as real <= c as real / d as real
  {
    var x, y, p, q := a as real / b as real, c as real / d as real, b as real, d as real;
    assert x * p == a as real && y * q == c as real;
    assert (a * d) as real == a as real * q && (c * b) as real == c as real * p;
    assert x * (p * q) == (x * p) * q && y * (p * q) == (y * q) * p;
    Divide(x, y, p * q);
  }

  lemma Divide(x: real, y: real, r: real)
    requires r > 0.0 && x * r <= y * r
    ensures x <= y
  {}

  /** `d / (s + d)` grows with `d`. */
  lemma RatioGrows(s: nat, d: nat, e: nat)
    requires d <= e && s + d > 0
    ensures Ratio(d, s + d) <= Ratio(e, s + e)
  {
    Products(s, d, e);
    CrossMultiply(2 * d, s + d, 2 * e, s + e);
  }

  lemma Products(s: nat, d: nat, e: nat)
    requires d <= e
    ensures (2 * d) * (s + e) <= (2 * e) * (s + d)
  {
    assert d * s <= e * s;
  }

  /** A ratio shrinks when its denominator grows. */
  lemma RatioShrinks(d: nat, s: nat, t: nat)
    requires 0 < s <= t
    ensures Ratio(d, t) <= Ratio(d, s)
  {
    assert (2 * d) * s <= (2 * d) * t;
    CrossMultiply(2 * d, t, 2 * d, s);
  }

  lemma RatioAdds(d: nat, e: nat, s: nat)
    requires s > 0
    ensures Ratio(d + e, s) == Ratio(d, s) + Ratio(e, s)
  {
    var r := s as real;
    assert (2 * (d + e)) as real == (2 * d) as real + (2 * e) as real;
    assert ((2 * d) as real + (2 * e) as real) / r == (2 * d) as real / r + (2 * e) as real / r;
  }

  lemma DistanceRange(a: set<string>, b: set<string>)
    ensures 0.0 <= SetDistance(a, b) <= 1.0
    ensures SetDistance(a, b) == SetDistance(b, a)
  {
    assert a * b == b * a && a + b == b + a;
  }

  lemma DistanceZero(a: set<string>, b: set<string>)
    ensures SetDistance(a, b) == 0.0 <==> a == b
  {
    if a != {} || b != {} {
      DistanceAsRatio(a, b);
      var d, s := Difference(a, b), |a| + |b| + Difference(a, b);
      assert Ratio(d, s) * s as real == (2 * d) as real;
      if d == 0 {
        assert a - b == {} && b - a == {};
        assert a == b;
      }
    }
  }

  lemma TriangleSets(a: set<string>, b: set<string>, c: set<string>)
    ensures SetDistance(a, c) <= SetDistance(a, b) + SetDistance(b, c)
  {
    DistanceRange(a, b);
    DistanceRange(b, c);
    DistanceRange(a, c);
    if a != {} && b != {} && c != {} {
      var x, y, z := Difference(a, c), Difference(a, b), Difference(b, c);
      var s := |a| + |c|;
      DifferenceTriangle(a, b, c);
      DistanceAsRatio(a, b);
      DistanceAsRatio(b, c);
      DistanceAsRatio(a, c);
      hide SetDistance, Difference, Ratio;
      RatioGrows(s, x, y + z);
      RatioAdds(y, z, s + (y + z));
      RatioShrinks(y, |a| + |b| + y, s + (y + z));
      RatioShrinks(z, |b| + |c| + z, s + (y + z));
    } else if a == {} && c != {} && b != {} {
      assert SetDistance(a, b) == 1.0;
    }
  }

  /** `communication_distance` is a metric on token sets: it lies in [0, 1], is symmetric, is zero
      exactly for equal token sets, and satisfies the triangle inequality for any three texts. */
  lemma DistanceIsMetric(x: string, y: string, z: string)
    ensures 0.0 <= CommunicationDistance(x, y) <= 1.0
    ensures CommunicationDistance(x, y) == CommunicationDistance(y, x)
    ensures CommunicationDistance(x, y) == 0.0 <==> TokenSet(x) == TokenSet(y)
    ensures CommunicationDistance(x, z) <= CommunicationDistance(x, y) + CommunicationDistance(y, z)
  {
    hide SetDistance, TokenSet;
    DistanceRange(TokenSet(x), TokenSet(y));
    DistanceZero(TokenSet(x), TokenSet(y));
    TriangleSets(TokenSet(x), TokenSet(y), TokenSet(z));
  }

  // ---- the planner ------------------------------------------------------------------------------------------

  datatype Communication = Communication(id: string, runId: string, payload: string)

  datatype Plan = Plan(runId: string, maxDistance: real, accepted: seq<Communication>, flagged: seq<Communication>)

  /** The first non-empty run id. */
  function FirstRunId(cs: seq<Communication>): string {
    if |cs| == 0 then "" else
      var before := FirstRunId(cs[..|cs| - 1]);
      if before != "" then before else cs[|cs| - 1].runId
  }

  /** `CommunicationDistanceOptimizer.plan` compares every payload with itself, so it accepts every
      handoff and flags none, whatever threshold it was built with. */
  method MakePlan(maxDistance: real, communications: seq<Communication>) returns (plan: Plan)
    ensures plan.accepted == communications && plan.flagged == []
    ensures plan.maxDistance == Clamp(maxDistance)
    ensures plan.runId == FirstRunId(communications)
  {
    var limit := Clamp(maxDistance);
    var accepted, flagged: seq<Communication> := [], [];
    var runId := "";
    var i := 0;
    while i < |communications|
      invariant 0 <= i <= |communications|
      invariant accepted == communications[..i] && flagged == []
      invariant runId == FirstRunId(communications[..i])
    {
      var c := communications[i];
      assert communications[..i + 1][..i] == communications[..i];
      if runId == "" { runId := c.runId; }
      DistanceZero(TokenSet(c.payload), TokenSet(c.payload));
      if CommunicationDistance(c.payload, c.payload) <= limit {
        accepted := accepted + [c];
      } else {
        flagged := flagged + [c];
      }
      i := i + 1;
    }
    assert communications[..i] == communications;
    plan := Plan(runId, limit, accepted, flagged);
  }

  function Sum(ds: seq<real>): real {
    if |ds| == 0 then 0.0 else Sum(ds[..|ds| - 1]) + ds[|ds| - 1]
  }

  /** `average_distance`: the mean, which stays between any two bounds of the distances. */
  method AverageDistance(distances: seq<real>, ghost low: real, ghost high: real) returns (average: real)
    requires forall i :: 0 <= i < |distances| ==> low <= distances[i] <= high
    ensures |distances| == 0 ==> average == 0.0
    ensures |distances| > 0 ==> average * |distances| as real == Sum(distances) && low <= average <= high
  {
    var total, count := 0.0, 0;
    while count < |distances|
      invariant 0 <= count <= |distances|
      invariant total == Sum(distances[..count])
      invariant low * count as real <= total <= high * count as real
    {
      assert distances[..count + 1][..count] == distances[..count];
      total := total + distances[count];
      count := count + 1;
      assert low * count as real == low * (count - 1) as real + low;
      assert high * count as real == high * (count - 1) as real + high;
    }
    assert distances[..count] == distances;
    if count == 0 { return 0.0; }
    average := total / count as real;
    Divide(low, average, count as real);
    Divide(average, high, count as real);
  }

  // ---- what tokens and distances are --------------------------------------------------------------------------------

  /** ASCII letters and digits by their codes. */
  predicate LetterOrDigit(c: char) { 97 <= c as int <= 122 || 65 <= c as int <= 90 || 48 <= c as int <= 57 }

  /** The characters agree up to the case of ASCII letters, the second one being lower case. */
  predicate Folds(c: char, d: char) { if 65 <= c as int <= 90 then d as int == c as int + 32 else d == c }

  /** The word stands in the text between `i` and `j`, in any case, and no letter or digit is next to it. */
  ghost predicate StandsAt(text: string, w: string, i: nat, j: nat) {
    && i < j <= |text| && |w| == j - i
    && (forall k :: i <= k < j ==> LetterOrDigit(text[k]) && Folds(text[k], w[k - i]))
    && (i > 0 ==> !LetterOrDigit(text[i - 1])) && (j < |text| ==> !LetterOrDigit(text[j]))
  }

  lemma LowerFolds(c: char)
    ensures Folds(c, LowerChar(c)) && (forall d :: Folds(c, d) ==> d == LowerChar(c))
    ensures Alnum(LowerChar(c)) <==> LetterOrDigit(c)
  {}

  lemma StandsIsRun(text: string, w: string, i: nat, j: nat)
    ensures var t := AsciiLower(text);
      StandsAt(text, w, i, j) <==> MaximalRun(t, i, j) && t[i..j] == w
  {
    var t := AsciiLower(text);
    forall k | 0 <= k < |text| ensures Alnum(t[k]) <==> LetterOrDigit(text[k]) { LowerFolds(text[k]); }
    if StandsAt(text, w, i, j) {
      forall k | 0 <= k < j - i ensures t[i..j][k] == w[k] { LowerFolds(text[i + k]); }
      assert t[i..j] == w;
    }
    if MaximalRun(t, i, j) && t[i..j] == w {
      forall k | i <= k < j ensures Folds(text[k], w[k - i]) {
        LowerFolds(text[k]);
        assert t[i..j][k - i] == t[k];
      }
    }
  }

  /** The tokens are exactly the words of at least two letters and digits, in lower case. */
  lemma TokensExactly(text: string, w: string)
    ensures w in TokenSet(text) <==> |w| >= 2 && exists i: nat, j: nat :: StandsAt(text, w, i, j)
  {
    hide StandsAt, MaximalRun;
    var t := AsciiLower(text);
    InRuns(t, |t| + 1, w);
    if w in RunsBefore(t, |t| + 1) {
      var i, j :| 0 <= i < j <= |t| && j < |t| + 1 && MaximalRun(t, i, j) && w == t[i..j];
      StandsIsRun(text, w, i, j);
      assert StandsAt(text, w, i, j);
    }
    if i: nat, j: nat :| StandsAt(text, w, i, j) {
      StandsIsRun(text, w, i, j);
      RunBounds(t, i, j);
    }
  }

  lemma RunBounds(t: string, i: int, j: int)
    requires MaximalRun(t, i, j)
    ensures 0 <= i < j <= |t|
  {}

  /** Case does not matter. */
  lemma CaseIgnored(x: string, y: string)
    requires AsciiLower(x) == AsciiLower(y)
    ensures TokenSet(x) == TokenSet(y)
  {}

  /** Two texts with tokens are as far apart as the share of tokens that only one of them has; a text without
      tokens is at distance one from every text with some, and at distance zero from the others. */
  lemma DistanceExactly(x: string, y: string)
    ensures var (a, b) := (TokenSet(x), TokenSet(y));
      var d := CommunicationDistance(x, y);
      if a == {} || b == {} then d == (if a == b then 0.0 else 1.0)
      else |a + b| > 0 && d * |a + b| as real == |a + b| as real - |a * b| as real
  {
    hide TokenSet;
    var (a, b) := (TokenSet(x), TokenSet(y));
    if a != {} && b != {} {
      var t :| t in a;
      assert t in a + b;
      SubsetSize(a * b, a + b);
      var i, u := |a * b| as real, |a + b| as real;
      assert 0.0 <= i <= u && u > 0.0;
      ShareInRange(i, u);
    }
  }

  lemma ShareInRange(i: real, u: real)
    requires 0.0 <= i <= u && u > 0.0
    ensures 0.0 <= 1.0 - i / u <= 1.0 && Clamp(1.0 - i / u) * u == u - i
  {
    var q := i / u;
    assert q * u == i;
    assert q >= 0.0;
    Divide(q, 1.0, u);
  }

  /** The plan carries the first run id that is not empty. */
  lemma {:induction false} FirstRunExactly(cs: seq<Communication>)
    ensures var id := FirstRunId(cs);
      || (id == "" && forall i :: 0 <= i < |cs| ==> cs[i].runId == "")
      || exists i :: 0 <= i < |cs| && cs[i].runId == id && id != "" && forall j :: 0 <= j < i ==> cs[j].runId == ""
  {
    if |cs| > 0 {
      var n := |cs| - 1;
      var init := cs[..n];
      FirstRunExactly(init);
      var id := FirstRunId(init);
      if id != "" {
        var i :| 0 <= i < n && init[i].runId == id && forall j :: 0 <= j < i ==> init[j].runId == "";
        assert cs[i].runId == id;
        forall j | 0 <= j < i ensures cs[j].runId == "" { assert cs[j] == init[j]; }
      } else {
        forall j | 0 <= j < n ensures cs[j].runId == "" { assert cs[j] == init[j]; }
        assert cs[n].runId == FirstRunId(cs);
      }
    }
  }
}
