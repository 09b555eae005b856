/** The deterministic repair, its one-hunk diff, and whether the fallback applier carries it out. */
module Repair {
  import opened Text
  import opened Patch
  import opened PatchLaws

  /** `replacements` of `_repair_text`, tried in order. */
  const REPLACEMENTS: seq<(string, string)> := [
    ("return a - b", "return a + b"),
    ("return x - y", "return x + y"),
    ("return False", "return True"),
    ("return None", "return True")]

  function RepairWith(replacements: seq<(string, string)>, text: string): string {
    if |replacements| == 0 then text
    else if Contains(replacements[0].0, text) then ReplaceFirst(text, replacements[0].0, replacements[0].1)
    else RepairWith(replacements[1..], text)
  }

  /** `_repair_text` */
  function RepairText(text: string): string { RepairWith(REPLACEMENTS, text) }

  /** The replacement that `_repair_text` uses. */
  function Chosen(replacements: seq<(string, string)>, text: string): Option<(string, string)> {
    if |replacements| == 0 then None
    else if Contains(replacements[0].0, text) then Some(replacements[0])
    else Chosen(replacements[1..], text)
  }

  /** A needle of one line whose first character is the same as that of its replacement. */
  predicate OneLiner(p: (string, string)) {
    p.0 != "" && p.1 != "" && p.0[0] == p.1[0] == 'r' && '\n' !in p.0 && '\n' !in p.1 && '\r' !in p.1
  }

  lemma ReplacementsAreOneLiners()
    ensures forall i :: 0 <= i < |REPLACEMENTS| ==> OneLiner(REPLACEMENTS[i])
  {}

  lemma {:induction false} ChosenRepair(replacements: seq<(string, string)>, text: string)
    requires RepairWith(replacements, text) != text
    requires forall i :: 0 <= i < |replacements| ==> OneLiner(replacements[i])
    ensures Chosen(replacements, text).Some?
    ensures var p := Chosen(replacements, text).value;
      OneLiner(p) && Contains(p.0, text) && RepairWith(replacements, text) == ReplaceFirst(text, p.0, p.1)
    decreases |replacements|
  {
    hide Contains, ReplaceFirst, OneLiner;
    if !Contains(replacements[0].0, text) {
      ChosenRepair(replacements[1..], text);
    }
  }

  // ---- lines --------------------------------------------------------------------------------------------------------

  predicate Terminated(line: string) { line != "" && line[|line| - 1] == '\n' }

  /** One line: no line break except possibly at its end. */
  predicate OneLine(line: string) {
    line != "" && forall i :: 0 <= i < |line| - 1 ==> line[i] != '\n'
  }

  /** What splitting a text into lines yields: only the last line may lack its line break. */
  predicate LineList(lines: seq<string>) {
    |lines| == 0 || (OneLine(lines[0]) && (Terminated(lines[0]) || |lines| == 1) && LineList(lines[1..]))
  }

  lemma MoreLines(line: string, rest: seq<string>)
    requires OneLine(line) && LineList(rest) && (Terminated(line) || rest == [])
    ensures LineList([line] + rest) && Concat([line] + rest) == line + Concat(rest)
  {
    assert ([line] + rest)[1..] == rest;
  }

  lemma LongerLine(c: char, line: string)
    requires c != '\n' && OneLine(line)
    ensures OneLine([c] + line) && (Terminated([c] + line) <==> Terminated(line))
  {}

  lemma LongerFirstLine(c: char, first: string, more: seq<string>)
    requires c != '\n' && LineList([first] + more)
    ensures LineList([[c] + first] + more) && Concat([[c] + first] + more) == [c] + Concat([first] + more)
  {
    FewerLines(first, more);
    LongerLine(c, first);
    hide Concat, LineList, OneLine, Terminated;
    MoreLines([c] + first, more);
    assert [c] + (first + Concat(more)) == [c] + first + Concat(more);
  }

  lemma FewerLines(line: string, rest: seq<string>)
    requires LineList([line] + rest)
    ensures OneLine(line) && (Terminated(line) || rest == []) && LineList(rest)
    ensures Concat([line] + rest) == line + Concat(rest)
  {
    assert ([line] + rest)[1..] == rest;
  }

  lemma {:induction false} LinesShape(text: string)
    ensures LineList(Lines(text)) && Concat(Lines(text)) == text
    decreases |text|
  {
    hide Concat, LineList, OneLine;
    if text == "" {
      NoLines();
    } else {
      var rest := Lines(text[1..]);
      LinesShape(text[1..]);
      assert text == [text[0]] + text[1..];
      if text[0] == '\n' {
        assert OneLine("\n") by { NewlineIsLine(); }
        MoreLines("\n", rest);
      } else if rest == [] {
        assert OneLine(text) && LineList([]) by { SingleCharacter(text); NoLines(); }
        MoreLines(text, []);
        assert [text] + [] == [text] && text + Concat([]) == text by { NoLines(); }
      } else {
        assert rest == [rest[0]] + rest[1..];
        LongerFirstLine(text[0], rest[0], rest[1..]);
      }
    }
  }

  lemma NoLines()
    ensures LineList([]) && Concat([]) == ""
  {}

  lemma NewlineIsLine()
    ensures OneLine("\n")
  {}

  lemma SingleCharacter(text: string)
    requires |text| == 1
    ensures OneLine(text)
  {}

  lemma {:induction false} LinesOfLine(line: string, more: string)
    requires OneLine(line) && (Terminated(line) || more == "")
    ensures Lines(line + more) == [line] + Lines(more)
    decreases |line|
  {
    var text := line + more;
    if |line| == 1 {
      assert text[1..] == more && text[0] == line[0];
      if line[0] == '\n' {
        assert line == "\n";
      } else {
        assert Lines(more) == [] && text == line;
      }
    } else {
      assert text[1..] == line[1..] + more && text[0] == line[0] != '\n';
      LinesOfLine(line[1..], more);
      assert [line[0]] + line[1..] == line;
    }
  }

  /** Printing a list of lines and splitting again gives the list back. */
  lemma {:induction false} LinesConcat(lines: seq<string>)
    requires LineList(lines)
    ensures Lines(Concat(lines)) == lines
    decreases |lines|
  {
    hide Lines;
    if |lines| > 0 {
      LinesConcat(lines[1..]);
      if |lines| == 1 { assert Concat(lines[1..]) == ""; }
      LinesOfLine(lines[0], Concat(lines[1..]));
      assert lines == [lines[0]] + lines[1..];
    } else {
      assert Lines("") == [];
    }
  }

  lemma {:induction false} ConcatAppend(a: seq<string>, b: seq<string>)
    ensures Concat(a + b) == Concat(a) + Concat(b)
    decreases |a|
  {
    if |a| == 0 {
      assert a + b == b;
    } else {
      assert (a + b)[1..] == a[1..] + b;
      ConcatAppend(a[1..], b);
    }
  }

  // ---- the first match lies in one line -----------------------------------------------------------------------------

  lemma FindAt(needle: string, text: string, i: nat)
    requires OccursAt(needle, text, i) && forall k :: 0 <= k < i ==> !OccursAt(needle, text, k)
    ensures Find(needle, text) == Some(i)
  {}

  lemma FindInFirst(needle: string, a: string, b: string)
    requires Contains(needle, a)
    ensures Find(needle, a + b) == Find(needle, a)
  {
    var i := Find(needle, a).value;
    assert (a + b)[i..i + |needle|] == a[i..i + |needle|];
    forall k | 0 <= k < i ensures !OccursAt(needle, a + b, k) {
      assert (a + b)[k..k + |needle|] == a[k..k + |needle|];
      assert !OccursAt(needle, a, k);
    }
    FindAt(needle, a + b, i);
  }

  lemma OccursShift(needle: string, a: string, b: string, k: int)
    requires k >= |a|
    ensures OccursAt(needle, a + b, k) <==> OccursAt(needle, b, k - |a|)
  {
    if k + |needle| <= |a| + |b| {
      assert (a + b)[k..k + |needle|] == b[k - |a|..k - |a| + |needle|];
    }
  }

  lemma NoOccurrenceAcross(needle: string, a: string, b: string, k: int)
    requires needle != "" && '\n' !in needle && !Contains(needle, a) && (Terminated(a) || b == "")
    requires 0 <= k < |a|
    ensures !OccursAt(needle, a + b, k)
  {
    var t := a + b;
    if k + |needle| <= |a| {
      assert t[k..k + |needle|] == a[k..k + |needle|];
      assert !OccursAt(needle, a, k);
    } else if k + |needle| <= |t| {
      assert t[k..k + |needle|][|a| - 1 - k] == a[|a| - 1] == '\n';
    }
  }

  lemma FindInRest(needle: string, a: string, b: string)
    requires needle != "" && '\n' !in needle && !Contains(needle, a) && (Terminated(a) || b == "")
    ensures Find(needle, a + b) == match Find(needle, b) case None => None case Some(i) => Some(|a| + i)
  {
    forall k | 0 <= k < |a| ensures !OccursAt(needle, a + b, k) { NoOccurrenceAcross(needle, a, b, k); }
    forall k | k >= |a| ensures OccursAt(needle, a + b, k) <==> OccursAt(needle, b, k - |a|) {
      OccursShift(needle, a, b, k);
    }
    match Find(needle, b)
    case None =>
      forall k | k >= 0 ensures !OccursAt(needle, a + b, k) {
        if k >= |a| { assert !OccursAt(needle, b, k - |a|); }
      }
    case Some(i) =>
      assert OccursAt(needle, a + b, |a| + i);
      forall k | 0 <= k < |a| + i ensures !OccursAt(needle, a + b, k) {
        if k >= |a| { assert !OccursAt(needle, b, k - |a|); }
      }
      FindAt(needle, a + b, |a| + i);
  }

  /** The index of the first line that contains the needle. */
  function FirstWith(lines: seq<string>, needle: string): (k: nat)
    ensures k <= |lines| && (k < |lines| ==> Contains(needle, lines[k]))
  {
    if |lines| == 0 then 0 else if Contains(needle, lines[0]) then 0 else 1 + FirstWith(lines[1..], needle)
  }

  lemma {:induction false} MatchInLine(lines: seq<string>, needle: string)
    requires LineList(lines) && needle != "" && '\n' !in needle && Contains(needle, Concat(lines))
    ensures FirstWith(lines, needle) < |lines|
    ensures var k := FirstWith(lines, needle);
      Find(needle, Concat(lines)) == Some(|Concat(lines[..k])| + Find(needle, lines[k]).value)
    decreases |lines|
  {
    hide Find, OneLine;
    if |lines| == 0 {
      EmptyHasNone(needle, Concat(lines));
    } else {
      var rest := lines[1..];
      if Contains(needle, lines[0]) {
        FindInFirst(needle, lines[0], Concat(rest));
        assert lines[..0] == [];
      } else {
        if |rest| == 0 { assert Concat(rest) == ""; }
        FindInRest(needle, lines[0], Concat(rest));
        MatchInLine(rest, needle);
        var k := FirstWith(rest, needle);
        assert lines[..k + 1] == [lines[0]] + rest[..k];
        assert lines[..k + 1][1..] == rest[..k];
      }
    }
  }

  lemma EmptyHasNone(needle: string, text: string)
    requires needle != "" && |text| == 0
    ensures Find(needle, text) == None
  {}

  // ---- the site of the repair ---------------------------------------------------------------------------------------

  /** The text is `a + c + line + r`, and the first match of the needle lies in `line`, at `off`. */
  ghost predicate Site(text: string, a: string, c: string, line: string, r: string, needle: string, off: nat) {
    && text == a + c + line + r
    && OccursAt(needle, line, off)
    && Find(needle, text) == Some(|a| + |c| + off)
  }

  lemma SliceOfSlice(s: string, q: nat, m: nat, u: nat, n: nat)
    requires q + m <= |s| && u + n <= m
    ensures s[q..q + m][u..u + n] == s[q + u..q + u + n]
  {
    var whole := s[q..q + m];
    var a, b := whole[u..u + n], s[q + u..q + u + n];
    forall k | 0 <= k < n ensures a[k] == b[k] {
      assert a[k] == whole[u + k] && whole[u + k] == s[q + (u + k)];
    }
    assert a == b;
  }

  /** A block that begins with the context and the changed line occurs nowhere before that context,
      because an earlier occurrence would contain an earlier match of the needle. */
  lemma NoEarlierBlock(text: string, a: string, c: string, line: string, r: string, needle: string, off: nat,
                       more: string, q: int)
    requires Site(text, a, c, line, r, needle, off)
    requires OccursAt(c + line + more, text, q)
    ensures q >= |a|
  {
    var block := c + line + more;
    var i := q + |c| + off;
    assert block[|c| + off..|c| + off + |needle|] == line[off..off + |needle|];
    SliceOfSlice(text, q, |block|, |c| + off, |needle|);
    assert OccursAt(needle, text, i);
  }

  /** So the block is found first exactly where the context of the changed line begins. */
  lemma BlockFound(text: string, a: string, c: string, line: string, r: string, needle: string, off: nat,
                   more: string, tail: string, new_: string)
    requires Site(text, a, c, line, r, needle, off) && r == more + tail
    ensures Contains(c + line + more, text)
    ensures ReplaceFirst(text, c + line + more, new_) == a + new_ + tail
  {
    var block := c + line + more;
    assert text == a + block + tail;
    assert text[|a|..|a| + |block|] == block;
    forall k | 0 <= k < |a| ensures !OccursAt(block, text, k) {
      if OccursAt(block, text, k) { NoEarlierBlock(text, a, c, line, r, needle, off, more, k); }
    }
    FindAt(block, text, |a|);
    assert text[..|a|] == a && text[|a| + |block|..] == tail;
  }

  lemma SiteReplaced(text: string, a: string, c: string, line: string, r: string, p: (string, string), off: nat)
    requires Site(text, a, c, line, r, p.0, off) && Find(p.0, line) == Some(off)
    ensures ReplaceFirst(text, p.0, p.1) == a + c + ReplaceFirst(line, p.0, p.1) + r
  {
    hide Find;
    var i, n := |a| + |c| + off, |p.0|;
    var l, l' := line[..off], line[off + n..];
    assert line == l + p.0 + l';
    var left, right := a + c + l, l' + r;
    assert text == left + p.0 + right && |left| == i;
    assert text[..i] == left && text[i + n..] == right;
    assert left + p.1 + right == a + c + (l + p.1 + l') + r;
  }

  /** The repaired line starts with `++ ` (or `-- `) exactly if the original line does. */
  lemma SameStart(line: string, p: (string, string), mark: string)
    requires OneLiner(p) && Contains(p.0, line) && |mark| == 3 && 'r' !in mark
    ensures StartsWith(ReplaceFirst(line, p.0, p.1), mark) <==> StartsWith(line, mark)
  {
    var off := Find(p.0, line).value;
    var fixed := ReplaceFirst(line, p.0, p.1);
    assert line[off] == line[off..off + |p.0|][0] == 'r';
    assert fixed[off] == 'r';
    if off < 3 {
      assert mark[off] in mark;
    } else {
      assert fixed[..3] == line[..3];
    }
  }

  // ---- the diff -----------------------------------------------------------------------------------------------------

  function Prefixed(lines: seq<string>): (r: seq<string>)
    ensures |r| == |lines| && forall i :: 0 <= i < |r| ==> r[i] == " " + lines[i]
  {
    if |lines| == 0 then [] else [" " + lines[0]] + Prefixed(lines[1..])
  }

  /** The changed line with up to three lines of context on each side. */
  datatype Hunk = Hunk(before: seq<string>, line: string, after: seq<string>)

  function HunkAt(lines: seq<string>, k: nat): Hunk
    requires k < |lines|
  {
    Hunk(lines[if k < 3 then 0 else k - 3..k], lines[k], lines[k + 1..if k + 4 < |lines| then k + 4 else |lines|])
  }

  /** The two file headers and the `@@` line. */
  function Headers(path: string, at: string): seq<string> {
    ["--- a/" + path + "\n", Header(path), at]
  }

  /** The pieces of the one-hunk unified diff; `at` is its `@@` line. */
  function DiffPieces(path: string, at: string, h: Hunk, fixed: string): seq<string> {
    Headers(path, at) + Prefixed(h.before) + ["-" + h.line, "+" + fixed] + Prefixed(h.after)
  }

  /** The hunk around the line that `_repair_text` changes, and that line repaired. */
  function RepairHunk(text: string): Option<(Hunk, string)> {
    match Chosen(REPLACEMENTS, text)
    case None => None
    case Some(p) =>
      var k := FirstWith(Lines(text), p.0);
      if k < |Lines(text)| then Some((HunkAt(Lines(text), k), ReplaceFirst(Lines(text)[k], p.0, p.1))) else None
  }

  /** The printed diff of a text against its repair. */
  function RepairDiff(path: string, at: string, text: string): string {
    match RepairHunk(text)
    case None => ""
    case Some((h, fixed)) => Concat(DiffPieces(path, at, h, fixed))
  }

  predicate HunkHeader(at: string) { StartsWith(at, "@@") && OneLine(at) && Terminated(at) }

  /** The state after collecting context lines. */
  function WithContext(st: State, context: seq<string>): State {
    st.(oldLines := st.oldLines + context, newLines := st.newLines + context)
  }

  lemma WithContextStep(st: State, x: string, rest: seq<string>)
    ensures WithContext(WithContext(st, [x]), rest) == WithContext(st, [x] + rest)
    ensures WithContext(st, []) == st
  {
    assert st.oldLines + [x] + rest == st.oldLines + ([x] + rest);
    assert st.newLines + [x] + rest == st.newLines + ([x] + rest);
    assert st.oldLines + [] == st.oldLines && st.newLines + [] == st.newLines;
  }

  lemma {:induction false} ContextLines(st: State, context: seq<string>, rest: seq<string>)
    ensures AfterLines(st, Prefixed(context) + rest) == AfterLines(WithContext(st, context), rest)
    decreases |context|
  {
    hide AfterLine, Flushed;
    if |context| == 0 {
      assert Prefixed(context) + rest == rest;
      WithContextStep(st, "", []);
    } else {
      var x, more := context[0], context[1..];
      var later := Prefixed(more) + rest;
      assert Prefixed(context) + rest == [" " + x] + later;
      hide Prefixed;
      ContextFirst(st, x, later);
      hide AfterLines, WithContext;
      ContextLines(WithContext(st, [x]), more, rest);
      WithContextStep(st, x, more);
      assert context == [x] + more;
    }
  }

  lemma ContextFirst(st: State, x: string, later: seq<string>)
    ensures AfterLines(st, [" " + x] + later) == AfterLines(WithContext(st, [x]), later)
  {
    hide AfterLine, Flushed;
    var first := " " + x;
    var lines := [first] + later;
    assert lines[0] == first && lines[1..] == later;
    ContextLine(st, x);
  }

  lemma SkippedLine(st: State, line: string)
    requires StartsWith(line, "--- ") || StartsWith(line, "@@")
    ensures AfterLine(st, line) == (st, true)
  {
    assert line[0] == '-' || line[0] == '@';
  }

  /** The three header lines and the leading context. */
  lemma DiffHead(files: map<string, string>, path: string, at: string, before: seq<string>, rest: seq<string>)
    requires PathText(path) && HunkHeader(at)
    ensures AfterLines(Initial(files), Headers(path, at) + Prefixed(before) + rest)
         == AfterLines(State(files, Some(path), before, before, false), rest)
  {
    hide AfterLine, Header, Prefixed;
    var l0 := Headers(path, at) + Prefixed(before) + rest;
    var l1 := [Header(path), at] + Prefixed(before) + rest;
    var l2, l3 := [at] + Prefixed(before) + rest, Prefixed(before) + rest;
    assert l0[0] == "--- a/" + path + "\n" && l0[1..] == l1 && l1[0] == Header(path) && l1[1..] == l2;
    assert l2[0] == at && l2[1..] == l3;
    var s0, s1 := Initial(files), State(files, Some(path), [], [], false);
    assert StartsWith(l0[0], "--- ") by { assert l0[0][..4] == "--- "; }
    SkippedLine(s0, l0[0]);
    assert AfterLines(s0, l0) == AfterLines(s0, l1);
    HeaderLine(s0, path);
    assert AfterLines(s0, l1) == AfterLines(s1, l2);
    SkippedLine(s1, at);
    assert AfterLines(s1, l2) == AfterLines(s1, l3);
    hide AfterLines;
    ContextLines(s1, before, rest);
    assert [] + before == before;
  }

  // ---- the applier on the printed diff ------------------------------------------------------------------------------

  /** What the applier does after the leading context of a terminated changed line. */
  lemma ChangedLines(st: State, line: string, fixed: string, after: seq<string>)
    requires !StartsWith(fixed, "++ ")
    ensures AfterLines(st, ["-" + line, "+" + fixed] + Prefixed(after))
         == Flushed(WithContext(st.(oldLines := if StartsWith(line, "-- ") then st.oldLines else st.oldLines + [line],
                                    newLines := st.newLines + [fixed]), after))
  {
    hide AfterLine, Flushed, Prefixed;
    var l0, l1, l2 := ["-" + line, "+" + fixed] + Prefixed(after), ["+" + fixed] + Prefixed(after), Prefixed(after);
    var s1 := st.(oldLines := if StartsWith(line, "-- ") then st.oldLines else st.oldLines + [line]);
    var s2 := s1.(newLines := st.newLines + [fixed]);
    RemovedLine(st, line);
    assert l0[0] == "-" + line && l0[1..] == l1;
    assert AfterLines(st, l0) == AfterLines(s1, l1);
    AddedLine(s1, fixed);
    assert l1[0] == "+" + fixed && l1[1..] == l2;
    assert AfterLines(s1, l1) == AfterLines(s2, l2);
    ContextLines(s2, after, []);
    assert l2 + [] == l2;
  }

  lemma ConcatThree(a: seq<string>, x: string, b: seq<string>)
    ensures Concat(a + [x] + b) == Concat(a) + x + Concat(b)
    ensures Concat(a + b) == Concat(a) + Concat(b)
  {
    ConcatAppend(a + [x], b);
    ConcatAppend(a, [x]);
    ConcatOne(x);
    ConcatAppend(a, b);
  }

  /** Everything that is known about a repair: where it is, and what it makes of the text. */
  ghost predicate RepairSite(text: string, repaired: string, h: Hunk, fixed: string, a: string, tail: string,
                             p: (string, string), off: nat) {
    && OneLiner(p) && Find(p.0, h.line) == Some(off) && fixed == ReplaceFirst(h.line, p.0, p.1)
    && Site(text, a, Concat(h.before), h.line, Concat(h.after) + tail, p.0, off)
    && repaired == a + Concat(h.before) + fixed + (Concat(h.after) + tail)
    && OneLine(h.line) && (Terminated(h.line) || (h.after == [] && tail == ""))
    && '\r' !in text
  }

  /** The three ways in which the printed diff stops being a diff of the changed line. */
  predicate Travels(line: string) {
    Terminated(line) && !StartsWith(line, "-- ") && !StartsWith(line, "++ ")
  }

  lemma FixedStarts(text: string, repaired: string, h: Hunk, fixed: string, a: string, tail: string,
                    p: (string, string), off: nat)
    requires RepairSite(text, repaired, h, fixed, a, tail, p, off)
    ensures StartsWith(fixed, "++ ") <==> StartsWith(h.line, "++ ")
    ensures fixed != "" && |repaired| == |text| - |h.line| + |fixed| && '\r' !in repaired && h.line != ""
  {
    assert Contains(p.0, h.line);
    SameStart(h.line, p, "++ ");
    var i, n := off, |p.0|;
    assert fixed == h.line[..i] + p.1 + h.line[i + n..];
    forall c | c in repaired ensures c != '\r' {
      assert c in text || c in p.1;
    }
  }

  /** The normal case: the block is found at its place and replaced, and nothing else changes. */
  lemma GoodHunk(files: map<string, string>, path: string, repaired: string, h: Hunk, fixed: string,
                 a: string, tail: string, p: (string, string), off: nat)
    requires path in files && RepairSite(ReadText(files[path]), repaired, h, fixed, a, tail, p, off)
    requires Travels(h.line)
    ensures AfterLines(State(files, Some(path), h.before, h.before, false),
                       ["-" + h.line, "+" + fixed] + Prefixed(h.after))
         == (State(files[path := repaired], Some(path), [], [], true), true)
  {
    hide Prefixed, AfterLines, Site, OneLiner, Find, ReplaceFirst, OneLine, Terminated, StartsWith;
    var text := ReadText(files[path]);
    FixedStarts(text, repaired, h, fixed, a, tail, p, off);
    ChangedLines(State(files, Some(path), h.before, h.before, false), h.line, fixed, h.after);
    assert AfterLines(State(files, Some(path), h.before, h.before, false),
                      ["-" + h.line, "+" + fixed] + Prefixed(h.after))
        == Flushed(State(files, Some(path), h.before + [h.line] + h.after, h.before + [fixed] + h.after, false));
    var c, more := Concat(h.before), Concat(h.after);
    ConcatThree(h.before, h.line, h.after);
    ConcatThree(h.before, fixed, h.after);
    assert Site(text, a, c, h.line, more + tail, p.0, off) && repaired == a + c + fixed + (more + tail);
    hide Concat, RepairSite, Flushed, ReadText, WithContext, Rewrite, Contains;
    BlockFound(text, a, c, h.line, more + tail, p.0, off, more, tail, c + fixed + more);
    RewriteFound(files[path], c + h.line + more, c + fixed + more);
    Regroup(a, c, fixed, more, tail);
    BlockFlushed(files, path, h.before + [h.line] + h.after, h.before + [fixed] + h.after, repaired);
  }

  lemma Regroup(a: string, c: string, x: string, more: string, tail: string)
    ensures a + (c + x + more) + tail == a + c + x + (more + tail)
  {}

  lemma BlockFlushed(files: map<string, string>, path: string, old_: seq<string>, new_: seq<string>, content: string)
    requires path in files && |old_| > 0 && Rewrite(files[path], Concat(old_), Concat(new_)) == Some(content)
    ensures Flushed(State(files, Some(path), old_, new_, false))
         == (State(files[path := content], Some(path), [], [], true), true)
  {
    hide Rewrite, Concat;
  }

  lemma ReplaceLength(text: string, block: string, new_: string)
    requires Contains(block, text)
    ensures |ReplaceFirst(text, block, new_)| == |text| - |block| + |new_|
  {}

  lemma {:induction false} ReadTwice(text: string)
    requires '\r' !in text
    ensures ReadText(text) == text
  {
    if text != "" {
      assert text == [text[0]] + text[1..];
      ReadTwice(text[1..]);
    }
  }

  /** A file that was left alone does not hold the repaired text. */
  lemma UntouchedIsUnrepaired(raw: string, repaired: string)
    requires '\r' !in repaired && repaired != ReadText(raw)
    ensures raw != repaired
  {
    ReadTwice(repaired);
  }

  /** A changed line that starts with `-- ` is skipped: its repair is inserted or nothing is done. */
  lemma DashHunk(files: map<string, string>, path: string, repaired: string, h: Hunk, fixed: string,
                 a: string, tail: string, p: (string, string), off: nat)
    requires path in files && RepairSite(ReadText(files[path]), repaired, h, fixed, a, tail, p, off)
    requires repaired != ReadText(files[path]) && StartsWith(h.line, "-- ") && !StartsWith(h.line, "++ ")
    ensures var st := AfterLines(State(files, Some(path), h.before, h.before, false),
                                 ["-" + h.line, "+" + fixed] + Prefixed(h.after)).0;
      path in st.files && st.files[path] != repaired
  {
    hide Prefixed, AfterLines, Site, OneLiner, Find, OneLine, StartsWith;
    var text := ReadText(files[path]);
    FixedStarts(text, repaired, h, fixed, a, tail, p, off);
    hide RepairSite;
    UntouchedIsUnrepaired(files[path], repaired);
    ChangedLines(State(files, Some(path), h.before, h.before, false), h.line, fixed, h.after);
    ConcatThree(h.before, fixed, h.after);
    var block, new_ := Concat(h.before + h.after), Concat(h.before + [fixed] + h.after);
    hide Concat;
    RewriteReplacesFirst(files[path], block, new_);
    if Contains(block, text) {
      RewriteFound(files[path], block, new_);
      ReplaceLength(text, block, new_);
    }
  }

  lemma FlushSame(files: map<string, string>, path: string, target: string, lines: seq<string>)
    requires path in files && '\r' !in files[path]
    ensures var st := Flushed(State(files, Some(target), lines, lines, true)).0;
      path in st.files && st.files[path] == files[path]
  {
    if target == path && |lines| > 0 {
      var block := Concat(lines);
      ReadTwice(files[path]);
      RewriteReplacesFirst(files[path], block, block);
      if Contains(block, files[path]) {
        RewriteFound(files[path], block, block);
        ReplaceSame(files[path], block);
      }
    }
  }

  lemma ReplaceSame(text: string, block: string)
    ensures ReplaceFirst(text, block, block) == text
  {
    if Contains(block, text) {
      var i := Find(block, text).value;
      assert text == text[..i] + text[i..i + |block|] + text[i + |block|..];
    }
  }

  /** The added line is taken for a header: the removed line is flushed alone, and the trailing
      context is flushed against whatever path the added line spells. */
  lemma PlusLines(st: State, line: string, fixed: string, after: seq<string>, flushed: State) returns (target: string)
    requires !StartsWith(line, "-- ") && StartsWith(fixed, "++ ")
    requires Flushed(st.(oldLines := st.oldLines + [line])) == (flushed, true)
    requires flushed.oldLines == [] && flushed.newLines == []
    ensures AfterLines(st, ["-" + line, "+" + fixed] + Prefixed(after))
         == Flushed(WithContext(flushed.(current := Some(target)), after))
  {
    hide Prefixed, AfterLine, Flushed, StartsWith;
    var l0, l1, l2 := ["-" + line, "+" + fixed] + Prefixed(after), ["+" + fixed] + Prefixed(after), Prefixed(after);
    var s1 := st.(oldLines := st.oldLines + [line]);
    RemovedLine(st, line);
    assert l0[0] == "-" + line && l0[1..] == l1 && AfterLines(st, l0) == AfterLines(s1, l1);
    AddedLine(s1, fixed);
    TargetStep(s1, "+" + fixed);
    target := AfterLine(s1, "+" + fixed).0.current.value;
    var s2 := flushed.(current := Some(target));
    assert l1[0] == "+" + fixed && l1[1..] == l2 && AfterLines(s1, l1) == AfterLines(s2, l2);
    ContextLines(s2, after, []);
    assert l2 + [] == l2;
  }

  /** Flushing the leading context with the removed line deletes that line from the file. */
  lemma DeletedLine(files: map<string, string>, path: string, repaired: string, h: Hunk, fixed: string,
                    a: string, tail: string, p: (string, string), off: nat)
    requires path in files && RepairSite(ReadText(files[path]), repaired, h, fixed, a, tail, p, off)
    ensures Flushed(State(files, Some(path), h.before + [h.line], h.before, false))
         == (State(files[path := a + Concat(h.before) + (Concat(h.after) + tail)], Some(path), [], [], true), true)
  {
    hide OneLiner, OneLine, Find;
    var text, c, rest := ReadText(files[path]), Concat(h.before), Concat(h.after) + tail;
    assert Site(text, a, c, h.line, rest, p.0, off);
    hide RepairSite, Site;
    BlockFound(text, a, c, h.line, rest, p.0, off, "", rest, c);
    assert c + h.line + "" == c + h.line;
    ConcatAppend(h.before, [h.line]);
    ConcatOne(h.line);
    RewriteFound(files[path], c + h.line, c);
    hide Rewrite, Concat;
  }

  /** A changed line that starts with `++ ` ends the hunk early: the line is deleted. */
  lemma PlusHunk(files: map<string, string>, path: string, repaired: string, h: Hunk, fixed: string,
                 a: string, tail: string, p: (string, string), off: nat)
    requires path in files && RepairSite(ReadText(files[path]), repaired, h, fixed, a, tail, p, off)
    requires StartsWith(h.line, "++ ")
    ensures var st := AfterLines(State(files, Some(path), h.before, h.before, false),
                                 ["-" + h.line, "+" + fixed] + Prefixed(h.after)).0;
      path in st.files && st.files[path] != repaired
  {
    FixedStarts(ReadText(files[path]), repaired, h, fixed, a, tail, p, off);
    assert !StartsWith(h.line, "-- ") by { assert h.line[0] == '+'; }
    CutIsShorter(ReadText(files[path]), repaired, h, fixed, a, tail, p, off);
    DeletedLine(files, path, repaired, h, fixed, a, tail, p, off);
    hide RepairSite, Concat, Flushed, StartsWith, Prefixed, AfterLines;
    var cut := a + Concat(h.before) + (Concat(h.after) + tail);
    var flushed := State(files[path := cut], Some(path), [], [], true);
    var target := PlusLines(State(files, Some(path), h.before, h.before, false), h.line, fixed, h.after, flushed);
    assert [] + h.after == h.after;
    FlushSame(flushed.files, path, target, h.after);
  }

  lemma TargetStep(st: State, line: string)
    requires IsTarget(line) && Flushed(st).1
    ensures AfterLine(st, line) == (Flushed(st).0.(current := AfterLine(st, line).0.current), true)
    ensures AfterLine(st, line).0.current.Some?
  {
    hide Flushed, TargetText, WithoutPrefix;
  }

  lemma CutIsShorter(text: string, repaired: string, h: Hunk, fixed: string, a: string, tail: string,
                     p: (string, string), off: nat)
    requires RepairSite(text, repaired, h, fixed, a, tail, p, off) && fixed != ""
    ensures var cut := a + Concat(h.before) + (Concat(h.after) + tail); |cut| < |repaired| && '\r' !in cut
  {
    hide OneLiner, Find, ReplaceFirst, Concat, OneLine;
    var cut := a + Concat(h.before) + (Concat(h.after) + tail);
    forall c | c in cut ensures c in text {}
  }

  /** An unterminated changed line is printed on one line with its repair; that block occurs nowhere. */
  lemma MergedHunk(files: map<string, string>, path: string, repaired: string, h: Hunk, fixed: string,
                   a: string, tail: string, p: (string, string), off: nat)
    requires path in files && RepairSite(ReadText(files[path]), repaired, h, fixed, a, tail, p, off)
    requires repaired != ReadText(files[path]) && !Terminated(h.line)
    ensures var st := AfterLines(State(files, Some(path), h.before, h.before, false), ["-" + (h.line + "+" + fixed)]).0;
      path in st.files && st.files[path] != repaired
  {
    var text, c := ReadText(files[path]), Concat(h.before);
    var line := h.line + "+" + fixed;
    FixedStarts(text, repaired, h, fixed, a, tail, p, off);
    UntouchedIsUnrepaired(files[path], repaired);
    MergedAbsent(text, repaired, h, fixed, a, tail, p, off);
    ConcatAppend(h.before, [line]);
    ConcatOne(line);
    hide Site, OneLiner, OneLine, Terminated, StartsWith, RepairSite;
    hide Concat, AfterLine, Rewrite, Contains, FirstReplaced;
    RewriteReplacesFirst(files[path], c + line, c);
    RewriteReplacesFirst(files[path], c, c);
    if Contains(c, text) { RewriteFound(files[path], c, c); ReplaceSame(text, c); }
    var st := State(files, Some(path), h.before, h.before, false);
    RemovedLine(st, line);
    var rest := ["-" + line];
    assert rest[0] == "-" + line && rest[1..] == [];
  }

  /** The changed line run together with its replacement occurs nowhere in the text. */
  lemma MergedAbsent(text: string, repaired: string, h: Hunk, fixed: string, a: string, tail: string,
                     p: (string, string), off: nat)
    requires RepairSite(text, repaired, h, fixed, a, tail, p, off) && !Terminated(h.line)
    ensures !Contains(Concat(h.before) + (h.line + "+" + fixed), text)
  {
    var c, more := Concat(h.before), "+" + fixed;
    var line := h.line + "+" + fixed;
    FixedStarts(text, repaired, h, fixed, a, tail, p, off);
    assert c + h.line + more == c + line;
    assert Concat(h.after) + tail == "";
    var block := c + line;
    forall q ensures !OccursAt(block, text, q) {
      if OccursAt(block, text, q) {
        NoEarlierBlock(text, a, c, h.line, Concat(h.after) + tail, p.0, off, more, q);
      }
    }
  }

  // ---- the printed diff, split into lines again ---------------------------------------------------------------------

  /** Complete lines only. */
  predicate FullLines(lines: seq<string>) {
    forall i :: 0 <= i < |lines| ==> OneLine(lines[i]) && Terminated(lines[i])
  }

  lemma {:induction false} FullThenList(a: seq<string>, b: seq<string>)
    requires FullLines(a) && LineList(b)
    ensures LineList(a + b)
    decreases |a|
  {
    hide OneLine, Terminated;
    if |a| == 0 {
      assert a + b == b;
    } else {
      FullThenList(a[1..], b);
      assert (a + b)[1..] == a[1..] + b;
    }
  }

  lemma {:induction false} ListParts(lines: seq<string>, k: nat)
    requires LineList(lines) && k < |lines|
    ensures FullLines(lines[..k]) && OneLine(lines[k]) && (Terminated(lines[k]) || k == |lines| - 1)
    ensures LineList(lines[k + 1..])
  {
    hide OneLine, Terminated;
    if k > 0 {
      ListParts(lines[1..], k - 1);
      assert lines[1..][k - 1] == lines[k] && lines[1..][k..] == lines[k + 1..];
      assert lines[..k] == [lines[0]] + lines[1..][..k - 1];
    }
  }

  lemma {:induction false} ListPrefix(lines: seq<string>, k: nat)
    requires LineList(lines) && k <= |lines|
    ensures LineList(lines[..k])
  {
    hide OneLine, Terminated;
    if k > 0 {
      ListPrefix(lines[1..], k - 1);
      assert lines[..k][1..] == lines[1..][..k - 1];
    }
  }

  lemma {:induction false} PrefixedList(lines: seq<string>)
    requires LineList(lines)
    ensures LineList(Prefixed(lines))
    ensures FullLines(lines) ==> FullLines(Prefixed(lines))
  {
    if |lines| > 0 {
      PrefixedList(lines[1..]);
      LongerLine(' ', lines[0]);
      assert FullLines(lines) ==> FullLines(lines[1..]);
      hide OneLine, Terminated;
      assert Prefixed(lines)[1..] == Prefixed(lines[1..]);
      assert " " + lines[0] == [' '] + lines[0];
    }
  }

  lemma {:induction false} FullIsList(lines: seq<string>)
    requires FullLines(lines)
    ensures LineList(lines)
  {
    FullThenList(lines, []);
    assert lines + [] == lines;
  }

  lemma HeadersAreFull(path: string, at: string)
    requires PathText(path) && HunkHeader(at)
    ensures FullLines(Headers(path, at))
  {
    PathLine("--- a/", path);
    PathLine("+++ b/", path);
    hide OneLine, Terminated;
  }

  lemma PathLine(mark: string, path: string)
    requires '\n' !in mark && '\n' !in path
    ensures OneLine(mark + path + "\n") && Terminated(mark + path + "\n")
  {
    var line := mark + path + "\n";
    forall i | 0 <= i < |line| - 1 ensures line[i] != '\n' {
      assert line[i] in mark || line[i] in path;
    }
  }

  /** A terminated changed line: splitting the diff gives its pieces back. */
  lemma DiffSplits(path: string, at: string, h: Hunk, fixed: string)
    requires PathText(path) && HunkHeader(at) && FullLines(h.before) && LineList(h.after)
    requires OneLine(h.line) && Terminated(h.line) && OneLine(fixed) && Terminated(fixed)
    ensures Lines(Concat(DiffPieces(path, at, h, fixed))) == DiffPieces(path, at, h, fixed)
  {
    HeadersAreFull(path, at);
    FullIsList(h.before);
    PrefixedList(h.before);
    PrefixedList(h.after);
    LongerLine('-', h.line);
    LongerLine('+', fixed);
    hide OneLine, Terminated, Headers, Prefixed, LineList, Concat, Lines;
    var head := Headers(path, at);
    var pair := ["-" + h.line, "+" + fixed];
    assert FullLines(head + Prefixed(h.before) + pair);
    FullThenList(head + Prefixed(h.before) + pair, Prefixed(h.after));
    LinesConcat(DiffPieces(path, at, h, fixed));
  }

  /** An unterminated changed line: the removed and the added line run together. */
  lemma DiffRunsTogether(path: string, at: string, h: Hunk, fixed: string)
    requires PathText(path) && HunkHeader(at) && FullLines(h.before) && h.after == []
    requires OneLine(h.line) && !Terminated(h.line) && OneLine(fixed) && !Terminated(fixed)
    ensures Lines(Concat(DiffPieces(path, at, h, fixed)))
         == Headers(path, at) + Prefixed(h.before) + ["-" + (h.line + "+" + fixed)]
  {
    HeadersAreFull(path, at);
    FullIsList(h.before);
    PrefixedList(h.before);
    var last := "-" + (h.line + "+" + fixed);
    assert OneLine(last) by { RunTogether(h.line, fixed); }
    assert LineList([last]);
    assert last == "-" + h.line + ("+" + fixed);
    hide OneLine, Terminated, Headers, Prefixed, LineList, Lines;
    var head := Headers(path, at) + Prefixed(h.before);
    assert FullLines(head);
    FullThenList(head, [last]);
    LinesConcat(head + [last]);
    assert Prefixed([]) == [];
    assert DiffPieces(path, at, h, fixed) == head + ["-" + h.line, "+" + fixed];
    ConcatAppend(head, ["-" + h.line, "+" + fixed]);
    ConcatAppend(head, [last]);
    assert Concat(["-" + h.line, "+" + fixed]) == last by { ConcatTwo("-" + h.line, "+" + fixed); }
    ConcatOne(last);
  }

  lemma ConcatTwo(x: string, y: string)
    ensures Concat([x, y]) == x + y
  {
    assert [x, y][1..] == [y];
    ConcatOne(y);
  }

  lemma RunTogether(line: string, fixed: string)
    requires OneLine(line) && !Terminated(line) && OneLine(fixed) && !Terminated(fixed)
    ensures OneLine("-" + (line + "+" + fixed))
  {
    var last := "-" + (line + "+" + fixed);
    assert '\n' !in line && '\n' !in fixed;
    forall i | 0 <= i < |last| - 1 ensures last[i] != '\n' {
      assert last[i] in line || last[i] in fixed || last[i] == '-' || last[i] == '+';
    }
  }

  lemma CutOut(s: string, i: nat, n: nat)
    requires i + n <= |s|
    ensures s == s[..i] + s[i..i + n] + s[i + n..]
  {
    assert s == s[..i] + s[i..];
    assert s[i..] == s[i..i + n] + s[i + n..];
  }

  lemma FixedLineShape(line: string, p: (string, string))
    requires OneLiner(p) && Contains(p.0, line) && OneLine(line)
    ensures OneLine(ReplaceFirst(line, p.0, p.1))
    ensures Terminated(ReplaceFirst(line, p.0, p.1)) <==> Terminated(line)
  {
    var i, n := Find(p.0, line).value, |p.0|;
    var l, l' := line[..i], line[i + n..];
    CutOut(line, i, n);
    assert line[i..i + n] == p.0;
    assert ReplaceFirst(line, p.0, p.1) == l + p.1 + l';
    hide Find, ReplaceFirst, Contains;
    MiddleReplaced(l, p.0, p.1, l');
  }

  /** Replacing a middle part without line breaks leaves one line one line. */
  lemma MiddleReplaced(l: string, m: string, m': string, l': string)
    requires m != "" && m' != "" && '\n' !in m && '\n' !in m' && OneLine(l + m + l')
    ensures OneLine(l + m' + l') && (Terminated(l + m' + l') <==> Terminated(l + m + l'))
  {
    var line, fixed := l + m + l', l + m' + l';
    if l' == "" {
      assert fixed[|fixed| - 1] == m'[|m'| - 1] && line[|line| - 1] == m[|m| - 1];
    } else {
      assert line[|line| - 1] == l'[|l'| - 1] == fixed[|fixed| - 1];
    }
    forall j | 0 <= j < |fixed| - 1 ensures fixed[j] != '\n' {
      if j < |l| {
        assert fixed[j] == line[j];
      } else if j < |l| + |m'| {
        assert fixed[j] == m'[j - |l|];
      } else {
        assert fixed[j] == l'[j - |l| - |m'|] == line[j - |m'| + |m|];
      }
    }
  }

  // ---- the main theorem ---------------------------------------------------------------------------------------------

  /** Where `_repair_text` changes a text: the replacement it uses and the line it changes. */
  lemma RepairLine(text: string) returns (p: (string, string), k: nat)
    requires RepairText(text) != text
    ensures k < |Lines(text)| && OneLiner(p) && Contains(p.0, Lines(text)[k])
    ensures RepairText(text) == ReplaceFirst(text, p.0, p.1)
    ensures RepairHunk(text) == Some((HunkAt(Lines(text), k), ReplaceFirst(Lines(text)[k], p.0, p.1)))
    ensures Find(p.0, text) == Some(|Concat(Lines(text)[..k])| + Find(p.0, Lines(text)[k]).value)
  {
    p := ChosenOne(text);
    hide RepairText, Lines, Find, Chosen, ReplaceFirst;
    LinesShape(text);
    MatchInLine(Lines(text), p.0);
    k := FirstWith(Lines(text), p.0);
  }

  /** The site of the repair that `_repair_text` makes. */
  lemma RepairFound(text: string)
    returns (h: Hunk, fixed: string, a: string, tail: string, p: (string, string), off: nat)
    requires RepairText(text) != text && '\r' !in text
    ensures RepairHunk(text) == Some((h, fixed))
    ensures RepairSite(text, RepairText(text), h, fixed, a, tail, p, off)
    ensures FullLines(h.before) && LineList(h.after) && OneLine(fixed) && (Terminated(fixed) <==> Terminated(h.line))
  {
    hide Lines, Find, LineList, FullLines, RepairHunk, OneLine, Terminated, OneLiner, RepairText, Concat;
    var k: nat;
    p, k := RepairLine(text);
    var lines := Lines(text);
    LinesShape(text);
    h := HunkAt(lines, k);
    fixed := ReplaceFirst(lines[k], p.0, p.1);
    off := Find(p.0, lines[k]).value;
    assert OccursAt(p.0, lines[k], off);
    HunkLines(lines, k);
    ListParts(lines, k);
    a, tail := SiteOf(text, lines, k, h, p.0, off);
    FixedLineShape(lines[k], p);
    assert h.line == lines[k];
    hide HunkAt, OccursAt, Contains, ReplaceFirst, Site;
    SiteReplaced(text, a, Concat(h.before), h.line, Concat(h.after) + tail, p, off);
  }

  lemma ChosenOne(text: string) returns (p: (string, string))
    requires RepairText(text) != text
    ensures Chosen(REPLACEMENTS, text) == Some(p) && OneLiner(p) && Contains(p.0, text)
    ensures RepairText(text) == ReplaceFirst(text, p.0, p.1)
  {
    ReplacementsAreOneLiners();
    hide REPLACEMENTS, ReplaceFirst, Contains, OneLiner;
    ChosenRepair(REPLACEMENTS, text);
    p := Chosen(REPLACEMENTS, text).value;
  }

  lemma HunkLines(lines: seq<string>, k: nat)
    requires LineList(lines) && k < |lines|
    ensures FullLines(HunkAt(lines, k).before) && LineList(HunkAt(lines, k).after)
  {
    var rest := lines[k + 1..];
    var n := if 3 < |rest| then 3 else |rest|;
    var i := if k < 3 then 0 else k - 3;
    assert HunkAt(lines, k).after == rest[..n] && HunkAt(lines, k).before == lines[i..k];
    hide *;
    ListParts(lines, k);
    ListPrefix(rest, n);
    SliceTwice(lines, i, k);
    assert lines[..k][..i] == lines[..i];
    FullPart(lines[..k], i, lines[i..k]);
  }

  /** The last of some complete lines are complete. */
  lemma FullPart(lines: seq<string>, i: nat, part: seq<string>)
    requires FullLines(lines) && i <= |lines| && lines == lines[..i] + part
    ensures FullLines(part)
  {
    hide OneLine, Terminated;
    forall j | 0 <= j < |part| ensures OneLine(part[j]) && Terminated(part[j]) { assert part[j] == lines[i + j]; }
  }

  lemma SliceTwice(lines: seq<string>, i: nat, k: nat)
    requires i <= k <= |lines|
    ensures lines[..k] == lines[..i] + lines[i..k]
  {}

  lemma SliceAfter(lines: seq<string>, k: nat, j: nat)
    requires k < j <= |lines|
    ensures lines[k + 1..] == lines[k + 1..j] + lines[j..]
  {}

  lemma SiteOf(text: string, lines: seq<string>, k: nat, h: Hunk, needle: string, off: nat)
    returns (a: string, tail: string)
    requires k < |lines| && text == Concat(lines) && h == HunkAt(lines, k)
    requires OccursAt(needle, lines[k], off) && Find(needle, text) == Some(|Concat(lines[..k])| + off)
    ensures Site(text, a, Concat(h.before), h.line, Concat(h.after) + tail, needle, off)
    ensures k == |lines| - 1 ==> h.after == [] && tail == ""
  {
    hide Find, OccursAt;
    var i := if k < 3 then 0 else k - 3;
    var j := if k + 4 < |lines| then k + 4 else |lines|;
    a, tail := Concat(lines[..i]), Concat(lines[j..]);
    assert k == |lines| - 1 ==> lines[j..] == [] && h.after == [];
    assert k == |lines| - 1 ==> tail == "";
    hide Concat;
    Around(lines, i, k, j);
  }

  /** A text cut into the lines around line `k`. */
  lemma Around(lines: seq<string>, i: nat, k: nat, j: nat)
    requires i <= k < j <= |lines|
    ensures Concat(lines)
         == Concat(lines[..i]) + Concat(lines[i..k]) + lines[k] + (Concat(lines[k + 1..j]) + Concat(lines[j..]))
    ensures Concat(lines[..k]) == Concat(lines[..i]) + Concat(lines[i..k])
  {
    Cut(lines, i, k, j);
    ConcatFive(lines[..i], lines[i..k], lines[k], lines[k + 1..j], lines[j..]);
  }

  lemma ConcatFive(u: seq<string>, v: seq<string>, x: string, w: seq<string>, z: seq<string>)
    ensures Concat((u + v) + [x] + (w + z)) == Concat(u) + Concat(v) + x + (Concat(w) + Concat(z))
    ensures Concat(u + v) == Concat(u) + Concat(v)
  {
    hide Concat;
    ConcatAppend(u, v);
    ConcatAppend(w, z);
    ConcatThree(u + v, x, w + z);
  }

  lemma Cut(lines: seq<string>, i: nat, k: nat, j: nat)
    requires i <= k < j <= |lines|
    ensures lines == (lines[..i] + lines[i..k]) + [lines[k]] + (lines[k + 1..j] + lines[j..])
    ensures lines[..k] == lines[..i] + lines[i..k]
  {
    SliceTwice(lines, i, k);
    SliceAfter(lines, k, j);
    assert lines == lines[..k] + [lines[k]] + lines[k + 1..];
  }

  /** Applying the printed repair with the fallback applier puts exactly the repaired text into the
      file, and changes nothing else, if and only if the changed line ends in a line break and does
      not start with `-- ` or `++ `. */
  lemma RepairApplies(files: map<string, string>, path: string, at: string)
    requires path in files && PathText(path) && HunkHeader(at)
    requires RepairText(ReadText(files[path])) != ReadText(files[path])
    ensures RepairHunk(ReadText(files[path])).Some?
    ensures var text := ReadText(files[path]);
      var (after, answer) := Applied(files, RepairDiff(path, at, text));
      && path in after
      && (after[path] == RepairText(text) <==> Travels(RepairHunk(text).value.0.line))
      && (Travels(RepairHunk(text).value.0.line) ==> answer == Some(true) && after == files[path := RepairText(text)])
  {
    var text := ReadText(files[path]);
    var repaired := RepairText(text);
    var h, fixed, a, tail, p, off := RepairFound(text);
    hide RepairText, RepairSite, AfterLines, Lines, Concat, LineList, FullLines, OneLine;
    var st := State(files, Some(path), h.before, h.before, false);
    if Terminated(h.line) {
      TerminatedRepair(files, path, at, h, fixed, a, tail, p, off, repaired);
    } else {
      UnterminatedRepair(files, path, at, h, fixed, a, tail, p, off, repaired);
    }
  }

  lemma AppliedIs(files: map<string, string>, patch: string)
    ensures var r := AfterLines(Initial(files), Lines(patch));
      Applied(files, patch) == (r.0.files, if r.1 then Some(r.0.applied) else None)
  {
    hide AfterLines, Lines;
  }

  lemma DiffRest(path: string, at: string, h: Hunk, fixed: string)
    ensures DiffPieces(path, at, h, fixed)
         == Headers(path, at) + Prefixed(h.before) + (["-" + h.line, "+" + fixed] + Prefixed(h.after))
  {
    hide Headers, Prefixed;
  }

  /** The applier on the diff is the applier on the changed lines, after the leading context. */
  lemma DiffApplied(files: map<string, string>, path: string, at: string, before: seq<string>, rest: seq<string>,
                    patch: string)
    requires PathText(path) && HunkHeader(at)
    requires Lines(patch) == Headers(path, at) + Prefixed(before) + rest
    ensures var r := AfterLines(State(files, Some(path), before, before, false), rest);
      Applied(files, patch) == (r.0.files, if r.1 then Some(r.0.applied) else None)
  {
    hide AfterLines, Lines, Prefixed, Headers;
    DiffHead(files, path, at, before, rest);
    AppliedIs(files, patch);
  }

  lemma TerminatedRepair(files: map<string, string>, path: string, at: string, h: Hunk, fixed: string,
                         a: string, tail: string, p: (string, string), off: nat, repaired: string)
    requires path in files && PathText(path) && HunkHeader(at) && repaired != ReadText(files[path])
    requires RepairSite(ReadText(files[path]), repaired, h, fixed, a, tail, p, off)
    requires FullLines(h.before) && LineList(h.after) && OneLine(fixed) && Terminated(fixed) && Terminated(h.line)
    ensures var done := Applied(files, Concat(DiffPieces(path, at, h, fixed)));
      && path in done.0 && (done.0[path] == repaired <==> Travels(h.line))
      && (Travels(h.line) ==> done.1 == Some(true) && done.0 == files[path := repaired])
  {
    DiffSplits(path, at, h, fixed);
    var rest := ["-" + h.line, "+" + fixed] + Prefixed(h.after);
    var patch := Concat(DiffPieces(path, at, h, fixed));
    DiffRest(path, at, h, fixed);
    hide Applied, RepairSite, AfterLines, Lines, Concat, LineList, FullLines, OneLine, StartsWith;
    hide Headers, Prefixed, DiffPieces, Travels;
    DiffApplied(files, path, at, h.before, rest, patch);
    ChangedHunk(files, path, repaired, h, fixed, a, tail, p, off);
  }

  /** The three cases of a terminated changed line. */
  lemma ChangedHunk(files: map<string, string>, path: string, repaired: string, h: Hunk, fixed: string,
                    a: string, tail: string, p: (string, string), off: nat)
    requires path in files && RepairSite(ReadText(files[path]), repaired, h, fixed, a, tail, p, off)
    requires repaired != ReadText(files[path]) && Terminated(h.line)
    ensures var r := AfterLines(State(files, Some(path), h.before, h.before, false),
                                ["-" + h.line, "+" + fixed] + Prefixed(h.after));
      && path in r.0.files && (r.0.files[path] == repaired <==> Travels(h.line))
      && (Travels(h.line) ==> r.1 && r.0.applied && r.0.files == files[path := repaired])
  {
    hide RepairSite, AfterLines, StartsWith, Prefixed;
    if Travels(h.line) {
      GoodHunk(files, path, repaired, h, fixed, a, tail, p, off);
    } else if StartsWith(h.line, "++ ") {
      PlusHunk(files, path, repaired, h, fixed, a, tail, p, off);
    } else {
      DashHunk(files, path, repaired, h, fixed, a, tail, p, off);
    }
  }

  lemma UnterminatedRepair(files: map<string, string>, path: string, at: string, h: Hunk, fixed: string,
                           a: string, tail: string, p: (string, string), off: nat, repaired: string)
    requires path in files && PathText(path) && HunkHeader(at) && repaired != ReadText(files[path])
    requires RepairSite(ReadText(files[path]), repaired, h, fixed, a, tail, p, off)
    requires FullLines(h.before) && OneLine(fixed) && !Terminated(fixed) && !Terminated(h.line)
    ensures var after := Applied(files, Concat(DiffPieces(path, at, h, fixed))).0;
      path in after && after[path] != repaired
  {
    DiffRunsTogether(path, at, h, fixed);
    var rest := ["-" + (h.line + "+" + fixed)];
    hide Applied, RepairSite, AfterLines, Lines, Concat, LineList, FullLines, OneLine, StartsWith, Headers, Prefixed;
    DiffApplied(files, path, at, h.before, rest, Concat(DiffPieces(path, at, h, fixed)));
    MergedHunk(files, path, repaired, h, fixed, a, tail, p, off);
  }

  // ---- what a repair is --------------------------------------------------------------------------------------------

  /** The first of four patterns that the text contains is replaced where it occurs first. */
  lemma RepairTextExactly(text: string)
    ensures RepairText(text) ==
      if Contains("return a - b", text) then ReplaceFirst(text, "return a - b", "return a + b")
      else if Contains("return x - y", text) then ReplaceFirst(text, "return x - y", "return x + y")
      else if Contains("return False", text) then ReplaceFirst(text, "return False", "return True")
      else if Contains("return None", text) then ReplaceFirst(text, "return None", "return True")
      else text
  {
    hide Contains, ReplaceFirst;
    var r := REPLACEMENTS;
    assert r[0] == ("return a - b", "return a + b") && r[1] == ("return x - y", "return x + y");
    assert r[2] == ("return False", "return True") && r[3] == ("return None", "return True") && |r| == 4;
    hide REPLACEMENTS;
    assert r[3..][1..] == r[4..] && r[2..][1..] == r[3..] && r[1..][1..] == r[2..];
    RepairStep(r, text);
    RepairStep(r[1..], text);
    RepairStep(r[2..], text);
    RepairStep(r[3..], text);
    assert RepairWith(r[4..], text) == text;
  }

  lemma RepairStep(rs: seq<(string, string)>, text: string)
    requires |rs| > 0
    ensures RepairWith(rs, text)
         == if Contains(rs[0].0, text) then ReplaceFirst(text, rs[0].0, rs[0].1) else RepairWith(rs[1..], text)
  {
    hide Contains, ReplaceFirst;
  }

  lemma ReplacedDiffers(text: string, needle: string, new_: string, k: nat)
    requires Contains(needle, text) && |needle| == |new_| && k < |needle| && needle[k] != new_[k]
    ensures ReplaceFirst(text, needle, new_) != text
  {
    var i := Find(needle, text).value;
    var r := ReplaceFirst(text, needle, new_);
    assert r[i + k] == new_[k];
    assert text[i + k] == text[i..i + |needle|][k] == needle[k];
  }

  lemma ReplacedIsShorter(text: string, needle: string, new_: string)
    requires Contains(needle, text) && |needle| > |new_|
    ensures ReplaceFirst(text, needle, new_) != text
  {
    ReplaceLength(text, needle, new_);
  }

  /** A text is repaired exactly if it contains one of the four patterns. */
  lemma RepairsExactly(text: string)
    ensures RepairText(text) != text <==>
      || Contains("return a - b", text) || Contains("return x - y", text)
      || Contains("return False", text) || Contains("return None", text)
  {
    RepairTextExactly(text);
    hide RepairText, Contains, ReplaceFirst;
    if Contains("return a - b", text) {
      ReplacedDiffers(text, "return a - b", "return a + b", 9);
    } else if Contains("return x - y", text) {
      ReplacedDiffers(text, "return x - y", "return x + y", 9);
    } else if Contains("return False", text) {
      ReplacedIsShorter(text, "return False", "return True");
    } else if Contains("return None", text) {
      ReplacedDiffers(text, "return None", "return True", 7);
    }
  }

  /** The repaired file, in the end: where the printed diff travels, the file holds the text with the first of
      the four patterns replaced where it occurred first, and no other file has changed. */
  lemma RepairedFile(files: map<string, string>, path: string, at: string)
    requires path in files && PathText(path) && HunkHeader(at)
    requires RepairHunk(ReadText(files[path])).Some? && Travels(RepairHunk(ReadText(files[path])).value.0.line)
    requires RepairText(ReadText(files[path])) != ReadText(files[path])
    ensures var text := ReadText(files[path]);
      var (after, answer) := Applied(files, RepairDiff(path, at, text));
      && answer == Some(true) && path in after && after == files[path := after[path]]
      && (Contains("return a - b", text) ==> after[path] == ReplaceFirst(text, "return a - b", "return a + b"))
      && (!Contains("return a - b", text) && Contains("return x - y", text) ==>
            after[path] == ReplaceFirst(text, "return x - y", "return x + y"))
      && (!Contains("return a - b", text) && !Contains("return x - y", text) && Contains("return False", text) ==>
            after[path] == ReplaceFirst(text, "return False", "return True"))
      && (!Contains("return a - b", text) && !Contains("return x - y", text) && !Contains("return False", text) ==>
            after[path] == ReplaceFirst(text, "return None", "return True"))
  {
    var text := ReadText(files[path]);
    RepairApplies(files, path, at);
    RepairTextExactly(text);
    RepairsExactly(text);
    hide *;
  }

  /** A text that is not repaired has no diff. */
  lemma NoRepairNoDiff(path: string, at: string, text: string)
    requires RepairText(text) == text
    ensures RepairHunk(text) == None && RepairDiff(path, at, text) == ""
  {
    RepairsExactly(text);
    hide Contains, ReplaceFirst, RepairText;
    var r := REPLACEMENTS;
    assert r[0].0 == "return a - b" && r[1].0 == "return x - y" && r[2].0 == "return False" && r[3].0 == "return None";
    assert |r| == 4;
    NothingChosen(r, text);
  }

  lemma {:induction false} NothingChosen(rs: seq<(string, string)>, text: string)
    requires forall i :: 0 <= i < |rs| ==> !Contains(rs[i].0, text)
    ensures Chosen(rs, text) == None
  {
    hide Contains;
    if |rs| > 0 { NothingChosen(rs[1..], text); }
  }

  /** The hunk has the lines right before and right behind the changed one, three of each where there are three. */
  lemma HunkContext(lines: seq<string>, k: nat)
    requires k < |lines|
    ensures var h := HunkAt(lines, k);
      var b, a := |h.before|, |h.after|;
      && b == (if k < 3 then k else 3) && a == (if |lines| - k - 1 < 3 then |lines| - k - 1 else 3)
      && lines[k - b..k + 1 + a] == h.before + [h.line] + h.after && h.line == lines[k]
  {
    var h := HunkAt(lines, k);
    var i, j := k - |h.before|, k + 1 + |h.after|;
    assert lines[i..k] == h.before && lines[k + 1..j] == h.after;
    assert lines[i..j] == lines[i..k] + [lines[k]] + lines[k + 1..j];
  }

  /** The printed diff: two file headers, the hunk header, context behind a blank, the old line behind a minus, the
      new one behind a plus, and context again. */
  lemma DiffText(path: string, at: string, text: string, h: Hunk, fixed: string)
    requires RepairHunk(text) == Some((h, fixed))
    ensures RepairDiff(path, at, text) ==
      ("--- a/" + path + "\n") + (("+++ b/" + path + "\n") + at)
      + Concat(Prefixed(h.before)) + (("-" + h.line) + ("+" + fixed)) + Concat(Prefixed(h.after))
  {
    hide RepairHunk, Prefixed;
    var minus, plus := "-" + h.line, "+" + fixed;
    var first, second := "--- a/" + path + "\n", Header(path);
    var b, a := Prefixed(h.before), Prefixed(h.after);
    assert second == "+++ b/" + path + "\n";
    hide Header;
    assert DiffPieces(path, at, h, fixed) == [first, second, at] + b + [minus, plus] + a;
    hide DiffPieces;
    ConcatAppend([first, second, at] + b + [minus, plus], a);
    ConcatAppend([first, second, at] + b, [minus, plus]);
    ConcatAppend([first, second, at], b);
    ConcatTwo(minus, plus);
    ConcatTwo(second, at);
    assert [first, second, at][1..] == [second, at];
    assert Concat([first, second, at]) == first + Concat([second, at]);
  }
}
