/** What the fallback applier changes, refuses and leaves alone, for any patch. */
module PatchLaws {
  import opened Text
  import opened Patch

  // ---- one flush ------------------------------------------------------------------------------------------------

  lemma {:induction false} CrlfReturn(s: string)
    ensures '\n' in s ==> '\r' in Crlf(s)
    ensures '\n' !in s ==> Crlf(s) == s
  {
    if s != "" {
      CrlfReturn(s[1..]);
      assert s == [s[0]] + s[1..];
    }
  }

  /** Reading already turned every line break into `\n`, so the second, CRLF form of a block is
      never found where the first was not. */
  lemma CrlfNeverHelps(raw: string, block: string)
    requires Contains(Crlf(block), ReadText(raw))
    ensures Contains(block, ReadText(raw))
  {
    var text := ReadText(raw);
    var i := Find(Crlf(block), text).value;
    CrlfReturn(block);
    forall k | 0 <= k < |Crlf(block)| ensures Crlf(block)[k] != '\r' {
      assert text[i + k] == Crlf(block)[k] && text[i + k] in text;
    }
  }

  /** `new` replaces exactly the first occurrence of `block` in `text`. */
  ghost predicate FirstReplaced(text: string, block: string, new_: string, result: string) {
    exists i :: OccursAt(block, text, i) && (forall k :: 0 <= k < i ==> !OccursAt(block, text, k))
                && result == text[..i] + new_ + text[i + |block|..]
  }

  /** A hunk applies exactly if the read file contains the old block, and it replaces the first
      occurrence of that block and nothing else. */
  lemma RewriteReplacesFirst(raw: string, block: string, new_: string)
    ensures Rewrite(raw, block, new_).Some? <==> Contains(block, ReadText(raw))
    ensures Rewrite(raw, block, new_).Some? ==>
      FirstReplaced(ReadText(raw), block, new_, Rewrite(raw, block, new_).value)
  {
    var text := ReadText(raw);
    if Contains(block, text) {
      var i := Find(block, text).value;
      assert OccursAt(block, text, i);
    } else if Contains(Crlf(block), text) {
      CrlfNeverHelps(raw, block);
    }
  }

  // ---- which files -----------------------------------------------------------------------------------------------

  /** Every path that the lines make current is in `s`. */
  ghost predicate TargetsWithin(lines: seq<string>, s: set<string>) {
    forall i :: 0 <= i < |lines| && IsTarget(lines[i]) ==> WithoutPrefix(TargetText(lines[i])) in s
  }

  predicate SameOutside(a: map<string, string>, b: map<string, string>, s: set<string>) {
    a.Keys == b.Keys && forall f | f in a && f !in s :: a[f] == b[f]
  }

  lemma FlushFrame(st: State, s: set<string>)
    requires st.current.Some? ==> st.current.value in s
    ensures SameOutside(st.files, Flushed(st).0.files, s) && Flushed(st).0.current == st.current
  {
    hide Rewrite;
  }

  lemma {:induction false} LinesFrame(st: State, lines: seq<string>, s: set<string>)
    requires st.current.Some? ==> st.current.value in s
    requires TargetsWithin(lines, s)
    ensures SameOutside(st.files, AfterLines(st, lines).0.files, s)
    decreases |lines|
  {
    hide Flushed, WithoutPrefix, TargetText, StartsWith;
    FlushFrame(st, s);
    if |lines| > 0 {
      var (st', ok) := AfterLine(st, lines[0]);
      assert SameOutside(st.files, st'.files, s);
      if ok { LinesFrame(st', lines[1..], s); }
    }
  }

  function AllTargets(lines: seq<string>): set<string> {
    (set t | t in TargetsOf(lines)) + {"/dev/null", ""}
  }

  lemma TargetsComplete(lines: seq<string>)
    ensures TargetsWithin(lines, AllTargets(lines))
  {
    hide AllTargets, IsTarget, TargetText, WithoutPrefix;
    forall i | 0 <= i < |lines| && IsTarget(lines[i])
      ensures WithoutPrefix(TargetText(lines[i])) in AllTargets(lines)
    {
      TargetIn(lines, i);
    }
  }

  lemma {:induction false} TargetIn(lines: seq<string>, i: nat)
    requires i < |lines| && IsTarget(lines[i])
    ensures WithoutPrefix(TargetText(lines[i])) in AllTargets(lines)
    decreases |lines|
  {
    hide AllTargets, IsTarget, TargetText, WithoutPrefix;
    var n := |lines| - 1;
    if i == n {
      LastTarget(lines);
    } else {
      var init := lines[..n];
      assert init[i] == lines[i];
      TargetIn(init, i);
      TargetsGrow(lines);
    }
  }

  lemma TargetsGrow(lines: seq<string>)
    requires |lines| > 0
    ensures AllTargets(lines[..|lines| - 1]) <= AllTargets(lines)
  {
    hide TargetText, WithoutPrefix, IsTarget;
  }

  lemma LastTarget(lines: seq<string>)
    requires |lines| > 0 && IsTarget(lines[|lines| - 1])
    ensures WithoutPrefix(TargetText(lines[|lines| - 1])) in AllTargets(lines)
  {
    NullHasNoPrefix();
    hide TargetText, IsTarget, WithoutPrefix;
  }

  lemma NullHasNoPrefix()
    ensures WithoutPrefix("/dev/null") == "/dev/null"
  {
    assert "/dev/null"[0] == '/' && !StartsWith("/dev/null", "b/");
  }

  /** The applier and `changed_files_from_patch` agree: for any patch, accepted or refused, every file
      it changes is in that list (or is named `/dev/null` or by an empty path); all other files keep
      their content, and no file appears or disappears. */
  lemma ChangedFilesAgree(files: map<string, string>, patch: string)
    ensures SameOutside(files, Applied(files, patch).0, AllTargets(Lines(patch)))
  {
    hide Lines, AllTargets;
    TargetsComplete(Lines(patch));
    LinesFrame(Initial(files), Lines(patch), AllTargets(Lines(patch)));
  }

  // ---- refusals ----------------------------------------------------------------------------------------------------

  function CountTargets(lines: seq<string>): nat {
    if |lines| == 0 then 0 else (if IsTarget(lines[0]) then 1 else 0) + CountTargets(lines[1..])
  }

  lemma {:induction false} RefusedAfter(st: State, lines: seq<string>)
    requires CountTargets(lines) <= if st.current.None? then 1 else 0
    ensures !AfterLines(st, lines).1 ==> AfterLines(st, lines).0.files == st.files
    decreases |lines|
  {
    hide TargetText, WithoutPrefix, StartsWith, Rewrite;
    if |lines| > 0 {
      var (st', ok) := AfterLine(st, lines[0]);
      if ok { RefusedAfter(st', lines[1..]); }
    }
  }

  /** A patch with at most one `+++` line is all-or-nothing: refused, it has changed no file. */
  lemma SingleFileAtomic(files: map<string, string>, patch: string)
    requires CountTargets(Lines(patch)) <= 1
    ensures Applied(files, patch).1.None? ==> Applied(files, patch).0 == files
  {
    RefusedAfter(Initial(files), Lines(patch));
  }

  lemma ConcatOne(s: string)
    ensures Concat([s]) == s
  {
    assert s + "" == s;
  }

  // ---- how a printed diff line is read ------------------------------------------------------------------------------

  lemma PrefixTail(c: char, p: string, s: string)
    ensures StartsWith([c] + s, [c] + p) <==> StartsWith(s, p)
  {
    assert ([c] + s)[1..] == s && ([c] + p)[1..] == p;
    if [c] + p <= [c] + s { assert ([c] + s)[1..|p| + 1] == p; }
    if p <= s { assert ([c] + s)[..|p| + 1] == [c] + p; }
  }

  /** A removed line is collected, unless it starts with `-- `: then it looks like a header. */
  lemma RemovedLine(st: State, x: string)
    ensures AfterLine(st, "-" + x)
         == (if StartsWith(x, "-- ") then st else st.(oldLines := st.oldLines + [x]), true)
  {
    var line := "-" + x;
    PrefixTail('-', "-- ", x);
    assert "-" + "-- " == "--- ";
    assert line[0] == '-' && line[1..] == x && StartsWith(line, "-");
    assert !IsTarget(line) && !StartsWith(line, "@@");
  }

  /** An added line is collected, unless it starts with `++ `: then it ends the hunk. */
  lemma AddedLine(st: State, x: string)
    ensures IsTarget("+" + x) <==> StartsWith(x, "++ ")
    ensures !StartsWith(x, "++ ") ==> AfterLine(st, "+" + x) == (st.(newLines := st.newLines + [x]), true)
  {
    var line := "+" + x;
    PrefixTail('+', "++ ", x);
    assert "+" + "++ " == "+++ ";
    assert line[0] == '+' && line[1..] == x && StartsWith(line, "+");
    assert !StartsWith(line, "--- ") && !StartsWith(line, "@@") && !StartsWith(line, "-");
  }

  lemma ContextLine(st: State, x: string)
    ensures AfterLine(st, " " + x) == (st.(oldLines := st.oldLines + [x], newLines := st.newLines + [x]), true)
  {
    var line := " " + x;
    assert line[0] == ' ' && line[1..] == x && StartsWith(line, " ");
  }

  lemma StripNewline(t: string, s: string)
    requires t != "" && !IsSpace(t[0]) && !IsSpace(t[|t| - 1]) && s == t + "\n"
    ensures Strip(s) == t
  {
    assert LStrip(s) == s;
    assert s[..|s| - 1] == t;
    assert RStrip(t) == t;
  }

  function Header(path: string): string { "+++ b/" + path + "\n" }

  /** A path as a diff header can carry it. */
  predicate PathText(path: string) {
    path != "" && !IsSpace(path[|path| - 1]) && '\n' !in path
  }

  /** The header that a diff prints for a path is read back as that path. */
  lemma HeaderTarget(path: string)
    requires PathText(path)
    ensures IsTarget(Header(path)) && WithoutPrefix(TargetText(Header(path))) == path
  {
    hide Strip;
    var line := Header(path);
    var t := "b/" + path;
    assert line[..4] == "+++ ";
    assert line[4..] == t + "\n";
    assert t[|t| - 1] == path[|path| - 1] && t[0] == 'b';
    StripNewline(t, line[4..]);
    assert t[2..] == path;
  }

  lemma HeaderLine(st: State, path: string)
    requires PathText(path)
    ensures AfterLine(st, Header(path))
         == if Flushed(st).1 then (Flushed(st).0.(current := Some(path)), true) else (Flushed(st).0, false)
  {
    hide Flushed, Header, WithoutPrefix, TargetText;
    HeaderTarget(path);
  }

  /** One header, one removed and one added line. */
  function OneLineHunk(path: string, removed: string, added: string): seq<string> {
    [Header(path), "-" + removed, "+" + added]
  }

  /** With two files a patch is not all-or-nothing: whenever its first hunk applies and its second
      does not, it is refused with the first file already rewritten. */
  lemma TwoFilesNotAtomic(files: map<string, string>, a: string, b: string,
                          old1: string, new1: string, old2: string, new2: string)
    requires a in files && b in files && a != b && PathText(a) && PathText(b)
    requires !StartsWith(old1, "-- ") && !StartsWith(new1, "++ ")
    requires !StartsWith(old2, "-- ") && !StartsWith(new2, "++ ")
    requires Contains(old1, ReadText(files[a])) && !Contains(old2, ReadText(files[b]))
    ensures var (st, ok) := AfterLines(Initial(files), OneLineHunk(a, old1, new1) + OneLineHunk(b, old2, new2));
      !ok && st.files == files[a := ReplaceFirst(ReadText(files[a]), old1, new1)]
  {
    hide Header, IsTarget, AfterLine, Rewrite;
    var files1 := files[a := ReplaceFirst(ReadText(files[a]), old1, new1)];
    var hunk1, hunk2 := OneLineHunk(a, old1, new1), OneLineHunk(b, old2, new2);
    var st1 := State(files, Some(a), [old1], [new1], false);
    assert AfterLines(Initial(files), hunk1 + hunk2) == AfterLines(st1, hunk2) by {
      HunkCollected(Initial(files), a, old1, new1, hunk2);
    }
    ConcatOne(old1);
    ConcatOne(new1);
    assert Rewrite(files[a], old1, new1) == Some(files1[a]) by { RewriteFound(files[a], old1, new1); }
    assert Flushed(st1) == (State(files1, Some(a), [], [], true), true);
    var st2 := State(files1, Some(b), [old2], [new2], true);
    assert AfterLines(st1, hunk2) == AfterLines(st2, []) by {
      HunkCollected(st1, b, old2, new2, []);
      assert hunk2 + [] == hunk2;
    }
    ConcatOne(old2);
    ConcatOne(new2);
    RewriteReplacesFirst(files[b], old2, new2);
  }

  lemma RewriteFound(raw: string, block: string, new_: string)
    requires Contains(block, ReadText(raw))
    ensures Rewrite(raw, block, new_) == Some(ReplaceFirst(ReadText(raw), block, new_))
  {}

  lemma HunkCollected(st: State, path: string, removed: string, added: string, rest: seq<string>)
    requires PathText(path) && !StartsWith(removed, "-- ") && !StartsWith(added, "++ ")
    requires Flushed(st).1 && Flushed(st).0.oldLines == [] && Flushed(st).0.newLines == []
    ensures AfterLines(st, OneLineHunk(path, removed, added) + rest)
         == AfterLines(Flushed(st).0.(current := Some(path), oldLines := [removed], newLines := [added]), rest)
  {
    hide Header, Flushed, AfterLine;
    var l0 := OneLineHunk(path, removed, added) + rest;
    var l1, l2 := ["-" + removed, "+" + added] + rest, ["+" + added] + rest;
    var s1 := Flushed(st).0.(current := Some(path));
    var s2 := s1.(oldLines := [removed]);
    assert [] + [removed] == [removed] && [] + [added] == [added];
    HeaderLine(st, path);
    assert l0[0] == Header(path) && l0[1..] == l1;
    RemovedLine(s1, removed);
    assert l1[0] == "-" + removed && l1[1..] == l2;
    assert AfterLines(s1, l1) == AfterLines(s2, l2);
    AddedLine(s2, added);
    assert l2[0] == "+" + added && l2[1..] == rest;
  }

  /** The status `PatchApplier.apply` reports after `git apply --check` failed. */
  function FallbackStatus(fallback: Option<bool>): string {
    if fallback.None? then "failed" else "applied"
  }

  // ---- targets and line ends ----------------------------------------------------------------------------------------

  /** A leading `b/` is dropped, and every other target is taken as it is. */
  lemma WithoutPrefixExactly(t: string)
    ensures WithoutPrefix("b/" + t) == t
    ensures !("b/" <= t) ==> WithoutPrefix(t) == t
  {
    assert ("b/" + t)[2..] == t && "b/" <= "b/" + t;
  }

  /** A header without the prefix is read back as its path, too. */
  lemma BareHeaderTarget(path: string)
    requires PathText(path) && !IsSpace(path[0]) && !("b/" <= path)
    ensures var line := "+++ " + (path + "\n"); IsTarget(line) && WithoutPrefix(TargetText(line)) == path
  {
    hide Strip;
    var line := "+++ " + (path + "\n");
    assert line[..4] == "+++ " && line[4..] == path + "\n";
    StripNewline(path, line[4..]);
  }

  /** The list has exactly the paths of the `+++` lines, except `/dev/null` and empty ones. */
  lemma {:induction false} TargetsExactly(lines: seq<string>, t: string)
    ensures t in TargetsOf(lines) <==>
      t != "" && exists i :: 0 <= i < |lines| && Names(lines[i], t)
  {
    hide IsTarget, TargetText, WithoutPrefix;
    if |lines| > 0 {
      var n := |lines| - 1;
      var init := lines[..n];
      TargetsExactly(init, t);
      assert forall i :: 0 <= i < n ==> init[i] == lines[i];
      if exists i :: 0 <= i < n && Names(init[i], t) {
        var i :| 0 <= i < n && Names(init[i], t);
        assert Names(lines[i], t);
      }
    }
  }

  /** The line makes the path a changed file. */
  predicate Names(line: string, t: string) {
    IsTarget(line) && TargetText(line) != "/dev/null" && WithoutPrefix(TargetText(line)) == t
  }

  /** Further lines add paths at the end, so the list is in the order of first appearance. */
  lemma TargetsInOrder(lines: seq<string>, n: nat)
    requires n <= |lines|
    ensures TargetsOf(lines[..n]) <= TargetsOf(lines)
    decreases |lines|
  {
    hide IsTarget, TargetText, WithoutPrefix;
    if n < |lines| {
      var init := lines[..|lines| - 1];
      TargetsInOrder(init, n);
      assert init[..n] == lines[..n];
    } else {
      assert lines[..n] == lines;
    }
  }

  /** Text without line ends is read as it is, and each of the three line ends as a newline. */
  lemma {:induction false} ReadLineText(line: string, rest: string)
    requires '\r' !in line
    ensures ReadText(line) == line
    ensures ReadText(line + "\n" + rest) == line + "\n" + ReadText(rest)
    ensures ReadText(line + "\r\n" + rest) == line + "\n" + ReadText(rest)
    ensures !("\n" <= rest) ==> ReadText(line + "\r" + rest) == line + "\n" + ReadText(rest)
  {
    ReadPrefix(line, "");
    ReadPrefix(line, "\n" + rest);
    ReadPrefix(line, "\r\n" + rest);
    ReadPrefix(line, "\r" + rest);
    assert line + "" == line;
    assert line + "\n" + rest == line + ("\n" + rest);
    assert line + "\r\n" + rest == line + ("\r\n" + rest);
    assert line + "\r" + rest == line + ("\r" + rest);
    LineEnds(rest);
    assert line + ("\n" + ReadText(rest)) == line + "\n" + ReadText(rest);
  }

  lemma LineEnds(rest: string)
    ensures ReadText("\n" + rest) == "\n" + ReadText(rest)
    ensures ReadText("\r\n" + rest) == "\n" + ReadText(rest)
    ensures !("\n" <= rest) ==> ReadText("\r" + rest) == "\n" + ReadText(rest)
  {
    var n, rn, r := "\n" + rest, "\r\n" + rest, "\r" + rest;
    assert n[1..] == rest && rn[2..] == rest && r[1..] == rest;
    if |rest| > 0 && rest[0] == '\n' { assert rest[..1] == "\n"; }
  }

  lemma {:induction false} ReadPrefix(line: string, rest: string)
    requires '\r' !in line
    ensures ReadText(line + rest) == line + ReadText(rest)
  {
    if |line| == 0 {
      assert line + rest == rest;
    } else {
      var tail := line[1..];
      assert line == [line[0]] + tail && (line + rest)[1..] == tail + rest;
      ReadPrefix(tail, rest);
    }
  }
}
