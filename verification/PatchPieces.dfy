/** A patch as a list of replacements, read without looking at any file, and what the fallback makes of it. */
module PatchPieces {
  import opened Text
  import opened Patch
  import opened PatchLaws

  /** One replacement: in the file at `path` the text `before` becomes `after`. */
  datatype Piece = Piece(path: string, before: string, after: string)

  /** A removed, added or context line. */
  predicate Collected(line: string) {
    && !IsTarget(line) && !StartsWith(line, "--- ") && !StartsWith(line, "@@")
    && (StartsWith(line, "-") || StartsWith(line, "+") || StartsWith(line, " "))
  }

  /** The old and the new lines that a line of the patch contributes. */
  function OldPart(line: string): seq<string> {
    if Collected(line) && !StartsWith(line, "+") then [line[1..]] else []
  }

  function NewPart(line: string): seq<string> {
    if Collected(line) && !StartsWith(line, "-") then [line[1..]] else []
  }

  /** The piece that a target and the lines collected for it make. */
  function PieceOf(target: Option<string>, olds: seq<string>, news: seq<string>): seq<Piece> {
    if target.None? || (olds == [] && news == []) then [] else [Piece(target.value, Concat(olds), Concat(news))]
  }

  function PiecesFrom(target: Option<string>, olds: seq<string>, news: seq<string>, lines: seq<string>): seq<Piece>
    decreases |lines|
  {
    if |lines| == 0 then PieceOf(target, olds, news)
    else
      var line := lines[0];
      if IsTarget(line) then
        PieceOf(target, olds, news) + PiecesFrom(Some(WithoutPrefix(TargetText(line))), [], [], lines[1..])
      else PiecesFrom(target, olds + OldPart(line), news + NewPart(line), lines[1..])
  }

  /** The replacements that a patch asks for, one for every `+++` line with collected lines behind it. */
  function Pieces(lines: seq<string>): seq<Piece> { PiecesFrom(None, [], [], lines) }

  /** The file is there and, as it is read, contains the old text. */
  predicate Fits(files: map<string, string>, p: Piece) {
    p.path in files && Contains(p.before, ReadText(files[p.path]))
  }

  /** The content that a piece leaves behind: its old text is replaced where it occurs first. */
  function Replaced(raw: string, p: Piece): string { ReplaceFirst(ReadText(raw), p.before, p.after) }

  /** The pieces applied in order up to the first that does not fit, and whether all of them fitted. */
  function ApplyPieces(files: map<string, string>, pieces: seq<Piece>): (map<string, string>, bool)
    decreases |pieces|
  {
    if |pieces| == 0 then (files, true)
    else if !Fits(files, pieces[0]) then (files, false)
    else ApplyPieces(files[pieces[0].path := Replaced(files[pieces[0].path], pieces[0])], pieces[1..])
  }

  // ---- the line loop applies the pieces ---------------------------------------------------------------------------

  lemma OtherLine(st: State, line: string)
    requires !IsTarget(line)
    ensures AfterLine(st, line)
         == (st.(oldLines := st.oldLines + OldPart(line), newLines := st.newLines + NewPart(line)), true)
  {
    OneMark(line);
    assert st.oldLines + [] == st.oldLines && st.newLines + [] == st.newLines;
    hide IsTarget, StartsWith;
  }

  lemma OneMark(line: string)
    ensures StartsWith(line, "-") ==> !StartsWith(line, "+") && !StartsWith(line, " ")
    ensures StartsWith(line, "+") ==> !StartsWith(line, " ")
  {
    if StartsWith(line, "-") { assert line[0] == '-'; }
    if StartsWith(line, "+") { assert line[0] == '+'; }
    if StartsWith(line, " ") { assert line[0] == ' '; }
  }

  lemma FlushIsPiece(st: State)
    ensures var (st', ok) := Flushed(st);
      var pieces := PieceOf(st.current, st.oldLines, st.newLines);
      && (st'.files, ok) == ApplyPieces(st.files, pieces)
      && (ok ==>
            && st'.current == st.current && st'.oldLines == [] && st'.newLines == []
            && st'.applied == (st.applied || pieces != []))
  {
    hide Rewrite, Concat, Contains, ReplaceFirst, ReadText;
    var before, after := Concat(st.oldLines), Concat(st.newLines);
    if st.current.Some? && (st.oldLines != [] || st.newLines != []) && st.current.value in st.files {
      var raw := st.files[st.current.value];
      var p := Piece(st.current.value, before, after);
      assert [p][1..] == [];
      RewriteReplacesFirst(raw, before, after);
      if Contains(before, ReadText(raw)) { RewriteFound(raw, before, after); }
    }
  }

  lemma {:induction false} ApplyInTurn(files: map<string, string>, a: seq<Piece>, b: seq<Piece>)
    ensures var (files', ok) := ApplyPieces(files, a);
      ApplyPieces(files, a + b) == if ok then ApplyPieces(files', b) else (files', false)
    decreases |a|
  {
    hide Contains, Replaced;
    if |a| == 0 {
      assert a + b == b;
    } else {
      assert (a + b)[0] == a[0] && (a + b)[1..] == a[1..] + b;
      if Fits(files, a[0]) { ApplyInTurn(files[a[0].path := Replaced(files[a[0].path], a[0])], a[1..], b); }
    }
  }

  /** From any state on, the line loop does what applying the remaining pieces does. */
  lemma {:induction false} LinesArePieces(st: State, lines: seq<string>)
    ensures var (st', ok) := AfterLines(st, lines);
      var pieces := PiecesFrom(st.current, st.oldLines, st.newLines, lines);
      && (st'.files, ok) == ApplyPieces(st.files, pieces)
      && (ok ==> st'.applied == (st.applied || pieces != []))
    decreases |lines|
  {
    hide Flushed, PieceOf, ApplyPieces, OldPart, NewPart, IsTarget, TargetText, WithoutPrefix;
    FlushIsPiece(st);
    if |lines| > 0 {
      var line, rest := lines[0], lines[1..];
      if IsTarget(line) {
        TargetLine(st, line);
        var (st', ok) := Flushed(st);
        var target := Some(WithoutPrefix(TargetText(line)));
        ApplyInTurn(st.files, PieceOf(st.current, st.oldLines, st.newLines), PiecesFrom(target, [], [], rest));
        if ok { LinesArePieces(st'.(current := target), rest); }
      } else {
        OtherLine(st, line);
        hide AfterLine;
        LinesArePieces(AfterLine(st, line).0, rest);
      }
    }
  }

  lemma TargetLine(st: State, line: string)
    requires IsTarget(line)
    ensures var (st', ok) := Flushed(st);
      AfterLine(st, line) == if ok then (st'.(current := Some(WithoutPrefix(TargetText(line)))), true) else (st', false)
  {
    hide Flushed, TargetText, WithoutPrefix;
  }

  /** The fallback is a list of replacements: for any files and any patch it applies the pieces of the
      patch in order and stops at the first that does not fit; it answers `None` if it stopped, and
      otherwise whether there was a piece at all. */
  lemma PatchIsPieces(files: map<string, string>, patch: string)
    ensures var pieces := Pieces(Lines(patch));
      var (files', ok) := ApplyPieces(files, pieces);
      Applied(files, patch) == (files', if ok then Some(pieces != []) else None)
  {
    hide AfterLines, ApplyPieces, PiecesFrom, Lines;
    LinesArePieces(Initial(files), Lines(patch));
  }

  /** Each piece that is applied replaces exactly the first occurrence of its old text. */
  lemma PieceReplacesFirst(files: map<string, string>, p: Piece)
    requires Fits(files, p)
    ensures FirstReplaced(ReadText(files[p.path]), p.before, p.after, Replaced(files[p.path], p))
  {
    hide Rewrite, ReadText, FirstReplaced;
    RewriteReplacesFirst(files[p.path], p.before, p.after);
    RewriteFound(files[p.path], p.before, p.after);
  }

  // ---- the answer `False` -----------------------------------------------------------------------------------------

  /** No removed, added or context line comes after a `+++` line. */
  predicate Idle(lines: seq<string>) {
    forall i, j :: 0 <= i < j < |lines| && IsTarget(lines[i]) ==> !Collected(lines[j])
  }

  lemma {:induction false} NoPieceFor(target: string, olds: seq<string>, news: seq<string>, lines: seq<string>)
    ensures PiecesFrom(Some(target), olds, news, lines) == []
       <==> olds == [] && news == [] && forall j :: 0 <= j < |lines| ==> !Collected(lines[j])
    decreases |lines|
  {
    hide Concat, TargetText, WithoutPrefix;
    if |lines| > 0 {
      var line, rest := lines[0], lines[1..];
      assert forall j :: 0 <= j < |rest| ==> rest[j] == lines[j + 1];
      CollectedParts(line);
      hide Collected, OldPart, NewPart;
      if IsTarget(line) {
        NoPieceFor(WithoutPrefix(TargetText(line)), [], [], rest);
      } else {
        NoPieceFor(target, olds + OldPart(line), news + NewPart(line), rest);
      }
      hide PiecesFrom;
      if forall j :: 0 <= j < |rest| ==> !Collected(rest[j]) {
        forall j | 0 < j < |lines| ensures !Collected(lines[j]) { assert lines[j] == rest[j - 1]; }
      }
    }
  }

  lemma CollectedParts(line: string)
    ensures Collected(line) <==> OldPart(line) != [] || NewPart(line) != []
    ensures IsTarget(line) ==> !Collected(line)
  {
    OneMark(line);
    hide IsTarget, StartsWith;
  }

  lemma {:induction false} NoPiece(olds: seq<string>, news: seq<string>, lines: seq<string>)
    ensures PiecesFrom(None, olds, news, lines) == [] <==> Idle(lines)
    decreases |lines|
  {
    hide Concat, TargetText, WithoutPrefix, Collected, OldPart, NewPart;
    if |lines| > 0 {
      var line, rest := lines[0], lines[1..];
      assert forall j :: 0 <= j < |rest| ==> rest[j] == lines[j + 1];
      if IsTarget(line) {
        NoPieceFor(WithoutPrefix(TargetText(line)), [], [], rest);
        CollectedRest(lines);
      } else {
        NoPiece(olds + OldPart(line), news + NewPart(line), rest);
        IdleRest(lines);
      }
    }
  }

  lemma CollectedRest(lines: seq<string>)
    requires |lines| > 0 && IsTarget(lines[0])
    ensures Idle(lines) <==> forall j :: 0 <= j < |lines[1..]| ==> !Collected(lines[1..][j])
  {
    hide Collected, IsTarget;
    var rest := lines[1..];
    if forall j :: 0 <= j < |rest| ==> !Collected(rest[j]) {
      forall i, j | 0 <= i < j < |lines| && IsTarget(lines[i]) ensures !Collected(lines[j]) {
        assert lines[j] == rest[j - 1];
      }
    }
    if Idle(lines) {
      forall j | 0 <= j < |rest| ensures !Collected(rest[j]) { assert rest[j] == lines[j + 1]; }
    }
  }

  lemma IdleRest(lines: seq<string>)
    requires |lines| > 0 && !IsTarget(lines[0])
    ensures Idle(lines) <==> Idle(lines[1..])
  {
    hide Collected, IsTarget;
    var rest := lines[1..];
    if Idle(rest) {
      forall i, j | 0 <= i < j < |lines| && IsTarget(lines[i]) ensures !Collected(lines[j]) {
        assert lines[i] == rest[i - 1] && lines[j] == rest[j - 1];
      }
    }
    if Idle(lines) {
      forall i, j | 0 <= i < j < |rest| && IsTarget(rest[i]) ensures !Collected(rest[j]) {
        assert rest[i] == lines[i + 1] && rest[j] == lines[j + 1];
      }
    }
  }

  /** The fallback answers `False` if and only if no removed, added or context line of the patch comes
      after a `+++` line, as in a patch without any `+++` line. Nothing is written then, and yet the
      status is `applied`. */
  lemma FalseIsReportedApplied(files: map<string, string>, patch: string)
    ensures Applied(files, patch).1 == Some(false) <==> Idle(Lines(patch))
    ensures Idle(Lines(patch)) ==>
      Applied(files, patch).0 == files && FallbackStatus(Applied(files, patch).1) == "applied"
    ensures CountTargets(Lines(patch)) == 0 ==> Idle(Lines(patch))
  {
    hide Lines, PiecesFrom, Idle, Applied;
    PatchIsPieces(files, patch);
    NoPiece([], [], Lines(patch));
    if CountTargets(Lines(patch)) == 0 { NoTargetIsIdle(Lines(patch)); }
  }

  lemma {:induction false} NoTargetIsIdle(lines: seq<string>)
    requires CountTargets(lines) == 0
    ensures Idle(lines)
  {
    hide IsTarget, Idle, Collected;
    if |lines| > 0 {
      NoTargetIsIdle(lines[1..]);
      IdleRest(lines);
    } else {
      NoLinesIdle();
    }
  }

  lemma NoLinesIdle()
    ensures Idle([])
  {}

  // ---- all or nothing ---------------------------------------------------------------------------------------------

  /** Refused, the patch has changed no file. */
  predicate AllOrNothing(files: map<string, string>, patch: string) {
    Applied(files, patch).1.None? ==> Applied(files, patch).0 == files
  }

  predicate DistinctFiles(pieces: seq<Piece>) {
    forall i, j :: 0 <= i < j < |pieces| ==> pieces[i].path != pieces[j].path
  }

  /** The number of pieces before the first that does not fit the given files. */
  function Fitting(files: map<string, string>, pieces: seq<Piece>): (k: nat)
    ensures k <= |pieces|
    ensures forall i :: 0 <= i < k ==> Fits(files, pieces[i])
    ensures k < |pieces| ==> !Fits(files, pieces[k])
  {
    if |pieces| == 0 || !Fits(files, pieces[0]) then 0 else 1 + Fitting(files, pieces[1..])
  }

  /** Writing the piece leaves its file as it was. */
  predicate Leaves(files: map<string, string>, p: Piece)
    requires p.path in files
  {
    Replaced(files[p.path], p) == files[p.path]
  }

  /** Files that agree on the paths of the pieces are judged alike. */
  lemma {:induction false} SameFitting(files: map<string, string>, files': map<string, string>, pieces: seq<Piece>)
    requires forall i :: 0 <= i < |pieces| ==> (pieces[i].path in files <==> pieces[i].path in files')
    requires forall i :: 0 <= i < |pieces| && pieces[i].path in files ==>
      files[pieces[i].path] == files'[pieces[i].path]
    ensures Fitting(files, pieces) == Fitting(files', pieces)
    decreases |pieces|
  {
    hide Contains, ReadText;
    if |pieces| > 0 {
      var rest := pieces[1..];
      assert forall i :: 0 <= i < |rest| ==> rest[i] == pieces[i + 1];
      assert Fits(files, pieces[0]) <==> Fits(files', pieces[0]);
      SameFitting(files, files', rest);
    }
  }

  /** For distinct files the outcome is decided by the original files: the fitting pieces are written,
      the rest is untouched. */
  lemma {:induction false} DistinctOutcome(files: map<string, string>, pieces: seq<Piece>)
    requires DistinctFiles(pieces)
    ensures var (files', ok) := ApplyPieces(files, pieces);
      var k := Fitting(files, pieces);
      && (ok <==> k == |pieces|)
      && files'.Keys == files.Keys
      && (forall i :: 0 <= i < k ==> files'[pieces[i].path] == Replaced(files[pieces[i].path], pieces[i]))
      && (forall f | f in files && (forall i :: 0 <= i < k ==> pieces[i].path != f) :: files'[f] == files[f])
    decreases |pieces|
  {
    hide Replaced, Contains, ReadText;
    if |pieces| > 0 && Fits(files, pieces[0]) {
      var p, rest := pieces[0], pieces[1..];
      var files1 := files[p.path := Replaced(files[p.path], p)];
      assert forall i :: 0 <= i < |rest| ==> rest[i] == pieces[i + 1];
      assert DistinctFiles(rest);
      assert forall i :: 0 <= i < |rest| ==> rest[i].path != p.path;
      SameFitting(files, files1, rest);
      DistinctOutcome(files1, rest);
      var files' := ApplyPieces(files1, rest).0;
      var k := Fitting(files, pieces);
      assert files'[p.path] == files1[p.path];
      forall i | 0 <= i < k ensures files'[pieces[i].path] == Replaced(files[pieces[i].path], pieces[i]) {
        if i > 0 { assert pieces[i] == rest[i - 1]; }
      }
      forall f | f in files && (forall i :: 0 <= i < k ==> pieces[i].path != f) ensures files'[f] == files[f] {
        assert pieces[0].path != f;
        assert forall i :: 0 <= i < k - 1 ==> rest[i].path != f;
      }
    }
  }

  /** The pieces for one file, in order. */
  function OnFile(pieces: seq<Piece>, path: string): seq<Piece> {
    if |pieces| == 0 then []
    else
      var init, last := pieces[..|pieces| - 1], pieces[|pieces| - 1];
      OnFile(init, path) + if last.path == path then [last] else []
  }

  /** A content after some pieces for its file. */
  function AfterPieces(raw: string, pieces: seq<Piece>): string {
    if |pieces| == 0 then raw
    else Replaced(AfterPieces(raw, pieces[..|pieces| - 1]), pieces[|pieces| - 1])
  }

  /** A piece fits its original file as the earlier pieces for the same file leave it. */
  predicate FitsInTurn(files: map<string, string>, pieces: seq<Piece>, i: nat)
    requires i < |pieces|
  {
    var p := pieces[i];
    p.path in files && Contains(p.before, ReadText(AfterPieces(files[p.path], OnFile(pieces[..i], p.path))))
  }

  /** The number of pieces before the first that does not fit in turn, counted from `i` on. */
  function FittingInTurn(files: map<string, string>, pieces: seq<Piece>, i: nat): (k: nat)
    requires i <= |pieces|
    ensures i <= k <= |pieces|
    ensures forall j :: i <= j < k ==> FitsInTurn(files, pieces, j)
    ensures k < |pieces| ==> !FitsInTurn(files, pieces, k)
    decreases |pieces| - i
  {
    if i == |pieces| || !FitsInTurn(files, pieces, i) then i else FittingInTurn(files, pieces, i + 1)
  }

  /** The files after the first `j` pieces, each file by its own pieces alone. */
  ghost predicate FilesAfter(files: map<string, string>, pieces: seq<Piece>, j: nat, files': map<string, string>)
    requires j <= |pieces|
  {
    files'.Keys == files.Keys && forall f | f in files :: files'[f] == AfterPieces(files[f], OnFile(pieces[..j], f))
  }

  lemma OnFileMore(pieces: seq<Piece>, j: nat, path: string)
    requires j < |pieces|
    ensures OnFile(pieces[..j + 1], path)
         == OnFile(pieces[..j], path) + if pieces[j].path == path then [pieces[j]] else []
  {
    assert pieces[..j + 1][..j] == pieces[..j];
  }

  lemma AfterMore(raw: string, pieces: seq<Piece>, p: Piece)
    ensures AfterPieces(raw, pieces + [p]) == Replaced(AfterPieces(raw, pieces), p)
  {
    hide Replaced;
    assert (pieces + [p])[..|pieces|] == pieces;
  }

  lemma FilesAfterMore(files: map<string, string>, pieces: seq<Piece>, j: nat, files': map<string, string>)
    requires j < |pieces| && FilesAfter(files, pieces, j, files') && pieces[j].path in files
    ensures FilesAfter(files, pieces, j + 1, files'[pieces[j].path := Replaced(files'[pieces[j].path], pieces[j])])
  {
    hide Replaced, AfterPieces, OnFile;
    var p := pieces[j];
    forall f | f in files
      ensures (if f == p.path then Replaced(files'[f], p) else files'[f])
           == AfterPieces(files[f], OnFile(pieces[..j + 1], f))
    {
      OnFileMore(pieces, j, f);
      var done := OnFile(pieces[..j], f);
      if f == p.path { AfterMore(files[f], done, p); } else { assert done + [] == done; }
    }
  }

  /** Going on from the files after `i` pieces: every file is changed by its own pieces alone, up to the
      first piece that does not fit in turn. */
  lemma {:induction false} InTurnOutcome(files: map<string, string>, pieces: seq<Piece>, i: nat,
                                         files1: map<string, string>)
    requires i <= |pieces| && FilesAfter(files, pieces, i, files1)
    ensures var (files', ok) := ApplyPieces(files1, pieces[i..]);
      var k := FittingInTurn(files, pieces, i);
      (ok <==> k == |pieces|) && FilesAfter(files, pieces, k, files')
    decreases |pieces| - i
  {
    hide Replaced, Contains, ReadText, AfterPieces, OnFile, FilesAfter;
    if i < |pieces| {
      assert pieces[i..][0] == pieces[i] && pieces[i..][1..] == pieces[i + 1..];
      FitsNow(files, pieces, i, files1);
      if FitsInTurn(files, pieces, i) {
        FilesAfterMore(files, pieces, i, files1);
        var p := pieces[i];
        InTurnOutcome(files, pieces, i + 1, files1[p.path := Replaced(files1[p.path], p)]);
      }
    }
  }

  lemma FitsNow(files: map<string, string>, pieces: seq<Piece>, i: nat, files1: map<string, string>)
    requires i < |pieces| && FilesAfter(files, pieces, i, files1)
    ensures Fits(files1, pieces[i]) <==> FitsInTurn(files, pieces, i)
    ensures pieces[i].path in files1 <==> pieces[i].path in files
  {
    hide Contains, ReadText, AfterPieces, OnFile;
  }

  lemma NothingYet(files: map<string, string>, pieces: seq<Piece>)
    ensures FilesAfter(files, pieces, 0, files) && pieces[0..] == pieces
  {
    assert pieces[..0] == [];
  }

  /** A patch is all-or-nothing if and only if every piece fits in turn, or the pieces before the first
      that does not leave every one of their files as it was. Each file is judged by its original content
      and its own pieces alone. */
  lemma AllOrNothingExactly(files: map<string, string>, patch: string)
    ensures var pieces := Pieces(Lines(patch));
      var k := FittingInTurn(files, pieces, 0);
      AllOrNothing(files, patch) <==>
        k == |pieces| || forall f | f in files :: AfterPieces(files[f], OnFile(pieces[..k], f)) == files[f]
  {
    var pieces := Pieces(Lines(patch));
    ApplicationOf(files, patch);
    NothingYet(files, pieces);
    InTurnOutcome(files, pieces, 0, files);
    hide Pieces, Lines, AllOrNothing, ApplyPieces, FittingInTurn, AfterPieces, OnFile;
    var files' := ApplyPieces(files, pieces).0;
    assert files' == files <==> forall f | f in files :: files'[f] == files[f];
  }

  /** In particular, where the pieces name distinct files, if and only if every piece fits the
      original files, or every piece before the first that does not leaves its file as it was. */
  lemma AllOrNothingDistinct(files: map<string, string>, patch: string)
    requires DistinctFiles(Pieces(Lines(patch)))
    ensures var pieces := Pieces(Lines(patch));
      var k := Fitting(files, pieces);
      AllOrNothing(files, patch) <==> k == |pieces| || forall i :: 0 <= i < k ==> Leaves(files, pieces[i])
  {
    var pieces := Pieces(Lines(patch));
    hide *;
    PatchIsPieces(files, patch);
    DistinctAllOrNothing(files, pieces);
    ApplicationOf(files, patch);
  }

  lemma ApplicationOf(files: map<string, string>, patch: string)
    ensures var (files', ok) := ApplyPieces(files, Pieces(Lines(patch)));
      AllOrNothing(files, patch) <==> ok || files' == files
  {
    hide Pieces, Lines, Applied, ApplyPieces;
    PatchIsPieces(files, patch);
  }

  lemma DistinctAllOrNothing(files: map<string, string>, pieces: seq<Piece>)
    requires DistinctFiles(pieces)
    ensures var (files', ok) := ApplyPieces(files, pieces);
      var k := Fitting(files, pieces);
      (ok || files' == files) <==> k == |pieces| || forall i :: 0 <= i < k ==> Leaves(files, pieces[i])
  {
    DistinctOutcome(files, pieces);
    var (files', ok) := ApplyPieces(files, pieces);
    var k := Fitting(files, pieces);
    hide ApplyPieces, Fitting, Replaced, DistinctFiles, Contains, ReadText, Leaves;
    assert forall i :: 0 <= i < k ==> pieces[i].path in files;
    SameIfLeft(files, files', pieces, k);
  }

  /** Where only the first `k` pieces are written, nothing changes if and only if they all leave their files. */
  lemma SameIfLeft(files: map<string, string>, files': map<string, string>, pieces: seq<Piece>, k: nat)
    requires k <= |pieces| && files'.Keys == files.Keys && forall i :: 0 <= i < k ==> pieces[i].path in files
    requires forall i :: 0 <= i < k ==> files'[pieces[i].path] == Replaced(files[pieces[i].path], pieces[i])
    requires forall f | f in files && (forall i :: 0 <= i < k ==> pieces[i].path != f) :: files'[f] == files[f]
    ensures files' == files <==> forall i :: 0 <= i < k ==> Leaves(files, pieces[i])
  {
    hide Replaced;
    if forall i :: 0 <= i < k ==> Leaves(files, pieces[i]) {
      forall f | f in files ensures files'[f] == files[f] {
        if i :| 0 <= i < k && pieces[i].path == f { assert Leaves(files, pieces[i]); }
      }
    }
  }
}
