/** The Python fallback that applies a unified diff, and the list of files a patch names. */
module Patch {
  import opened Text

  // ---- lines and newlines -----------------------------------------------------------------------------------

  /** `text.splitlines(keepends=True)` with `\n` as the only line break. */
  function Lines(text: string): (r: seq<string>)
    ensures forall i :: 0 <= i < |r| ==> r[i] != ""
    ensures |r| == 0 <==> text == ""
    decreases |text|
  {
    if text == "" then []
    else if text[0] == '\n' then ["\n"] + Lines(text[1..])
    else
      var rest := Lines(text[1..]);
      if rest == [] then [text] else [[text[0]] + rest[0]] + rest[1..]
  }

  function Concat(parts: seq<string>): string {
    if |parts| == 0 then "" else parts[0] + Concat(parts[1..])
  }

  /** What a text-mode read makes of the stored characters: every line break becomes `\n`. */
  function ReadText(raw: string): (text: string)
    ensures '\r' !in text
    decreases |raw|
  {
    if raw == "" then ""
    else if raw[0] != '\r' then [raw[0]] + ReadText(raw[1..])
    else if |raw| > 1 && raw[1] == '\n' then "\n" + ReadText(raw[2..])
    else "\n" + ReadText(raw[1..])
  }

  /** `s.replace("\n", "\r\n")` */
  function Crlf(s: string): string {
    if s == "" then "" else (if s[0] == '\n' then "\r\n" else [s[0]]) + Crlf(s[1..])
  }

  // ---- the applier --------------------------------------------------------------------------------------------

  /** The files by path, and the hunk that is being collected for the current file. */
  datatype State = State(files: map<string, string>, current: Option<string>,
                         oldLines: seq<string>, newLines: seq<string>, applied: bool)

  /** The content that replaces the file when the collected hunk is flushed; `None` if it does not apply. */
  function Rewrite(raw: string, old_: string, new_: string): Option<string> {
    var text := ReadText(raw);
    if Contains(old_, text) then Some(ReplaceFirst(text, old_, new_))
    else if Contains(Crlf(old_), text) then Some(ReplaceFirst(text, Crlf(old_), Crlf(new_)))
    else None
  }

  /** `flush`: the new state, and whether the hunk applied. */
  function Flushed(st: State): (State, bool) {
    if st.current.None? || (|st.oldLines| == 0 && |st.newLines| == 0) then
      (st.(oldLines := [], newLines := []), true)
    else if st.current.value !in st.files then (st, false)
    else match Rewrite(st.files[st.current.value], Concat(st.oldLines), Concat(st.newLines))
      case None => (st, false)
      case Some(content) =>
        (State(st.files[st.current.value := content], st.current, [], [], true), true)
  }

  predicate IsTarget(line: string) { StartsWith(line, "+++ ") }

  /** The stripped path after `+++ `. */
  function TargetText(line: string): string
    requires IsTarget(line)
  {
    Strip(line[4..])
  }

  function WithoutPrefix(target: string): string {
    if StartsWith(target, "b/") then target[2..] else target
  }

  /** One line of the patch: the new state, and whether the applier goes on. */
  function AfterLine(st: State, line: string): (State, bool) {
    if IsTarget(line) then
      var (st', ok) := Flushed(st);
      if ok then (st'.(current := Some(WithoutPrefix(TargetText(line)))), true) else (st', false)
    else if StartsWith(line, "--- ") || StartsWith(line, "@@") then (st, true)
    else if StartsWith(line, "-") then (st.(oldLines := st.oldLines + [line[1..]]), true)
    else if StartsWith(line, "+") then (st.(newLines := st.newLines + [line[1..]]), true)
    else if StartsWith(line, " ") then
      (st.(oldLines := st.oldLines + [line[1..]], newLines := st.newLines + [line[1..]]), true)
    else (st, true)
  }

  /** All lines, then the last flush; stops at the first flush that fails. */
  function AfterLines(st: State, lines: seq<string>): (State, bool)
    decreases |lines|
  {
    hide Flushed, AfterLine;
    if |lines| == 0 then Flushed(st)
    else
      var (st', ok) := AfterLine(st, lines[0]);
      if ok then AfterLines(st', lines[1..]) else (st', false)
  }

  function Initial(files: map<string, string>): State { State(files, None, [], [], false) }

  /** The files afterwards, and `None` (refused), `Some(false)` (nothing to do) or `Some(true)`. */
  function Applied(files: map<string, string>, patch: string): (map<string, string>, Option<bool>) {
    var (st, ok) := AfterLines(Initial(files), Lines(patch));
    (st.files, if ok then Some(st.applied) else None)
  }

  /** `_apply_simple_unified_diff` with its closure variables as fields. */
  class Applier {
    var files: map<string, string>
    var currentFile: Option<string>
    var oldLines: seq<string>
    var newLines: seq<string>
    var appliedAny: bool

    function Now(): State
      reads this
    {
      State(files, currentFile, oldLines, newLines, appliedAny)
    }

    constructor (files: map<string, string>)
      ensures Now() == Initial(files)
    {
      this.files := files;
      currentFile, oldLines, newLines, appliedAny := None, [], [], false;
    }

    method Flush() returns (ok: bool)
      modifies this
      ensures (Now(), ok) == Flushed(old(Now()))
    {
      if currentFile.None? || (|oldLines| == 0 && |newLines| == 0) {
        oldLines, newLines := [], [];
        return true;
      }
      var path := currentFile.value;
      if path !in files { return false; }
      var text := ReadText(files[path]);
      var before, after := Concat(oldLines), Concat(newLines);
      if !Contains(before, text) {
        var beforeCrlf, afterCrlf := Crlf(before), Crlf(after);
        if !Contains(beforeCrlf, text) { return false; }
        files := files[path := ReplaceFirst(text, beforeCrlf, afterCrlf)];
      } else {
        files := files[path := ReplaceFirst(text, before, after)];
      }
      appliedAny := true;
      oldLines, newLines := [], [];
      return true;
    }

    method ApplyPatch(patch: string) returns (r: Option<bool>)
      requires Now() == Initial(files)
      modifies this
      ensures (files, r) == Applied(old(files), patch)
    {
      hide Flushed, Strip, Lines;
      var lines := Lines(patch);
      var i := 0;
      while i < |lines|
        invariant 0 <= i <= |lines|
        invariant AfterLines(Now(), lines[i..]) == AfterLines(Initial(old(files)), lines)
      {
        var line := lines[i];
        assert lines[i..][1..] == lines[i + 1..];
        if IsTarget(line) {
          var ok := Flush();
          if !ok { return None; }
          currentFile := Some(WithoutPrefix(TargetText(line)));
        } else if StartsWith(line, "--- ") || StartsWith(line, "@@") {
        } else if StartsWith(line, "-") {
          oldLines := oldLines + [line[1..]];
        } else if StartsWith(line, "+") {
          newLines := newLines + [line[1..]];
        } else if StartsWith(line, " ") {
          oldLines := oldLines + [line[1..]];
          newLines := newLines + [line[1..]];
        }
        i := i + 1;
      }
      var ok := Flush();
      if !ok { return None; }
      return Some(appliedAny);
    }
  }

  /** The targets a patch names, in order, each once. */
  function TargetsOf(lines: seq<string>): (r: seq<string>)
    ensures forall i, j :: 0 <= i < j < |r| ==> r[i] != r[j]
    ensures "" !in r
  {
    if |lines| == 0 then []
    else
      var r0, line := TargetsOf(lines[..|lines| - 1]), lines[|lines| - 1];
      if !IsTarget(line) || TargetText(line) == "/dev/null" then r0
      else
        var t := WithoutPrefix(TargetText(line));
        if t == "" || t in r0 then r0 else r0 + [t]
  }

  /** `changed_files_from_patch`; the paths are stripped, so keeping line ends makes no difference. */
  method ChangedFilesFromPatch(patch: string) returns (changed: seq<string>)
    ensures changed == TargetsOf(Lines(patch))
  {
    var lines := Lines(patch);
    changed := [];
    var i := 0;
    while i < |lines|
      invariant 0 <= i <= |lines|
      invariant changed == TargetsOf(lines[..i])
    {
      var line := lines[i];
      assert lines[..i + 1][..i] == lines[..i];
      i := i + 1;
      if !IsTarget(line) { continue; }
      var target := TargetText(line);
      if target == "/dev/null" { continue; }
      target := WithoutPrefix(target);
      if target != "" && target !in changed {
        changed := changed + [target];
      }
    }
    assert lines[..i] == lines;
  }
}
