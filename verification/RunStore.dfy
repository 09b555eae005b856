/** The run store: append-only logs of JSON lines and snapshots replaced by rename, with crashes. */
module RunStore {
  import opened Text

  type Files = map<string, string>

  const NEWLINE := "\n"

  // ---- logs ---------------------------------------------------------------------------------------------------------

  /** An append of a record of which a crash lets only the first `cut` characters reach the file; with the
      newline there are `|record| + 1`. */
  datatype Append = Append(record: string, cut: nat) {
    predicate Whole() { cut == |record| + 1 }

    function Written(): string
      requires cut <= |record| + 1
    {
      (record + NEWLINE)[..cut]
    }
  }

  /** What a line of a log gives: nothing if it is blank or the JSON parser rejects it. */
  function ReadLine(accepts: string -> bool, line: string): seq<string> {
    var text := Strip(line);
    if |text| > 0 && accepts(text) then [text] else []
  }

  function ReadLines(accepts: string -> bool, lines: seq<string>): seq<string> {
    if |lines| == 0 then [] else ReadLine(accepts, lines[0]) + ReadLines(accepts, lines[1..])
  }

  /** The texts of the records that reading a log gives. */
  function Read(accepts: string -> bool, file: string): seq<string> {
    ReadLines(accepts, SplitOn(file, '\n'))
  }

  function ContentOf(files: Files, path: string): string { if path in files then files[path] else "" }

  /** No append reaches further than its newline. */
  predicate Fits(h: seq<Append>) { forall i :: 0 <= i < |h| ==> h[i].cut <= |h[i].record| + 1 }

  /** The text of a log after a history of appends. */
  function File(h: seq<Append>): string
    requires Fits(h)
  {
    if |h| == 0 then "" else h[0].Written() + File(h[1..])
  }

  lemma {:induction false} FileMore(h: seq<Append>, a: Append)
    requires Fits(h) && a.cut <= |a.record| + 1
    ensures Fits(h + [a]) && File(h + [a]) == File(h) + a.Written()
  {
    hide Append.Written;
    if |h| == 0 {
      assert h + [a] == [a];
      assert [a][1..] == [];
      assert File([a]) == a.Written() + File([]);
      assert a.Written() + "" == a.Written();
    } else {
      assert (h + [a])[1..] == h[1..] + [a];
      FileMore(h[1..], a);
      assert h[0].Written() + (File(h[1..]) + a.Written()) == h[0].Written() + File(h[1..]) + a.Written();
    }
  }

  // ---- snapshots ----------------------------------------------------------------------------------------------------

  /** How far an overwrite gets: it completes; it crashes before the temporary file exists, or with `n`
      characters in it; or the writing fails there, and the temporary file is removed if that works. */
  datatype Fate = Completes | CrashesEarly | Crashes(n: nat) | Fails(n: nat, removed: bool)

  /** The files after an overwrite. */
  function Overwritten(files: Files, path: string, text: string, tmp: string, fate: Fate): Files {
    match fate
    case Completes => (files - {tmp})[path := text]
    case CrashesEarly => files
    case Crashes(n) => files[tmp := if n < |text| then text[..n] else text]
    case Fails(n, removed) => if removed then files - {tmp} else files[tmp := if n < |text| then text[..n] else text]
  }

  class RunStore {
    var files: Files

    constructor ()
      ensures files == map[]
    {
      files := map[];
    }

    /** A log that holds a history of appends then holds that history and this append. Every text is such
        a history, namely one append of itself that lacks only the newline. */
    method AppendJsonl(path: string, append: Append)
      requires append.cut <= |append.record| + 1
      modifies this
      ensures files == old(files)[path := ContentOf(files, path)]
      ensures forall h: seq<Append> | Fits(h) && ContentOf(old(files), path) == File(h) ::
        Fits(h + [append]) && ContentOf(files, path) == File(h + [append])
    {
      forall h: seq<Append> | Fits(h) && ContentOf(files, path) == File(h)
        ensures Fits(h + [append]) && File(h + [append]) == ContentOf(files, path) + append.Written()
      {
        FileMore(h, append);
      }
      files := files[path := ContentOf(files, path) + append.Written()];
    }

    /** Temporary file, rename, and the clean-up of the error path; the temporary name is a fresh one. */
    method AtomicWriteJson(path: string, text: string, tmp: string, fate: Fate) returns (written: bool)
      requires tmp !in files && tmp != path
      modifies this
      ensures files == Overwritten(old(files), path, text, tmp, fate)
      ensures written <==> fate == Completes
    {
      if fate == CrashesEarly { return false; }
      files := files[tmp := ""];
      if fate.Crashes? || fate.Fails? {
        files := files[tmp := if fate.n < |text| then text[..fate.n] else text];
        if fate.Fails? && fate.removed { files := files - {tmp}; }
        return false;
      }
      files := files[tmp := text];
      files := files[path := files[tmp]] - {tmp};
      return true;
    }

    method ReadJsonl(path: string, accepts: string -> bool) returns (out: seq<string>)
      ensures out == Read(accepts, ContentOf(files, path))
    {
      hide Strip, SplitOn, ReadLines;
      out := [];
      if path !in files {
        BlankFile(accepts);
        return;
      }
      var lines := SplitOn(files[path], '\n');
      NoLines(accepts);
      var i := 0;
      while i < |lines|
        invariant 0 <= i <= |lines|
        invariant out == ReadLines(accepts, lines[..i])
      {
        ReadLinesMore(accepts, lines, i);
        var line := Strip(lines[i]);
        if |line| > 0 && accepts(line) { out := out + [line]; }
        i := i + 1;
      }
      assert lines[..i] == lines;
    }
  }

  lemma NoLines(accepts: string -> bool)
    ensures ReadLines(accepts, []) == []
  {}

  lemma {:induction false} ReadLinesMore(accepts: string -> bool, lines: seq<string>, i: nat)
    requires i < |lines|
    ensures ReadLines(accepts, lines[..i + 1]) == ReadLines(accepts, lines[..i]) + ReadLine(accepts, lines[i])
  {
    hide ReadLine;
    if i == 0 {
      assert lines[..1] == [lines[0]];
      assert [lines[0]][1..] == [];
    } else {
      assert lines[..i + 1][1..] == lines[1..][..i] && lines[..i][1..] == lines[1..][..i - 1];
      ReadLinesMore(accepts, lines[1..], i - 1);
    }
  }

  lemma BlankFile(accepts: string -> bool)
    ensures Read(accepts, "") == []
  {
    var blank: string := [];
    assert SplitOn(blank, '\n') == [blank];
    assert |Strip(blank)| == 0;
    assert [blank][1..] == [];
  }
}

/** What can be read back after any history of appends and overwrites with crashes. */
module RunStoreLaws {
  import opened Text
  import opened RunStore

  // ---- the shape of a JSON object -----------------------------------------------------------------------------------

  datatype Mode = Plain | InString | Escape

  /** A scan of a JSON text that only counts brackets outside strings: open brackets and mode, or the end of
      the outermost one reached, or no JSON text can go on like this. */
  datatype Scan = At(depth: nat, mode: Mode) | Done | Dead

  function Next(s: Scan, c: char): Scan {
    match s
    case Dead => Dead
    case Done => if IsSpace(c) then Done else Dead
    case At(d, Escape) => if c in "\"\\/bfnrtu" then At(d, InString) else Dead
    case At(d, InString) => if c == '"' then At(d, Plain) else if c == '\\' then At(d, Escape) else s
    case At(d, Plain) =>
      if c == '"' then At(d, InString)
      else if c == '\\' then Dead
      else if c == '{' || c == '[' then At(d + 1, Plain)
      else if c == '}' || c == ']' then (if d == 0 then Dead else if d == 1 then Done else At(d - 1, Plain))
      else s
  }

  function ScanFrom(s: Scan, t: string): Scan {
    if |t| == 0 then s else Next(ScanFrom(s, t[..|t| - 1]), t[|t| - 1])
  }

  const OUTSIDE := At(0, Plain)

  /** A parser of JSON: it accepts a text that starts with a brace only if the scan ends in `Done`. */
  ghost predicate JsonLike(accepts: string -> bool) {
    forall s :: |s| > 0 && s[0] == '{' && accepts(s) ==> ScanFrom(OUTSIDE, s) == Done
  }

  /** The line that `json.dumps` prints for an object. */
  ghost predicate IsRecord(accepts: string -> bool, r: string) {
    |r| > 1 && r[0] == '{' && r[|r| - 1] == '}' && '\n' !in r && accepts(r)
  }

  lemma {:induction false} ScanSplit(s: Scan, a: string, b: string)
    ensures ScanFrom(s, a + b) == ScanFrom(ScanFrom(s, a), b)
  {
    hide Next;
    if |b| == 0 {
      assert a + b == a;
    } else {
      var n := |b| - 1;
      assert (a + b)[..|a + b| - 1] == a + b[..n] && (a + b)[|a + b| - 1] == b[n];
      ScanSplit(s, a, b[..n]);
    }
  }

  /** After the first brace some bracket is open as long as the text goes on. */
  lemma {:induction false} Started(t: string)
    requires |t| > 0 && t[0] == '{'
    ensures var s := ScanFrom(OUTSIDE, t); s.At? ==> s.depth > 0
  {
    var n := |t| - 1;
    if n == 0 {
      assert t[..n] == [];
    } else {
      Started(t[..n]);
    }
  }

  lemma {:induction false} DeadStays(t: string)
    ensures ScanFrom(Dead, t) == Dead
  {
    if |t| > 0 { DeadStays(t[..|t| - 1]); }
  }

  /** The states that go together when a text is scanned from the outside and inside `d` open brackets. */
  ghost predicate Deeper(out: Scan, inner: Scan, d: nat) {
    match out
    case At(e, m) => inner == At(d + e, m)
    case Done => inner == At(d, Plain)
    case Dead => true
  }

  lemma {:induction false} ScanDeeper(t: string, d: nat)
    requires d > 0
    ensures Deeper(ScanFrom(OUTSIDE, t), ScanFrom(At(d, Plain), t), d)
  {
    if |t| > 0 {
      var n := |t| - 1;
      ScanDeeper(t[..n], d);
      DeeperStep(ScanFrom(OUTSIDE, t[..n]), ScanFrom(At(d, Plain), t[..n]), d, t[n]);
    }
  }

  lemma DeeperStep(out: Scan, inner: Scan, d: nat, c: char)
    requires d > 0 && Deeper(out, inner, d)
    ensures Deeper(Next(out, c), Next(inner, c), d)
  {}

  /** The states that go together when a text is scanned from the outside and inside a string: the quotes
      change sides, and a backslash of the one is out of place in the other. */
  ghost predicate Swapped(out: Scan, inner: Scan) {
    match out
    case At(_, Plain) => inner == Dead || (inner.At? && inner.mode == InString)
    case At(_, InString) => inner == Dead || inner == Done || (inner.At? && inner.mode == Plain)
    case At(_, Escape) => inner == Dead
    case Done => inner == Dead || (inner.At? && inner.mode == InString)
    case Dead => true
  }

  lemma {:induction false} ScanSwapped(t: string, d: nat)
    ensures Swapped(ScanFrom(OUTSIDE, t), ScanFrom(At(d, InString), t))
  {
    if |t| > 0 {
      var n := |t| - 1;
      ScanSwapped(t[..n], d);
      SwappedStep(ScanFrom(OUTSIDE, t[..n]), ScanFrom(At(d, InString), t[..n]), t[n]);
    }
  }

  lemma SwappedStep(out: Scan, inner: Scan, c: char)
    requires Swapped(out, inner)
    ensures Swapped(Next(out, c), Next(inner, c))
  {}

  /** A whole record after anything that a record has started never completes a JSON text. */
  lemma JoinedIsNoJson(p: string, r: string)
    requires |p| > 0 && p[0] == '{'
    requires |r| > 0 && r[0] == '{' && ScanFrom(OUTSIDE, r) == Done
    ensures ScanFrom(OUTSIDE, p + r) != Done
  {
    hide ScanFrom;
    ScanSplit(OUTSIDE, p, r);
    Started(p);
    match ScanFrom(OUTSIDE, p)
    case At(d, Plain) => ScanDeeper(r, d);
    case At(d, InString) => ScanSwapped(r, d);
    case At(d, Escape) => BraceKills(At(d, Escape), r);
    case Done => BraceKills(Done, r);
    case Dead => DeadStays(r);
  }

  lemma BraceKills(s: Scan, r: string)
    requires |r| > 0 && r[0] == '{' && (s == Done || (s.At? && s.mode == Escape))
    ensures ScanFrom(s, r) == Dead
  {
    assert r == r[..1] + r[1..];
    assert r[..1][..0] == [];
    assert ScanFrom(s, r[..1]) == Dead;
    ScanSplit(s, r[..1], r[1..]);
    DeadStays(r[1..]);
  }

  /** A record that was cut short is no JSON text. */
  lemma CutIsNoJson(r: string, n: nat)
    requires 0 < n < |r| && r[|r| - 1] == '}' && ScanFrom(OUTSIDE, r) == Done
    ensures ScanFrom(OUTSIDE, r[..n]) != Done
  {
    assert r == r[..n] + r[n..];
    ScanSplit(OUTSIDE, r[..n], r[n..]);
    if ScanFrom(OUTSIDE, r[..n]) == Done { BraceEnds(r[n..]); }
  }

  lemma BraceEnds(t: string)
    requires |t| > 0 && t[|t| - 1] == '}'
    ensures ScanFrom(Done, t) == Dead
  {
    var s := ScanFrom(Done, t[..|t| - 1]);
    AfterDone(t[..|t| - 1]);
  }

  lemma {:induction false} AfterDone(t: string)
    ensures ScanFrom(Done, t) == Done || ScanFrom(Done, t) == Dead
  {
    if |t| > 0 { AfterDone(t[..|t| - 1]); }
  }

  // ---- one log ------------------------------------------------------------------------------------------------------

  /** Appends of records that reached the file at least in part. */
  ghost predicate History(accepts: string -> bool, h: seq<Append>) {
    forall i :: 0 <= i < |h| ==> IsRecord(accepts, h[i].record) && 0 < h[i].cut <= |h[i].record| + 1
  }

  function FileFrom(h: seq<Append>, i: nat): string
    requires i <= |h| && Fits(h)
    decreases |h| - i
  {
    if i == |h| then "" else h[i].Written() + FileFrom(h, i + 1)
  }

  /** An append survives if it reached the file with its newline, or is the last one and lacks only the
      newline, provided that the append before it was whole. */
  predicate Survives(h: seq<Append>, i: nat)
    requires i < |h|
  {
    && (i > 0 ==> h[i - 1].Whole())
    && (h[i].Whole() || (i == |h| - 1 && h[i].cut == |h[i].record|))
  }

  function Survivors(h: seq<Append>, i: nat): seq<string>
    requires i <= |h|
    decreases |h| - i
  {
    if i == |h| then [] else (if Survives(h, i) then [h[i].record] else []) + Survivors(h, i + 1)
  }

  /** The text after the last newline. */
  function Open(h: seq<Append>, n: nat): string
    requires n <= |h| && Fits(h)
  {
    if n == 0 || h[n - 1].Whole() then "" else Open(h, n - 1) + h[n - 1].Written()
  }

  predicate TornTwice(h: seq<Append>) { |h| > 1 && !h[|h| - 1].Whole() && !h[|h| - 2].Whole() }

  /** The one record that reading can invent: the joined text of torn appends at the end of the file. */
  function Phantom(accepts: string -> bool, h: seq<Append>): seq<string>
    requires Fits(h)
  {
    if TornTwice(h) then ReadLine(accepts, Open(h, |h|)) else []
  }

  lemma ReadFirst(accepts: string -> bool, line: string, rest: string)
    requires '\n' !in line
    ensures Read(accepts, line + NEWLINE + rest) == ReadLine(accepts, line) + Read(accepts, rest)
  {
    hide ReadLine;
    SplitOnConcat(line, rest, '\n');
    SplitOnWhole(line, '\n');
    var lines := SplitOn(rest, '\n');
    assert ([line] + lines)[1..] == lines;
  }

  lemma ReadOnly(accepts: string -> bool, line: string)
    requires '\n' !in line
    ensures Read(accepts, line) == ReadLine(accepts, line)
  {
    hide ReadLine;
    SplitOnWhole(line, '\n');
    var lines := [line];
    assert SplitOn(line, '\n') == lines && lines[1..] == [];
    NoLines(accepts);
    assert ReadLine(accepts, line) + [] == ReadLine(accepts, line);
  }

  lemma BracesAreText()
    ensures !IsSpace('{') && !IsSpace('}')
  {}

  lemma StripBraced(s: string)
    requires |s| > 0 && s[0] == '{'
    ensures Strip(s) <= s && |Strip(s)| > 0
    ensures s[|s| - 1] == '}' ==> Strip(s) == s
  {
    BracesAreText();
    hide IsSpace;
    if s[|s| - 1] == '}' { StripIdentity(s); }
    assert LStrip(s) == s;
    assert |RStrip(s)| > 0 by { assert !IsSpace(s[0]); }
  }

  lemma RecordLine(accepts: string -> bool, r: string)
    requires IsRecord(accepts, r)
    ensures ReadLine(accepts, r) == [r]
  {
    hide Strip;
    StripBraced(r);
  }

  /** A torn record at the end of the file is no record, unless only its newline is missing. */
  lemma CutLine(accepts: string -> bool, r: string, n: nat)
    requires JsonLike(accepts) && IsRecord(accepts, r) && 0 < n < |r|
    ensures ReadLine(accepts, r[..n]) == []
  {
    hide Strip, ScanFrom;
    StripBraced(r[..n]);
    var text := Strip(r[..n]);
    assert text == r[..|text|];
    CutIsNoJson(r, |text|);
  }

  /** A record behind torn text on the same line is lost with it. */
  lemma JoinedLine(accepts: string -> bool, p: string, r: string)
    requires JsonLike(accepts) && IsRecord(accepts, r) && |p| > 0 && p[0] == '{'
    ensures ReadLine(accepts, p + r) == []
  {
    hide Strip, ScanFrom;
    StripBraced(p + r);
    JoinedIsNoJson(p, r);
  }

  lemma WholeText(a: Append)
    requires a.Whole()
    ensures a.Written() == a.record + NEWLINE
  {}

  lemma TornText(accepts: string -> bool, a: Append)
    requires IsRecord(accepts, a.record) && 0 < a.cut <= |a.record|
    ensures a.Written() == a.record[..a.cut] && |a.Written()| > 0 && a.Written()[0] == '{' && '\n' !in a.Written()
  {}

  lemma {:induction false} OpenText(accepts: string -> bool, h: seq<Append>, n: nat)
    requires History(accepts, h) && 0 < n <= |h| && !h[n - 1].Whole()
    ensures var p := Open(h, n); |p| > 0 && p[0] == '{' && '\n' !in p
  {
    hide IsRecord;
    TornText(accepts, h[n - 1]);
    if n > 1 && !h[n - 2].Whole() { OpenText(accepts, h, n - 1); }
  }

  /** Reading from a line start on. */
  lemma {:induction false} ReadFrom(accepts: string -> bool, h: seq<Append>, i: nat)
    requires JsonLike(accepts) && History(accepts, h) && i <= |h| && (i > 0 ==> h[i - 1].Whole())
    ensures Read(accepts, FileFrom(h, i)) == Survivors(h, i) + Phantom(accepts, h)
    decreases |h| - i, 1
  {
    hide IsRecord, Read, JsonLike, ReadLine, Phantom;
    if i == |h| {
      assert Phantom(accepts, h) == [] by { NotTornTwice(accepts, h); }
      BlankFile(accepts);
    } else if h[i].Whole() {
      ReadFrom(accepts, h, i + 1);
      ReadWhole(accepts, h, i);
    } else if i == |h| - 1 {
      ReadTornEnd(accepts, h, i);
    } else {
      ReadPending(accepts, h, i + 1);
      assert Open(h, i + 1) == h[i].Written();
      assert !Survives(h, i);
    }
  }

  lemma NotTornTwice(accepts: string -> bool, h: seq<Append>)
    requires Fits(h) && (|h| > 0 ==> h[|h| - 1].Whole())
    ensures Phantom(accepts, h) == []
  {}

  lemma ReadWhole(accepts: string -> bool, h: seq<Append>, i: nat)
    requires History(accepts, h) && i < |h| && (i > 0 ==> h[i - 1].Whole()) && h[i].Whole()
    requires Read(accepts, FileFrom(h, i + 1)) == Survivors(h, i + 1) + Phantom(accepts, h)
    ensures Read(accepts, FileFrom(h, i)) == Survivors(h, i) + Phantom(accepts, h)
  {
    WholeText(h[i]);
    WholeSurvives(h, i);
    ReadAhead(accepts, h[i].record, FileFrom(h, i + 1));
    hide Read, Phantom, Survivors;
    var r := [h[i].record];
    assert r + Survivors(h, i + 1) + Phantom(accepts, h) == r + (Survivors(h, i + 1) + Phantom(accepts, h));
  }

  lemma ReadAhead(accepts: string -> bool, r: string, rest: string)
    requires IsRecord(accepts, r)
    ensures Read(accepts, (r + NEWLINE) + rest) == [r] + Read(accepts, rest)
  {
    hide NEWLINE, Read, ReadLine;
    RecordFacts(accepts, r);
    RecordLine(accepts, r);
    ReadFirst(accepts, r, rest);
  }

  lemma WholeSurvives(h: seq<Append>, i: nat)
    requires i < |h| && (i > 0 ==> h[i - 1].Whole()) && h[i].Whole()
    ensures Survivors(h, i) == [h[i].record] + Survivors(h, i + 1)
  {}

  lemma RecordFacts(accepts: string -> bool, r: string)
    requires IsRecord(accepts, r)
    ensures '\n' !in r && |r| > 1
  {}

  /** The last append was torn, the one before it was not. */
  lemma ReadTornEnd(accepts: string -> bool, h: seq<Append>, i: nat)
    requires JsonLike(accepts) && History(accepts, h) && i == |h| - 1 && (i > 0 ==> h[i - 1].Whole()) && !h[i].Whole()
    ensures Read(accepts, FileFrom(h, i)) == Survivors(h, i) + Phantom(accepts, h)
  {
    hide IsRecord, Read, JsonLike, ReadLine;
    var r, n := h[i].record, h[i].cut;
    TornText(accepts, h[i]);
    assert FileFrom(h, i) == r[..n] by { assert FileFrom(h, i + 1) == ""; }
    ReadOnly(accepts, r[..n]);
    if n == |r| {
      assert r[..n] == r;
      RecordLine(accepts, r);
    } else {
      CutLine(accepts, r, n);
    }
    assert Survivors(h, i + 1) == [];
  }

  /** Reading on behind torn text. */
  lemma {:induction false} ReadPending(accepts: string -> bool, h: seq<Append>, j: nat)
    requires JsonLike(accepts) && History(accepts, h) && 0 < j < |h| && !h[j - 1].Whole()
    ensures Read(accepts, Open(h, j) + FileFrom(h, j)) == Survivors(h, j) + Phantom(accepts, h)
    decreases |h| - j, 0
  {
    hide IsRecord, Read, JsonLike, ReadLine;
    if h[j].Whole() {
      ReadFrom(accepts, h, j + 1);
      ReadJoined(accepts, h, j);
    } else if j + 1 < |h| {
      ReadPending(accepts, h, j + 1);
      OpenMore(h, j);
      LostBehindTorn(h, j);
    } else {
      ReadTornTwice(accepts, h, j);
    }
  }

  lemma LostBehindTorn(h: seq<Append>, j: nat)
    requires 0 < j < |h| && !h[j - 1].Whole()
    ensures Survivors(h, j) == Survivors(h, j + 1)
  {}

  lemma ReadJoined(accepts: string -> bool, h: seq<Append>, j: nat)
    requires JsonLike(accepts) && History(accepts, h) && 0 < j < |h| && !h[j - 1].Whole() && h[j].Whole()
    requires Read(accepts, FileFrom(h, j + 1)) == Survivors(h, j + 1) + Phantom(accepts, h)
    ensures Read(accepts, Open(h, j) + FileFrom(h, j)) == Survivors(h, j) + Phantom(accepts, h)
  {
    OpenText(accepts, h, j);
    LostBehindTorn(h, j);
    WholeText(h[j]);
    ReadBehind(accepts, Open(h, j), h[j].record, FileFrom(h, j + 1));
  }

  lemma ReadBehind(accepts: string -> bool, p: string, r: string, rest: string)
    requires JsonLike(accepts) && IsRecord(accepts, r) && |p| > 0 && p[0] == '{' && '\n' !in p
    ensures Read(accepts, p + ((r + NEWLINE) + rest)) == Read(accepts, rest)
  {
    hide NEWLINE, JsonLike, Read, ReadLine;
    RecordFacts(accepts, r);
    JoinedLine(accepts, p, r);
    hide IsRecord;
    var line := p + r;
    assert '\n' !in line;
    ReadFirst(accepts, line, rest);
    assert p + ((r + NEWLINE) + rest) == line + NEWLINE + rest;
    assert [] + Read(accepts, rest) == Read(accepts, rest);
  }

  lemma ReadTornTwice(accepts: string -> bool, h: seq<Append>, j: nat)
    requires History(accepts, h) && 0 < j == |h| - 1 && !h[j - 1].Whole() && !h[j].Whole()
    ensures Read(accepts, Open(h, j) + FileFrom(h, j)) == Survivors(h, j) + Phantom(accepts, h)
  {
    OpenText(accepts, h, |h|);
    OpenMore(h, j);
    LostBehindTorn(h, j);
    AtTheEnd(accepts, h);
    hide *;
    ReadOnly(accepts, Open(h, |h|));
    assert [] + Phantom(accepts, h) == Phantom(accepts, h);
    assert Open(h, |h|) + "" == Open(h, |h|);
  }

  lemma AtTheEnd(accepts: string -> bool, h: seq<Append>)
    requires Fits(h) && TornTwice(h)
    ensures Survivors(h, |h|) == [] && FileFrom(h, |h|) == ""
    ensures Phantom(accepts, h) == ReadLine(accepts, Open(h, |h|))
  {
    hide Open, ReadLine;
  }

  lemma OpenMore(h: seq<Append>, j: nat)
    requires Fits(h) && j < |h| && !h[j].Whole()
    ensures Open(h, j) + FileFrom(h, j) == Open(h, j + 1) + FileFrom(h, j + 1)
  {
    assert Open(h, j) + (h[j].Written() + FileFrom(h, j + 1)) == (Open(h, j) + h[j].Written()) + FileFrom(h, j + 1);
  }

  /** The appends of which something reached the file. */
  function Happened(h: seq<Append>): (r: seq<Append>)
    ensures forall i :: 0 <= i < |r| ==> r[i] in h && r[i].cut > 0
  {
    if |h| == 0 then [] else (if h[0].cut > 0 then [h[0]] else []) + Happened(h[1..])
  }

  lemma {:induction false} HappenedFits(h: seq<Append>)
    requires Fits(h)
    ensures Fits(Happened(h)) && File(Happened(h)) == File(h)
  {
    hide Append.Written;
    if |h| > 0 {
      var first, rest := h[0], h[1..];
      HappenedFits(rest);
      var later := Happened(rest);
      if first.cut > 0 {
        assert Happened(h) == [first] + later;
        FileStarts(first, later);
      } else {
        assert Happened(h) == later;
        NothingWritten(first);
        assert [] + File(rest) == File(rest);
      }
    }
  }

  lemma FileStarts(a: Append, h: seq<Append>)
    requires Fits(h) && a.cut <= |a.record| + 1
    ensures Fits([a] + h) && File([a] + h) == a.Written() + File(h)
  {
    hide Append.Written;
    assert ([a] + h)[1..] == h;
  }

  lemma NothingWritten(a: Append)
    requires a.cut == 0
    ensures a.Written() == []
  {}

  lemma {:induction false} FileIsFrom(h: seq<Append>, i: nat)
    requires Fits(h) && i <= |h|
    ensures File(h[i..]) == FileFrom(h, i)
    decreases |h| - i
  {
    if i < |h| {
      assert h[i..][1..] == h[i + 1..];
      FileIsFrom(h, i + 1);
    }
  }

  /** Over any history of appends, each cut anywhere by a crash: reading gives, in order, exactly the
      records that survive, that is all but the torn ones and those appended directly after a torn one;
      only when the last two appends that reached the file are both torn can one more record appear,
      their joined text, and it does exactly if that text is accepted. */
  lemma ReadAfterCrashes(accepts: string -> bool, h: seq<Append>)
    requires JsonLike(accepts) && Fits(h) && forall i :: 0 <= i < |h| ==> IsRecord(accepts, h[i].record)
    ensures Fits(Happened(h))
    ensures Read(accepts, File(h)) == Survivors(Happened(h), 0) + Phantom(accepts, Happened(h))
  {
    hide IsRecord, JsonLike, Read, Phantom;
    var g := Happened(h);
    HappenedFits(h);
    assert History(accepts, g);
    assert g[0..] == g;
    FileIsFrom(g, 0);
    ReadFrom(accepts, g, 0);
  }

  /** Once a further append is whole, nothing invented is read any more. */
  lemma NoPhantomAfterWhole(accepts: string -> bool, h: seq<Append>, a: Append)
    requires JsonLike(accepts) && Fits(h) && forall i :: 0 <= i < |h| ==> IsRecord(accepts, h[i].record)
    requires IsRecord(accepts, a.record) && a.Whole()
    ensures Fits(h + [a]) && Read(accepts, File(h + [a])) == Survivors(Happened(h + [a]), 0)
  {
    hide IsRecord, JsonLike, Read, Survivors;
    var g := h + [a];
    ReadAfterCrashes(accepts, g);
    HappenedLast(h, a);
  }

  lemma {:induction false} HappenedLast(h: seq<Append>, a: Append)
    requires a.cut > 0
    ensures Happened(h + [a]) == Happened(h) + [a]
  {
    var g := h + [a];
    if |h| == 0 {
      assert g[1..] == [] && Happened(g[1..]) == [];
    } else {
      assert g[0] == h[0] && g[1..] == h[1..] + [a];
      HappenedLast(h[1..], a);
      var first := if h[0].cut > 0 then [h[0]] else [];
      assert Happened(g) == first + Happened(g[1..]) && Happened(h) == first + Happened(h[1..]);
      assert first + (Happened(h[1..]) + [a]) == (first + Happened(h[1..])) + [a];
    }
  }

  /** Two torn appends at the end make up a record that nobody appended whenever the parser accepts
      their joined text. */
  lemma PhantomOfTwo(accepts: string -> bool, a: Append, b: Append, joined: string)
    requires a.cut <= |a.record| && b.cut <= |b.record| && a.Written() + b.Written() == joined
    requires |joined| > 0 && joined[0] == '{' && joined[|joined| - 1] == '}' && accepts(joined)
    ensures var h := [a, b]; Fits(h) && Phantom(accepts, h) == [joined]
  {
    var h := [a, b];
    hide Strip;
    StripBraced(joined);
    assert ReadLine(accepts, joined) == [joined];
    hide ReadLine;
    assert Open(h, 0) == "";
    assert Open(h, 1) == Open(h, 0) + a.Written();
    assert Open(h, 1) == a.Written();
    assert Open(h, 2) == joined;
  }

  /** The scan of a text taken character by character from its start. */
  function ScanOn(s: Scan, t: string): Scan
    decreases |t|
  {
    if |t| == 0 then s else ScanOn(Next(s, t[0]), t[1..])
  }

  lemma {:induction false} ScanOnIsScan(s: Scan, t: string)
    ensures ScanOn(s, t) == ScanFrom(s, t)
    decreases |t|
  {
    hide Next;
    if |t| > 0 {
      var first := t[..1];
      assert t == first + t[1..] && first[..0] == [];
      ScanSplit(s, first, t[1..]);
      assert ScanFrom(s, first) == Next(ScanFrom(s, first[..0]), t[0]) == Next(s, t[0]);
      ScanOnIsScan(Next(s, t[0]), t[1..]);
    }
  }

  const RECORD_A := "{\"a\":\"b\"}"
  const RECORD_B := "{\"}\":1}"
  const JOINED := "{\"a\":\"{\"}"

  lemma ScanOfA()
    ensures ScanOn(OUTSIDE, RECORD_A) == Done
  {}

  lemma ScanOfB()
    ensures ScanOn(OUTSIDE, RECORD_B) == Done
  {}

  lemma ScanOfJoined()
    ensures ScanOn(OUTSIDE, JOINED) == Done
  {}

  /** The most generous parser. */
  predicate Closes(s: string) { |s| > 0 && s[0] == '{' && ScanFrom(OUTSIDE, s) == Done }

  /** It is like JSON, and accepts the three texts. */
  lemma ClosesExample()
    ensures JsonLike(Closes) && Closes(RECORD_A) && Closes(RECORD_B) && Closes(JOINED)
  {
    ScanOfA();
    ScanOfB();
    ScanOfJoined();
    ExampleTexts();
    hide RECORD_A, RECORD_B, JOINED;
    ScanOnIsScan(OUTSIDE, RECORD_A);
    ScanOnIsScan(OUTSIDE, RECORD_B);
    ScanOnIsScan(OUTSIDE, JOINED);
  }

  lemma ExampleTexts()
    ensures |RECORD_A| > 6 && RECORD_A[0] == '{' && RECORD_A[|RECORD_A| - 1] == '}' && '\n' !in RECORD_A
    ensures |RECORD_B| > 3 && RECORD_B[0] == '{' && RECORD_B[|RECORD_B| - 1] == '}' && '\n' !in RECORD_B
    ensures |JOINED| == 9 && JOINED[0] == '{' && JOINED[8] == '}' && JOINED == RECORD_A[..6] + RECORD_B[..3]
    ensures JOINED != RECORD_A && JOINED != RECORD_B
  {
    assert |RECORD_A| == 9 && |RECORD_B| == 7;
    assert RECORD_A[6] == 'b' && JOINED[6] == '{';
  }

  /** Such records exist: of `{"a":"b"}` the first six and of `{"}":1}` the first three characters reach
      the file, and it reads as one record that nobody appended. */
  lemma PhantomExample(accepts: string -> bool)
    requires JsonLike(accepts) && accepts(RECORD_A) && accepts(RECORD_B) && accepts(JOINED)
    ensures IsRecord(accepts, RECORD_A) && IsRecord(accepts, RECORD_B) && JOINED != RECORD_A && JOINED != RECORD_B
    ensures var h := [Append(RECORD_A, 6), Append(RECORD_B, 3)];
      Fits(h) && Read(accepts, File(h)) == [JOINED]
  {
    ExampleTexts();
    hide RECORD_A, RECORD_B, JOINED;
    ReadOfTwo(accepts, Append(RECORD_A, 6), Append(RECORD_B, 3), JOINED);
  }

  lemma ReadOfTwo(accepts: string -> bool, a: Append, b: Append, joined: string)
    requires JsonLike(accepts) && IsRecord(accepts, a.record) && IsRecord(accepts, b.record)
    requires 0 < a.cut < |a.record| && 0 < b.cut < |b.record| && a.record[..a.cut] + b.record[..b.cut] == joined
    requires |joined| > 0 && joined[0] == '{' && joined[|joined| - 1] == '}' && accepts(joined)
    ensures Fits([a, b]) && Read(accepts, File([a, b])) == [joined]
  {
    TornText(accepts, a);
    TornText(accepts, b);
    hide Append.Written, IsRecord, Phantom, Read, JsonLike;
    PhantomOfTwo(accepts, a, b, joined);
    var h := [a, b];
    assert History(accepts, h);
    NoneSurvives(h);
    ReadFrom(accepts, h, 0);
    FileIsFrom(h, 0);
    assert h[0..] == h;
  }

  lemma NoneSurvives(h: seq<Append>)
    requires |h| == 2 && h[0].cut < |h[0].record| && h[1].cut < |h[1].record|
    ensures Survivors(h, 0) == []
  {
    assert Survivors(h, 2) == [] && Survivors(h, 1) == [];
  }

  // ---- the whole store ----------------------------------------------------------------------------------------------

  datatype Action =
    | Log(path: string, append: Append)
    | Snapshot(path: string, text: string, tmp: string, fate: Fate)

  /** Overwrites use a fresh temporary name, different from the name they are to replace. */
  predicate Possible(files: Files, a: Action) {
    match a
    case Log(_, append) => append.cut <= |append.record| + 1
    case Snapshot(path, _, tmp, _) => tmp !in files && tmp != path
  }

  function Do(files: Files, a: Action): Files
    requires Possible(files, a)
  {
    match a
    case Log(path, append) => files[path := ContentOf(files, path) + append.Written()]
    case Snapshot(path, text, tmp, fate) => Overwritten(files, path, text, tmp, fate)
  }

  /** A run of the store from an empty directory, as one action after the other. */
  ghost predicate Run(actions: seq<Action>, files: Files) {
    if |actions| == 0 then files == map[]
    else
      var n := |actions| - 1;
      exists before :: Run(actions[..n], before) && Possible(before, actions[n]) && files == Do(before, actions[n])
  }

  /** The text of the last completed overwrite of a snapshot. */
  function LastCompleted(actions: seq<Action>, path: string): Option<string> {
    if |actions| == 0 then None
    else
      var n := |actions| - 1;
      match actions[n]
      case Snapshot(p, text, _, Completes) => if p == path then Some(text) else LastCompleted(actions[..n], path)
      case _ => LastCompleted(actions[..n], path)
  }

  function Lookup(files: Files, path: string): Option<string> { if path in files then Some(files[path]) else None }

  /** No action uses the name in another role. */
  predicate OnlySnapshot(actions: seq<Action>, path: string) {
    forall i :: 0 <= i < |actions| ==>
      (actions[i].Log? ==> actions[i].path != path) && (actions[i].Snapshot? ==> actions[i].tmp != path)
  }

  predicate OnlyLog(actions: seq<Action>, path: string) {
    forall i :: 0 <= i < |actions| && actions[i].Snapshot? ==> actions[i].path != path && actions[i].tmp != path
  }

  /** Whatever else happens in the store and wherever it crashes, a snapshot is the complete text of its
      last completed overwrite, or absent before the first. */
  lemma {:induction false} SnapshotIsComplete(actions: seq<Action>, files: Files, path: string)
    requires Run(actions, files) && OnlySnapshot(actions, path)
    ensures Lookup(files, path) == LastCompleted(actions, path)
  {
    if |actions| > 0 {
      var n := |actions| - 1;
      var before :| Run(actions[..n], before) && Possible(before, actions[n]) && files == Do(before, actions[n]);
      SnapshotIsComplete(actions[..n], before, path);
    }
  }

  /** The appends of a log, in order. */
  function AppendsTo(actions: seq<Action>, path: string): seq<Append> {
    if |actions| == 0 then []
    else
      var n := |actions| - 1;
      AppendsTo(actions[..n], path) + if actions[n].Log? && actions[n].path == path then [actions[n].append] else []
  }

  lemma {:induction false} LogIsItsAppends(actions: seq<Action>, files: Files, path: string)
    requires Run(actions, files) && OnlyLog(actions, path)
    ensures Fits(AppendsTo(actions, path)) && ContentOf(files, path) == File(AppendsTo(actions, path))
  {
    hide File, Fits, Append.Written, Append.Whole, Overwritten, ContentOf;
    if |actions| > 0 {
      var n := |actions| - 1;
      var a := actions[n];
      var before :| Run(actions[..n], before) && Possible(before, a) && files == Do(before, a);
      LogIsItsAppends(actions[..n], before, path);
      var h := AppendsTo(actions[..n], path);
      ContentAfter(before, a, path);
      if a.Log? && a.path == path {
        FileMore(h, a.append);
      } else {
        assert AppendsTo(actions, path) == h + [] == h;
      }
    } else {
      EmptyFile(path);
    }
  }

  /** What one action does to a log. */
  lemma ContentAfter(before: Files, a: Action, path: string)
    requires Possible(before, a) && (a.Snapshot? ==> a.path != path && a.tmp != path)
    ensures ContentOf(Do(before, a), path)
         == if a.Log? && a.path == path then ContentOf(before, path) + a.append.Written() else ContentOf(before, path)
  {
    hide Append.Written, Append.Whole;
  }

  lemma EmptyFile(path: string)
    ensures Fits([]) && File([]) == "" && ContentOf(map[], path) == ""
  {}

  /** The store as a whole: reading a log after any run gives the surviving appends of that log. */
  lemma LogReadsSurvivors(actions: seq<Action>, files: Files, path: string, accepts: string -> bool)
    requires Run(actions, files) && OnlyLog(actions, path) && JsonLike(accepts)
    requires forall i :: 0 <= i < |actions| && actions[i].Log? ==> IsRecord(accepts, actions[i].append.record)
    ensures var h := Happened(AppendsTo(actions, path));
      Fits(h) && Read(accepts, ContentOf(files, path)) == Survivors(h, 0) + Phantom(accepts, h)
  {
    hide Run, OnlyLog, IsRecord, JsonLike, Read, Phantom, Survivors;
    LogIsItsAppends(actions, files, path);
    AppendsAreRecords(actions, path, accepts);
    ReadAfterCrashes(accepts, AppendsTo(actions, path));
  }

  lemma {:induction false} AppendsAreRecords(actions: seq<Action>, path: string, accepts: string -> bool)
    requires forall i :: 0 <= i < |actions| && actions[i].Log? ==> IsRecord(accepts, actions[i].append.record)
    ensures forall a | a in AppendsTo(actions, path) :: IsRecord(accepts, a.record)
  {
    hide IsRecord;
    if |actions| > 0 { AppendsAreRecords(actions[..|actions| - 1], path, accepts); }
  }
}
