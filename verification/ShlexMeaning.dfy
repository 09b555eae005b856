/** What a command line means: words in every spelling that the quoting rules allow, and lines that are left open
    (section 2.2 of the POSIX Shell Command Language, IEEE Std 1003.1). */
module ShlexMeaning {
  import opened Text
  import opened Shlex

  // ---- spellings ----------------------------------------------------------------------------------------------------

  /** What can stand between double quotes: a character for itself, a quote or backslash behind a backslash, and
      a backslash that is kept before any other character. */
  datatype Item = Char(c: char) | Quoted(c: char) | Kept(c: char)

  predicate DoubleSpecial(c: char) { c == '"' || c == '\\' }

  predicate ItemOk(x: Item) {
    match x
    case Char(c) => !DoubleSpecial(c)
    case Quoted(c) => DoubleSpecial(c)
    case Kept(c) => !DoubleSpecial(c)
  }

  function ItemText(x: Item): string {
    match x
    case Char(c) => [c]
    case Quoted(c) => ['\\', c]
    case Kept(c) => ['\\', c]
  }

  function ItemMeaning(x: Item): string { match x case Char(c) => [c] case Quoted(c) => [c] case Kept(c) => ['\\', c] }

  function ItemsText(xs: seq<Item>): string { if |xs| == 0 then [] else ItemText(xs[0]) + ItemsText(xs[1..]) }

  function ItemsMeaning(xs: seq<Item>): string { if |xs| == 0 then [] else ItemMeaning(xs[0]) + ItemsMeaning(xs[1..]) }

  /** A stretch of a word: bare, in single or double quotes, or one character behind a backslash. */
  datatype Piece = Bare(s: string) | InSingle(s: string) | InDouble(items: seq<Item>) | Escaped(c: char)

  predicate PieceOk(p: Piece) {
    match p
    case Bare(s) => |s| > 0 && Plain(s)
    case InSingle(s) => '\'' !in s
    case InDouble(items) => forall i :: 0 <= i < |items| ==> ItemOk(items[i])
    case Escaped(_) => true
  }

  function PieceText(p: Piece): string {
    match p
    case Bare(s) => s
    case InSingle(s) => ['\''] + s + ['\'']
    case InDouble(items) => ['"'] + ItemsText(items) + ['"']
    case Escaped(c) => ['\\', c]
  }

  function PieceMeaning(p: Piece): string {
    match p
    case Bare(s) => s
    case InSingle(s) => s
    case InDouble(items) => ItemsMeaning(items)
    case Escaped(c) => [c]
  }

  function WordText(w: seq<Piece>): string { if |w| == 0 then [] else PieceText(w[0]) + WordText(w[1..]) }

  function WordMeaning(w: seq<Piece>): string { if |w| == 0 then [] else PieceMeaning(w[0]) + WordMeaning(w[1..]) }

  predicate WordOk(w: seq<Piece>) { |w| > 0 && forall i :: 0 <= i < |w| ==> PieceOk(w[i]) }

  predicate Gap(s: string) { forall i :: 0 <= i < |s| ==> s[i] == ' ' || s[i] == '\t' || s[i] == '\r' || s[i] == '\n' }

  /** A word and the blanks behind it. */
  datatype Spaced = Spaced(word: seq<Piece>, gap: string)

  /** Every word has a blank behind it, except that the last one needs none. */
  predicate LineOk(words: seq<Spaced>) {
    forall i :: 0 <= i < |words| ==>
      WordOk(words[i].word) && Gap(words[i].gap) && (i < |words| - 1 ==> |words[i].gap| > 0)
  }

  function LineText(words: seq<Spaced>): string {
    if |words| == 0 then [] else WordText(words[0].word) + words[0].gap + LineText(words[1..])
  }

  function Meanings(words: seq<Spaced>): seq<string> {
    if |words| == 0 then [] else [WordMeaning(words[0].word)] + Meanings(words[1..])
  }

  // ---- reading them -------------------------------------------------------------------------------------------------

  /** Ready for a stretch of a word: at the start of one, or in the middle. */
  predicate Open(l: Lexer) { l.mode == InWord || (l.mode == Between && l.token == "" && !l.quoted) }

  lemma StepRun(l: Lexer, c: char, s: string)
    ensures Run(l, [c] + s) == Run(Step(l, c), s)
  {
    assert ([c] + s)[0] == c && ([c] + s)[1..] == s;
  }

  lemma {:induction false} RunSingle(l: Lexer, s: string)
    requires l.mode == Single && '\'' !in s
    ensures Run(l, s) == l.(token := l.token + s)
    decreases |s|
  {
    if |s| == 0 {
      assert l.token + s == l.token;
    } else {
      assert s[0] in s && s == [s[0]] + s[1..];
      RunSingle(l.(token := l.token + [s[0]]), s[1..]);
      assert l.token + [s[0]] + s[1..] == l.token + s;
    }
  }

  lemma RunItem(l: Lexer, x: Item)
    requires l.mode == Double && ItemOk(x)
    ensures Run(l, ItemText(x)) == l.(token := l.token + ItemMeaning(x))
  {
    var t := ItemText(x);
    if x.Char? {
      StepRun(l, x.c, []);
      assert t == [x.c] + [];
    } else {
      var l1 := l.(mode := Escape(true));
      assert t == ['\\'] + [x.c] && [x.c] == [x.c] + [];
      StepRun(l, '\\', [x.c]);
      StepRun(l1, x.c, []);
      if x.Quoted? {
        assert l.token + "" + [x.c] == l.token + [x.c];
      } else {
        assert l.token + "\\" + [x.c] == l.token + ['\\', x.c];
      }
    }
  }

  lemma {:induction false} RunItems(l: Lexer, xs: seq<Item>)
    requires l.mode == Double && forall i :: 0 <= i < |xs| ==> ItemOk(xs[i])
    ensures Run(l, ItemsText(xs)) == l.(token := l.token + ItemsMeaning(xs))
    decreases |xs|
  {
    hide ItemOk, ItemText, ItemMeaning, Step;
    if |xs| == 0 {
      assert l.token + [] == l.token;
    } else {
      var m := ItemMeaning(xs[0]);
      RunAppend(l, ItemText(xs[0]), ItemsText(xs[1..]));
      RunItem(l, xs[0]);
      RunItems(l.(token := l.token + m), xs[1..]);
      assert l.token + m + ItemsMeaning(xs[1..]) == l.token + (m + ItemsMeaning(xs[1..]));
    }
  }

  /** After a stretch the lexer is in the word, which has grown by the meaning of the stretch and is never lost. */
  lemma RunPiece(l: Lexer, p: Piece)
    requires Open(l) && PieceOk(p)
    ensures var l' := Run(l, PieceText(p));
      && l'.mode == InWord && l'.token == l.token + PieceMeaning(p) && l'.words == l.words
      && (l'.token != "" || l'.quoted)
      && (l.quoted ==> l'.quoted)
  {
    match p
    case Bare(s) => RunBare(l, s);
    case InSingle(s) =>
      var l1 := l.(mode := Single, quoted := true);
      assert PieceText(p) == ['\''] + (s + ['\'']);
      StepRun(l, '\'', s + ['\'']);
      RunAppend(l1, s, ['\'']);
      RunSingle(l1, s);
      StepRun(l1.(token := l.token + s), '\'', []);
      assert ['\''] + [] == ['\''];
    case InDouble(items) =>
      var l1 := l.(mode := Double, quoted := true);
      var text := ItemsText(items);
      assert PieceText(p) == ['"'] + (text + ['"']);
      StepRun(l, '"', text + ['"']);
      RunAppend(l1, text, ['"']);
      RunItems(l1, items);
      StepRun(l1.(token := l.token + ItemsMeaning(items)), '"', []);
      assert ['"'] + [] == ['"'];
    case Escaped(c) =>
      var l1 := l.(mode := Escape(false));
      assert PieceText(p) == ['\\'] + [c] && [c] == [c] + [];
      StepRun(l, '\\', [c]);
      StepRun(l1, c, []);
      assert l.token + "" + [c] == l.token + [c];
  }

  lemma RunBare(l: Lexer, s: string)
    requires Open(l) && |s| > 0 && Plain(s)
    ensures Run(l, s) == l.(mode := InWord, token := l.token + s)
  {
    assert s == [s[0]] + s[1..];
    assert Plain(s[1..]);
    StepRun(l, s[0], s[1..]);
    var l1 := l.(mode := InWord, token := l.token + [s[0]]);
    assert Step(l, s[0]) == l1 by { assert !Special(s[0]); assert [] + [s[0]] == [s[0]]; }
    RunPlain(l1, s[1..]);
    assert l.token + [s[0]] + s[1..] == l.token + s;
  }

  lemma {:induction false} RunWord(l: Lexer, w: seq<Piece>)
    requires Open(l) && WordOk(w)
    ensures var l' := Run(l, WordText(w));
      && l'.mode == InWord && l'.token == l.token + WordMeaning(w) && l'.words == l.words
      && (l'.token != "" || l'.quoted)
    decreases |w|
  {
    hide PieceOk, PieceText, PieceMeaning;
    var text, m := PieceText(w[0]), PieceMeaning(w[0]);
    RunAppend(l, text, WordText(w[1..]));
    RunPiece(l, w[0]);
    var l1 := Run(l, text);
    hide Run;
    if |w| > 1 {
      RunWord(l1, w[1..]);
      assert l.token + m + WordMeaning(w[1..]) == l.token + (m + WordMeaning(w[1..]));
    } else {
      assert WordText(w[1..]) == [] && WordMeaning(w[1..]) == [] && m + [] == m;
      RunNothing(l1);
    }
  }

  lemma RunNothing(l: Lexer)
    ensures Run(l, []) == l
  {}

  lemma {:induction false} RunGap(l: Lexer, s: string)
    requires l == Start(l.words) && Gap(s)
    ensures Run(l, s) == l
    decreases |s|
  {
    if |s| > 0 {
      assert s == [s[0]] + s[1..];
      RunGap(l, s[1..]);
    }
  }

  /** The first blank ends the word. */
  lemma RunWordGap(l: Lexer, s: string)
    requires l.mode == InWord && (l.token != "" || l.quoted) && Gap(s) && |s| > 0
    ensures Run(l, s) == Start(l.words + [l.token])
  {
    assert s == [s[0]] + s[1..];
    RunGap(Start(l.words + [l.token]), s[1..]);
  }

  lemma {:induction false} RunLine(words: seq<string>, line: seq<Spaced>)
    requires LineOk(line)
    ensures Finish(Run(Start(words), LineText(line))) == Some(words + Meanings(line))
    decreases |line|
  {
    hide WordOk, Gap, WordText, WordMeaning;
    if |line| == 0 {
      assert words + [] == words;
      RunNothing(Start(words));
    } else {
      var (w, gap, rest) := (line[0].word, line[0].gap, line[1..]);
      var text := WordText(w);
      var l, l1 := Start(words), Run(Start(words), text);
      assert LineText(line) == text + (gap + LineText(rest)) by {
        assert text + gap + LineText(rest) == text + (gap + LineText(rest));
      }
      RunAppend(l, text, gap + LineText(rest));
      RunWord(l, w);
      assert [] + WordMeaning(w) == WordMeaning(w);
      RunAppend(l1, gap, LineText(rest));
      if |gap| > 0 {
        RunWordGap(l1, gap);
        hide Run;
        RunLine(words + [l1.token], rest);
        assert words + [l1.token] + Meanings(rest) == words + ([l1.token] + Meanings(rest));
      } else {
        assert gap == [] && rest == [];
        RunNothing(l1);
        assert Meanings(line) == [l1.token] + [] == [l1.token];
      }
    }
  }

  /** A line of well-spelled words, whatever mixture of quoting they use and whatever blanks are between them,
      splits into the meanings of the words. */
  lemma SplitMeaning(lead: string, line: seq<Spaced>)
    requires Gap(lead) && LineOk(line)
    ensures Split(lead + LineText(line)) == Some(Meanings(line))
  {
    hide LineText, Meanings, LineOk;
    RunAppend(Start([]), lead, LineText(line));
    RunGap(Start([]), lead);
    RunLine([], line);
    assert [] + Meanings(line) == Meanings(line);
  }

  // ---- lines that are left open -------------------------------------------------------------------------------------

  /** An end that leaves a quotation or an escape open. */
  datatype OpenEnd =
    | SingleOpen(s: string) | DoubleOpen(items: seq<Item>) | DoubleEscapeOpen(items: seq<Item>) | EscapeOpen

  predicate EndOk(e: OpenEnd) {
    match e
    case SingleOpen(s) => '\'' !in s
    case DoubleOpen(items) => forall i :: 0 <= i < |items| ==> ItemOk(items[i])
    case DoubleEscapeOpen(items) => forall i :: 0 <= i < |items| ==> ItemOk(items[i])
    case EscapeOpen => true
  }

  function EndText(e: OpenEnd): string {
    match e
    case SingleOpen(s) => ['\''] + s
    case DoubleOpen(items) => ['"'] + ItemsText(items)
    case DoubleEscapeOpen(items) => ['"'] + (ItemsText(items) + ['\\'])
    case EscapeOpen => ['\\']
  }

  lemma OpenEndFails(l: Lexer, e: OpenEnd)
    requires Open(l) && EndOk(e)
    ensures Finish(Run(l, EndText(e))) == None
  {
    match e
    case SingleOpen(s) =>
      StepRun(l, '\'', s);
      RunSingle(l.(mode := Single, quoted := true), s);
    case DoubleOpen(items) =>
      StepRun(l, '"', ItemsText(items));
      RunItems(l.(mode := Double, quoted := true), items);
    case DoubleEscapeOpen(items) =>
      var l1 := l.(mode := Double, quoted := true);
      StepRun(l, '"', ItemsText(items) + ['\\']);
      RunAppend(l1, ItemsText(items), ['\\']);
      RunItems(l1, items);
      StepRun(l1.(token := l.token + ItemsMeaning(items)), '\\', []);
      assert ['\\'] + [] == ['\\'];
    case EscapeOpen =>
      StepRun(l, '\\', []);
      assert ['\\'] + [] == ['\\'];
  }

  /** A line whose words are followed by an open end is no command line, whether the end starts a word or goes on
      with one. */
  lemma OpenLineFails(lead: string, line: seq<Spaced>, last: seq<Piece>, e: OpenEnd)
    requires Gap(lead) && LineOk(line) && (|line| > 0 ==> |line[|line| - 1].gap| > 0)
    requires last == [] || WordOk(last)
    requires EndOk(e)
    ensures Split(lead + LineText(line) + WordText(last) + EndText(e)) == None
  {
    hide LineText, WordText, WordMeaning, Meanings, EndText, EndOk, Finish;
    var l0 := Start([]);
    var all := lead + LineText(line) + WordText(last);
    RunAppend(l0, all, EndText(e));
    RunAppend(l0, lead + LineText(line), WordText(last));
    RunAppend(l0, lead, LineText(line));
    RunGap(l0, lead);
    RunLineOpen([], line);
    var l1 := Run(l0, lead + LineText(line));
    if last == [] {
      assert WordText(last) == [] by { NoText(last); }
      RunNothing(l1);
    } else {
      RunWord(l1, last);
    }
    OpenEndFails(Run(l1, WordText(last)), e);
  }

  lemma NoText(last: seq<Piece>)
    requires |last| == 0
    ensures WordText(last) == []
  {}

  lemma {:induction false} RunLineOpen(words: seq<string>, line: seq<Spaced>)
    requires LineOk(line) && (|line| > 0 ==> |line[|line| - 1].gap| > 0)
    ensures Run(Start(words), LineText(line)) == Start(words + Meanings(line))
    decreases |line|
  {
    hide WordOk, Gap, WordText, WordMeaning;
    if |line| == 0 {
      assert words + [] == words;
      RunNothing(Start(words));
    } else {
      var (w, gap, rest) := (line[0].word, line[0].gap, line[1..]);
      var text := WordText(w);
      var l, l1 := Start(words), Run(Start(words), text);
      assert LineText(line) == text + (gap + LineText(rest)) by {
        assert text + gap + LineText(rest) == text + (gap + LineText(rest));
      }
      RunAppend(l, text, gap + LineText(rest));
      RunWord(l, w);
      assert [] + WordMeaning(w) == WordMeaning(w);
      RunAppend(l1, gap, LineText(rest));
      RunWordGap(l1, gap);
      hide Run;
      RunLineOpen(words + [l1.token], rest);
      assert words + [l1.token] + Meanings(rest) == words + ([l1.token] + Meanings(rest));
    }
  }

  // ---- quoting ------------------------------------------------------------------------------------------------------

  /** The characters that need no quoting: ASCII letters and digits, and ten marks. */
  lemma SafeExactly(c: char)
    ensures Safe(c) <==>
      || 97 <= c as int <= 122 || 65 <= c as int <= 90 || 48 <= c as int <= 57
      || c in {'_', '@', '%', '+', '=', ':', ',', '.', '/', '-'}
  {}

  lemma {:induction false} BodyLength(s: string)
    ensures |QuoteBody(s)| >= |s|
  {
    if |s| > 0 { BodyLength(s[1..]); }
  }

  /** A text is printed bare exactly if it is not empty and has only safe characters; otherwise it stands between
      single quotes, and each single quote in it becomes a double-quoted one between two quotations. */
  lemma QuoteExactly(s: string)
    ensures Quote(s) == s <==> s != "" && forall i :: 0 <= i < |s| ==> Safe(s[i])
    ensures Quote(s) != s ==> Quote(s) == ['\''] + Join("'\"'\"'", SplitOn(s, '\'')) + ['\'']
  {
    hide Safe;
    BodyLength(s);
    if s == "" || !AllSafe(s) {
      var body := QuoteBody(s);
      assert Quote(s) == "'" + body + "'" by { if s == "" { assert "'" + body + "'" == "''"; } }
      BodyIsJoin(s);
    }
  }

  lemma {:induction false} BodyIsJoin(s: string)
    ensures QuoteBody(s) == Join("'\"'\"'", SplitOn(s, '\''))
  {
    var mark := "'\"'\"'";
    if |s| == 0 {
      assert SplitOn(s, '\'') == [""];
    } else {
      BodyIsJoin(s[1..]);
      var rest := SplitOn(s[1..], '\'');
      if s[0] == '\'' {
        assert ([""] + rest)[1..] == rest;
        assert "" + mark + Join(mark, rest) == mark + Join(mark, rest);
      } else {
        var all := [[s[0]] + rest[0]] + rest[1..];
        JoinLonger(mark, s[0], rest);
      }
    }
  }

  lemma JoinLonger(mark: string, c: char, rest: seq<string>)
    requires |rest| > 0
    ensures Join(mark, [[c] + rest[0]] + rest[1..]) == [c] + Join(mark, rest)
  {
    var all := [[c] + rest[0]] + rest[1..];
    assert all[1..] == rest[1..];
    if |rest| > 1 {
      var joined := Join(mark, rest[1..]);
      assert [c] + rest[0] + mark + joined == [c] + (rest[0] + mark + joined);
    }
  }
}
