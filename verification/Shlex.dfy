/** POSIX-mode word splitting and quoting, the rules of `shlex.split` and `shlex.quote`
    (section 2.2 of the POSIX Shell Command Language, IEEE Std 1003.1). */
module Shlex {
  import opened Text

  /** Where the tokeniser is: between words, in a word, in quotes, or just after a backslash. */
  datatype Mode = Between | InWord | Single | Double | Escape(inDouble: bool)

  /** The word being read, whether a quote has been seen in it, and the finished words. */
  datatype Lexer = Lexer(mode: Mode, token: string, quoted: bool, words: seq<string>)

  predicate IsBlank(c: char) { c == ' ' || c == '\t' || c == '\r' || c == '\n' }

  /** Characters that the tokeniser does not copy literally outside quotes. */
  predicate Special(c: char) { IsBlank(c) || c == '\'' || c == '"' || c == '\\' }

  function Start(words: seq<string>): Lexer { Lexer(Between, "", false, words) }

  function Step(l: Lexer, c: char): Lexer {
    match l.mode
    case Between =>
      if IsBlank(c) then l
      else if c == '\\' then l.(mode := Escape(false))
      else if c == '\'' then l.(mode := Single, quoted := true)
      else if c == '"' then l.(mode := Double, quoted := true)
      else l.(mode := InWord, token := [c])
    case InWord =>
      if IsBlank(c) then
        if l.token != "" || l.quoted then Start(l.words + [l.token]) else Start(l.words)
      else if c == '\'' then l.(mode := Single, quoted := true)
      else if c == '"' then l.(mode := Double, quoted := true)
      else if c == '\\' then l.(mode := Escape(false))
      else l.(token := l.token + [c])
    case Single =>
      if c == '\'' then l.(mode := InWord) else l.(token := l.token + [c])
    case Double =>
      if c == '"' then l.(mode := InWord)
      else if c == '\\' then l.(mode := Escape(true))
      else l.(token := l.token + [c])
    case Escape(inDouble) =>
      var kept := if inDouble && c != '\\' && c != '"' then "\\" else "";
      l.(mode := if inDouble then Double else InWord, token := l.token + kept + [c])
  }

  function Run(l: Lexer, s: string): Lexer
    decreases |s|
  {
    if s == "" then l else Run(Step(l, s[0]), s[1..])
  }

  /** `None` is the `ValueError` for an open quote or a trailing backslash. */
  function Finish(l: Lexer): Option<seq<string>> {
    match l.mode
    case Between => Some(l.words)
    case InWord => if l.token != "" || l.quoted then Some(l.words + [l.token]) else Some(l.words)
    case _ => None
  }

  /** `shlex.split(line)` */
  function Split(line: string): Option<seq<string>> { Finish(Run(Start([]), line)) }

  predicate Safe(c: char) {
    'a' <= c <= 'z' || 'A' <= c <= 'Z' || '0' <= c <= '9' || c in "_@%+=:,./-"
  }

  predicate AllSafe(s: string) { forall i :: 0 <= i < |s| ==> Safe(s[i]) }

  /** `s.replace("'", "'\"'\"'")` */
  function QuoteBody(s: string): string {
    if s == "" then ""
    else (if s[0] == '\'' then "'\"'\"'" else [s[0]]) + QuoteBody(s[1..])
  }

  /** `shlex.quote(s)` */
  function Quote(s: string): string {
    if s == "" then "''"
    else if AllSafe(s) then s
    else "'" + QuoteBody(s) + "'"
  }

  // ---- reading one word ---------------------------------------------------------------------------

  lemma {:induction false} RunAppend(l: Lexer, a: string, b: string)
    ensures Run(l, a + b) == Run(Run(l, a), b)
    decreases |a|
  {
    if a == "" {
      assert a + b == b;
    } else {
      assert (a + b)[1..] == a[1..] + b;
      RunAppend(Step(l, a[0]), a[1..], b);
    }
  }

  predicate Plain(s: string) { forall i :: 0 <= i < |s| ==> !Special(s[i]) }

  /** Plain characters are copied into the word. */
  lemma {:induction false} RunPlain(l: Lexer, s: string)
    requires l.mode == InWord && Plain(s)
    ensures Run(l, s) == l.(token := l.token + s)
    decreases |s|
  {
    if s == "" {
      assert l.token + s == l.token;
    } else {
      RunPlain(Step(l, s[0]), s[1..]);
      assert l.token + [s[0]] + s[1..] == l.token + s;
    }
  }

  /** Closing, a double-quoted single quote, and opening again add one single quote. */
  lemma RunQuotedQuote(l: Lexer)
    requires l.mode == Single && l.quoted
    ensures Run(l, "'\"'\"'") == l.(token := l.token + "'")
  {
    var q := "'\"'\"'";
    var l1, l2 := l.(mode := InWord), l.(mode := Double);
    var l3 := l2.(token := l.token + "'");
    assert Run(l, q) == Run(l1, q[1..]) == Run(l2, q[2..]);
    assert Run(l2, q[2..]) == Run(l3, q[3..]) == Run(l3.(mode := InWord), q[4..]);
    assert q[4..] == "'" && Run(l3.(mode := InWord), "'") == Run(l3.(mode := Single), "");
  }

  lemma {:induction false} RunQuoteBody(l: Lexer, s: string)
    requires l.mode == Single && l.quoted
    ensures Run(l, QuoteBody(s)) == l.(token := l.token + s)
    decreases |s|
  {
    if s == "" {
      assert l.token + s == l.token;
    } else {
      var q := if s[0] == '\'' then "'\"'\"'" else [s[0]];
      var l' := l.(token := l.token + [s[0]]);
      if s[0] == '\'' {
        RunQuotedQuote(l);
      } else {
        assert Run(l, q) == Run(l', "");
      }
      RunAppend(l, q, QuoteBody(s[1..]));
      RunQuoteBody(l', s[1..]);
      assert l.token + [s[0]] + s[1..] == l.token + s;
    }
  }

  /** Inside a word, a quoted value is read back as the value itself. */
  lemma RunQuote(l: Lexer, s: string)
    requires l.mode == InWord
    ensures var r := Run(l, Quote(s)); r.mode == InWord && r.token == l.token + s && r.words == l.words
  {
    if s != "" && AllSafe(s) {
      RunPlain(l, s);
    } else {
      var l1 := l.(mode := Single, quoted := true);
      RunQuoteBody(l1, s);
      var q := QuoteBody(s);
      assert Quote(s) == "'" + q + "'" by { if s == "" { assert "'" + q + "'" == "''"; } }
      RunAppend(l, "'" + q, "'");
      RunAppend(l, "'", q);
      assert Run(l, "'") == l1;
    }
  }
}
