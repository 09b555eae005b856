/** Which printed lines split back into the words they were printed from. */
module ShlexLaws {
  import opened Text
  import opened Shlex

  /** `_kv`: the key as it is, an equals sign, the quoted value. */
  function Kv(key: string, value: string): string { key + "=" + Quote(value) }

  /** The word that `Kv` is meant to be read back as. */
  function Word(key: string, value: string): string { key + "=" + value }

  /** The printed pairs, each after one space. */
  function Tail(pairs: seq<(string, string)>): string {
    if |pairs| == 0 then "" else " " + Kv(pairs[0].0, pairs[0].1) + Tail(pairs[1..])
  }

  function Words(pairs: seq<(string, string)>): (r: seq<string>)
    ensures |r| == |pairs|
    ensures forall i :: 0 <= i < |r| ==> r[i] == Word(pairs[i].0, pairs[i].1)
  {
    if |pairs| == 0 then [] else [Word(pairs[0].0, pairs[0].1)] + Words(pairs[1..])
  }

  predicate PlainKeys(pairs: seq<(string, string)>) {
    forall i :: 0 <= i < |pairs| ==> Plain(pairs[i].0)
  }

  // ---- plain keys and a plain head are enough -------------------------------------------------------

  lemma RunHead(words: seq<string>, s: string)
    requires s != "" && Plain(s)
    ensures Run(Start(words), s) == Lexer(InWord, s, false, words)
  {
    RunPlain(Step(Start(words), s[0]), s[1..]);
    assert [s[0]] + s[1..] == s;
  }

  lemma RunKv(words: seq<string>, key: string, value: string)
    requires Plain(key)
    ensures var r := Run(Start(words), Kv(key, value));
            r.mode == InWord && r.token == Word(key, value) && r.token != "" && r.words == words
  {
    var h := key + "=";
    RunHead(words, h);
    RunAppend(Start(words), h, Quote(value));
    RunQuote(Lexer(InWord, h, false, words), value);
  }

  /** A space after a word finishes it. */
  lemma NextWord(l: Lexer, s: string)
    requires l.mode == InWord && (l.token != "" || l.quoted)
    ensures Run(l, " " + s) == Run(Start(l.words + [l.token]), s)
  {
    assert (" " + s)[1..] == s;
  }

  lemma {:induction false} RunTail(l: Lexer, pairs: seq<(string, string)>)
    requires l.mode == InWord && (l.token != "" || l.quoted)
    requires PlainKeys(pairs)
    ensures Finish(Run(l, Tail(pairs))) == Some(l.words + [l.token] + Words(pairs))
    decreases |pairs|
  {
    hide Kv, Word, Step;
    if |pairs| == 0 {
      assert l.words + [l.token] + Words(pairs) == l.words + [l.token];
    } else {
      var (key, value) := pairs[0];
      var kv, rest := Kv(key, value), Tail(pairs[1..]);
      var next := Start(l.words + [l.token]);
      assert Tail(pairs) == " " + (kv + rest);
      NextWord(l, kv + rest);
      hide Run;
      RunAppend(next, kv, rest);
      RunKv(next.words, key, value);
      RunTail(Run(next, kv), pairs[1..]);
      assert next.words + [Word(key, value)] + Words(pairs[1..]) == l.words + [l.token] + Words(pairs);
    }
  }

  // ---- and they are needed -----------------------------------------------------------------------------

  /** No continuation can produce `w` as word number `n` any more. */
  predicate Doomed(l: Lexer, n: nat, w: string) {
    (|l.words| > n && l.words[n] != w)
    || (|l.words| == n && l.mode != Between && !(l.token <= w))
  }

  lemma {:induction false} DoomedRun(l: Lexer, n: nat, w: string, s: string)
    requires Doomed(l, n, w)
    ensures Doomed(Run(l, s), n, w)
    decreases |s|
  {
    if s != "" {
      assert Doomed(Step(l, s[0]), n, w);
      DoomedRun(Step(l, s[0]), n, w, s[1..]);
    }
  }

  predicate WellFormed(l: Lexer) {
    match l.mode
    case Between => l.token == "" && !l.quoted
    case InWord => l.token != "" || l.quoted
    case Single => l.quoted
    case Double => l.quoted
    case Escape(inDouble) => inDouble ==> l.quoted
  }

  /** How many characters the word is at least behind what has been consumed. */
  function Lag(l: Lexer): nat { if l.mode == Escape(true) then 2 else 1 }

  /** `u` has been consumed up to `i`, from its first special character `j` on; the word so far is a
      proper prefix of the wanted `w`, which agrees with `u`. */
  predicate Lagging(l: Lexer, n: nat, w: string, u: string, j: nat, i: nat) {
    && WellFormed(l) && |l.words| == n
    && j <= |l.token| && |l.token| + Lag(l) <= i <= |u| <= |w| + 1
    && l.token <= w
    && (forall q :: j <= q < i ==> Special(u[q]))
    && (forall q :: 0 <= q < |u| && q < |w| ==> w[q] == u[q])
  }

  lemma LaggingStep(l: Lexer, n: nat, w: string, u: string, j: nat, i: nat)
    requires Lagging(l, n, w, u, j, i) && i < |u|
    ensures var l' := Step(l, u[i]); Doomed(l', n, w) || Lagging(l', n, w, u, j, i + 1)
  {
    var c, k := u[i], |l.token|;
    assert k < |w| && w[k] == u[k] && Special(w[k]);
    if l.mode == Escape(true) { assert w[k + 1] == u[k + 1] && Special(w[k + 1]); }
    var l' := Step(l, c);
    if !Doomed(l', n, w) {
      if l'.token != l.token { assert l'.token[|l'.token| - 1] == c; }
    }
  }

  lemma LaggingEnd(l: Lexer, n: nat, w: string, u: string, j: nat, z: char)
    requires Lagging(l, n, w, u, j, |u|) && !Special(z)
    ensures Doomed(Step(l, z), n, w)
  {
    var k := |l.token|;
    if k < |w| { assert w[k] == u[k]; }
    if l.mode == Escape(true) && k + 1 < |w| { assert w[k + 1] == u[k + 1]; }
    var t := Step(l, z).token;
    assert t[|t| - 1] == z;
  }

  lemma {:induction false} LaggingRun(l: Lexer, n: nat, w: string, u: string, j: nat, i: nat, z: char, rest: string)
    requires Lagging(l, n, w, u, j, i) && !Special(z)
    ensures Doomed(Run(l, u[i..] + [z] + rest), n, w)
    decreases |u| - i
  {
    var s := u[i..] + [z] + rest;
    if i == |u| {
      LaggingEnd(l, n, w, u, j, z);
      assert s[0] == z && s[1..] == rest;
      DoomedRun(Step(l, z), n, w, rest);
    } else {
      assert s[0] == u[i] && s[1..] == u[i + 1..] + [z] + rest;
      LaggingStep(l, n, w, u, j, i);
      if Doomed(Step(l, u[i]), n, w) {
        DoomedRun(Step(l, u[i]), n, w, s[1..]);
      } else {
        LaggingRun(Step(l, u[i]), n, w, u, j, i + 1, z, rest);
      }
    }
  }

  /** A special character printed bare spoils the word it was printed for, whatever follows. */
  lemma SpecialSpoils(words: seq<string>, w: string, u: string, j: nat, z: char, rest: string)
    requires |u| <= |w| + 1 && (forall q :: 0 <= q < |u| && q < |w| ==> w[q] == u[q])
    requires j < |u| && Special(u[j]) && Plain(u[..j]) && !Special(z)
    requires j < |w| || j == 0
    ensures Doomed(Run(Start(words), u + [z] + rest), |words|, w)
  {
    var s := u[j..] + [z] + rest;
    assert u + [z] + rest == u[..j] + s;
    RunAppend(Start(words), u[..j], s);
    var l := Run(Start(words), u[..j]);
    if j > 0 { RunHead(words, u[..j]); }
    assert l.token == u[..j];
    assert s[0] == u[j] && s[1..] == u[j + 1..] + [z] + rest;
    var l' := Step(l, u[j]);
    if j > 0 && IsBlank(u[j]) {
      DoomedRun(l', |words|, w, s[1..]);
    } else {
      LaggingRun(l', |words|, w, u, j, j + 1, z, rest);
    }
  }

  lemma FirstSpecial(u: string) returns (j: nat)
    requires !Plain(u)
    ensures j < |u| && Special(u[j]) && Plain(u[..j])
  {
    j := 0;
    while !Special(u[j])
      invariant j < |u| && Plain(u[..j])
      invariant exists k :: j <= k < |u| && Special(u[k])
      decreases |u| - j
    {
      j := j + 1;
    }
  }

  lemma DoomedEnd(l: Lexer, n: nat, w: string, all: seq<string>)
    requires Doomed(l, n, w) && n < |all| && all[n] == w
    ensures Finish(l) != Some(all)
  {}

  lemma SpecialKeySpoils(words: seq<string>, key: string, value: string, rest: string)
    requires !Plain(key)
    ensures Doomed(Run(Start(words), Kv(key, value) + rest), |words|, Word(key, value))
  {
    hide Run, Doomed, Quote;
    var j := FirstSpecial(key);
    SpecialSpoils(words, Word(key, value), key, j, '=', Quote(value) + rest);
    assert key + ['='] + (Quote(value) + rest) == Kv(key, value) + rest;
  }

  lemma SpecialHeadSpoils(head: string, z: char, more: string)
    requires head == "" || !Plain(head)
    requires !Special(z)
    ensures Doomed(Run(Start([]), head + " " + [z] + more), 0, head)
  {
    hide Run, Doomed;
    var u := head + " ";
    var j := 0;
    if head != "" {
      j := FirstSpecial(head);
      assert u[..j] == head[..j];
    }
    SpecialSpoils([], head, u, j, z, more);
  }

  lemma {:induction false} TailNeedsPlainKeys(l: Lexer, pairs: seq<(string, string)>)
    requires l.mode == InWord && (l.token != "" || l.quoted)
    requires !PlainKeys(pairs)
    ensures Finish(Run(l, Tail(pairs))) != Some(l.words + [l.token] + Words(pairs))
    decreases |pairs|
  {
    hide Step, Kv, Word, Plain;
    var (key, value) := pairs[0];
    var kv, rest := Kv(key, value), Tail(pairs[1..]);
    var next := Start(l.words + [l.token]);
    assert Tail(pairs) == " " + (kv + rest);
    NextWord(l, kv + rest);
    hide Run, Doomed, Finish;
    assert l.words + [l.token] + Words(pairs) == next.words + [Word(key, value)] + Words(pairs[1..]);
    if Plain(key) {
      RunAppend(next, kv, rest);
      RunKv(next.words, key, value);
      TailNeedsPlainKeys(Run(next, kv), pairs[1..]);
    } else {
      SpecialKeySpoils(next.words, key, value, rest);
      DoomedEnd(Run(next, kv + rest), |next.words|, Word(key, value), l.words + [l.token] + Words(pairs));
    }
  }

  lemma PlainHeadSplit(head: string, pairs: seq<(string, string)>)
    requires head != "" && Plain(head)
    ensures Split(head + Tail(pairs)) == Some([head] + Words(pairs)) <==> PlainKeys(pairs)
  {
    hide Step, Finish, Tail, PlainKeys, Plain;
    RunHead([], head);
    RunAppend(Start([]), head, Tail(pairs));
    hide Run;
    var l := Lexer(InWord, head, false, []);
    assert l.words + [l.token] + Words(pairs) == [head] + Words(pairs);
    if PlainKeys(pairs) { RunTail(l, pairs); } else { TailNeedsPlainKeys(l, pairs); }
  }

  /** A head that is empty or not plain is never the first word of its line. */
  lemma SpecialHeadLost(head: string, pairs: seq<(string, string)>)
    requires head == "" || !Plain(head)
    requires |pairs| > 0 && pairs[0].0 != "" && !Special(pairs[0].0[0])
    ensures var words := Split(head + Tail(pairs)); words.Some? && |words.value| > 0 ==> words.value[0] != head
  {
    hide Run, Step, Finish, Doomed, Quote, Plain;
    var (key, value) := pairs[0];
    var z, more := key[0], key[1..] + "=" + Quote(value) + Tail(pairs[1..]);
    SpecialHeadSpoils(head, z, more);
    assert key == [z] + key[1..];
    var line := head + Tail(pairs);
    assert line == head + " " + [z] + more;
    var words := Split(line);
    if words.Some? && |words.value| > 0 && words.value[0] == head {
      DoomedEnd(Run(Start([]), line), 0, head, words.value);
      assert false;
    }
  }

  /** The printed line splits into exactly the intended words if and only if the bare head is
      non-empty and free of blanks, quotes and backslashes, and so is every key. */
  lemma SplitExact(head: string, pairs: seq<(string, string)>)
    requires |pairs| > 0 && pairs[0].0 != "" && !Special(pairs[0].0[0])
    ensures Split(head + Tail(pairs)) == Some([head] + Words(pairs))
       <==> head != "" && Plain(head) && PlainKeys(pairs)
  {
    hide Split, Tail, Words, PlainKeys, Plain;
    if head != "" && Plain(head) { PlainHeadSplit(head, pairs); } else { SpecialHeadLost(head, pairs); }
  }
}
