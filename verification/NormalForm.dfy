/** When decoding gives the message back, and when encoding again gives the line back. */
module NormalForm {
  import opened Text
  import opened Numbers
  import opened FloatLaws
  import opened CompactFloats
  import opened Shlex
  import opened ShlexLaws
  import opened Lail
  import opened Codec
  import opened CodecLaws

  // ---- the exact round trip -----------------------------------------------------------------------------

  /** The text reads back as text: neither a number nor `true` or `false`. */
  predicate Wordy(s: string) {
    s != "true" && s != "false" && ParseInt(s).None? && ParseFloat(s).None?
  }

  /** The payload value comes back as it was: booleans and nested values never do. */
  predicate SelfReading(v: Value) {
    match v
    case Str(s) => Wordy(s)
    case Int(_) => true
    case Flt(_) => true
    case _ => false
  }

  predicate FourDecimals(f: Float) { f.Finite? ==> f.e >= -4 }

  /** Everything in the message has a text of its own. */
  predicate Exact(m: Message) {
    && m.iteration.Name?
    && (m.to.Many? ==> |m.to.roles| != 1)
    && FourDecimals(m.confidence)
    && (m.qualityDelta.Some? ==> FourDecimals(m.qualityDelta.value))
    && (forall i :: 0 <= i < |m.evidence| ==> m.evidence[i] != "" && ',' !in m.evidence[i])
    && m.requiresCommitment == (m.action == CommitmentRequired)
    && forall k | k in m.payload :: SelfReading(m.payload[k])
  }

  lemma CoerceInt(n: int)
    ensures Coerce(IntText(n)) == Int(n)
  {
    hide ParseInt, ParseFloat, NatText;
    IntRoundTrip(n);
    assert IntText(n)[0] == '-' || IsDigit(IntText(n)[0]);
    assert "true"[0] == 't' && "false"[0] == 'f';
  }

  lemma CoerceExact(v: Value)
    requires v.CanonicalFloat() && v.Scalar()
    ensures Coerce(ScalarText(v)) == v <==> SelfReading(v)
  {
    hide ParseInt, ParseFloat, FloatText, IntText;
    match v
    case Int(n) => CoerceInt(n);
    case Flt(f) => FloatTextIsNoInt(f); FloatRoundTrip(f);
    case Bool(b) => assert "True"[0] == 'T' && "False"[0] == 'F' && "true"[0] == 't' && "false"[0] == 'f';
    case Str(s) =>
  }

  lemma EvidenceExact(evidence: seq<string>)
    ensures SurvivingEvidence(evidence) == evidence
       <==> forall i :: 0 <= i < |evidence| ==> evidence[i] != "" && ',' !in evidence[i]
  {
    var pieces := SplitOn(Join(",", evidence), ',');
    if forall i :: 0 <= i < |evidence| ==> evidence[i] != "" && ',' !in evidence[i] {
      if |evidence| == 0 {
        assert pieces == [""] && NonEmpty([""]) == [];
      } else {
        SplitOnJoin(evidence, ',');
        NonEmptyIdentity(evidence);
      }
    }
  }

  lemma PayloadExact(m: Message)
    requires Valid(m)
    ensures Survivor(m).payload == m.payload <==> forall k | k in m.payload :: SelfReading(m.payload[k])
  {
    hide Coerce, ScalarText;
    var p := Survivor(m).payload;
    forall k | k in m.payload
      ensures (k in p && p[k] == m.payload[k]) <==> SelfReading(m.payload[k])
    {
      if m.payload[k].Scalar() { CoerceExact(m.payload[k]); }
    }
    assert p.Keys <= m.payload.Keys;
  }

  /** The fields in which a message can differ from its survivor. */
  lemma SurvivorFields(m: Message)
    ensures Survivor(m) == m <==>
      && Survivor(m).iteration == m.iteration && Survivor(m).to == m.to && Survivor(m).payload == m.payload
      && Survivor(m).evidence == m.evidence && Survivor(m).confidence == m.confidence
      && Survivor(m).qualityDelta == m.qualityDelta && Survivor(m).requiresCommitment == m.requiresCommitment
  {
    hide Coerce, ScalarText, Quantised, SurvivingEvidence, IterationText, AddresseeOf;
  }

  lemma SurvivorExact(m: Message)
    requires Valid(m)
    ensures Survivor(m) == m <==> Exact(m)
  {
    SurvivorFields(m);
    PayloadExact(m);
    EvidenceExact(m.evidence);
    assert Survivor(m).confidence == m.confidence <==> FourDecimals(m.confidence) by { QuantisedExact(m.confidence); }
    assert Survivor(m).qualityDelta == m.qualityDelta
      <==> (m.qualityDelta.Some? ==> FourDecimals(m.qualityDelta.value)) by {
      if m.qualityDelta.Some? { QuantisedExact(m.qualityDelta.value); }
    }
    assert Survivor(m).to == m.to <==> (m.to.Many? ==> |m.to.roles| != 1);
    assert Survivor(m).iteration == m.iteration <==> m.iteration.Name?;
    assert Survivor(m).requiresCommitment == (m.action == CommitmentRequired);
    assert Survivor(m).evidence == SurvivingEvidence(m.evidence);
    hide Survivor, SurvivingEvidence, FourDecimals, SelfReading, Valid;
  }

  /** A decoded message has the signal of its line's first word and only keys that are plain. */
  lemma DecodedParts(line: string)
    ensures var r := Decode(line);
      r.Ok? ==>
        && KeysPlain(r.message)
        && Split(line).Some? && |Split(line).value| > 0 && r.message.signal == Split(line).value[0]
  {
    hide Split, Collect;
    if Decode(line).Ok? {
      var words := Split(line).value;
      var d := Collect(words[1..]);
      CollectKeys(words[1..]);
      BuildKeepsPayload(words[0], d);
      BuildKeepsSignal(words[0], d);
      hide Build;
    }
  }

  lemma BuildKeepsSignal(signal: string, d: Slots)
    ensures Build(signal, d).Ok? ==> Build(signal, d).message.signal == signal
  {
    hide ParseFloat, ParseInt, SplitOn, NonEmpty, RolesOf, RoleOf, CleanPayload, InUnitInterval, FloatField, IntField;
  }

  /** A signal type that is not clean is lost. */
  lemma UncleanSignalLost(m: Message)
    requires !SignalClean(m)
    ensures Decode(Encode(m)) != Ok(m)
  {
    assert m.signal == "" || !Plain(m.signal);
    assert Encode(m) == m.signal + Tail(Pairs(m)) by { JoinTail(m.signal, Pairs(m)); }
    hide *;
    FirstPair(m);
    SpecialHeadLost(m.signal, Pairs(m));
    DecodedParts(Encode(m));
  }

  lemma FirstPair(m: Message)
    ensures var pairs := Pairs(m); |pairs| > 0 && pairs[0].0 != "" && !Special(pairs[0].0[0])
  {
    hide CompactFloat, IterationText, PayloadKeys, ScalarPairs, RoleTexts, Join;
    assert Pairs(m)[0].0 == "i";
  }

  /** Decoding the encoded line gives back the very same message if and only if its signal type is clean,
      its printed keys are plain, and every part of it has a text of its own. */
  lemma RoundTripExact(m: Message)
    requires Valid(m) && KeysClean(m)
    ensures Decode(Encode(m)) == Ok(m) <==> SignalClean(m) && KeysPlain(m) && Exact(m)
  {
    hide Decode, Encode, Survivor, Exact, Valid, SignalClean, KeysClean, KeysPlain;
    DecodedParts(Encode(m));
    if !SignalClean(m) {
      UncleanSignalLost(m);
    } else if KeysPlain(m) {
      DecodeEncode(m);
      SurvivorExact(m);
    }
  }

  // ---- equal lines ----------------------------------------------------------------------------------------

  lemma {:induction false} WordsInjective(a: seq<(string, string)>, b: seq<(string, string)>)
    requires forall i :: 0 <= i < |a| ==> '=' !in a[i].0
    requires forall i :: 0 <= i < |b| ==> '=' !in b[i].0
    requires Words(a) == Words(b)
    ensures a == b
  {
    assert |Words(a)| == |a| && |Words(b)| == |b|;
    forall i | 0 <= i < |a| ensures a[i] == b[i] {
      var w := Words(a)[i];
      FindChar(a[i].0, '=', a[i].1);
      FindChar(b[i].0, '=', b[i].1);
      assert w == a[i].0 + ['='] + a[i].1 && w == b[i].0 + ['='] + b[i].1;
      var n := |a[i].0|;
      assert w[..n] == a[i].0 && w[n + 1..] == a[i].1 && w[..n] == b[i].0 && w[n + 1..] == b[i].1;
    }
  }

  /** The line determines the signal type and every printed pair, in order. */
  lemma EncodeInjective(m: Message, m': Message)
    requires LexClean(m) && KeysPlain(m) && LexClean(m') && KeysPlain(m')
    requires Encode(m) == Encode(m')
    ensures m.signal == m'.signal && Pairs(m) == Pairs(m')
  {
    hide Encode, Split, Words, Pairs;
    EncodeSplits(m);
    EncodeSplits(m');
    var w, w' := [m.signal] + Words(Pairs(m)), [m'.signal] + Words(Pairs(m'));
    assert w[0] == w'[0] && w[1..] == Words(Pairs(m)) && w'[1..] == Words(Pairs(m'));
    PairsSplittable(m);
    PairsSplittable(m');
    WordsInjective(Pairs(m), Pairs(m'));
  }

  // ---- the normal form ------------------------------------------------------------------------------------

  /** A text that is read as a value prints as that value: neither `true` nor `false`, and a
      number only in the spelling that `str` gives it. */
  predicate StableText(s: string) {
    && s != "true" && s != "false"
    && (ParseInt(s).Some? ==> s == IntText(ParseInt(s).value))
    && (ParseInt(s).None? && ParseFloat(s).Some? ==> s == FloatText(ParseFloat(s).value))
  }

  /** No text payload is re-spelled by reading it, and no evidence item has an empty comma-piece. */
  predicate Stable(m: Message) {
    && (forall i :: 0 <= i < |m.evidence| ==> "" !in SplitOn(m.evidence[i], ','))
    && forall k | k in m.payload && m.payload[k].Str? :: StableText(m.payload[k].s)
  }

  predicate Letter(c: char) { 'a' <= LowerChar(c) <= 'z' }

  /** A text that starts with a letter other than i and n is neither an integer nor a float. */
  lemma LetterFirst(s: string)
    requires s != "" && Letter(s[0]) && LowerChar(s[0]) != 'i' && LowerChar(s[0]) != 'n'
    ensures ParseInt(s) == None && ParseFloat(s) == None
  {
    LetterStrip(s);
    var u := Strip(s);
    hide *;
    LetterUnsigned(u);
    LetterIsNoInt(s, u);
    LetterIsNoFloat(s, u);
  }

  lemma LetterStrip(s: string)
    requires s != "" && Letter(s[0])
    ensures var u := Strip(s); |u| > 0 && u[0] == s[0]
  {
    assert LStrip(s) == s;
  }

  lemma LetterUnsigned(u: string)
    requires u != "" && Letter(u[0])
    ensures Signed(u) == (false, u) && Ungrouped(u) == None
  {}

  lemma LetterIsNoInt(s: string, u: string)
    requires Strip(s) == u && Signed(u) == (false, u) && Ungrouped(u) == None
    ensures ParseInt(s) == None
  {
    hide Strip, Signed, Ungrouped;
  }

  lemma LetterIsNoFloat(s: string, u: string)
    requires Strip(s) == u && Signed(u) == (false, u)
    requires u != "" && Letter(u[0]) && LowerChar(u[0]) != 'i' && LowerChar(u[0]) != 'n'
    ensures ParseFloat(s) == None
  {
    hide Strip, Signed, ParseNumeral;
    LetterNumeral(u);
    var w := AsciiLower(u);
    assert w[0] == LowerChar(u[0]);
    hide AsciiLower, LowerChar;
    SpecialWordStart(w);
  }

  lemma SpecialWordStart(w: string)
    requires w != "" && w[0] != 'i' && w[0] != 'n'
    ensures w != "inf" && w != "infinity" && w != "nan"
  {
    assert "inf"[0] == 'i' && "infinity"[0] == 'i' && "nan"[0] == 'n';
  }

  lemma LetterNumeral(u: string)
    requires u != "" && Letter(u[0])
    ensures ParseNumeral(false, u) == None
  {
    hide ParseMantissa, ExponentMark, ParseExponent;
    var mark := ExponentMark(u);
    if mark.None? {
      LetterMantissa(u, 0);
    } else {
      var e := ParseExponent(u[mark.value + 1..]);
      if e.Some? { LetterMantissa(u[..mark.value], e.value); }
    }
  }

  lemma LetterMantissa(a: string, e: int)
    requires a == "" || Letter(a[0])
    ensures ParseMantissa(false, a, e) == None
  {
    hide NatOf, Normal;
    if a != "" && Find(".", a).Some? { assert OccursAt(".", a, Find(".", a).value); }
  }

  lemma BoolText(b: bool)
    ensures Coerce(ScalarText(Bool(b))) == Str(ScalarText(Bool(b)))
  {
    hide ParseInt, ParseFloat;
    LetterFirst(ScalarText(Bool(b)));
    assert "True"[0] == 'T' && "False"[0] == 'F' && "true"[0] == 't' && "false"[0] == 'f';
  }

  lemma StrStable(s: string)
    ensures Coerce(s).Scalar()
    ensures ScalarText(Coerce(s)) == s <==> StableText(s)
  {
    hide ParseInt, ParseFloat, IntText, FloatText;
    assert "True"[0] == 'T' && "False"[0] == 'F' && "true"[0] == 't' && "false"[0] == 'f';
  }

  lemma TextStable(v: Value)
    requires v.Scalar() && v.CanonicalFloat()
    ensures Coerce(ScalarText(v)).Scalar()
    ensures ScalarText(Coerce(ScalarText(v))) == ScalarText(v) <==> (v.Str? ==> StableText(v.s))
  {
    hide Coerce, StableText, IntText, FloatText;
    match v
    case Bool(b) => BoolText(b);
    case Str(s) => StrStable(s);
    case _ => CoerceExact(v);
  }

  /** `keys` without those outside `t`. */
  function Filter(keys: seq<string>, t: set<string>): seq<string> {
    if |keys| == 0 then [] else (if keys[0] in t then [keys[0]] else []) + Filter(keys[1..], t)
  }

  lemma {:induction false} FilterAppend(a: seq<string>, b: seq<string>, t: set<string>)
    ensures Filter(a + b, t) == Filter(a, t) + Filter(b, t)
  {
    if |a| == 0 {
      assert a + b == b;
    } else {
      assert (a + b)[1..] == a[1..] + b && (a + b)[0] == a[0];
      FilterAppend(a[1..], b, t);
      var h := if a[0] in t then [a[0]] else [];
      assert h + (Filter(a[1..], t) + Filter(b, t)) == (h + Filter(a[1..], t)) + Filter(b, t);
    }
  }

  /** Sorting a part of a set is filtering the sorted set. */
  lemma {:induction false} SortedFilter(s: set<string>, t: set<string>)
    ensures Sorted(s * t) == Filter(Sorted(s), t)
    decreases |s|
  {
    if s == {} {
      assert s * t == {};
    } else {
      var m := Least(s);
      SortedFilter(s - {m}, t);
      if m in t {
        assert s * t - {m} == (s - {m}) * t;
        LeastUnique(m, Least(s * t), s * t);
      } else {
        assert s * t == (s - {m}) * t;
      }
    }
  }

  lemma {:induction false} PresentFilter(order: seq<string>, p: map<string, Value>, p': map<string, Value>)
    requires p'.Keys <= p.Keys
    ensures Present(order, p') == Filter(Present(order, p), p'.Keys)
  {
    if |order| > 0 {
      PresentFilter(order[1..], p, p');
      FilterAppend(if order[0] in p then [order[0]] else [], Present(order[1..], p), p'.Keys);
    }
  }

  /** The printed order does not depend on the entries that are not printed. */
  lemma PayloadKeysFilter(p: map<string, Value>, p': map<string, Value>)
    requires p'.Keys <= p.Keys
    ensures PayloadKeys(p') == Filter(PayloadKeys(p), p'.Keys)
  {
    var core, core' := Present(CORE_PAYLOAD_ORDER, p), Present(CORE_PAYLOAD_ORDER, p');
    PresentFilter(CORE_PAYLOAD_ORDER, p, p');
    var rest, rest' := set k | k in p && k !in core, set k | k in p' && k !in core';
    hide Sorted, Filter;
    assert rest' == rest * p'.Keys;
    SortedFilter(rest, p'.Keys);
    FilterAppend(core, Sorted(rest), p'.Keys);
  }

  lemma {:induction false} FilterLast(keys: seq<string>, t: set<string>)
    requires |keys| > 0
    ensures Filter(keys, t) == Filter(keys[..|keys| - 1], t) + if keys[|keys| - 1] in t then [keys[|keys| - 1]] else []
  {
    var n := |keys| - 1;
    assert keys == keys[..n] + [keys[n]];
    FilterAppend(keys[..n], [keys[n]], t);
  }

  ghost predicate SameTexts(p: map<string, Value>, p': map<string, Value>) {
    && (forall k :: k in p' <==> k in p && p[k].Scalar())
    && (forall k :: k in p' ==> p'[k].Scalar() && ScalarText(p'[k]) == ScalarText(p[k]))
  }

  lemma {:induction false} ScalarPairsFilter(keys: seq<string>, p: map<string, Value>, p': map<string, Value>)
    requires (forall k :: k in keys ==> k in p) && SameTexts(p, p')
    ensures forall k :: k in Filter(keys, p'.Keys) ==> k in p'
    ensures ScalarPairs(Filter(keys, p'.Keys), p') == ScalarPairs(keys, p)
    decreases |keys|
  {
    if |keys| > 0 {
      var n := |keys| - 1;
      ScalarPairsFilter(keys[..n], p, p');
      FilterLast(keys, p'.Keys);
      var f, k := Filter(keys[..n], p'.Keys), keys[n];
      if k in p' {
        assert (f + [k])[..|f + [k]| - 1] == f;
      } else {
        assert f + [] == f;
      }
    }
  }

  lemma SurvivorClean(m: Message)
    requires Valid(m) && LexClean(m) && KeysPlain(m)
    ensures LexClean(Survivor(m)) && KeysPlain(Survivor(m))
  {
    hide Coerce, ScalarText, Plain, Reserved;
    forall k | k in Survivor(m).payload ensures Survivor(m).payload[k].Scalar() {
      CoerceScalar(ScalarText(m.payload[k]));
    }
  }

  lemma EvidenceStable(evidence: seq<string>)
    requires |evidence| > 0
    ensures "" !in SplitOn(Join(",", evidence), ',')
       <==> forall i :: 0 <= i < |evidence| ==> "" !in SplitOn(evidence[i], ',')
  {
    PiecesOfJoin(evidence, ',', "");
  }

  lemma EvidenceAgain(evidence: seq<string>)
    requires |evidence| > 0
    ensures (|SurvivingEvidence(evidence)| > 0 && Join(",", SurvivingEvidence(evidence)) == Join(",", evidence))
       <==> forall i :: 0 <= i < |evidence| ==> "" !in SplitOn(evidence[i], ',')
  {
    hide SplitOn, Join, NonEmpty;
    var joined := Join(",", evidence);
    var pieces := SplitOn(joined, ',');
    var kept := NonEmpty(pieces);
    NonEmptyIdentity(pieces);
    JoinSplitOn(joined, ',');
    EvidenceStable(evidence);
    if |kept| > 0 { SplitOnJoin(kept, ','); }
  }

  /** The evidence field is printed again unchanged exactly when it has no empty piece. */
  lemma EvidenceField(m: Message)
    ensures FieldText(Survivor(m), "evidence") == FieldText(m, "evidence")
       <==> forall i :: 0 <= i < |m.evidence| ==> "" !in SplitOn(m.evidence[i], ',')
  {
    var s := Survivor(m);
    EvidenceText(m);
    EvidenceText(s);
    SurvivorEvidence(m);
    hide *;
    if |m.evidence| > 0 { EvidenceAgain(m.evidence); } else { NoEvidence(m.evidence); }
  }

  lemma EvidenceText(m: Message)
    ensures FieldText(m, "evidence") == if |m.evidence| > 0 then Some(Join(",", m.evidence)) else None
  {
    hide Join;
  }

  lemma NoEvidence(evidence: seq<string>)
    requires |evidence| == 0
    ensures |SurvivingEvidence(evidence)| == 0
  {
    assert SplitOn("", ',') == [""] && NonEmpty([""]) == [];
  }

  lemma SurvivorEvidence(m: Message)
    ensures Survivor(m).evidence == SurvivingEvidence(m.evidence)
  {
    hide Coerce, ScalarText, Quantised;
  }

  /** Every other field is printed again unchanged. */
  lemma OtherFields(m: Message, k: string)
    requires k != "evidence"
    ensures FieldText(Survivor(m), k) == FieldText(m, k)
  {
    hide Coerce, ScalarText, CompactFloat, Quantised, SurvivingEvidence, RoleTexts, RoleText, IntText, Join, ActionText;
    CompactAgain(m.confidence);
    if m.qualityDelta.Some? { CompactAgain(m.qualityDelta.value); }
    assert AddresseeOf(m.Recipients()).Many? || |m.Recipients()| == 1;
    assert Survivor(m).Recipients() == m.Recipients();
  }

  lemma FixedFromFields(m: Message, m': Message)
    requires forall k :: FieldText(m, k) == FieldText(m', k)
    ensures FixedHeader(m) == FixedHeader(m')
  {
    hide CompactFloat, RoleTexts, RoleText, IntText, Join, ActionText, IterationText;
    assert FieldText(m, "i") == FieldText(m', "i") && FieldText(m, "from") == FieldText(m', "from");
    assert FieldText(m, "to") == FieldText(m', "to") && FieldText(m, "trace") == FieldText(m', "trace");
    assert FieldText(m, "msg") == FieldText(m', "msg") && FieldText(m, "conf") == FieldText(m', "conf");
  }

  lemma HeaderFromFields(m: Message, m': Message)
    requires forall k :: FieldText(m, k) == FieldText(m', k)
    ensures Header(m) == Header(m')
  {
    hide FixedHeader, CompactFloat, RoleTexts, RoleText, IntText, Join, ActionText, IterationText;
    FixedFromFields(m, m');
    hide Only;
    assert Only(m.qualityDelta.Some?, "qd", OptionalFloat(m.qualityDelta))
        == Only(m'.qualityDelta.Some?, "qd", OptionalFloat(m'.qualityDelta)) by {
      assert FieldText(m, "qd") == FieldText(m', "qd");
    }
    assert Only(m.tokenCost.Some?, "tokens", OptionalNat(m.tokenCost))
        == Only(m'.tokenCost.Some?, "tokens", OptionalNat(m'.tokenCost)) by {
      assert FieldText(m, "tokens") == FieldText(m', "tokens");
    }
    assert Only(m.distance.Some?, "dist", OptionalNat(m.distance))
        == Only(m'.distance.Some?, "dist", OptionalNat(m'.distance)) by {
      assert FieldText(m, "dist") == FieldText(m', "dist");
    }
    assert Only(m.action != NoAction, "action", ActionText(m.action))
        == Only(m'.action != NoAction, "action", ActionText(m'.action)) by {
      assert FieldText(m, "action") == FieldText(m', "action");
    }
    assert Only(|m.evidence| > 0, "evidence", Join(",", m.evidence))
        == Only(|m'.evidence| > 0, "evidence", Join(",", m'.evidence)) by {
      assert FieldText(m, "evidence") == FieldText(m', "evidence");
    }
    hide FieldText;
  }

  lemma StablePairs(m: Message)
    requires Valid(m) && Stable(m)
    ensures Pairs(Survivor(m)) == Pairs(m)
  {
    forall k ensures FieldText(m, k) == FieldText(Survivor(m), k) {
      if k == "evidence" { EvidenceField(m); } else { OtherFields(m, k); }
    }
    HeaderFromFields(m, Survivor(m));
    hide Header, Coerce, ScalarText, PayloadKeys, ScalarPairs, StableText;
    var p, p' := m.payload, Survivor(m).payload;
    forall k | k in p' ensures p'[k].Scalar() && ScalarText(p'[k]) == ScalarText(p[k]) {
      TextStable(p[k]);
    }
    PayloadKeysFilter(p, p');
    ScalarPairsFilter(PayloadKeys(p), p, p');
  }

  lemma UnstablePairs(m: Message)
    requires Valid(m) && KeysPlain(m) && KeysPlain(Survivor(m)) && Pairs(Survivor(m)) == Pairs(m)
    ensures Stable(m)
  {
    hide Coerce, ScalarText, Pairs, Header, StableText, FieldText, Quantised, SplitOn, CompactFloat;
    var s := Survivor(m);
    assert FieldText(s, "evidence") == FieldText(m, "evidence") by {
      assert Reserved("evidence");
      if FieldText(m, "evidence").Some? { FieldFromPairs(m, s, "evidence"); }
      if FieldText(s, "evidence").Some? { FieldFromPairs(s, m, "evidence"); }
    }
    EvidenceField(m);
    forall k | k in m.payload && m.payload[k].Str? ensures StableText(m.payload[k].s) {
      var v := m.payload[k];
      TextStable(v);
      assert s.payload[k] == Coerce(ScalarText(v));
      PairsMember(m, (k, ScalarText(v)));
      PairsMember(s, (k, ScalarText(v)));
      HeaderKeysPlain(s);
    }
  }

  lemma FieldFromPairs(m: Message, m': Message, key: string)
    requires KeysPlain(m') && Pairs(m) == Pairs(m') && Reserved(key) && FieldText(m, key).Some?
    ensures FieldText(m', key) == FieldText(m, key)
  {
    hide Pairs, Header, FieldText, Reserved, ScalarText;
    var p := (key, FieldText(m, key).value);
    HeaderValue(m, p);
    PairsMember(m, p);
    PairsMember(m', p);
    HeaderValue(m', p);
  }

  /** Encoding is a normal form for the decoded message if and only if the message is stable. */
  lemma NormalFormExact(m: Message)
    requires Valid(m) && LexClean(m) && KeysPlain(m)
    ensures Decode(Encode(m)) == Ok(Survivor(m))
    ensures Encode(Survivor(m)) == Encode(m) <==> Stable(m)
  {
    hide Decode, Survivor, Valid, LexClean, KeysPlain, Stable, Pairs;
    DecodeEncode(m);
    SurvivorClean(m);
    assert Survivor(m).signal == m.signal by { SurvivorSignal(m); }
    if Stable(m) { StablePairs(m); }
    if Encode(Survivor(m)) == Encode(m) {
      EncodeInjective(m, Survivor(m));
      UnstablePairs(m);
    }
  }

  lemma SurvivorSignal(m: Message)
    ensures Survivor(m).signal == m.signal
  {
    hide Coerce, ScalarText, Quantised;
  }

  /** A payload text `true` is decoded to a boolean, which prints as `True`. */
  lemma TrueIsUnstable(m: Message)
    requires m.payload == map["flag" := Str("true")]
    ensures Survivor(m).payload == map["flag" := Bool(true)]
    ensures !Stable(m)
  {
    hide Quantised;
    assert m.payload["flag"].Str?;
    assert "flag" in Survivor(m).payload;
  }
}
