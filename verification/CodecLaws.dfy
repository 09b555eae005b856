/** What the compact line keeps: exact tokens, exact round trip, normal form. */
module CodecLaws {
  import opened Text
  import opened Numbers
  import opened FloatLaws
  import opened CompactFloats
  import opened Shlex
  import opened ShlexLaws
  import opened Lail
  import opened Codec

  // ---- the line and its words -----------------------------------------------------------------------

  lemma {:induction false} JoinTail(head: string, pairs: seq<(string, string)>)
    ensures Join(" ", Parts(head, pairs)) == head + Tail(pairs)
    decreases |pairs|
  {
    hide Kv;
    if |pairs| == 0 {
      assert head + "" == head;
    } else {
      var kv := Kv(pairs[0].0, pairs[0].1);
      JoinTail(kv, pairs[1..]);
      assert Parts(head, pairs) == [head] + Parts(kv, pairs[1..]);
      assert Parts(head, pairs)[1..] == Parts(kv, pairs[1..]);
      assert head + " " + (kv + Tail(pairs[1..])) == head + (" " + kv + Tail(pairs[1..]));
    }
  }

  /** The signal type is not empty and free of blanks, quotes and backslashes. */
  predicate SignalClean(m: Message) { m.signal != "" && Plain(m.signal) }

  /** So are the printed payload keys, except that they may be empty. */
  predicate KeysClean(m: Message) { forall k | k in m.payload && m.payload[k].Scalar() :: Plain(k) }

  predicate LexClean(m: Message) { SignalClean(m) && KeysClean(m) }

  lemma {:induction false} ScalarPairsKeys(keys: seq<string>, payload: map<string, Value>)
    requires forall k :: k in keys ==> k in payload
    ensures forall p :: p in ScalarPairs(keys, payload) <==>
              p.0 in keys && payload[p.0].Scalar() && p.1 == ScalarText(payload[p.0])
    decreases |keys|
  {
    hide ScalarText;
    if |keys| > 0 {
      var n := |keys| - 1;
      ScalarPairsKeys(keys[..n], payload);
      assert forall k :: k in keys <==> k in keys[..n] || k == keys[n];
    }
  }

  /** The keys that `message_to_compact` prints for the message's own fields. */
  lemma HeaderKeys(m: Message)
    ensures |Header(m)| > 0 && Header(m)[0].0 == "i"
    ensures forall p :: p in Header(m) ==>
              p.0 in {"i", "from", "to", "trace", "msg", "conf", "auth", "qd", "tokens", "dist", "action", "evidence"}
  {
    hide CompactFloat, IntText, Join, RoleTexts, ActionText, RoleText, Only;
    assert forall p :: p in FixedHeader(m) ==> p.0 in {"i", "from", "to", "trace", "msg", "conf", "auth"};
    hide FixedHeader;
    assert Header(m)[0] == FixedHeader(m)[0];
  }

  lemma HeaderKeysPlain(m: Message)
    ensures PlainKeys(Header(m)) && |Header(m)| > 0 && Header(m)[0].0 == "i"
    ensures forall p :: p in Header(m) ==> Reserved(p.0)
  {
    hide Header;
    HeaderKeys(m);
    assert forall k :: Reserved(k) ==> Plain(k);
    hide Plain;
    assert forall i :: 0 <= i < |Header(m)| ==> Header(m)[i] in Header(m);
  }

  lemma PairsPlain(m: Message)
    ensures PlainKeys(Pairs(m)) <==> forall k | k in m.payload && m.payload[k].Scalar() :: Plain(k)
    ensures |Pairs(m)| > 0 && Pairs(m)[0].0 == "i"
  {
    hide ScalarText, Plain, Header, PayloadKeys;
    HeaderKeysPlain(m);
    var keys := PayloadKeys(m.payload);
    var scalars := ScalarPairs(keys, m.payload);
    ScalarPairsKeys(keys, m.payload);
    assert Pairs(m)[0] == Header(m)[0];
    if PlainKeys(Pairs(m)) {
      forall k | k in m.payload && m.payload[k].Scalar() ensures Plain(k) {
        assert (k, ScalarText(m.payload[k])) in scalars;
        var i :| 0 <= i < |scalars| && scalars[i] == (k, ScalarText(m.payload[k]));
        assert Pairs(m)[|Header(m)| + i] == scalars[i];
      }
    } else {
      var i :| 0 <= i < |Pairs(m)| && !Plain(Pairs(m)[i].0);
      assert i >= |Header(m)| && Pairs(m)[i] == scalars[i - |Header(m)|];
      assert scalars[i - |Header(m)|] in scalars;
    }
  }

  /** The encoded line splits into exactly the printed words if and only if the message is
      lexically clean: values may hold any characters, bare keys and signal types may not. */
  lemma EncodeSplits(m: Message)
    ensures Split(Encode(m)) == Some([m.signal] + Words(Pairs(m))) <==> LexClean(m)
  {
    hide Split, Words, Pairs, PlainKeys, Tail, Parts, Join;
    JoinTail(m.signal, Pairs(m));
    PairsPlain(m);
    SplitExact(m.signal, Pairs(m));
  }

  // ---- from words to fields ---------------------------------------------------------------------------

  /** The pairs placed one after the other. */
  function PlaceAll(pairs: seq<(string, string)>): Slots {
    if |pairs| == 0 then Slots(map[], map[])
    else Place(PlaceAll(pairs[..|pairs| - 1]), pairs[|pairs| - 1].0, pairs[|pairs| - 1].1)
  }

  lemma {:induction false} CollectWords(pairs: seq<(string, string)>)
    requires forall i :: 0 <= i < |pairs| ==> '=' !in pairs[i].0
    ensures Collect(Words(pairs)) == PlaceAll(pairs)
  {
    hide Place;
    if |pairs| > 0 {
      var n := |pairs| - 1;
      var (key, value) := pairs[n];
      assert Words(pairs)[..n] == Words(pairs[..n]);
      CollectWords(pairs[..n]);
      var w := Words(pairs)[n];
      FindChar(key, '=', value);
      assert w == key + ['='] + value;
      assert w[..|key|] == key && w[|key| + 1..] == value;
    }
  }

  /** Equal keys carry equal values. */
  predicate Consistent(pairs: seq<(string, string)>) {
    forall p, q :: p in pairs && q in pairs && p.0 == q.0 ==> p.1 == q.1
  }

  /** The fields are the reserved pairs. */
  ghost predicate PlacedFields(pairs: seq<(string, string)>, fields: map<string, string>) {
    && (forall p :: p in pairs && Reserved(p.0) ==> p.0 in fields && fields[p.0] == p.1)
    && (forall k :: k in fields ==> Reserved(k) && (k, fields[k]) in pairs)
  }

  function OtherKeys(pairs: seq<(string, string)>): set<string> {
    set p | p in pairs && !Reserved(p.0) :: p.0
  }

  /** The payload is the other pairs, coerced. */
  ghost predicate PlacedPayload(pairs: seq<(string, string)>, payload: map<string, Value>) {
    && payload.Keys == OtherKeys(pairs)
    && (forall p :: p in pairs && !Reserved(p.0) ==> payload[p.0] == Coerce(p.1))
  }

  lemma PlaceOne(init: seq<(string, string)>, last: (string, string), d: Slots)
    requires Consistent(init + [last])
    requires PlacedFields(init, d.fields) && PlacedPayload(init, d.payload)
    ensures PlacedFields(init + [last], Place(d, last.0, last.1).fields)
    ensures PlacedPayload(init + [last], Place(d, last.0, last.1).payload)
  {
    hide Coerce, Reserved;
    var pairs := init + [last];
    assert last in pairs && forall p :: p in init ==> p in pairs;
    assert OtherKeys(pairs) == OtherKeys(init) + (if Reserved(last.0) then {} else {last.0});
    hide OtherKeys;
  }

  lemma {:induction false} Placed(pairs: seq<(string, string)>)
    requires Consistent(pairs)
    ensures PlacedFields(pairs, PlaceAll(pairs).fields) && PlacedPayload(pairs, PlaceAll(pairs).payload)
  {
    hide Place;
    if |pairs| > 0 {
      var n := |pairs| - 1;
      var init := pairs[..n];
      assert pairs == init + [pairs[n]];
      assert forall p :: p in init ==> p in pairs;
      Placed(init);
      PlaceOne(init, pairs[n], PlaceAll(init));
    }
  }

  /** Decoded payload keys never contain an equals sign and are never reserved. */
  lemma {:induction false} CollectKeys(tokens: seq<string>)
    ensures forall k :: k in Collect(tokens).payload ==> '=' !in k && !Reserved(k)
  {
    hide Coerce, Reserved;
    if |tokens| > 0 {
      CollectKeys(tokens[..|tokens| - 1]);
      var w := tokens[|tokens| - 1];
      var at := Find("=", w);
      if at.Some? {
        var key := w[..at.value];
        forall j | 0 <= j < |key| ensures key[j] != '=' {
          assert w[j..j + 1] == [key[j]];
          assert !OccursAt("=", w, j);
        }
      }
    }
  }

  /** The text printed for a field key, if that field is printed. */
  function FieldText(m: Message, key: string): Option<string> {
    if key == "i" then Some(IterationText(m.iteration))
    else if key == "from" then Some(RoleText(m.sender))
    else if key == "to" then Some(Join(",", RoleTexts(m.Recipients())))
    else if key == "trace" then Some(m.trace)
    else if key == "msg" then Some(m.id)
    else if key == "conf" then Some(CompactFloat(m.confidence))
    else if key == "auth" then Some("none")
    else if key == "qd" && m.qualityDelta.Some? then Some(OptionalFloat(m.qualityDelta))
    else if key == "tokens" && m.tokenCost.Some? then Some(OptionalNat(m.tokenCost))
    else if key == "dist" && m.distance.Some? then Some(OptionalNat(m.distance))
    else if key == "action" && m.action != NoAction then Some(ActionText(m.action))
    else if key == "evidence" && |m.evidence| > 0 then Some(Join(",", m.evidence))
    else None
  }

  lemma HeaderValue(m: Message, p: (string, string))
    ensures p in Header(m) <==> FieldText(m, p.0) == Some(p.1)
  {
    hide CompactFloat, IntText, Join, RoleTexts, ActionText, RoleText, Only, OptionalFloat, OptionalNat, IterationText,
         FieldText;
    var fixed := {"i", "from", "to", "trace", "msg", "conf", "auth"};
    assert p in FixedHeader(m) <==> p.0 in fixed && FieldText(m, p.0) == Some(p.1) by { FixedValue(m, p); }
    hide FixedHeader;
    assert p in Header(m) <==> FieldText(m, p.0) == Some(p.1) by { OptionalValue(m, p); }
  }

  lemma FixedValue(m: Message, p: (string, string))
    ensures p in FixedHeader(m) <==>
      p.0 in {"i", "from", "to", "trace", "msg", "conf", "auth"} && FieldText(m, p.0) == Some(p.1)
  {
    hide CompactFloat, IntText, Join, RoleTexts, ActionText, RoleText, OptionalFloat, OptionalNat, IterationText;
  }

  lemma OptionalValue(m: Message, p: (string, string))
    requires p in FixedHeader(m) <==>
      p.0 in {"i", "from", "to", "trace", "msg", "conf", "auth"} && FieldText(m, p.0) == Some(p.1)
    ensures p in Header(m) <==> FieldText(m, p.0) == Some(p.1)
  {
    hide CompactFloat, IntText, Join, RoleTexts, ActionText, RoleText, Only, OptionalFloat, OptionalNat, IterationText,
         FixedHeader;
  }

  /** The fields dictionary holds exactly the printed fields. */
  ghost predicate Holds(f: map<string, string>, m: Message) {
    forall k :: FieldText(m, k) == if k in f then Some(f[k]) else None
  }

  /** No printed payload key contains an equals sign or is one of the codec's own field names. */
  predicate KeysPlain(m: Message) {
    forall k | k in m.payload && m.payload[k].Scalar() :: '=' !in k && !Reserved(k)
  }

  lemma PairsMember(m: Message, p: (string, string))
    ensures p in Pairs(m) <==>
      p in Header(m) || (p.0 in m.payload && m.payload[p.0].Scalar() && p.1 == ScalarText(m.payload[p.0]))
  {
    hide ScalarText, PayloadKeys, Header;
    ScalarPairsKeys(PayloadKeys(m.payload), m.payload);
  }

  lemma PairsConsistent(m: Message)
    requires KeysPlain(m)
    ensures Consistent(Pairs(m))
  {
    HeaderKeysPlain(m);
    hide ScalarText, Pairs, Header, FieldText, Reserved, PlainKeys;
    forall p, q | p in Pairs(m) && q in Pairs(m) && p.0 == q.0 ensures p.1 == q.1 {
      PairsMember(m, p);
      PairsMember(m, q);
      HeaderValue(m, p);
      HeaderValue(m, q);
    }
  }

  lemma PairsSplittable(m: Message)
    requires KeysPlain(m)
    ensures forall i :: 0 <= i < |Pairs(m)| ==> '=' !in Pairs(m)[i].0
  {
    HeaderKeysPlain(m);
    hide ScalarText, Pairs, Header, Reserved, PlainKeys;
    forall i | 0 <= i < |Pairs(m)| ensures '=' !in Pairs(m)[i].0 {
      PairsMember(m, Pairs(m)[i]);
      ReservedSplittable(Pairs(m)[i].0);
    }
  }

  lemma ReservedSplittable(k: string)
    ensures Reserved(k) ==> '=' !in k
  {}

  // ---- the round trip ---------------------------------------------------------------------------------

  function SurvivingEvidence(evidence: seq<string>): seq<string> {
    NonEmpty(SplitOn(Join(",", evidence), ','))
  }

  /** The message that the line of `m` stands for. */
  function Survivor(m: Message): Message {
    Message(
      m.id, m.trace, Name(IterationText(m.iteration)), m.sender, AddresseeOf(m.Recipients()), m.signal,
      map k | k in m.payload && m.payload[k].Scalar() :: Coerce(ScalarText(m.payload[k])),
      SurvivingEvidence(m.evidence), Quantised(m.confidence),
      if m.qualityDelta.Some? then Some(Quantised(m.qualityDelta.value)) else None,
      m.tokenCost, m.distance, m.action, m.action == CommitmentRequired)
  }

  lemma {:induction false} RolesRoundTrip(roles: seq<Role>)
    ensures RolesOf(RoleTexts(roles)) == Some(roles)
    ensures forall i :: 0 <= i < |roles| ==> RoleTexts(roles)[i] != "" && ',' !in RoleTexts(roles)[i]
  {
    hide RoleText, RoleOf;
    if |roles| > 0 {
      RoleRoundTrip(roles[0]);
      RoleTextIsOneItem(roles[0]);
      RolesRoundTrip(roles[1..]);
      assert roles == [roles[0]] + roles[1..];
    }
  }

  lemma ReadRoles(roles: seq<Role>)
    ensures RolesOf(NonEmpty(SplitOn(Join(",", RoleTexts(roles)), ','))) == Some(roles)
  {
    var texts := RoleTexts(roles);
    RolesRoundTrip(roles);
    if |roles| == 0 {
      assert SplitOn("", ',') == [""] && NonEmpty([""]) == [];
    } else {
      SplitOnJoin(texts, ',');
      NonEmptyIdentity(texts);
    }
  }

  lemma ReadNumbers(m: Message, f: map<string, string>)
    requires Holds(f, m)
    ensures FloatField(f, "qd") == Some(Survivor(m).qualityDelta)
    ensures IntField(f, "tokens") == Some(m.tokenCost) && IntField(f, "dist") == Some(m.distance)
    ensures ParseFloat(Get(f, "conf", "1")) == Some(Quantised(m.confidence))
  {
    hide ParseFloat, ParseInt, CompactFloat, IntText, Quantised;
    assert FieldText(m, "qd").Some? <==> m.qualityDelta.Some?;
    assert FieldText(m, "tokens").Some? <==> m.tokenCost.Some?;
    assert FieldText(m, "dist").Some? <==> m.distance.Some?;
    assert FieldText(m, "conf").Some?;
    if m.qualityDelta.Some? { CompactRead(m.qualityDelta.value); }
    if m.tokenCost.Some? { IntRoundTrip(m.tokenCost.value); }
    if m.distance.Some? { IntRoundTrip(m.distance.value); }
    CompactRead(m.confidence);
  }

  lemma ReadTexts(m: Message, f: map<string, string>)
    requires Holds(f, m)
    ensures Get(f, "i", "0") == IterationText(m.iteration)
    ensures Get(f, "trace", "trace_decoded") == m.trace && Get(f, "msg", "lail_decoded") == m.id
    ensures RoleOf(Get(f, "from", "loop_controller")) == Some(m.sender)
    ensures RolesOf(NonEmpty(SplitOn(Get(f, "to", "loop_controller"), ','))) == Some(m.Recipients())
    ensures ActionOf(Get(f, "action", "none")) == Some(m.action)
    ensures ("action" in f && f["action"] == "commitment_required") <==> m.action == CommitmentRequired
    ensures NonEmpty(SplitOn(Get(f, "evidence", ""), ',')) == SurvivingEvidence(m.evidence)
  {
    hide RoleTexts, RoleText, RoleOf, IterationText, SplitOn, NonEmpty, RolesOf;
    assert FieldText(m, "i").Some? && FieldText(m, "trace").Some? && FieldText(m, "msg").Some?;
    assert FieldText(m, "from").Some? && FieldText(m, "to").Some?;
    assert FieldText(m, "action").Some? <==> m.action != NoAction;
    assert FieldText(m, "evidence").Some? <==> |m.evidence| > 0;
    RoleRoundTrip(m.sender);
    ReadRoles(m.Recipients());
    ActionRoundTrip(m.action);
  }

  lemma SurvivorAccepted(m: Message)
    requires Valid(m)
    ensures CleanPayload(Survivor(m).payload) && InUnitInterval(Quantised(m.confidence))
  {
    hide Coerce, ScalarText, InUnitInterval, Quantised, AsciiLower, Leaked;
    UnitIntervalKept(m.confidence);
    var payload := Survivor(m).payload;
    forall k | k in payload ensures !ForbiddenKey(k) && Leaked(payload[k]) == {} {
      CoerceScalar(ScalarText(m.payload[k]));
    }
  }

  /** `Build` when every field can be read. */
  lemma BuildReads(signal: string, d: Slots, roles: seq<Role>, sender: Role, conf: Float,
                   qd: Option<Float>, tokens: Option<nat>, dist: Option<nat>, action: Actionability)
    requires RolesOf(NonEmpty(SplitOn(Get(d.fields, "to", "loop_controller"), ','))) == Some(roles)
    requires RoleOf(Get(d.fields, "from", "loop_controller")) == Some(sender)
    requires ParseFloat(Get(d.fields, "conf", "1")) == Some(conf) && InUnitInterval(conf)
    requires FloatField(d.fields, "qd") == Some(qd)
    requires IntField(d.fields, "tokens") == Some(tokens) && IntField(d.fields, "dist") == Some(dist)
    requires ActionOf(Get(d.fields, "action", "none")) == Some(action)
    requires CleanPayload(d.payload)
    ensures var f := d.fields;
            Build(signal, d) == Ok(Message(
              Get(f, "msg", "lail_decoded"), Get(f, "trace", "trace_decoded"), Name(Get(f, "i", "0")),
              sender, AddresseeOf(roles), signal, d.payload,
              NonEmpty(SplitOn(Get(f, "evidence", ""), ',')), conf, qd, tokens, dist,
              action, "action" in f && f["action"] == "commitment_required"))
  {
    hide Get, ParseFloat, FloatField, IntField, RolesOf, RoleOf, ActionOf, SplitOn, NonEmpty, InUnitInterval,
         CleanPayload, AddresseeOf;
  }

  lemma BuildSurvivor(m: Message, d: Slots)
    requires Valid(m) && Holds(d.fields, m) && d.payload == Survivor(m).payload
    ensures Build(m.signal, d) == Ok(Survivor(m))
  {
    ReadTexts(m, d.fields);
    ReadNumbers(m, d.fields);
    SurvivorAccepted(m);
    hide Holds, Valid, FieldText, Get, ParseFloat, CompactFloat, Quantised, FloatField, IntField, RolesOf, RoleOf,
         SurvivingEvidence, ActionOf, SplitOn, NonEmpty, InUnitInterval, IterationText, CleanPayload, Coerce,
         ScalarText, AddresseeOf, Build;
    BuildReads(m.signal, d, m.Recipients(), m.sender, Quantised(m.confidence), Survivor(m).qualityDelta,
               m.tokenCost, m.distance, m.action);
  }

  lemma CoerceScalar(text: string)
    ensures Coerce(text).Scalar() && Leaked(Coerce(text)) == {}
  {
    hide ParseInt, ParseFloat;
  }

  /** Decoding the encoded line of a lexically clean message gives its survivor if and only if the
      printed keys are plain. */
  lemma DecodeEncode(m: Message)
    requires Valid(m) && LexClean(m)
    ensures Decode(Encode(m)) == Ok(Survivor(m)) <==> KeysPlain(m)
  {
    hide Split, Words, Encode, Collect, Build, Pairs;
    EncodeSplits(m);
    var words := [m.signal] + Words(Pairs(m));
    assert words[1..] == Words(Pairs(m));
    var d := Collect(Words(Pairs(m)));
    if KeysPlain(m) {
      SlotsOf(m);
      BuildSurvivor(m, d);
    } else {
      var k :| k in m.payload && m.payload[k].Scalar() && !('=' !in k && !Reserved(k));
      CollectKeys(Words(Pairs(m)));
      BuildKeepsPayload(m.signal, d);
      assert k in Survivor(m).payload && k !in d.payload;
    }
  }

  lemma BuildKeepsPayload(signal: string, d: Slots)
    ensures Build(signal, d).Ok? ==> Build(signal, d).message.payload == d.payload
  {
    hide ParseFloat, ParseInt, SplitOn, NonEmpty, RolesOf, RoleOf, CleanPayload, InUnitInterval, FloatField, IntField;
  }

  lemma FieldsOf(m: Message)
    requires KeysPlain(m)
    ensures Holds(PlaceAll(Pairs(m)).fields, m)
  {
    var f := PlaceAll(Pairs(m)).fields;
    assert PlacedFields(Pairs(m), f) by { PairsConsistent(m); Placed(Pairs(m)); }
    HeaderKeysPlain(m);
    hide Pairs, Header, FieldText, PlaceAll, Reserved, PlainKeys, ScalarText;
    forall k ensures FieldText(m, k) == if k in f then Some(f[k]) else None {
      if FieldText(m, k).Some? {
        HeaderValue(m, (k, FieldText(m, k).value));
        PairsMember(m, (k, FieldText(m, k).value));
      }
      if k in f { HeaderValue(m, (k, f[k])); PairsMember(m, (k, f[k])); }
    }
  }

  lemma PayloadAt(m: Message, p0: map<string, Value>, k: string)
    requires KeysPlain(m) && PlacedPayload(Pairs(m), p0)
    ensures k in p0 <==> k in m.payload && m.payload[k].Scalar()
    ensures k in p0 ==> p0[k] == Coerce(ScalarText(m.payload[k]))
  {
    HeaderKeysPlain(m);
    hide Pairs, Header, Coerce, ScalarText, Reserved, PlainKeys;
    if k in m.payload && m.payload[k].Scalar() { PairsMember(m, (k, ScalarText(m.payload[k]))); }
    if k in p0 {
      var p :| p in Pairs(m) && !Reserved(p.0) && p.0 == k;
      PairsMember(m, p);
    }
  }

  lemma PayloadOf(m: Message)
    requires KeysPlain(m)
    ensures PlaceAll(Pairs(m)).payload == Survivor(m).payload
  {
    hide Pairs, Coerce, ScalarText, PlaceAll;
    var p0 := PlaceAll(Pairs(m)).payload;
    PairsConsistent(m);
    Placed(Pairs(m));
    hide PlacedPayload, PlacedFields, Consistent;
    forall k ensures k in p0 <==> k in Survivor(m).payload {
      PayloadAt(m, p0, k);
    }
    forall k | k in p0 ensures p0[k] == Survivor(m).payload[k] {
      PayloadAt(m, p0, k);
    }
  }

  lemma SlotsOf(m: Message)
    requires KeysPlain(m)
    ensures Holds(Collect(Words(Pairs(m))).fields, m)
    ensures Collect(Words(Pairs(m))).payload == Survivor(m).payload
  {
    hide Words, Pairs, Survivor, Holds, KeysPlain;
    PairsSplittable(m);
    CollectWords(Pairs(m));
    FieldsOf(m);
    PayloadOf(m);
  }
}
