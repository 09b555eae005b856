/** What the decoder makes of a line, field by field and word by word, and in which order the encoder prints
    a payload. */
module CodecMeaning {
  import opened Text
  import opened Numbers
  import opened CompactFloats
  import opened NumberSpellings
  import opened Shlex
  import opened Lail
  import opened Codec
  import opened CodecLaws

  // ---- one value ----------------------------------------------------------------------------------------------------

  /** The two words, then what `int` reads, then what `float` reads, and every other text as it is. */
  lemma CoerceExactly(t: string)
    ensures Coerce(t) == Bool(true) <==> t == "true"
    ensures Coerce(t) == Bool(false) <==> t == "false"
    ensures forall n :: Coerce(t) == Int(n) <==> t != "true" && t != "false" && ParseInt(t) == Some(n)
    ensures forall f :: Coerce(t) == Flt(f) <==>
      t != "true" && t != "false" && ParseInt(t).None? && ParseFloat(t) == Some(f)
    ensures Coerce(t).Str? <==> t != "true" && t != "false" && ParseInt(t).None? && ParseFloat(t).None?
    ensures Coerce(t).Str? ==> Coerce(t).s == t
    ensures Coerce(t).Scalar()
  {
    hide ParseInt, ParseFloat;
  }

  /** How scalars and iterations are printed. */
  lemma PrintedExactly(n: int, b: bool, t: string)
    ensures ScalarText(Bool(b)) == if b then "True" else "False"
    ensures ScalarText(Int(n)) == IntText(n) && ScalarText(Str(t)) == t
    ensures IterationText(Name(t)) == t && IterationText(Number(n)) == IntText(n)
  {
    hide IntText;
  }

  // ---- words and fields ---------------------------------------------------------------------------------------------

  /** The word sets the key: its first equals sign comes right behind it. */
  predicate Sets(word: string, key: string) { key + "=" <= word && '=' !in key }

  /** The text behind the equals sign of the last word that sets the key. */
  function LastValue(words: seq<string>, key: string): Option<string> {
    if |words| == 0 then None
    else
      var last := words[|words| - 1];
      if Sets(last, key) then Some(last[|key| + 1..]) else LastValue(words[..|words| - 1], key)
  }

  /** The twelve names that are fields; every other key is payload. */
  lemma ReservedExactly(key: string)
    ensures Reserved(key) <==>
      || key == "i" || key == "from" || key == "to" || key == "trace" || key == "msg" || key == "conf"
      || key == "qd" || key == "tokens" || key == "dist" || key == "action" || key == "evidence" || key == "auth"
  {}

  lemma SetsFirst(word: string, key: string)
    ensures Sets(word, key) <==> Find("=", word) == Some(|key|) && word[..|key|] == key
  {
    if Sets(word, key) {
      var rest := word[|key| + 1..];
      assert word == key + "=" + rest;
      FirstEquals(key, rest);
    }
    var at := Find("=", word);
    if at == Some(|key|) && word[..|key|] == key {
      OccursOne("=", word, |key|);
      assert word[..|key| + 1] == key + "=";
      forall i: nat | i < |key| ensures key[i] != '=' {
        OccursOne("=", word, i);
        assert key[i] == word[i];
      }
    }
  }

  lemma FirstEquals(key: string, rest: string)
    requires '=' !in key
    ensures Find("=", key + "=" + rest) == Some(|key|)
  {
    var s := key + "=" + rest;
    OccursOne("=", s, |key|);
    forall i: nat | i < |key| ensures !OccursAt("=", s, i) {
      OccursOne("=", s, i);
      assert s[i] == key[i];
    }
  }

  /** Decoding fills the fields and the payload with the last value of each key; words without an equals sign
      set nothing. */
  lemma {:induction false} CollectLast(words: seq<string>, key: string)
    ensures var d := Collect(words);
      if Reserved(key) then
        key !in d.payload && LastValue(words, key) == if key in d.fields then Some(d.fields[key]) else None
      else
        && key !in d.fields
        && (key in d.payload <==> LastValue(words, key).Some?)
        && (key in d.payload ==> d.payload[key] == Coerce(LastValue(words, key).value))
  {
    hide Coerce, Reserved, Sets;
    if |words| > 0 {
      var last := words[|words| - 1];
      CollectLast(words[..|words| - 1], key);
      SetsFirst(last, key);
      var at := Find("=", last);
      hide Find;
    }
  }

  const FIELD_NAMES := {"i", "from", "to", "trace", "msg", "conf", "qd", "tokens", "dist", "action", "evidence", "auth"}

  /** The fields that the words set. */
  function FieldsOf(words: seq<string>): map<string, string> {
    map key | key in FIELD_NAMES && LastValue(words, key).Some? :: LastValue(words, key).value
  }

  lemma CollectedFields(words: seq<string>)
    ensures Collect(words).fields == FieldsOf(words)
  {
    hide Collect, LastValue, FIELD_NAMES, Reserved;
    var f, g := Collect(words).fields, FieldsOf(words);
    forall key ensures key in f <==> key in g ensures key in f ==> f[key] == g[key] {
      NamesAreReserved(key);
      CollectLast(words, key);
    }
  }

  lemma NamesAreReserved(key: string)
    ensures Reserved(key) <==> key in FIELD_NAMES
  {}

  function ValueOr(f: map<string, string>, key: string, default_: string): string {
    if key in f then f[key] else default_
  }

  function Lookup(f: map<string, string>, key: string): Option<string> { if key in f then Some(f[key]) else None }

  // ---- a decoded message --------------------------------------------------------------------------------------------

  /** The items of a comma list that are not empty. */
  function Items(text: string): seq<string> { NonEmpty(SplitOn(text, ',')) }

  /** An optional number field reads as the given value, or is absent. */
  predicate ReadsFloat(text: Option<string>, f: Option<Float>) {
    if text.Some? then f.Some? && ParseFloat(text.value) == f else f.None?
  }

  predicate ReadsNat(text: Option<string>, n: Option<nat>) {
    if text.Some? then n.Some? && ParseInt(text.value) == Some(n.value as int) else n.None?
  }

  /** The texts that the fields of a message are read from. */
  datatype Raw = Raw(
    id: string, trace: string, iteration: string, sender: string, to: string, evidence: string, confidence: string,
    qualityDelta: Option<string>, tokenCost: Option<string>, distance: Option<string>, action: string, commits: bool)

  /** The fields under their names, with the defaults for those that no word sets. */
  function RawOf(f: map<string, string>): Raw {
    Raw(ValueOr(f, "msg", "lail_decoded"), ValueOr(f, "trace", "trace_decoded"), ValueOr(f, "i", "0"),
      ValueOr(f, "from", "loop_controller"), ValueOr(f, "to", "loop_controller"), ValueOr(f, "evidence", ""),
      ValueOr(f, "conf", "1"), Lookup(f, "qd"), Lookup(f, "tokens"), Lookup(f, "dist"), ValueOr(f, "action", "none"),
      Lookup(f, "action") == Some("commitment_required"))
  }

  /** The message says what the texts say. */
  predicate Says(raw: Raw, m: Message) {
    && m.id == raw.id && m.trace == raw.trace && m.iteration == Name(raw.iteration)
    && RoleText(m.sender) == raw.sender
    && RoleTexts(m.Recipients()) == Items(raw.to) && (m.to.One? <==> |m.Recipients()| == 1)
    && m.evidence == Items(raw.evidence)
    && ParseFloat(raw.confidence) == Some(m.confidence) && ReadsFloat(raw.qualityDelta, m.qualityDelta)
    && ReadsNat(raw.tokenCost, m.tokenCost) && ReadsNat(raw.distance, m.distance)
    && ActionText(m.action) == raw.action && (m.requiresCommitment <==> raw.commits)
  }

  /** The commitment flag is set exactly with the actionability that requires it. */
  lemma CommitsExactly(f: map<string, string>)
    ensures RawOf(f).commits <==> RawOf(f).action == "commitment_required"
  {}

  lemma RoleExactly(t: string, r: Role)
    ensures RoleOf(t) == Some(r) <==> RoleText(r) == t
  {
    RoleRoundTrip(r);
    RoleIsNamed(t);
    hide RoleOf, RoleText;
  }

  lemma RoleIsNamed(t: string)
    ensures RoleOf(t).Some? ==> RoleText(RoleOf(t).value) == t
  {}

  lemma ActionExactly(t: string, a: Actionability)
    ensures ActionOf(t) == Some(a) <==> ActionText(a) == t
  {}

  lemma {:induction false} RolesExactly(items: seq<string>)
    ensures RolesOf(items).None? <==> exists i :: 0 <= i < |items| && RoleOf(items[i]).None?
    ensures RolesOf(items).Some? ==> RoleTexts(RolesOf(items).value) == items
  {
    hide RoleOf, RoleText;
    if |items| > 0 {
      var rest := items[1..];
      RolesExactly(rest);
      assert forall i :: 0 <= i < |rest| ==> rest[i] == items[i + 1];
      if RoleOf(items[0]).Some? { RoleExactly(items[0], RoleOf(items[0]).value); }
      if RolesOf(rest).None? {
        var i :| 0 <= i < |rest| && RoleOf(rest[i]).None?;
        assert RoleOf(items[i + 1]).None?;
      }
    }
  }

  /** Building a message from its texts. */
  function BuildFrom(signal: string, raw: Raw, payload: map<string, Value>): Result {
    var roles, sender := RolesOf(Items(raw.to)), RoleOf(raw.sender);
    var conf, qd := ParseFloat(raw.confidence), FloatOf(raw.qualityDelta);
    var tokens, dist := IntOf(raw.tokenCost), IntOf(raw.distance);
    if roles.None? || sender.None? then Err(BadRole)
    else if conf.None? || qd.None? || tokens.None? || dist.None? then Err(BadNumber)
    else if ActionOf(raw.action).None? then Err(BadAction)
    else if !InUnitInterval(conf.value) || !NonNegative(tokens.value) || !NonNegative(dist.value)
            || !CleanPayload(payload) then
      Err(Rejected)
    else Ok(Message(raw.id, raw.trace, Name(raw.iteration), sender.value, AddresseeOf(roles.value), signal, payload,
      Items(raw.evidence), conf.value, qd.value, AsNat(tokens.value), AsNat(dist.value), ActionOf(raw.action).value,
      raw.commits))
  }

  function FloatOf(text: Option<string>): Option<Option<Float>> {
    if text.None? then Some(None) else match ParseFloat(text.value) case Some(f) => Some(Some(f)) case None => None
  }

  function IntOf(text: Option<string>): Option<Option<int>> {
    if text.None? then Some(None) else match ParseInt(text.value) case Some(n) => Some(Some(n)) case None => None
  }

  lemma FloatFieldIs(f: map<string, string>, key: string)
    ensures FloatField(f, key) == FloatOf(Lookup(f, key))
  {
    hide ParseFloat;
  }

  lemma IntFieldIs(f: map<string, string>, key: string)
    ensures IntField(f, key) == IntOf(Lookup(f, key))
  {
    hide ParseInt;
  }

  lemma BuildIsFrom(signal: string, d: Slots)
    ensures Build(signal, d) == BuildFrom(signal, RawOf(d.fields), d.payload)
  {
    var f := d.fields;
    FloatFieldIs(f, "qd");
    IntFieldIs(f, "tokens");
    IntFieldIs(f, "dist");
    hide FloatField, IntField, FloatOf, IntOf, ParseFloat, RolesOf, RoleOf, ActionOf, Items, SplitOn, NonEmpty;
    hide CleanPayload, InUnitInterval, NonNegative, AddresseeOf;
    assert Items(ValueOr(f, "to", "loop_controller")) == NonEmpty(SplitOn(Get(f, "to", "loop_controller"), ',')) by {
      ItemsIs(ValueOr(f, "to", "loop_controller"));
    }
    assert Items(ValueOr(f, "evidence", "")) == NonEmpty(SplitOn(Get(f, "evidence", ""), ',')) by {
      ItemsIs(ValueOr(f, "evidence", ""));
    }
  }

  lemma ItemsIs(text: string)
    ensures Items(text) == NonEmpty(SplitOn(text, ','))
  {
    hide NonEmpty, SplitOn;
  }

  lemma BuiltSays(signal: string, raw: Raw, payload: map<string, Value>)
    requires BuildFrom(signal, raw, payload).Ok?
    ensures var m := BuildFrom(signal, raw, payload).message;
      m.signal == signal && m.payload == payload && Says(raw, m)
  {
    var m := BuildFrom(signal, raw, payload).message;
    BuiltRoles(raw.to, m.to, raw.sender, m.sender);
    FloatReads(raw.qualityDelta, m.qualityDelta);
    NatReads(raw.tokenCost, m.tokenCost);
    NatReads(raw.distance, m.distance);
    ActionExactly(raw.action, m.action);
    hide ParseFloat, FloatOf, IntOf, Items, RolesOf, RoleOf, RoleText, RoleTexts, CleanPayload, InUnitInterval;
    hide ActionOf, ActionText, AddresseeOf, ReadsFloat, ReadsNat;
  }

  lemma BuiltRoles(names: string, to: Addressee, name: string, sender: Role)
    ensures RolesOf(Items(names)).Some? && AddresseeOf(RolesOf(Items(names)).value) == to ==>
      var roles := match to case One(r) => [r] case Many(rs) => rs;
      RoleTexts(roles) == Items(names) && (to.One? <==> |roles| == 1)
    ensures RoleOf(name) == Some(sender) ==> RoleText(sender) == name
  {
    RolesExactly(Items(names));
    RoleExactly(name, sender);
    hide RoleOf, RoleText, Items;
    if RolesOf(Items(names)).Some? {
      var roles := RolesOf(Items(names)).value;
      hide RolesOf, RoleTexts;
      assert |roles| == 1 ==> roles == [roles[0]];
    }
  }

  lemma FloatReads(text: Option<string>, f: Option<Float>)
    ensures FloatOf(text) == Some(f) ==> ReadsFloat(text, f)
  {
    hide ParseFloat;
  }

  lemma NatReads(text: Option<string>, n: Option<nat>)
    ensures var i := IntOf(text); i.Some? && NonNegative(i.value) && AsNat(i.value) == n ==> ReadsNat(text, n)
  {
    hide ParseInt;
  }

  /** Whatever line decodes: the signal is its first word, the fields are the last values of their names or
      the defaults, and the payload has exactly the other keys that some word sets, each coerced from its
      last value. */
  lemma DecodedSays(line: string)
    requires Decode(line).Ok?
    ensures Split(line).Some? && |Split(line).value| > 0
    ensures var words := Split(line).value;
      var m := Decode(line).message;
      && m.signal == words[0] && Says(RawOf(FieldsOf(words[1..])), m)
      && forall key :: key in m.payload <==> key !in FIELD_NAMES && LastValue(words[1..], key).Some?
    ensures var rest := Split(line).value[1..];
      forall key | key in Decode(line).message.payload ::
        LastValue(rest, key).Some? && Decode(line).message.payload[key] == Coerce(LastValue(rest, key).value)
  {
    hide Split, Build, BuildFrom, RawOf, Collect, LastValue, Reserved, Says, Coerce, FieldsOf, FIELD_NAMES;
    var words := Split(line).value;
    var rest := words[1..];
    CollectedFields(rest);
    BuildIsFrom(words[0], Collect(rest));
    BuiltSays(words[0], RawOf(FieldsOf(rest)), Collect(rest).payload);
    forall key
      ensures key in Collect(rest).payload <==> key !in FIELD_NAMES && LastValue(rest, key).Some?
      ensures key in Collect(rest).payload ==> Collect(rest).payload[key] == Coerce(LastValue(rest, key).value)
    {
      CollectLast(rest, key);
      NamesAreReserved(key);
    }
  }

  // ---- lines that do not decode -------------------------------------------------------------------------------------

  /** Some name among the recipients, or that of the sender, is no role. */
  predicate RoleFault(raw: Raw) {
    RoleOf(raw.sender).None? || exists item | item in Items(raw.to) :: RoleOf(item).None?
  }

  predicate NoFloat(text: Option<string>) { text.Some? && ParseFloat(text.value).None? }

  predicate NoInt(text: Option<string>) { text.Some? && ParseInt(text.value).None? }

  /** A number field is no number. */
  predicate NumberFault(raw: Raw) {
    ParseFloat(raw.confidence).None? || NoFloat(raw.qualityDelta) || NoInt(raw.tokenCost) || NoInt(raw.distance)
  }

  predicate ActionFault(raw: Raw) { ActionOf(raw.action).None? }

  predicate Negative(text: Option<string>) {
    text.Some? && ParseInt(text.value).Some? && ParseInt(text.value).value < 0
  }

  /** A number is out of range. */
  predicate RangeFault(raw: Raw) {
    || (match ParseFloat(raw.confidence)
        case Some(x) => !x.Finite? || !(0.0 <= ValueOf(x) <= 1.0)
        case None => true)
    || Negative(raw.tokenCost) || Negative(raw.distance)
  }

  /** A payload key is one that the message model forbids. */
  ghost predicate KeyFault(words: seq<string>) {
    exists key :: key !in FIELD_NAMES && LastValue(words, key).Some? && ForbiddenKey(key)
  }

  /** The ten names that no payload key may have, in any case. */
  lemma ForbiddenExactly(key: string)
    ensures ForbiddenKey(key) <==>
      var k := AsciiLower(key);
      || k == "syscall" || k == "shell" || k == "command" || k == "cmd" || k == "network_call" || k == "database_write"
      || k == "release_operation" || k == "file_mutation" || k == "execute" || k == "dispatch"
  {
    hide AsciiLower;
  }

  lemma CleanExactly(words: seq<string>)
    ensures CleanPayload(Collect(words).payload) <==> !KeyFault(words)
  {
    hide Reserved, ForbiddenKey, Collect, LastValue, Coerce, FIELD_NAMES;
    var payload := Collect(words).payload;
    forall key ensures key in payload <==> key !in FIELD_NAMES && LastValue(words, key).Some?
               ensures key in payload ==> Leaked(payload[key]) == {}
    {
      CollectLast(words, key);
      NamesAreReserved(key);
      if key in payload {
        CoerceExactly(LastValue(words, key).value);
        ScalarLeaksNothing(payload[key]);
      }
    }
  }

  lemma ScalarLeaksNothing(v: Value)
    requires v.Scalar()
    ensures Leaked(v) == {}
  {}

  /** How a line with the given texts fails to become a message, if it does. */
  function FaultOf(raw: Raw, badKey: bool): Option<DecodeError> {
    if RoleFault(raw) then Some(BadRole)
    else if NumberFault(raw) then Some(BadNumber)
    else if ActionFault(raw) then Some(BadAction)
    else if RangeFault(raw) || badKey then Some(Rejected)
    else None
  }

  lemma BuildFails(signal: string, raw: Raw, payload: map<string, Value>)
    ensures var r := BuildFrom(signal, raw, payload);
      match FaultOf(raw, !CleanPayload(payload))
      case Some(e) => r == Err(e)
      case None => r.Ok?
  {
    RoleFaultIs(raw);
    NumberFaultIs(raw);
    if !NumberFault(raw) { RangeFaultIs(raw); }
    hide ParseFloat, ParseInt, Items, RolesOf, RoleOf, CleanPayload, ActionOf, RoleFault, NumberFault, RangeFault;
    hide InUnitInterval, NonNegative, FloatOf, IntOf;
  }

  lemma RoleFaultIs(raw: Raw)
    ensures RoleFault(raw) <==> RoleOf(raw.sender).None? || RolesOf(Items(raw.to)).None?
  {
    hide RoleOf, Items;
    var items := Items(raw.to);
    RolesExactly(items);
    if RolesOf(items).None? {
      var i :| 0 <= i < |items| && RoleOf(items[i]).None?;
      assert items[i] in items;
    }
  }

  lemma NumberFaultIs(raw: Raw)
    ensures NumberFault(raw) <==>
      || ParseFloat(raw.confidence).None? || FloatOf(raw.qualityDelta).None?
      || IntOf(raw.tokenCost).None? || IntOf(raw.distance).None?
  {
    hide ParseFloat, ParseInt;
  }

  lemma RangeFaultIs(raw: Raw)
    requires !NumberFault(raw)
    ensures ParseFloat(raw.confidence).Some? && IntOf(raw.tokenCost).Some? && IntOf(raw.distance).Some?
    ensures RangeFault(raw) <==>
      || !InUnitInterval(ParseFloat(raw.confidence).value)
      || !NonNegative(IntOf(raw.tokenCost).value) || !NonNegative(IntOf(raw.distance).value)
  {
    hide ParseFloat, ParseInt, ValueOf;
  }

  /** Which line fails to decode, and how: an open quotation, no word at all, and then the first of an unknown
      role, an unreadable number, an unknown actionability, and a value that the message model rejects. */
  lemma DecodeFailsExactly(line: string)
    ensures match Split(line)
      case None => Decode(line) == Err(BadQuoting)
      case Some(words) =>
        if |words| == 0 then Decode(line) == Err(EmptyLine)
        else
          match FaultOf(RawOf(FieldsOf(words[1..])), KeyFault(words[1..]))
          case Some(e) => Decode(line) == Err(e)
          case None => Decode(line).Ok?
  {
    hide Split, Build, BuildFrom, RawOf, Collect, FaultOf, FieldsOf, KeyFault;
    if Split(line).Some? && |Split(line).value| > 0 {
      var words := Split(line).value;
      var rest := words[1..];
      CollectedFields(rest);
      CleanExactly(rest);
      BuildIsFrom(words[0], Collect(rest));
      BuildFails(words[0], RawOf(FieldsOf(rest)), Collect(rest).payload);
    }
  }

  // ---- nested payloads ----------------------------------------------------------------------------------------------

  /** No dictionary anywhere in the value has a forbidden key. */
  predicate Harmless(v: Value)
    decreases v
  {
    match v
    case List(items) => forall i :: 0 <= i < |items| ==> Harmless(items[i])
    case Dict(entries) => forall i :: 0 <= i < |entries| ==> !ForbiddenKey(entries[i].key) && Harmless(entries[i].value)
    case _ => true
  }

  lemma {:induction false} LeakedExactly(v: Value)
    ensures Leaked(v) == {} <==> Harmless(v)
    decreases v
  {
    hide ForbiddenKey;
    match v
    case List(items) => LeakedItemsExactly(items);
    case Dict(entries) => LeakedEntriesExactly(entries);
    case _ =>
  }

  lemma {:induction false} LeakedItemsExactly(items: seq<Value>)
    ensures LeakedItems(items) == {} <==> forall i :: 0 <= i < |items| ==> Harmless(items[i])
    decreases items
  {
    hide ForbiddenKey, Harmless, Leaked;
    if |items| > 0 {
      var rest := items[1..];
      LeakedExactly(items[0]);
      LeakedItemsExactly(rest);
      EmptyUnion(Leaked(items[0]), LeakedItems(rest));
      assert forall i :: 0 <= i < |rest| ==> rest[i] == items[i + 1];
      if forall i :: 0 <= i < |rest| ==> Harmless(rest[i]) {
        forall i | 0 < i < |items| ensures Harmless(items[i]) <==> Harmless(rest[i - 1]) {}
      }
    }
  }

  lemma {:induction false} LeakedEntriesExactly(entries: seq<Entry>)
    ensures LeakedEntries(entries) == {} <==>
      forall i :: 0 <= i < |entries| ==> !ForbiddenKey(entries[i].key) && Harmless(entries[i].value)
    decreases entries
  {
    hide ForbiddenKey, Harmless, Leaked;
    if |entries| > 0 {
      var rest := entries[1..];
      LeakedExactly(entries[0].value);
      LeakedEntriesExactly(rest);
      EmptyUnion(LeakedEntry(entries[0]), LeakedEntries(rest));
      EmptyUnion(if ForbiddenKey(entries[0].key) then {AsciiLower(entries[0].key)} else {}, Leaked(entries[0].value));
      assert forall i :: 0 <= i < |rest| ==> rest[i] == entries[i + 1];
      if forall i :: 0 <= i < |rest| ==> !ForbiddenKey(rest[i].key) && Harmless(rest[i].value) {
        forall i | 0 < i < |entries| ensures entries[i] == rest[i - 1] {}
      }
    }
  }

  lemma EmptyUnion(a: set<string>, b: set<string>)
    ensures a + b == {} <==> a == {} && b == {}
  {
    if a + b == {} {
      forall x ensures x !in a && x !in b { assert x !in a + b; }
    }
  }

  // ---- the order of the payload -------------------------------------------------------------------------------------

  /** The eight core keys come first, in this order. */
  function CoreRank(key: string): nat {
    if key == "target" then 0
    else if key == "gap" then 1
    else if key == "category" then 2
    else if key == "status" then 3
    else if key == "finding_id" then 4
    else if key == "test_status" then 5
    else if key == "priority" then 6
    else if key == "gain" then 7
    else 8
  }

  /** Core keys by rank, then all others in code-point order. */
  predicate Before(a: string, b: string) {
    CoreRank(a) < CoreRank(b) || (CoreRank(a) == CoreRank(b) == 8 && Le(a, b) && a != b)
  }

  ghost predicate InOrder(keys: seq<string>) { forall i, j :: 0 <= i < j < |keys| ==> Before(keys[i], keys[j]) }

  lemma CoreRanks()
    ensures |CORE_PAYLOAD_ORDER| == 8 && forall i :: 0 <= i < 8 ==> CoreRank(CORE_PAYLOAD_ORDER[i]) == i
    ensures forall key :: CoreRank(key) < 8 ==> key in CORE_PAYLOAD_ORDER
  {
    forall key | CoreRank(key) < 8 ensures key in CORE_PAYLOAD_ORDER {
      assert CORE_PAYLOAD_ORDER[CoreRank(key)] == key;
    }
  }

  ghost predicate RanksRise(keys: seq<string>) {
    forall i, j :: 0 <= i < j < |keys| ==> CoreRank(keys[i]) < CoreRank(keys[j])
  }

  lemma {:induction false} PresentInOrder(order: seq<string>, payload: map<string, Value>)
    requires RanksRise(order)
    ensures RanksRise(Present(order, payload))
  {
    hide CoreRank;
    if |order| > 0 {
      var first, rest := order[0], order[1..];
      assert forall i :: 0 <= i < |rest| ==> rest[i] == order[i + 1];
      PresentInOrder(rest, payload);
      var r := Present(rest, payload);
      forall j | 0 <= j < |r| ensures CoreRank(first) < CoreRank(r[j]) {
        assert r[j] in rest;
        var k :| 0 <= k < |rest| && rest[k] == r[j];
        assert order[k + 1] == r[j];
      }
      if first in payload { RiseFrom(first, r); } else { assert [] + r == r; }
    }
  }

  lemma RiseFrom(first: string, r: seq<string>)
    requires RanksRise(r) && forall j :: 0 <= j < |r| ==> CoreRank(first) < CoreRank(r[j])
    ensures RanksRise([first] + r)
  {
    hide CoreRank;
    var all := [first] + r;
    forall i, j | 0 <= i < j < |all| ensures CoreRank(all[i]) < CoreRank(all[j]) {
      assert all[j] == r[j - 1];
      if i > 0 { assert all[i] == r[i - 1]; }
    }
  }

  /** The keys of a payload are printed once each, the core keys in their fixed order before the others in
      code-point order. */
  lemma PayloadOrderExactly(payload: map<string, Value>)
    ensures InOrder(PayloadKeys(payload))
    ensures forall key :: key in PayloadKeys(payload) <==> key in payload
  {
    CoreRanks();
    PresentInOrder(CORE_PAYLOAD_ORDER, payload);
    var core := Present(CORE_PAYLOAD_ORDER, payload);
    var rest := Sorted(set k | k in payload && k !in core);
    hide CoreRank, Le, Sorted, Present;
    forall key | key in core ensures CoreRank(key) < 8 { CoreIsRanked(key); }
    forall key | key in rest ensures CoreRank(key) == 8 { Unranked(key); }
    CoreThenRest(core, rest);
  }

  lemma CoreThenRest(core: seq<string>, rest: seq<string>)
    requires RanksRise(core) && StrictlyAscending(rest)
    requires (forall key | key in core :: CoreRank(key) < 8) && forall key | key in rest :: CoreRank(key) == 8
    ensures InOrder(core + rest)
  {
    hide CoreRank, Le;
    var keys := core + rest;
    forall i, j | 0 <= i < j < |keys| ensures Before(keys[i], keys[j]) {
      if j < |core| {
        assert keys[i] == core[i] && keys[j] == core[j];
      } else if i < |core| {
        assert keys[i] == core[i] && keys[i] in core && keys[j] == rest[j - |core|] && keys[j] in rest;
      } else {
        assert keys[i] == rest[i - |core|] && keys[j] == rest[j - |core|];
        assert keys[i] in rest && keys[j] in rest;
      }
    }
  }

  lemma CoreIsRanked(key: string)
    requires key in CORE_PAYLOAD_ORDER
    ensures CoreRank(key) < 8
  {}

  lemma Unranked(key: string)
    requires key !in CORE_PAYLOAD_ORDER
    ensures CoreRank(key) == 8
  {
    CoreRanks();
  }
}
