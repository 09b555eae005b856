/** The compact line: `message_to_compact` and `compact_to_message`. */
module Codec {
  import opened Text
  import opened Numbers
  import opened CompactFloats
  import opened Shlex
  import opened ShlexLaws
  import opened Lail

  const CORE_PAYLOAD_ORDER: seq<string> :=
    ["target", "gap", "category", "status", "finding_id", "test_status", "priority", "gain"]

  predicate Reserved(key: string) {
    key in {"i", "from", "to", "trace", "msg", "conf", "qd", "tokens", "dist", "action", "evidence", "auth"}
  }

  // ---- encoding -------------------------------------------------------------------------------------

  function IterationText(it: Iteration): string {
    match it case Name(t) => t case Number(n) => IntText(n)
  }

  /** Python's `str` of a scalar payload value. */
  function ScalarText(v: Value): string
    requires v.Scalar()
  {
    match v
    case Str(s) => s
    case Int(n) => IntText(n)
    case Flt(f) => FloatText(f)
    case Bool(b) => if b then "True" else "False"
  }

  function RoleTexts(roles: seq<Role>): (r: seq<string>)
    ensures |r| == |roles| && forall i :: 0 <= i < |r| ==> r[i] == RoleText(roles[i])
  {
    if |roles| == 0 then [] else [RoleText(roles[0])] + RoleTexts(roles[1..])
  }

  function Only(present: bool, key: string, value: string): (r: seq<(string, string)>)
    ensures forall p :: p in r <==> present && p == (key, value)
  {
    if present then [(key, value)] else []
  }

  function OptionalFloat(f: Option<Float>): string { if f.Some? then CompactFloat(f.value) else "" }

  function OptionalNat(n: Option<nat>): string { if n.Some? then IntText(n.value) else "" }

  /** The fields that are always printed. */
  function FixedHeader(m: Message): seq<(string, string)> {
    [("i", IterationText(m.iteration)), ("from", RoleText(m.sender)),
     ("to", Join(",", RoleTexts(m.Recipients()))), ("trace", m.trace), ("msg", m.id),
     ("conf", CompactFloat(m.confidence)), ("auth", "none")]
  }

  /** All fields except the payload, in the order they are printed. */
  function Header(m: Message): seq<(string, string)> {
    FixedHeader(m)
    + Only(m.qualityDelta.Some?, "qd", OptionalFloat(m.qualityDelta))
    + Only(m.tokenCost.Some?, "tokens", OptionalNat(m.tokenCost))
    + Only(m.distance.Some?, "dist", OptionalNat(m.distance))
    + Only(m.action != NoAction, "action", ActionText(m.action))
    + Only(|m.evidence| > 0, "evidence", Join(",", m.evidence))
  }

  /** `[key for key in order if key in payload]` */
  function Present(order: seq<string>, payload: map<string, Value>): (r: seq<string>)
    ensures forall k :: k in r <==> k in order && k in payload
  {
    if |order| == 0 then []
    else (if order[0] in payload then [order[0]] else []) + Present(order[1..], payload)
  }

  /** Core keys in their fixed order, then the rest sorted. */
  function PayloadKeys(payload: map<string, Value>): (r: seq<string>)
    ensures forall k :: k in r <==> k in payload
  {
    var core := Present(CORE_PAYLOAD_ORDER, payload);
    core + Sorted(set k | k in payload && k !in core)
  }

  function ScalarPairs(keys: seq<string>, payload: map<string, Value>): seq<(string, string)>
    requires forall k :: k in keys ==> k in payload
  {
    if |keys| == 0 then []
    else
      var k := keys[|keys| - 1];
      ScalarPairs(keys[..|keys| - 1], payload)
      + if payload[k].Scalar() then [(k, ScalarText(payload[k]))] else []
  }

  /** Every printed key with the text of its value. */
  function Pairs(m: Message): seq<(string, string)> {
    Header(m) + ScalarPairs(PayloadKeys(m.payload), m.payload)
  }

  function Kvs(pairs: seq<(string, string)>): (r: seq<string>)
    ensures |r| == |pairs| && forall i :: 0 <= i < |r| ==> r[i] == Kv(pairs[i].0, pairs[i].1)
  {
    if |pairs| == 0 then [] else [Kv(pairs[0].0, pairs[0].1)] + Kvs(pairs[1..])
  }

  /** The signal type followed by the printed pairs. */
  function Parts(head: string, pairs: seq<(string, string)>): seq<string> { [head] + Kvs(pairs) }

  function Encode(m: Message): string { Join(" ", Parts(m.signal, Pairs(m))) }

  lemma KvsAppend(a: seq<(string, string)>, b: seq<(string, string)>)
    ensures Kvs(a + b) == Kvs(a) + Kvs(b)
  {
    hide Kv;
    assert forall i :: 0 <= i < |a + b| ==> Kvs(a + b)[i] == (Kvs(a) + Kvs(b))[i];
  }

  /** One more field, if it is present. */
  lemma Grown(head: string, pairs: seq<(string, string)>, present: bool, key: string, value: string)
    ensures present ==> Parts(head, pairs + Only(present, key, value)) == Parts(head, pairs) + [Kv(key, value)]
    ensures !present ==> Parts(head, pairs + Only(present, key, value)) == Parts(head, pairs)
  {
    KvsAppend(pairs, Only(present, key, value));
  }

  lemma ScalarPairsStep(keys: seq<string>, i: nat, payload: map<string, Value>, text: string)
    requires (forall k :: k in keys ==> k in payload) && i < |keys|
    requires payload[keys[i]].Scalar() ==> text == ScalarText(payload[keys[i]])
    ensures ScalarPairs(keys[..i + 1], payload)
         == ScalarPairs(keys[..i], payload) + Only(payload[keys[i]].Scalar(), keys[i], text)
  {
    assert keys[..i + 1][..i] == keys[..i];
  }

  function FixedParts(m: Message): (parts: seq<string>)
    ensures parts == Parts(m.signal, FixedHeader(m))
  {
    hide Kvs, CompactFloat, RoleText, IntText, Join, Kv, RoleTexts;
    [m.signal,
     Kv("i", IterationText(m.iteration)),
     Kv("from", RoleText(m.sender)),
     Kv("to", Join(",", RoleTexts(m.Recipients()))),
     Kv("trace", m.trace),
     Kv("msg", m.id),
     Kv("conf", CompactFloat(m.confidence)),
     Kv("auth", "none")]
  }

  /** The first half of `message_to_compact`: `parts` grows field by field. */
  method HeaderParts(m: Message) returns (parts: seq<string>)
    ensures parts == Parts(m.signal, Header(m))
  {
    hide Parts, Only, CompactFloat, ActionText, IntText, Join, Kv, FixedHeader, FixedParts;
    parts := FixedParts(m);
    ghost var h0 := FixedHeader(m);
    Grown(m.signal, h0, m.qualityDelta.Some?, "qd", OptionalFloat(m.qualityDelta));
    if m.qualityDelta.Some? {
      parts := parts + [Kv("qd", CompactFloat(m.qualityDelta.value))];
    }
    ghost var h1 := h0 + Only(m.qualityDelta.Some?, "qd", OptionalFloat(m.qualityDelta));
    Grown(m.signal, h1, m.tokenCost.Some?, "tokens", OptionalNat(m.tokenCost));
    if m.tokenCost.Some? {
      parts := parts + [Kv("tokens", IntText(m.tokenCost.value))];
    }
    ghost var h2 := h1 + Only(m.tokenCost.Some?, "tokens", OptionalNat(m.tokenCost));
    Grown(m.signal, h2, m.distance.Some?, "dist", OptionalNat(m.distance));
    if m.distance.Some? {
      parts := parts + [Kv("dist", IntText(m.distance.value))];
    }
    ghost var h3 := h2 + Only(m.distance.Some?, "dist", OptionalNat(m.distance));
    Grown(m.signal, h3, m.action != NoAction, "action", ActionText(m.action));
    if m.action != NoAction {
      parts := parts + [Kv("action", ActionText(m.action))];
    }
    ghost var h4 := h3 + Only(m.action != NoAction, "action", ActionText(m.action));
    Grown(m.signal, h4, |m.evidence| > 0, "evidence", Join(",", m.evidence));
    if |m.evidence| > 0 {
      parts := parts + [Kv("evidence", Join(",", m.evidence))];
    }
    assert Header(m) == h4 + Only(|m.evidence| > 0, "evidence", Join(",", m.evidence));
  }

  /** `message_to_compact`: the fields, then the payload key by key, joined by spaces. */
  method MessageToCompact(m: Message) returns (line: string)
    ensures line == Encode(m)
  {
    hide Parts, Only, Join, Kv, Header, PayloadKeys;
    var parts := HeaderParts(m);
    var keys := PayloadKeys(m.payload);
    var i := 0;
    assert ScalarPairs(keys[..0], m.payload) == [] && Header(m) + [] == Header(m);
    while i < |keys|
      invariant 0 <= i <= |keys|
      invariant parts == Parts(m.signal, Header(m) + ScalarPairs(keys[..i], m.payload))
    {
      var key := keys[i];
      var value := m.payload[key];
      ghost var before := Header(m) + ScalarPairs(keys[..i], m.payload);
      assert keys[..i + 1][..i] == keys[..i];
      ghost var text := if value.Scalar() then ScalarText(value) else "";
      ScalarPairsStep(keys, i, m.payload, text);
      Grown(m.signal, before, value.Scalar(), key, text);
      assert before + Only(value.Scalar(), key, text) == Header(m) + ScalarPairs(keys[..i + 1], m.payload);
      if value.Scalar() {
        parts := parts + [Kv(key, ScalarText(value))];
      }
      i := i + 1;
    }
    assert keys[..i] == keys;
    line := Join(" ", parts);
  }

  // ---- decoding -------------------------------------------------------------------------------------

  datatype DecodeError = EmptyLine | BadQuoting | BadRole | BadNumber | BadAction | Rejected

  datatype Result = Ok(message: Message) | Err(error: DecodeError)

  /** `_coerce`: booleans, then integers, then floats, else the text itself. */
  function Coerce(text: string): Value {
    if text == "true" then Bool(true)
    else if text == "false" then Bool(false)
    else match ParseInt(text)
      case Some(n) => Int(n)
      case None =>
        match ParseFloat(text)
        case Some(f) => Flt(f)
        case None => Str(text)
  }

  /** The two dictionaries that decoding fills. */
  datatype Slots = Slots(fields: map<string, string>, payload: map<string, Value>)

  function Place(d: Slots, key: string, value: string): Slots {
    if Reserved(key) then d.(fields := d.fields[key := value])
    else d.(payload := d.payload[key := Coerce(value)])
  }

  function PlaceToken(d: Slots, token: string): Slots {
    match Find("=", token)
    case None => d
    case Some(i) => Place(d, token[..i], token[i + 1..])
  }

  function Collect(tokens: seq<string>): Slots {
    if |tokens| == 0 then Slots(map[], map[])
    else PlaceToken(Collect(tokens[..|tokens| - 1]), tokens[|tokens| - 1])
  }

  function Get(fields: map<string, string>, key: string, default_: string): string {
    if key in fields then fields[key] else default_
  }

  function RolesOf(items: seq<string>): Option<seq<Role>> {
    if |items| == 0 then Some([])
    else match (RoleOf(items[0]), RolesOf(items[1..]))
      case (Some(r), Some(rs)) => Some([r] + rs)
      case _ => None
  }

  function AddresseeOf(roles: seq<Role>): Addressee {
    if |roles| == 1 then One(roles[0]) else Many(roles)
  }

  /** An optional numeric field: absent, readable, or an error. */
  function FloatField(fields: map<string, string>, key: string): Option<Option<Float>> {
    if key !in fields then Some(None)
    else match ParseFloat(fields[key]) case Some(f) => Some(Some(f)) case None => None
  }

  function IntField(fields: map<string, string>, key: string): Option<Option<int>> {
    if key !in fields then Some(None)
    else match ParseInt(fields[key]) case Some(n) => Some(Some(n)) case None => None
  }

  predicate NonNegative(n: Option<int>) { n.Some? ==> n.value >= 0 }

  function AsNat(n: Option<int>): Option<nat>
    requires NonNegative(n)
  {
    match n case Some(v) => Some(v) case None => None
  }

  /** The keyword arguments in the order they are evaluated, then the model's validation. */
  function Build(signal: string, d: Slots): Result {
    var f := d.fields;
    match RolesOf(NonEmpty(SplitOn(Get(f, "to", "loop_controller"), ',')))
    case None => Err(BadRole)
    case Some(roles) =>
      match RoleOf(Get(f, "from", "loop_controller"))
      case None => Err(BadRole)
      case Some(sender) =>
        match (ParseFloat(Get(f, "conf", "1")), FloatField(f, "qd"), IntField(f, "tokens"), IntField(f, "dist"))
        case (Some(conf), Some(qd), Some(tokens), Some(dist)) => (
          match ActionOf(Get(f, "action", "none"))
          case None => Err(BadAction)
          case Some(action) =>
            if !InUnitInterval(conf) || !NonNegative(tokens) || !NonNegative(dist) || !CleanPayload(d.payload)
            then Err(Rejected)
            else Ok(Message(
              Get(f, "msg", "lail_decoded"), Get(f, "trace", "trace_decoded"), Name(Get(f, "i", "0")),
              sender, AddresseeOf(roles), signal, d.payload,
              NonEmpty(SplitOn(Get(f, "evidence", ""), ',')), conf, qd, AsNat(tokens), AsNat(dist),
              action, "action" in f && f["action"] == "commitment_required")))
        case _ => Err(BadNumber)
  }

  function Decode(line: string): Result {
    match Split(line)
    case None => Err(BadQuoting)
    case Some(tokens) => if |tokens| == 0 then Err(EmptyLine) else Build(tokens[0], Collect(tokens[1..]))
  }

  /** `compact_to_message`: `fields` and `payload` grow token by token. */
  method CompactToMessage(line: string) returns (r: Result)
    ensures r == Decode(line)
    ensures r.Ok? ==> Valid(r.message)
  {
    var split := Split(line);
    if split.None? { return Err(BadQuoting); }
    var tokens := split.value;
    if |tokens| == 0 { return Err(EmptyLine); }
    var signal := tokens[0];
    ghost var rest := tokens[1..];
    var fields: map<string, string> := map[];
    var payload: map<string, Value> := map[];
    var i := 1;
    while i < |tokens|
      invariant 1 <= i <= |tokens|
      invariant Slots(fields, payload) == Collect(rest[..i - 1])
    {
      var token := tokens[i];
      assert rest[..i][..i - 1] == rest[..i - 1] && rest[..i][i - 1] == token;
      var at := Find("=", token);
      if at.Some? {
        var key, value := token[..at.value], token[at.value + 1..];
        if Reserved(key) {
          fields := fields[key := value];
        } else {
          payload := payload[key := Coerce(value)];
        }
      }
      i := i + 1;
    }
    assert rest[..i - 1] == rest;
    r := Build(signal, Slots(fields, payload));
    CollectCanonical(rest);
    BuildValid(signal, Collect(rest));
  }

  lemma CoerceCanonical(text: string)
    ensures Coerce(text).CanonicalFloat()
  {
    hide ParseFloat, ParseInt;
  }

  lemma {:induction false} CollectCanonical(tokens: seq<string>)
    ensures forall k :: k in Collect(tokens).payload ==> Collect(tokens).payload[k].CanonicalFloat()
  {
    hide Coerce;
    if |tokens| > 0 {
      CollectCanonical(tokens[..|tokens| - 1]);
      var last := tokens[|tokens| - 1];
      var at := Find("=", last);
      if at.Some? { CoerceCanonical(last[at.value + 1..]); }
    }
  }

  lemma BuildValid(signal: string, d: Slots)
    requires forall k :: k in d.payload ==> d.payload[k].CanonicalFloat()
    ensures Build(signal, d).Ok? ==> Valid(Build(signal, d).message)
  {
    hide ParseFloat, ParseInt, SplitOn, NonEmpty, RolesOf, RoleOf, CleanPayload, InUnitInterval;
  }
}
