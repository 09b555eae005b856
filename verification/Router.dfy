/** Which roles a signal reaches, and whether the codec can change that. */
module Router {
  import opened Text
  import opened Numbers
  import opened FloatLaws
  import opened CompactFloats
  import opened Lail
  import opened Codec
  import opened CodecLaws
  import opened NormalForm

  datatype Subscription = Subscription(signal: string, recipients: seq<Role>)

  const MEMORY_CONTEXT_COMPILED := "memory.context_compiled"

  /** `DEFAULT_SUBSCRIPTIONS` */
  const DEFAULT_SUBSCRIPTIONS: seq<Subscription> := [
    Subscription("goal.received", [LoopController, Planner]),
    Subscription("plan.proposed", [Builder, Tester]),
    Subscription("build.completed", [Tester, Reviewer]),
    Subscription("test.failed", [Repairer, Optimizer]),
    Subscription("review.finding", [Repairer, Optimizer]),
    Subscription("fake_convergence.detected", [LoopController, DeliveryEvaluator]),
    Subscription("computer.observed", [VisualTester, UiReviewer]),
    Subscription("computer.action_executed", [LoopController, Reviewer]),
    Subscription("token.budget_recorded", [LoopController, Optimizer])]

  /** The dictionary built from the subscriptions: a later row for the same signal wins. */
  function Index(subs: seq<Subscription>): map<string, seq<Role>> {
    if |subs| == 0 then map[]
    else Index(subs[..|subs| - 1])[subs[|subs| - 1].signal := subs[|subs| - 1].recipients]
  }

  /** `list(dict.fromkeys(roles))` */
  function Distinct(roles: seq<Role>): (r: seq<Role>)
    ensures forall x :: x in r <==> x in roles
    ensures forall i, j :: 0 <= i < j < |r| ==> r[i] != r[j]
  {
    if |roles| == 0 then []
    else
      var init, last := Distinct(roles[..|roles| - 1]), roles[|roles| - 1];
      if last in init then init else init + [last]
  }

  /** Python's truth value of a payload value. */
  predicate Truthy(v: Value) {
    match v
    case Str(s) => s != ""
    case Int(n) => n != 0
    case Flt(f) => f.Finite? ==> f.m != 0
    case Bool(b) => b
    case Null => false
    case List(items) => |items| > 0
    case Dict(entries) => |entries| > 0
  }

  /** `AgentRole(str(value))`: only a text can be the name of a role. */
  function RoleOfValue(v: Value): Option<Role> {
    if v.Str? then RoleOf(v.s) else None
  }

  /** `_recipients_for`; `None` is the `ValueError` of an unknown target role. */
  function RecipientsFor(subs: map<string, seq<Role>>, m: Message): Option<seq<Role>> {
    if m.signal == MEMORY_CONTEXT_COMPILED && "target_role" in m.payload && Truthy(m.payload["target_role"]) then
      match RoleOfValue(m.payload["target_role"]) case Some(r) => Some([r]) case None => None
    else if m.signal in subs then Some(Distinct(subs[m.signal]))
    else Some(Distinct(m.Recipients()))
  }

  datatype Metrics = Metrics(
    communicationDistance: nat, broadcastCount: nat, recipientCount: nat, redundantAvoided: nat)

  function MetricsFor(recipients: seq<Role>): Metrics {
    var all, n := |ALL_ROLES|, |recipients|;
    Metrics(if n > 0 then 1 else 0, if n >= all then 1 else 0, n, if all > n then all - n else 0)
  }

  datatype Routed = Routed(recipients: seq<Role>, metrics: Metrics)

  /** The dictionary of a router; without subscriptions it takes the default ones. */
  function Configured(subs: seq<Subscription>): map<string, seq<Role>> {
    Index(if subs == [] then DEFAULT_SUBSCRIPTIONS else subs)
  }

  function Route(subs: seq<Subscription>, m: Message): Option<Routed> {
    match RecipientsFor(Configured(subs), m)
    case None => None
    case Some(rs) => Some(Routed(rs, MetricsFor(rs)))
  }

  // ---- conservation of roles ------------------------------------------------------------------------------

  predicate NoRepeats(r: seq<Role>) { forall i, j :: 0 <= i < j < |r| ==> r[i] != r[j] }

  function Elements(r: seq<Role>): set<Role> { set x | x in r }

  lemma {:induction false} CountDistinct(r: seq<Role>)
    requires NoRepeats(r)
    ensures |Elements(r)| == |r|
  {
    if |r| > 0 {
      var n := |r| - 1;
      CountDistinct(r[..n]);
      assert Elements(r) == Elements(r[..n]) + {r[n]};
      assert r[n] !in r[..n];
    }
  }

  lemma {:induction false} SubsetCount(a: set<Role>, b: set<Role>)
    requires a <= b
    ensures |a| <= |b|
    ensures |a| == |b| ==> a == b
  {
    if a != {} {
      var x :| x in a;
      SubsetCount(a - {x}, b - {x});
    }
  }

  function Rank(r: Role): nat {
    match r
    case LoopController => 0 case Planner => 1 case Builder => 2 case Tester => 3 case Reviewer => 4
    case Repairer => 5 case Optimizer => 6 case MadDog => 7 case DeliveryEvaluator => 8
    case MemoryCompiler => 9 case ComputerOperator => 10 case VisualTester => 11 case UiReviewer => 12
  }

  lemma AllRoles()
    ensures NoRepeats(ALL_ROLES)
    ensures forall x: Role :: x in ALL_ROLES
  {
    assert forall i :: 0 <= i < |ALL_ROLES| ==> Rank(ALL_ROLES[i]) == i;
    forall x: Role ensures x in ALL_ROLES { assert ALL_ROLES[Rank(x)] == x; }
  }

  /** Recipients never repeat, recipients and avoided roles add up to all roles, and a broadcast is
      counted exactly when every role is a recipient. */
  lemma RouteConserves(subs: seq<Subscription>, m: Message)
    requires Route(subs, m).Some?
    ensures var r := Route(subs, m).value;
      && NoRepeats(r.recipients)
      && r.metrics.recipientCount == |r.recipients|
      && r.metrics.recipientCount + r.metrics.redundantAvoided == |ALL_ROLES|
      && (r.metrics.broadcastCount == 1 <==> forall x: Role :: x in r.recipients)
      && (r.metrics.communicationDistance == 1 <==> r.recipients != [])
  {
    var rs := Route(subs, m).value.recipients;
    assert NoRepeats(rs) by { hide RoleOf, Index, Configured, DEFAULT_SUBSCRIPTIONS; }
    hide RecipientsFor;
    AllRoles();
    CountDistinct(rs);
    CountDistinct(ALL_ROLES);
    SubsetCount(Elements(rs), Elements(ALL_ROLES));
    if forall x: Role :: x in rs { assert Elements(rs) == Elements(ALL_ROLES); }
    if |rs| == |ALL_ROLES| {
      forall x: Role ensures x in rs { assert x in Elements(ALL_ROLES); }
    }
  }

  // ---- routing after the codec ------------------------------------------------------------------------------

  /** The payload value that decides the recipient is read back with another truth value:
      `False` comes back as a text, a text such as `false` or `0` as a falsy value, and a
      non-empty nested value not at all. */
  predicate TargetLost(v: Value) {
    v == Bool(false)
    || (v.Str? && v.s != "" && !Truthy(Coerce(v.s)))
    || (!v.Scalar() && Truthy(v))
  }

  /** What the survivor carries under the target key. */
  lemma SurvivingTarget(m: Message, k: string)
    ensures k in Survivor(m).payload <==> k in m.payload && m.payload[k].Scalar()
    ensures k in Survivor(m).payload ==> Survivor(m).payload[k] == Coerce(ScalarText(m.payload[k]))
    ensures Survivor(m).signal == m.signal && Survivor(m).Recipients() == m.Recipients()
  {
    hide Coerce, ScalarText, Quantised, SurvivingEvidence, IterationText;
  }

  /** The recipients a present target value asks for: none at all if it is falsy. */
  function Wanted(v: Value): Option<Option<Role>> {
    if Truthy(v) then Some(RoleOfValue(v)) else None
  }

  lemma RoleTextIsWordy(s: string)
    requires RoleOf(s).Some?
    ensures Coerce(s) == Str(s)
  {
    hide ParseInt, ParseFloat;
    LetterFirst(s);
  }

  lemma TargetScalar(v: Value)
    requires v.Scalar() && v.CanonicalFloat()
    ensures Wanted(Coerce(ScalarText(v))) == Wanted(v) <==> !TargetLost(v)
    ensures Wanted(Coerce(ScalarText(v))) != Wanted(v) ==>
      Wanted(v) == Some(None) || Wanted(Coerce(ScalarText(v))) == Some(None)
  {
    hide Coerce, IntText, FloatText;
    match v
    case Bool(b) => {
      BoolText(b);
      assert "True"[0] == 'T' && "False"[0] == 'F';
      if RoleOf(ScalarText(v)).Some? { RoleLowerCase(ScalarText(v)); }
    }
    case Str(s) => {
      hide RoleOf;
      if RoleOf(s).Some? { RoleTextIsWordy(s); }
      if s == "" { EmptyText(s); }
      assert !Coerce(s).Str? || Coerce(s) == Str(s) by { TextOrValue(s); }
    }
    case _ => CoerceExact(v);
  }

  lemma RoleLowerCase(s: string)
    requires RoleOf(s).Some?
    ensures s != "" && 'a' <= s[0] <= 'z'
  {}

  lemma EmptyText(s: string)
    requires |s| == 0
    ensures Coerce(s) == Str(s)
  {
    EmptyParts(s);
    hide *;
    LetterIsNoInt(s, s);
    EmptyIsNoFloat(s);
    EmptyIsNoWord(s);
    TextIsText(s);
  }

  lemma EmptyParts(s: string)
    requires |s| == 0
    ensures Strip(s) == s && Signed(s) == (false, s) && Ungrouped(s) == None
  {}

  lemma EmptyIsNoWord(s: string)
    requires |s| == 0
    ensures s != "true" && s != "false" && s != "inf" && s != "infinity" && s != "nan"
  {}

  lemma EmptyIsNoFloat(s: string)
    requires |s| == 0 && Strip(s) == s && Signed(s) == (false, s)
    ensures ParseFloat(s) == None
  {
    hide Strip, Signed, ParseMantissa, ExponentMark, ParseExponent;
    FindMark(s, s);
    LetterMantissa(s, 0);
    assert |AsciiLower(s)| == 0;
    EmptyIsNoWord(AsciiLower(s));
    hide AsciiLower;
  }

  lemma TextIsText(s: string)
    requires s != "true" && s != "false" && ParseInt(s) == None && ParseFloat(s) == None
    ensures Coerce(s) == Str(s)
  {
    hide ParseInt, ParseFloat;
  }

  lemma TextOrValue(s: string)
    ensures Coerce(s).Str? ==> Coerce(s) == Str(s)
  {
    hide ParseInt, ParseFloat;
  }

  /** The recipients when the message does not name a target role. */
  function Fallback(subs: map<string, seq<Role>>, signal: string, recipients: seq<Role>): seq<Role> {
    Distinct(if signal in subs then subs[signal] else recipients)
  }

  function Pick(wanted: Option<Option<Role>>, fallback: seq<Role>): Option<seq<Role>> {
    match wanted
    case None => Some(fallback)
    case Some(None) => None
    case Some(Some(r)) => Some([r])
  }

  function Target(m: Message): Option<Option<Role>> {
    if m.signal == MEMORY_CONTEXT_COMPILED && "target_role" in m.payload then Wanted(m.payload["target_role"]) else None
  }

  lemma RecipientsPicked(subs: map<string, seq<Role>>, m: Message)
    ensures RecipientsFor(subs, m) == Pick(Target(m), Fallback(subs, m.signal, m.Recipients()))
  {
    hide Truthy, RoleOfValue, Distinct;
  }

  lemma TargetSurvives(m: Message)
    requires Valid(m) && m.signal == MEMORY_CONTEXT_COMPILED && "target_role" in m.payload
    ensures Target(Survivor(m)) == Target(m) <==> !TargetLost(m.payload["target_role"])
    ensures Target(Survivor(m)) != Target(m) ==> Target(m) == Some(None) || Target(Survivor(m)) == Some(None)
  {
    hide Survivor, Wanted, TargetLost, Valid, Coerce, ScalarText;
    SurvivingTarget(m, "target_role");
    var v := m.payload["target_role"];
    if v.Scalar() {
      ValidPayload(m, "target_role");
      TargetScalar(v);
    } else {
      NestedTarget(v);
    }
  }

  /** A well-formed message is routed to the same recipients after encoding and decoding if and
      only if it does not carry a target role whose truth value the codec changes. */
  lemma RouteSurvives(subs: seq<Subscription>, m: Message)
    requires Valid(m) && LexClean(m) && KeysPlain(m)
    ensures Decode(Encode(m)) == Ok(Survivor(m))
    ensures Route(subs, Survivor(m)) == Route(subs, m)
       <==> !(m.signal == MEMORY_CONTEXT_COMPILED && "target_role" in m.payload && TargetLost(m.payload["target_role"]))
  {
    DecodeEncode(m);
    hide *;
    SurvivorTarget(m);
    SameRoute(subs, m, Survivor(m));
  }

  /** For messages of one signal and addressee the route depends on the wanted target alone. */
  lemma SameRoute(subs: seq<Subscription>, m: Message, m': Message)
    requires m'.signal == m.signal && m'.Recipients() == m.Recipients()
    requires Target(m') != Target(m) ==> Target(m) == Some(None) || Target(m') == Some(None)
    ensures Route(subs, m') == Route(subs, m) <==> Target(m') == Target(m)
  {
    hide Configured, Target, RecipientsFor, Fallback, MetricsFor;
    RecipientsPicked(Configured(subs), m);
    RecipientsPicked(Configured(subs), m');
  }

  lemma SurvivorTarget(m: Message)
    requires Valid(m)
    ensures Survivor(m).signal == m.signal && Survivor(m).Recipients() == m.Recipients()
    ensures Target(Survivor(m)) == Target(m)
       <==> !(m.signal == MEMORY_CONTEXT_COMPILED && "target_role" in m.payload && TargetLost(m.payload["target_role"]))
    ensures Target(Survivor(m)) != Target(m) ==> Target(m) == Some(None) || Target(Survivor(m)) == Some(None)
  {
    hide Survivor, Valid, Wanted, TargetLost, Message.Recipients;
    SurvivingTarget(m, "target_role");
    if m.signal == MEMORY_CONTEXT_COMPILED && "target_role" in m.payload { TargetSurvives(m); }
  }

  lemma ValidPayload(m: Message, k: string)
    requires Valid(m) && k in m.payload
    ensures m.payload[k].CanonicalFloat()
  {}

  lemma NestedTarget(v: Value)
    requires !v.Scalar()
    ensures TargetLost(v) <==> Truthy(v)
    ensures Wanted(v) == if Truthy(v) then Some(None) else None
  {}

  // ---- who receives a message ---------------------------------------------------------------------------------------

  /** The subscription is the last one for the signal. */
  ghost predicate LastFor(subs: seq<Subscription>, signal: string, i: int) {
    0 <= i < |subs| && subs[i].signal == signal && forall j :: i < j < |subs| ==> subs[j].signal != signal
  }

  /** Exactly the signals with a subscription are configured. */
  lemma {:induction false} IndexKeys(subs: seq<Subscription>, signal: string)
    ensures signal in Index(subs) <==> exists i :: 0 <= i < |subs| && subs[i].signal == signal
  {
    if |subs| > 0 {
      var n := |subs| - 1;
      var init := subs[..n];
      IndexKeys(init, signal);
      if subs[n].signal != signal {
        if i :| 0 <= i < n && init[i].signal == signal { assert subs[i].signal == signal; }
        if i :| 0 <= i < n && subs[i].signal == signal { assert init[i].signal == signal; }
      }
    }
  }

  /** And for each of them its last subscription counts. */
  lemma {:induction false} IndexExactly(subs: seq<Subscription>, signal: string, i: int)
    requires LastFor(subs, signal, i)
    ensures signal in Index(subs) && Index(subs)[signal] == subs[i].recipients
  {
    var n := |subs| - 1;
    if i < n {
      var init := subs[..n];
      assert forall j :: 0 <= j < n ==> init[j] == subs[j];
      IndexExactly(init, signal, i);
    }
  }

  /** The subscriptions of a router are those it was given, or the nine default ones. */
  lemma DefaultSubscriptions(signal: string)
    ensures Configured([]) == Index(DEFAULT_SUBSCRIPTIONS)
    ensures forall subs | subs != [] :: Configured(subs) == Index(subs)
    ensures |DEFAULT_SUBSCRIPTIONS| == 9
    ensures forall i :: 0 <= i < 9 ==>
      DEFAULT_SUBSCRIPTIONS[i].recipients == DefaultRecipients(DEFAULT_SUBSCRIPTIONS[i].signal)
    ensures DefaultRecipients(signal) != [] <==> exists i :: 0 <= i < 9 && DEFAULT_SUBSCRIPTIONS[i].signal == signal
  {
    if DefaultRecipients(signal) != [] { DefaultPlace(signal); }
  }

  function DefaultRecipients(signal: string): seq<Role> {
    if signal == "goal.received" then [LoopController, Planner]
    else if signal == "plan.proposed" then [Builder, Tester]
    else if signal == "build.completed" then [Tester, Reviewer]
    else if signal == "test.failed" then [Repairer, Optimizer]
    else if signal == "review.finding" then [Repairer, Optimizer]
    else if signal == "fake_convergence.detected" then [LoopController, DeliveryEvaluator]
    else if signal == "computer.observed" then [VisualTester, UiReviewer]
    else if signal == "computer.action_executed" then [LoopController, Reviewer]
    else if signal == "token.budget_recorded" then [LoopController, Optimizer]
    else []
  }

  lemma DefaultPlace(signal: string)
    requires DefaultRecipients(signal) != []
    ensures exists i :: 0 <= i < 9 && DEFAULT_SUBSCRIPTIONS[i].signal == signal
  {
    var i :=
      if signal == "goal.received" then 0 else if signal == "plan.proposed" then 1
      else if signal == "build.completed" then 2 else if signal == "test.failed" then 3
      else if signal == "review.finding" then 4 else if signal == "fake_convergence.detected" then 5
      else if signal == "computer.observed" then 6 else if signal == "computer.action_executed" then 7 else 8;
    assert DEFAULT_SUBSCRIPTIONS[i].signal == signal;
  }

  /** Repeated roles are dropped behind their first occurrence. */
  lemma DistinctByOne(roles: seq<Role>, x: Role)
    ensures Distinct(roles + [x]) == Distinct(roles) + if x in roles then [] else [x]
  {
    assert (roles + [x])[..|roles|] == roles;
    assert Distinct(roles) + [] == Distinct(roles);
  }

  /** A value is false exactly if it is an empty text, a zero, `False`, `None`, or an empty list or dictionary. */
  lemma FalsyExactly(v: Value)
    ensures !Truthy(v) <==>
      || v == Str("") || v == Int(0) || (v.Flt? && v.f.Finite? && v.f.m == 0) || v == Bool(false)
      || v == Null || v == List([]) || v == Dict([])
  {}

  /** The roles that receive a message: the target role of compiled memory context alone, if it names one (and it
      is an error if it names none); otherwise the configured roles of the signal; otherwise the addressees,
      in each case without repetitions. */
  lemma RouteExactly(subs: seq<Subscription>, m: Message)
    ensures var targeted :=
        m.signal == "memory.context_compiled" && "target_role" in m.payload && Truthy(m.payload["target_role"]);
      var r := Route(subs, m);
      if targeted then
        var v := m.payload["target_role"];
        if v.Str? && RoleOf(v.s).Some? then r.Some? && r.value.recipients == [RoleOf(v.s).value] else r.None?
      else
        r.Some? && r.value.recipients ==
          Distinct(if m.signal in Configured(subs) then Configured(subs)[m.signal] else m.Recipients())
  {
    hide Truthy, RoleOf, Configured, Distinct;
  }
}
