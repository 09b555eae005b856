/** The LAIL message and its invariants. */
module Lail {
  import opened Text
  import opened Numbers
  import opened CompactFloats

  datatype Role =
    | LoopController | Planner | Builder | Tester | Reviewer | Repairer | Optimizer | MadDog
    | DeliveryEvaluator | MemoryCompiler | ComputerOperator | VisualTester | UiReviewer

  const ALL_ROLES: seq<Role> := [
    LoopController, Planner, Builder, Tester, Reviewer, Repairer, Optimizer, MadDog,
    DeliveryEvaluator, MemoryCompiler, ComputerOperator, VisualTester, UiReviewer]

  function RoleText(r: Role): string {
    match r
    case LoopController => "loop_controller"
    case Planner => "planner"
    case Builder => "builder"
    case Tester => "tester"
    case Reviewer => "reviewer"
    case Repairer => "repairer"
    case Optimizer => "optimizer"
    case MadDog => "mad_dog"
    case DeliveryEvaluator => "delivery_evaluator"
    case MemoryCompiler => "memory_compiler"
    case ComputerOperator => "computer_operator"
    case VisualTester => "visual_tester"
    case UiReviewer => "ui_reviewer"
  }

  /** `AgentRole(text)`; `None` is its `ValueError`. */
  function RoleOf(text: string): Option<Role> {
    if text == "loop_controller" then Some(LoopController)
    else if text == "planner" then Some(Planner)
    else if text == "builder" then Some(Builder)
    else if text == "tester" then Some(Tester)
    else if text == "reviewer" then Some(Reviewer)
    else if text == "repairer" then Some(Repairer)
    else if text == "optimizer" then Some(Optimizer)
    else if text == "mad_dog" then Some(MadDog)
    else if text == "delivery_evaluator" then Some(DeliveryEvaluator)
    else if text == "memory_compiler" then Some(MemoryCompiler)
    else if text == "computer_operator" then Some(ComputerOperator)
    else if text == "visual_tester" then Some(VisualTester)
    else if text == "ui_reviewer" then Some(UiReviewer)
    else None
  }

  datatype Actionability = NoAction | Advisory | Proposal | CommitmentRequired

  function ActionText(a: Actionability): string {
    match a
    case NoAction => "none"
    case Advisory => "advisory"
    case Proposal => "proposal"
    case CommitmentRequired => "commitment_required"
  }

  function ActionOf(text: string): Option<Actionability> {
    if text == "none" then Some(NoAction)
    else if text == "advisory" then Some(Advisory)
    else if text == "proposal" then Some(Proposal)
    else if text == "commitment_required" then Some(CommitmentRequired)
    else None
  }

  /** `iteration_id: str | int` */
  datatype Iteration = Name(text: string) | Number(n: int)

  /** `to_role: AgentRole | list[AgentRole]` */
  datatype Addressee = One(role: Role) | Many(roles: seq<Role>)

  /** A payload value: a scalar, or anything else JSON-like. */
  datatype Value =
    | Str(s: string) | Int(n: int) | Flt(f: Float) | Bool(b: bool)
    | Null | List(items: seq<Value>) | Dict(entries: seq<Entry>)
  {
    /** `isinstance(value, (str, int, float, bool))` */
    predicate Scalar() { Str? || Int? || Flt? || Bool? }

    predicate CanonicalFloat() { Flt? ==> f.Canonical() }
  }

  datatype Entry = Entry(key: string, value: Value)

  datatype Message = Message(
    id: string, trace: string, iteration: Iteration, sender: Role, to: Addressee,
    signal: string, payload: map<string, Value>, evidence: seq<string>,
    confidence: Float, qualityDelta: Option<Float>, tokenCost: Option<nat>, distance: Option<nat>,
    action: Actionability, requiresCommitment: bool)
  {
    function Recipients(): seq<Role> {
      match to case One(r) => [r] case Many(rs) => rs
    }
  }

  const FORBIDDEN_PAYLOAD_KEYS := {
    "syscall", "shell", "command", "cmd", "network_call", "database_write",
    "release_operation", "file_mutation", "execute", "dispatch"}

  predicate ForbiddenKey(key: string) { AsciiLower(key) in FORBIDDEN_PAYLOAD_KEYS }

  /** `_find_forbidden_keys` on a nested value. */
  function Leaked(v: Value): set<string>
    decreases v
  {
    match v
    case List(items) => LeakedItems(items)
    case Dict(entries) => LeakedEntries(entries)
    case _ => {}
  }

  function LeakedItems(items: seq<Value>): set<string>
    decreases items
  {
    if |items| == 0 then {} else Leaked(items[0]) + LeakedItems(items[1..])
  }

  function LeakedEntries(entries: seq<Entry>): set<string>
    decreases entries
  {
    if |entries| == 0 then {} else LeakedEntry(entries[0]) + LeakedEntries(entries[1..])
  }

  function LeakedEntry(e: Entry): set<string>
    decreases e
  {
    (if ForbiddenKey(e.key) then {AsciiLower(e.key)} else {}) + Leaked(e.value)
  }

  /** `payload_must_not_embed_actions` accepts the payload. */
  predicate CleanPayload(payload: map<string, Value>) {
    forall key | key in payload :: !ForbiddenKey(key) && Leaked(payload[key]) == {}
  }

  /** What every constructed `AgentMessage` satisfies. */
  predicate Valid(m: Message) {
    && m.confidence.Canonical() && InUnitInterval(m.confidence)
    && (m.qualityDelta.Some? ==> m.qualityDelta.value.Canonical())
    && (forall key | key in m.payload :: m.payload[key].CanonicalFloat())
    && CleanPayload(m.payload)
    && (m.action == CommitmentRequired ==> m.requiresCommitment)
  }

  lemma RoleRoundTrip(r: Role)
    ensures RoleOf(RoleText(r)) == Some(r)
  {}

  lemma RoleTextIsOneItem(r: Role)
    ensures RoleText(r) != "" && ',' !in RoleText(r)
  {}

  lemma ActionRoundTrip(a: Actionability)
    ensures ActionOf(ActionText(a)) == Some(a)
  {}
}
