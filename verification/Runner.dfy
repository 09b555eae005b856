/** The command runner: validation, routing, at most one dispatch, and the result it reports. */
module Runner {
  import opened Text
  import opened Providers
  import opened Consumption

  datatype CommandKind =
    | TerminalExec | FileRead | FileWrite | FilePatch | GitStatus | GitDiff | GitCommit
    | DatabaseQuery | DatabaseMigration | ProviderSelect | ExplainOnly | Noop

  /** `KIND_TO_SYSCALL`: patches and commits have no syscall yet; the last two kinds never dispatch. */
  function SyscallName(kind: CommandKind): Option<string> {
    match kind
    case TerminalExec => Some("terminal.exec")
    case FileRead => Some("file.read")
    case FileWrite => Some("file.write")
    case GitStatus => Some("git.status")
    case GitDiff => Some("git.diff")
    case DatabaseQuery => Some("database.query")
    case DatabaseMigration => Some("database.run_migration")
    case Noop => Some("noop")
    case _ => None
  }

  datatype Command = Command(
    id: string, goalId: string, purpose: string, kind: CommandKind, text: string, hint: Option<Hint>,
    timeout: Option<int>, dryMode: bool, dryRun: bool, approvalGranted: bool)

  datatype Decision = Decision(
    allowed: bool, requiresApproval: bool, reasonCodes: seq<string>, allReasonCodes: seq<string>)

  datatype Call = Call(name: string, instructionId: string, dryRun: bool, text: string, approvalGranted: bool)

  datatype SyscallResult = SyscallResult(
    success: bool, requiresApproval: bool, dryRun: bool, blockedRisk: bool, syscallId: string)

  /** The policy engine and the syscall router are arbitrary functions. */
  datatype Router = Router(registered: set<string>, answer: Call -> SyscallResult)

  datatype Runner = Runner(
    policy: Command -> Decision, router: Option<Router>, registry: Option<Registry>, traceId: Option<string>)

  /** What a run returns and the calls it dispatched. */
  datatype Ran = Ran(result: Result, calls: seq<Call>)

  datatype Issue = NoGoal | NoPurpose | NoCommand | NoHint | BadTimeout | DryModeOnly

  function When(b: bool, issue: Issue): seq<Issue> { if b then [issue] else [] }

  predicate NeedsText(kind: CommandKind) { kind != Noop && kind != ProviderSelect && kind != ExplainOnly }

  /** `validate` */
  function Issues(c: Command): seq<Issue> {
    When(Blank(c.goalId), NoGoal)
    + When(Blank(c.purpose), NoPurpose)
    + When(Blank(c.text) && NeedsText(c.kind), NoCommand)
    + When(c.kind == ProviderSelect && c.hint.None?, NoHint)
    + When(c.timeout.Some? && c.timeout.value <= 0, BadTimeout)
    + When(c.dryMode && !c.dryRun, DryModeOnly)
  }

  /** What the constructor of `AgentCommand` guarantees. */
  predicate Constructed(c: Command) {
    && !Blank(c.goalId) && !Blank(c.purpose)
    && (NeedsText(c.kind) ==> !Blank(c.text))
    && (c.kind == ProviderSelect ==> c.hint.Some?)
    && (c.timeout.Some? ==> c.timeout.value >= 1)
    && (c.dryRun ==> c.dryMode)
  }

  function Binding(r: Runner, c: Command): Resolution {
    if c.hint.None? then Unresolved(NotFound) else Resolve(c.hint.value, r.registry)
  }

  /** The first non-empty code, as `policy_reason_code` finds it. */
  function FirstCode(codes: seq<string>, fallback: string): string {
    if |codes| == 0 then fallback
    else if |codes[0]| > 0 then codes[0]
    else FirstCode(codes[1..], fallback)
  }

  predicate PolicyPrefix(code: string) {
    || StartsWith(code, "policy_") || StartsWith(code, "terminal_") || StartsWith(code, "remote_")
    || StartsWith(code, "network_") || StartsWith(code, "git_") || StartsWith(code, "release_")
  }

  function PolicyCodes(codes: seq<string>): seq<string> {
    if |codes| == 0 then []
    else (if PolicyPrefix(codes[0]) then [codes[0]] else []) + PolicyCodes(codes[1..])
  }

  /** Which of the optional payload keys a result gives rise to. */
  function OptionalKeys(trace: Option<string>, syscallId: string, bound: bool): set<string> {
    {"policy_decision", "convergence_reason_code"}
    + (if trace.Some? && |trace.value| > 0 then {"trace_id"} else {})
    + (if |syscallId| > 0 then {"syscall_id"} else {})
    + (if bound then {"provider_id", "provider_source"} else {})
  }

  /** A result of this runner: the evaluation and progress summaries keep their defaults. */
  function Report(c: Command, d: Decision, status: Status, success: bool, dryRun: bool, codes: seq<string>,
                  keys: set<string>): Result
  {
    Result(c.id, status, success, dryRun, Some(d.allowed), codes, false, false, keys)
  }

  function BlockedResult(r: Runner, c: Command, d: Decision): Result {
    Report(c, d, Blocked, false, c.dryRun, [FirstCode(d.reasonCodes + d.allReasonCodes, "policy_denied")],
      OptionalKeys(r.traceId, "", Binding(r, c).Resolved?))
  }

  function Explain(r: Runner, c: Command): Result {
    var d, keys := r.policy(c), OptionalKeys(None, "", Binding(r, c).Resolved?);
    if Issues(c) != [] then Report(c, d, Blocked, false, true, ["invalid_command"], keys)
    else if c.kind == ProviderSelect then Report(c, d, Completed, true, false, [], keys)
    else Report(c, d, DryRunStatus, false, true, ["dry_run_no_side_effect"], keys)
  }

  function ReasonText(reason: Reason): string {
    match reason
    case NotFound => "provider_not_found"
    case CapabilityUnavailable => "provider_capability_unavailable"
    case LocalOnlyRequired => "provider_local_only_required"
  }

  /** `_run_metadata`; a command without hint has no reason code and so counts as resolved. */
  function RunMetadata(r: Runner, c: Command): Result {
    var d := r.policy(c);
    if !d.allowed then BlockedResult(r, c, d)
    else
      var binding := Binding(r, c);
      if c.hint.Some? && binding.Unresolved? then
        Report(c, d, Failed, false, c.dryRun, [ReasonText(binding.reason)], OptionalKeys(None, "", false))
      else Report(c, d, Completed, true, c.dryRun, [], OptionalKeys(None, "", binding.Resolved?))
  }

  function Materialize(r: Runner, c: Command, d: Decision, s: SyscallResult): Result {
    var keys := OptionalKeys(r.traceId, s.syscallId, Binding(r, c).Resolved?);
    if s.requiresApproval && !s.success then
      Report(c, d, NeedsApproval, false, s.dryRun, ["policy_requires_approval"], keys)
    else if !s.success then
      var blocked := s.blockedRisk || !d.allowed;
      var codes := PolicyCodes(d.reasonCodes);
      Report(c, d, if blocked then Blocked else Failed, false, s.dryRun,
        if !blocked then ["syscall_failed"] else if codes == [] then ["policy_denied"] else codes, keys)
    else Report(c, d, if s.dryRun then DryRunStatus else Completed, true, s.dryRun, [], keys)
  }

  function CallOf(c: Command, name: string): Call { Call(name, c.id, c.dryRun, c.text, c.approvalGranted) }

  function UnsupportedResult(c: Command, d: Decision): Result {
    Report(c, d, Unsupported, false, false, ["unsupported_command_kind"], OptionalKeys(None, "", false))
  }

  /** `run`: every return of the source is one branch, and only the last one dispatches. */
  function Run(r: Runner, c: Command, explain: bool): Ran {
    if explain || c.kind == ExplainOnly then Ran(Explain(r, c), [])
    else if c.kind == ProviderSelect then Ran(RunMetadata(r, c), [])
    else
      var d := r.policy(c);
      if Issues(c) != [] then Ran(BlockedResult(r, c, d), [])
      else if c.hint.Some? && Binding(r, c).Unresolved? then
        var codes := [ReasonText(Binding(r, c).reason)];
        Ran(Report(c, d, Failed, false, c.dryRun, codes, OptionalKeys(None, "", false)), [])
      else if SyscallName(c.kind).None? then Ran(UnsupportedResult(c, d), [])
      else if r.router.None? then
        if !d.allowed then Ran(BlockedResult(r, c, d), [])
        else
          var status := if c.dryRun then DryRunStatus else Completed;
          Ran(Report(c, d, status, true, c.dryRun, [], OptionalKeys(r.traceId, "", false)), [])
      else if SyscallName(c.kind).value !in r.router.value.registered then Ran(UnsupportedResult(c, d), [])
      else
        var call := CallOf(c, SyscallName(c.kind).value);
        Ran(Materialize(r, c, d, r.router.value.answer(call)), [call])
  }
}

/** What a runner's results promise, alone and fed into the loop machine. */
module RunnerLaws {
  import opened Text
  import opened Providers
  import opened Ali
  import opened AliLaws
  import opened Consumption
  import opened Runner

  predicate Explained(c: Command, explain: bool) { explain || c.kind == ExplainOnly }

  /** For a command that its constructor let through, validation only ever objects to a dry-run mode
      without the dry-run flag. */
  lemma ConstructedIssues(c: Command)
    requires Constructed(c)
    ensures Issues(c) == if c.dryMode && !c.dryRun then [DryModeOnly] else []
  {
    hide Blank;
  }

  /** A command to which validation objects is blocked, unless it is a `provider_select` that is run and
      that the policy engine allows: that one is never validated. */
  lemma InvalidBlockedExactly(r: Runner, c: Command, explain: bool)
    requires Issues(c) != []
    ensures Run(r, c, explain).result.status == Blocked <==> explain || c.kind != ProviderSelect || !r.policy(c).allowed
  {
    hide Issues, Binding, OptionalKeys, FirstCode;
  }

  /** So a dry-run mode without the dry-run flag is not honoured but blocks the command, with that one
      exception. */
  lemma DryModeBlockedExactly(r: Runner, c: Command, explain: bool)
    requires Constructed(c) && c.dryMode && !c.dryRun
    ensures Run(r, c, explain).result.status == Blocked <==> explain || c.kind != ProviderSelect || !r.policy(c).allowed
  {
    hide Issues, Run;
    ConstructedIssues(c);
    InvalidBlockedExactly(r, c, explain);
  }

  /** The exception: selecting a local provider in dry-run mode, without the flag. */
  const SELECT_LOCAL := Command("c", "g", "p", ProviderSelect, "", Some(Hint(Some("local"), [], None, None)),
                                None, true, false, false)

  lemma DryModeCompletes(r: Runner, local: Profile)
    requires r.policy(SELECT_LOCAL).allowed && r.registry == Some(Registry([local], map[])) && local.id == "local"
    ensures Constructed(SELECT_LOCAL) && Issues(SELECT_LOCAL) == [DryModeOnly]
    ensures var result := Run(r, SELECT_LOCAL, false).result;
      result.status == Completed && result.success && Desired(result) == [ProgressUpdated, SyscallCompleted]
  {
    assert "g"[0] in "g" && !IsSpace("g"[0]) && "p"[0] in "p" && !IsSpace("p"[0]);
    hide Blank, OptionalKeys;
    ConstructedIssues(SELECT_LOCAL);
    assert WithId([local], "local") == Some(local);
  }

  /** A run reports success exactly with `completed`, or with `dry_run` outside an explanation. */
  lemma SuccessExactly(r: Runner, c: Command, explain: bool)
    ensures var result := Run(r, c, explain).result;
      result.success <==> result.status == Completed || (result.status == DryRunStatus && !Explained(c, explain))
  {
    hide Issues, Binding, PolicyCodes, OptionalKeys, FirstCode, SyscallName;
  }

  /** A run dispatches at most once, and exactly if it is not an explanation, the command is valid, its
      hint (if any) is honoured and its kind has a syscall that the router knows. The decision of the
      policy engine plays no part in it. */
  lemma DispatchExactly(r: Runner, c: Command, explain: bool)
    ensures var calls := Run(r, c, explain).calls;
      && |calls| <= 1
      && (calls != [] <==>
            && !Explained(c, explain) && Issues(c) == []
            && (c.hint.Some? ==> Binding(r, c).Resolved?)
            && SyscallName(c.kind).Some? && r.router.Some?
            && SyscallName(c.kind).value in r.router.value.registered)
      && (calls != [] ==>
            && SyscallName(c.kind) == Some(calls[0].name)
            && calls[0].dryRun == c.dryRun && calls[0].approvalGranted == c.approvalGranted)
  {
    hide Issues, Binding, PolicyCodes, OptionalKeys, FirstCode;
  }

  /** Denying a command changes what is reported but not what is dispatched. */
  lemma DenialStillDispatches(r: Runner, policy: Command -> Decision, c: Command, explain: bool)
    ensures Run(r.(policy := policy), c, explain).calls == Run(r, c, explain).calls
  {
    hide Issues, Resolve, PolicyCodes, OptionalKeys, FirstCode;
    assert Binding(r.(policy := policy), c) == Binding(r, c);
  }

  /** The evaluation and progress hints that would ask for repair or a new plan are never set. */
  lemma NeverRepairable(r: Runner, c: Command, explain: bool)
    ensures var result := Run(r, c, explain).result; !result.repairable && !result.noProgress
  {
    hide Issues, Binding, PolicyCodes, OptionalKeys, FirstCode, SyscallName;
  }

  // ---- fed into the loop machine -------------------------------------------------------------------------------

  /** Where the default table leads on the events that results of this runner ask for. */
  function Lead(e: Event): Option<LoopState> {
    match e
    case ProgressUpdated => Some(Running)
    case SyscallCompleted => Some(Running)
    case ApprovalRequired => Some(WaitingApproval)
    case PolicyDenied => Some(HaltedBlocked)
    case ConvergenceHaltBlocked => Some(HaltedBlocked)
    case ConvergenceHaltFailure => Some(HaltedFailure)
    case _ => None
  }

  predicate Leads(row: Row) { Lead(row.event).Some? ==> row.next == Lead(row.event).value }

  lemma TableLeads(i: nat)
    requires i < |TABLE|
    ensures Leads(TABLE[i])
  {
    hide Leads;
    if i < 18 { LeadsStart(i); } else { LeadsEnd(i); }
  }

  lemma LeadsStart(i: nat)
    requires i < 18
    ensures Leads(TABLE[i])
  {}

  lemma LeadsEnd(i: nat)
    requires 18 <= i < |TABLE|
    ensures Leads(TABLE[i])
  {}

  /** In the default table an event with a lead takes every state that has it there. */
  lemma LookupLeads(s: LoopState, e: Event)
    requires Lead(e).Some? && ValidIn(TABLE, s, e)
    ensures Lookup(TABLE, s, e).Some? && Lookup(TABLE, s, e).value.next == Lead(e).value
  {
    hide TABLE, Lookup, ValidIn;
    ValidIsLookup(TABLE, s, e);
    IndexIsLastMatch(TABLE, s, e);
    LastMatchRow(TABLE, s, e);
    var i :| 0 <= i < |TABLE| && TABLE[i] == Lookup(TABLE, s, e).value;
    TableLeads(i);
  }

  lemma RunningTakes(e: Event)
    requires Lead(e).Some?
    ensures ValidIn(TABLE, Running, e)
  {
    var i := match e
      case ProgressUpdated => 11
      case SyscallCompleted => 7
      case ApprovalRequired => 4
      case PolicyDenied => 3
      case ConvergenceHaltBlocked => 31
      case _ => 26;
    assert TABLE[i].state == Running && TABLE[i].event == e;
  }

  lemma DefaultIsOpen()
    ensures OpenTable(TABLE)
  {
    hide TABLE;
    forall i | 0 <= i < |TABLE| ensures TABLE[i].required == [] && Known(TABLE[i].event) { TableKeepsBooks(i); }
  }

  /** The state a running session is in after consuming a result of this runner. */
  function Verdict(status: Status): LoopState {
    match status
    case Completed => Running
    case DryRunStatus => Running
    case NeedsApproval => WaitingApproval
    case Blocked => HaltedBlocked
    case Unsupported => HaltedFailure
    case Failed => HaltedFailure
  }

  lemma DesiredLeads(r: Result)
    requires !r.repairable && !r.noProgress
    ensures forall i :: 0 <= i < |Desired(r)| ==> Lead(Desired(r)[i]).Some?
    ensures |Desired(r)| > 0 && Lead(Desired(r)[|Desired(r)| - 1]) == Some(Verdict(r.status))
  {
    hide IsPolicyDenial;
  }

  lemma ConsumedFromRunning(s: Session, r: Result)
    requires s.state == Running && !r.repairable && !r.noProgress
    ensures var (s', answer) := Consumed(TABLE, s, r);
      answer.Records? && |answer.records| == |Desired(r)| && s'.state == Verdict(r.status)
      && forall i :: 0 <= i < |answer.records| ==> answer.records[i].event == Desired(r)[i]
  {
    DesiredLeads(r);
    DesiredShape(r);
    var d := Desired(r);
    var attached, keys := s.(refs := s.refs + [RefOf(r)]), PayloadKeys(r);
    hide *;
    if |d| == 1 {
      assert d == [d[0]];
      RunningOne(attached, d[0], keys);
    } else {
      assert d == [ProgressUpdated, d[1]];
      RunningTwo(attached, d[1], keys);
    }
    assert Filtered(TABLE, d, Running) == d;
    ConsumedEvents(TABLE, s, r);
  }

  /** Consuming a result in a session that is not halted, when some event is left. */
  lemma ConsumedEvents(table: seq<Row>, s: Session, r: Result)
    requires s.state == Running && Filtered(table, Desired(r), s.state) != []
    ensures Consumed(table, s, r)
         == ApplyEach(Index(table), s.(refs := s.refs + [RefOf(r)]), Filtered(table, Desired(r), s.state),
                      PayloadKeys(r))
  {
    hide Filtered, Desired, Index, ApplyEach, PayloadKeys, RefOf;
  }

  lemma RunningOne(s: Session, e: Event, keys: set<string>)
    requires s.state == Running && Lead(e).Some?
    ensures Filtered(TABLE, [e], Running) == [e]
    ensures var (s', a) := ApplyEach(Index(TABLE), s, [e], keys);
      a.Records? && |a.records| == 1 && a.records[0].event == e && s'.state == Lead(e).value
  {
    DefaultIsOpen();
    hide TABLE, ValidIn, OpenTable, Index, ApplyEach, Lookup, Lead, Filtered;
    RunningTakes(e);
    LookupLeads(Running, e);
    FilteredOne(TABLE, e, Running);
    ApplyOne(TABLE, s, e, keys);
  }

  lemma RunningTwo(s: Session, f: Event, keys: set<string>)
    requires s.state == Running && Lead(f).Some?
    ensures Filtered(TABLE, [ProgressUpdated, f], Running) == [ProgressUpdated, f]
    ensures var (s', a) := ApplyEach(Index(TABLE), s, [ProgressUpdated, f], keys);
      a.Records? && |a.records| == 2 && a.records[0].event == ProgressUpdated && a.records[1].event == f
      && s'.state == Lead(f).value
  {
    DefaultIsOpen();
    ProgressLead();
    hide TABLE, ValidIn, OpenTable, Index, ApplyEach, Lookup, Lead, Filtered;
    var e := ProgressUpdated;
    RunningTakes(e);
    LookupLeads(Running, e);
    RunningTakes(f);
    LookupLeads(Running, f);
    FilteredTwo(TABLE, e, f, Running);
    assert [e] + [f] == [e, f];
    ApplyTwo(TABLE, s, e, f, keys, Running);
    ApplyTwoState(s, e, f, keys);
  }

  lemma ProgressLead()
    ensures Lead(ProgressUpdated) == Some(Running)
  {}

  lemma ApplyTwoState(s: Session, e: Event, f: Event, keys: set<string>)
    requires OpenTable(TABLE) && s.state == Running
    requires ValidIn(TABLE, Running, e)
    requires Lookup(TABLE, Running, e).Some? && Lookup(TABLE, Running, e).value.next == Running
    requires ValidIn(TABLE, Running, f)
    ensures Lookup(TABLE, Running, f).Some?
    ensures ApplyEach(Index(TABLE), s, [e, f], keys).0.state == Lookup(TABLE, Running, f).value.next
  {
    hide TABLE, Answer, After, Index, Known, Lookup, ValidIn, OpenTable;
    OpenAnswer(TABLE, s, e, keys);
    var both := [e, f];
    assert both[1..] == [f];
    ApplyEachRecords(Index(TABLE), s, both, keys);
    ApplyOne(TABLE, After(Index(TABLE), s, e, keys), f, keys);
  }

  /** End to end: whatever the policy engine and the router answer, a running session accepts the result
      of a run, records every event it asks for, and ends in the state that goes with its status. */
  lemma RunIsAccepted(r: Runner, c: Command, explain: bool, s: Session)
    requires s.state == Running
    ensures var result := Run(r, c, explain).result;
      var (s', answer) := Consumed(TABLE, s, result);
      answer.Records? && s'.state == Verdict(result.status)
      && |answer.records| == |Desired(result)|
      && forall i :: 0 <= i < |answer.records| ==> answer.records[i].event == Desired(result)[i]
  {
    hide Run, Consumed, Desired, Verdict, TABLE;
    NeverRepairable(r, c, explain);
    ConsumedFromRunning(s, Run(r, c, explain).result);
  }

  /** `syscall_completed` is also recorded when no syscall was dispatched: exactly for a valid
      `provider_select` that is only explained, whether or not its hint can be honoured; for an allowed
      one that is run, not dry, and whose hint is honoured; and for any other allowed and valid command
      that is run, not dry, when the runner has no router. */
  lemma CompletedWithoutDispatch(r: Runner, c: Command, explain: bool)
    ensures var ran := Run(r, c, explain);
      SyscallCompleted in Desired(ran.result) && ran.calls == [] <==>
        if c.kind == ProviderSelect then
          if explain then Issues(c) == []
          else r.policy(c).allowed && !c.dryRun && (c.hint.Some? ==> Binding(r, c).Resolved?)
        else
          && !Explained(c, explain) && Issues(c) == [] && (c.hint.Some? ==> Binding(r, c).Resolved?)
          && SyscallName(c.kind).Some? && r.router.None? && r.policy(c).allowed && !c.dryRun
  {
    hide Issues, Binding, PolicyCodes, OptionalKeys, FirstCode, SyscallName, IsPolicyDenial;
  }

  /** In particular an explained `provider_select` is reported as completed even when no provider can be
      found for its hint; run, the same command fails. */
  lemma ExplainedUnresolved(r: Runner, c: Command)
    requires c.kind == ProviderSelect && Issues(c) == [] && r.policy(c).allowed
    requires c.hint.Some? && Binding(r, c).Unresolved?
    ensures Run(r, c, true).result.status == Completed && Run(r, c, true).result.success
    ensures Run(r, c, false).result.status == Failed && !Run(r, c, false).result.success
    ensures Desired(Run(r, c, true).result) == [ProgressUpdated, SyscallCompleted]
  {
    hide Issues, Binding, OptionalKeys;
  }

  // ---- many commands, one session ------------------------------------------------------------------------------

  datatype Step = Step(command: Command, explain: bool)

  /** A session that consumes the results of the commands one after the other, whatever it answers. */
  function Driven(r: Runner, s: Session, steps: seq<Step>): Session
    decreases |steps|
  {
    if |steps| == 0 then s
    else Driven(r, Consumed(TABLE, s, Run(r, steps[0].command, steps[0].explain).result).0, steps[1..])
  }

  predicate Plain(s: LoopState) { s in {Running, WaitingApproval, HaltedBlocked, HaltedFailure} }

  /** What such results leave alone: the session keeps its state or goes to a plain one, and is neither
      given a command nor sent on a detour. */
  ghost predicate Undetoured(s: Session, s': Session) {
    && (s'.state == s.state || Plain(s'.state))
    && Departures(s'.events) == Departures(s.events)
    && Count(s'.events, CommandSubmitted) == Count(s.events, CommandSubmitted)
  }

  lemma {:induction false} ApplyStaysPlain(s: Session, events: seq<Event>, keys: set<string>)
    requires OpenTable(TABLE) && forall i :: 0 <= i < |events| ==> Lead(events[i]).Some?
    ensures Undetoured(s, ApplyEach(Index(TABLE), s, events, keys).0)
    decreases |events|
  {
    hide TABLE, Answer, Index, Lookup, ValidIn, OpenTable, Known;
    if |events| > 0 {
      var e := events[0];
      OpenAnswer(TABLE, s, e, keys);
      match Answer(Index(TABLE), s, e, keys)
      case Refused(_) =>
      case Recorded(record) =>
        LookupLeads(s.state, e);
        var s1 := After(Index(TABLE), s, e, keys);
        assert s1.events[..|s1.events| - 1] == s.events;
        ApplyEachRecords(Index(TABLE), s, events, keys);
        ApplyStaysPlain(s1, events[1..], keys);
    }
  }

  lemma {:induction false} FilteredIsPart(table: seq<Row>, desired: seq<Event>, s: LoopState)
    ensures forall e | e in Filtered(table, desired, s) :: e in desired
  {
    hide ValidIn;
    if |desired| > 0 { FilteredIsPart(table, desired[1..], s); }
  }

  lemma ConsumedStaysPlain(s: Session, r: Result)
    requires !r.repairable && !r.noProgress
    ensures Undetoured(s, Consumed(TABLE, s, r).0)
  {
    DesiredLeads(r);
    DefaultIsOpen();
    hide TABLE, Desired, OpenTable, Index, PayloadKeys, ApplyEach, Lead, Filtered, Plain, Count, Departures;
    FilteredIsPart(TABLE, Desired(r), s.state);
    if !Halted(s.state) {
      var events := Filtered(TABLE, Desired(r), s.state);
      forall i | 0 <= i < |events| ensures Lead(events[i]).Some? {
        assert events[i] in Desired(r);
      }
      ApplyStaysPlain(s.(refs := s.refs + [RefOf(r)]), Filtered(TABLE, Desired(r), s.state), PayloadKeys(r));
    }
  }

  /** However many commands this runner runs for a session, in whatever state it starts, the session is
      never sent to repair, to replan or to ask the user, and never halts with success: only other events
      can do that. */
  lemma {:induction false} NeverRepairs(r: Runner, s: Session, steps: seq<Step>)
    ensures Undetoured(s, Driven(r, s, steps))
    decreases |steps|
  {
    hide Run, Consumed, Plain, TABLE, Departures, Count;
    if |steps| > 0 {
      var result := Run(r, steps[0].command, steps[0].explain).result;
      NeverRepairable(r, steps[0].command, steps[0].explain);
      ConsumedStaysPlain(s, result);
      NeverRepairs(r, Consumed(TABLE, s, result).0, steps[1..]);
    }
  }

  // ---- completed syscalls and dispatches -----------------------------------------------------------------------

  function Occurrences(events: seq<Event>, e: Event): nat {
    if |events| == 0 then 0 else (if events[0] == e then 1 else 0) + Occurrences(events[1..], e)
  }

  lemma AnswerEvent(index: map<(LoopState, Event), Row>, s: Session, event: Event, keys: set<string>, e: Event)
    ensures Count(After(index, s, event, keys).events, e) <= Count(s.events, e) + if event == e then 1 else 0
  {
    hide Known;
    match Answer(index, s, event, keys)
    case Refused(_) =>
    case Recorded(record) => assert (s.events + [record])[..|s.events|] == s.events;
  }

  lemma {:induction false} AppliedCount(index: map<(LoopState, Event), Row>, s: Session, events: seq<Event>,
                                        keys: set<string>, e: Event)
    ensures Count(ApplyEach(index, s, events, keys).0.events, e) <= Count(s.events, e) + Occurrences(events, e)
    decreases |events|
  {
    hide Answer, After, Count;
    if |events| > 0 {
      AnswerEvent(index, s, events[0], keys, e);
      match Answer(index, s, events[0], keys)
      case Refused(_) =>
      case Recorded(_) =>
        ApplyEachRecords(index, s, events, keys);
        AppliedCount(index, After(index, s, events[0], keys), events[1..], keys, e);
    }
  }

  lemma {:induction false} FilteredCount(table: seq<Row>, desired: seq<Event>, s: LoopState, e: Event)
    ensures Occurrences(Filtered(table, desired, s), e) <= Occurrences(desired, e)
  {
    hide ValidIn;
    if |desired| > 0 {
      FilteredCount(table, desired[1..], s, e);
      var rest := Filtered(table, desired[1..], s);
      assert ([desired[0]] + rest)[1..] == rest && [] + rest == rest;
    }
  }

  lemma DesiredCount(r: Result)
    ensures Occurrences(Desired(r), SyscallCompleted) <= if SyscallCompleted in Desired(r) then 1 else 0
  {
    hide IsPolicyDenial;
    DesiredShape(r);
    var d := Desired(r);
    hide Desired;
    var rest := d[1..];
    if |d| == 2 {
      assert rest[0] == d[1] && d[1] in d && rest[1..] == [];
      assert Occurrences(rest, SyscallCompleted) == if d[1] == SyscallCompleted then 1 else 0;
    }
  }

  lemma ConsumedCount(s: Session, r: Result)
    ensures Count(Consumed(TABLE, s, r).0.events, SyscallCompleted)
         <= Count(s.events, SyscallCompleted) + if SyscallCompleted in Desired(r) then 1 else 0
  {
    hide TABLE, Desired, Index, PayloadKeys, ApplyEach, Filtered, Count, Occurrences;
    DesiredCount(r);
    if !Halted(s.state) {
      var events := Filtered(TABLE, Desired(r), s.state);
      FilteredCount(TABLE, Desired(r), s.state, SyscallCompleted);
      AppliedCount(Index(TABLE), s.(refs := s.refs + [RefOf(r)]), events, PayloadKeys(r), SyscallCompleted);
    }
  }

  /** The number of calls that the commands dispatch. */
  function Dispatched(r: Runner, steps: seq<Step>): nat {
    if |steps| == 0 then 0
    else |Run(r, steps[0].command, steps[0].explain).calls| + Dispatched(r, steps[1..])
  }

  /** With a router wired and without `provider_select` commands, a session never records more completed
      syscalls than were dispatched for it. */
  lemma {:induction false} CompletionsWereDispatched(r: Runner, s: Session, steps: seq<Step>)
    requires r.router.Some? && forall i :: 0 <= i < |steps| ==> steps[i].command.kind != ProviderSelect
    ensures Count(Driven(r, s, steps).events, SyscallCompleted)
         <= Count(s.events, SyscallCompleted) + Dispatched(r, steps)
    decreases |steps|
  {
    hide Run, Consumed, TABLE, Count, Desired;
    if |steps| > 0 {
      var ran := Run(r, steps[0].command, steps[0].explain);
      CompletedWithoutDispatch(r, steps[0].command, steps[0].explain);
      ConsumedCount(s, ran.result);
      CompletionsWereDispatched(r, Consumed(TABLE, s, ran.result).0, steps[1..]);
    }
  }
}
