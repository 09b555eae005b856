/** What consuming a result records with the default table, and what it refers to. */
module ConsumptionOutcomes {
  import opened Text
  import opened Ali
  import opened AliLaws
  import opened AliStates
  import opened Consumption

  /** The denial came from the policy engine: its summary says so, or one of its six reason codes is there. */
  lemma PolicyDenialExactly(r: Result)
    ensures IsPolicyDenial(r) <==>
      || r.policyAllowed == Some(false)
      || "policy_denied" in r.reasonCodes || "terminal_rm_rf_denied" in r.reasonCodes
      || "remote_script_pipe_denied" in r.reasonCodes || "network_access_denied" in r.reasonCodes
      || "git_tag_denied" in r.reasonCodes || "release_evidence_mutation_denied" in r.reasonCodes
  {}

  /** The follow-up that a result of the given kind asks for in a running session, and whether progress is
      recorded before it. */
  function FollowUpOf(r: Result): (bool, Option<Event>) {
    match r.status
    case Completed => (true, if r.dryRun then None else Some(SyscallCompleted))
    case DryRunStatus => (true, None)
    case NeedsApproval => (false, Some(ApprovalRequired))
    case Blocked => (false, Some(if IsPolicyDenial(r) then PolicyDenied else ConvergenceHaltBlocked))
    case Unsupported => (false, Some(ConvergenceHaltFailure))
    case Failed =>
      (true, Some(
        if r.repairable then SyscallFailed
        else if r.noProgress then ConvergenceReplan
        else ConvergenceHaltFailure))
  }

  lemma DesiredIsFollowUp(r: Result)
    ensures var (progress, e) := FollowUpOf(r);
      Desired(r) == (if progress then [ProgressUpdated] else []) + if e.Some? then [e.value] else []
  {
    hide IsPolicyDenial;
  }

  /** The record of an event in a session, with the keys of the payload written out. */
  function RecordOf(s: LoopState, n: nat, e: Event, next: LoopState, r: Result): (record: Record)
    ensures record.event == e && record.next == next
  {
    Record(n, e, {"command_id", "goal_id", "aci_status", "aci_success", "reason_codes", "messages"} + r.optionalKeys,
      Reason(s, e), next)
  }

  lemma ApplyDefault(s: Session, e: Event, r: Result, next: LoopState)
    requires Target(s.state, e) == Some(next)
    ensures var record := RecordOf(s.state, |s.events|, e, next, r);
      Answer(Index(TABLE), s, e, PayloadKeys(r)) == Recorded(record)
      && After(Index(TABLE), s, e, PayloadKeys(r)) == s.(state := next, events := s.events + [record])
  {
    DefaultAnswer(s, e, PayloadKeys(r));
    hide TABLE, Index, Target, Answer;
  }

  lemma ValidIsTarget(s: LoopState, e: Event)
    ensures ValidIn(TABLE, s, e) <==> Target(s, e).Some?
  {
    hide TABLE, Index, Target, ValidIn, Lookup;
    ValidIsLookup(TABLE, s, e);
    DefaultLookup(s, e);
  }

  lemma OneRecord(s: Session, e: Event, r: Result, next: LoopState)
    requires Target(s.state, e) == Some(next)
    ensures var record := RecordOf(s.state, |s.events|, e, next, r);
      ApplyEach(Index(TABLE), s, [e], PayloadKeys(r))
      == (s.(state := next, events := s.events + [record]), Records([record]))
  {
    ApplyDefault(s, e, r, next);
    hide TABLE, Index, Target, Answer, After, PayloadKeys, RecordOf;
    var one := [e];
    assert one[1..] == [];
    var record := RecordOf(s.state, |s.events|, e, next, r);
    assert [record] + [] == [record];
  }

  lemma ProgressThen(s: Session, e: Event, r: Result, next: LoopState)
    requires s.state == Running && Target(Running, e) == Some(next)
    ensures var n := |s.events|;
      var first := RecordOf(Running, n, ProgressUpdated, Running, r);
      var second := RecordOf(Running, n + 1, e, next, r);
      ApplyEach(Index(TABLE), s, [ProgressUpdated, e], PayloadKeys(r))
      == (s.(state := next, events := s.events + [first] + [second]), Records([first, second]))
  {
    ApplyDefault(s, ProgressUpdated, r, Running);
    var first := RecordOf(Running, |s.events|, ProgressUpdated, Running, r);
    var s1 := s.(events := s.events + [first]);
    OneRecord(s1, e, r, next);
    hide TABLE, Index, Target, Answer, After, PayloadKeys, RecordOf, ApplyEach;
    var two := [ProgressUpdated, e];
    assert two[1..] == [e];
    ApplyEachRecords(Index(TABLE), s, two, PayloadKeys(r));
    var second := RecordOf(Running, |s.events| + 1, e, next, r);
    assert [first] + [second] == [first, second];
  }

  /** A session with one more record, in the state that the record names. */
  function Add(s: Session, record: Record): Session { s.(state := record.next, events := s.events + [record]) }

  /** The target of an event that a running session takes. */
  function Onward(e: Event): LoopState { match Target(Running, e) case Some(next) => next case None => Running }

  /** What a running session holds after consuming a result: the reference, progress where the status is one
      that reports progress, and the follow-up, each with its reason, target and payload keys. */
  function Expected(s: Session, r: Result): (Session, Answered) {
    var (progress, e) := FollowUpOf(r);
    var n, attached := |s.events|, s.(refs := s.refs + [RefOf(r)]);
    var first := RecordOf(Running, n, ProgressUpdated, Running, r);
    if e.None? then (Add(attached, first), Records([first]))
    else if progress then
      var second := RecordOf(Running, n + 1, e.value, Onward(e.value), r);
      (Add(Add(attached, first), second), Records([first, second]))
    else
      var only := RecordOf(Running, n, e.value, Onward(e.value), r);
      (Add(attached, only), Records([only]))
  }

  lemma FollowUpIsTaken(r: Result)
    ensures var (progress, e) := FollowUpOf(r);
      (progress || e.Some?) && (e.Some? ==> Target(Running, e.value) == Some(Onward(e.value)))
    ensures Target(Running, ProgressUpdated) == Some(Running)
  {
    hide IsPolicyDenial;
  }

  lemma ConsumedRecords(s: Session, r: Result)
    requires s.state == Running
    ensures Consumed(TABLE, s, r) == Expected(s, r)
  {
    DesiredIsFollowUp(r);
    FollowUpIsTaken(r);
    var (progress, e) := FollowUpOf(r);
    var attached := s.(refs := s.refs + [RefOf(r)]);
    hide Desired, TABLE, Index, Target, PayloadKeys, ApplyEach, Filtered, FollowUpOf, ValidIn, IsPolicyDenial;
    hide RecordOf, Onward, RefOf;
    ValidIsTarget(Running, ProgressUpdated);
    if e.None? {
      assert Desired(r) == [ProgressUpdated];
      FilteredOne(TABLE, ProgressUpdated, Running);
      OneRecord(attached, ProgressUpdated, r, Running);
    } else {
      var event := e.value;
      ValidIsTarget(Running, event);
      if progress {
        var both := [ProgressUpdated, event];
        assert Desired(r) == both && [ProgressUpdated] + [event] == both;
        FilteredTwo(TABLE, ProgressUpdated, event, Running);
        ProgressThen(attached, event, r, Onward(event));
      } else {
        assert Desired(r) == [event];
        FilteredOne(TABLE, event, Running);
        OneRecord(attached, event, r, Onward(event));
      }
    }
  }

  /** The log of a running session grows, its last record is that of the follow-up, or of progress if there
      is none, and the session is in the state that the follow-up leads to. */
  lemma ConsumedShape(s: Session, r: Result)
    requires s.state == Running
    ensures var s' := Consumed(TABLE, s, r).0;
      var (_, e) := FollowUpOf(r);
      var last := if e.Some? then e.value else ProgressUpdated;
      && |s'.events| > |s.events| && s'.events[..|s.events|] == s.events
      && s'.events[|s'.events| - 1].event == last && s'.state == Onward(last)
      && s'.refs == s.refs + [RefOf(r)]
  {
    ConsumedRecords(s, r);
    FollowUpIsTaken(r);
    hide TABLE, Consumed, RecordOf, FollowUpOf, Target, RefOf, Onward;
    var (progress, e) := FollowUpOf(r);
    assert e.None? ==> Onward(ProgressUpdated) == Running by { ProgressKeepsRunning(); }
    var first := RecordOf(Running, |s.events|, ProgressUpdated, Running, r);
    assert (s.events + [first])[..|s.events|] == s.events;
    if e.Some? {
      var next := Onward(e.value);
      var second := RecordOf(Running, |s.events| + 1, e.value, next, r);
      var only := RecordOf(Running, |s.events|, e.value, next, r);
      assert (s.events + [first] + [second])[..|s.events|] == s.events;
      assert (s.events + [only])[..|s.events|] == s.events;
    }
  }

  lemma ProgressKeepsRunning()
    ensures Onward(ProgressUpdated) == Running
  {}

  /** In any other state that is not halted progress has no row, and the follow-up is recorded if its event
      has one; otherwise the transition is invalid. */
  lemma ConsumedElsewhere(s: Session, r: Result)
    requires s.state != Running && !Halted(s.state)
    ensures var (_, e) := FollowUpOf(r);
      var attached := s.(refs := s.refs + [RefOf(r)]);
      Consumed(TABLE, s, r) ==
        if e.Some? && Target(s.state, e.value).Some? then
          var next := Target(s.state, e.value).value;
          var only := RecordOf(s.state, |s.events|, e.value, next, r);
          (attached.(state := next, events := s.events + [only]), Records([only]))
        else (attached, Raised(InvalidTransition))
  {
    DesiredIsFollowUp(r);
    var (progress, e) := FollowUpOf(r);
    var attached := s.(refs := s.refs + [RefOf(r)]);
    assert Target(s.state, ProgressUpdated).None?;
    assert progress || e.Some?;
    hide Desired, TABLE, Index, Target, PayloadKeys, ApplyEach, Filtered, RecordOf, FollowUpOf, ValidIn, IsPolicyDenial;
    ValidIsTarget(s.state, ProgressUpdated);
    if e.None? {
      assert Desired(r) == [ProgressUpdated];
      FilteredOne(TABLE, ProgressUpdated, s.state);
    } else {
      var event := e.value;
      ValidIsTarget(s.state, event);
      if progress {
        assert Desired(r) == [ProgressUpdated, event] && [] + [event] == [event];
        FilteredTwo(TABLE, ProgressUpdated, event, s.state);
      } else {
        assert Desired(r) == [event];
        FilteredOne(TABLE, event, s.state);
      }
      if Target(s.state, event).Some? { OneRecord(attached, event, r, Target(s.state, event).value); }
    }
  }

  /** A halted session is closed and keeps no reference. */
  lemma ConsumedHalted(table: seq<Row>, s: Session, r: Result)
    requires Halted(s.state)
    ensures Consumed(table, s, r) == (s, Raised(SessionClosed))
  {}

  /** The reference names the command, the status as it is spelled, and the success flag. */
  lemma ReferenceSays(r: Result)
    ensures RefOf(r).commandId == r.commandId && RefOf(r).success == r.success
    ensures RefOf(r).status == (
      match r.status
      case Completed => "completed"
      case DryRunStatus => "dry_run"
      case NeedsApproval => "approval_required"
      case Blocked => "blocked"
      case Unsupported => "unsupported"
      case Failed => "failed")
  {}
}

/** What a run reports, by what the policy engine, the registry and the router answer, and where that takes
    a session. */
module RunnerOutcomes {
  import opened Text
  import opened Providers
  import opened Ali
  import opened AliStates
  import opened Consumption
  import opened ConsumptionOutcomes
  import opened Runner
  import opened RunnerLaws

  // ---- validation --------------------------------------------------------------------------------------------------

  /** A text is blank exactly if nothing is left when it is stripped. */
  lemma BlankIsStripped(s: string)
    ensures Blank(s) <==> |Strip(s)| == 0
  {
    StripsToNothing(s);
  }

  /** Each issue is recorded exactly in its case. */
  lemma IssuesExactly(c: Command)
    ensures NoGoal in Issues(c) <==> Blank(c.goalId)
    ensures NoPurpose in Issues(c) <==> Blank(c.purpose)
    ensures NoCommand in Issues(c) <==>
      Blank(c.text) && c.kind != Noop && c.kind != ProviderSelect && c.kind != ExplainOnly
    ensures NoHint in Issues(c) <==> c.kind == ProviderSelect && c.hint.None?
    ensures BadTimeout in Issues(c) <==> c.timeout.Some? && c.timeout.value <= 0
    ensures DryModeOnly in Issues(c) <==> c.dryMode && !c.dryRun
  {
    forall b, issue { WhenHolds(b, issue); }
    hide Blank, When;
  }

  lemma WhenHolds(b: bool, issue: Issue)
    ensures forall x :: x in When(b, issue) <==> b && x == issue
  {}

  // ---- the dispatched call ------------------------------------------------------------------------------------------

  /** The syscall of each kind that has one. */
  lemma SyscallOfKind(kind: CommandKind)
    ensures SyscallName(kind).Some? <==>
      kind != FilePatch && kind != GitCommit && kind != ProviderSelect && kind != ExplainOnly
    ensures SyscallName(TerminalExec) == Some("terminal.exec") && SyscallName(Noop) == Some("noop")
    ensures SyscallName(FileRead) == Some("file.read") && SyscallName(FileWrite) == Some("file.write")
    ensures SyscallName(GitStatus) == Some("git.status") && SyscallName(GitDiff) == Some("git.diff")
    ensures SyscallName(DatabaseQuery) == Some("database.query")
    ensures SyscallName(DatabaseMigration) == Some("database.run_migration")
  {}

  /** The call carries the command: its id, text, dry-run flag and approval, under the name for its kind. */
  lemma CallCarriesCommand(r: Runner, c: Command, explain: bool)
    ensures var calls := Run(r, c, explain).calls;
      calls != [] ==>
        |calls| == 1 && SyscallName(c.kind) == Some(calls[0].name) && calls[0].instructionId == c.id
        && calls[0].text == c.text && calls[0].dryRun == c.dryRun && calls[0].approvalGranted == c.approvalGranted
  {
    hide Issues, Binding, SyscallName, Materialize, Explain, RunMetadata, BlockedResult, UnsupportedResult;
    hide OptionalKeys;
  }

  // ---- what is reported ---------------------------------------------------------------------------------------------

  /** The status that goes with an answer of the router and a decision of the policy engine. */
  function AnsweredStatus(s: SyscallResult, allowed: bool): Status {
    if s.success then (if s.dryRun then DryRunStatus else Completed)
    else if s.requiresApproval then NeedsApproval
    else if s.blockedRisk || !allowed then Blocked
    else Failed
  }

  /** A dispatched command succeeds exactly if the router says so, and its status follows from the router's
      answer; only for a failure without approval does the policy decision count. */
  lemma DispatchReports(r: Runner, c: Command, explain: bool)
    requires Run(r, c, explain).calls != []
    ensures r.router.Some?
    ensures var ran := Run(r, c, explain);
      var s, d := r.router.value.answer(ran.calls[0]), r.policy(c);
      && (ran.result.success <==> s.success)
      && ran.result.status == AnsweredStatus(s, d.allowed)
      && ran.result.dryRun == s.dryRun
      && ran.result.commandId == c.id && ran.result.policyAllowed == Some(d.allowed)
      && (ran.result.status in {Completed, DryRunStatus} ==> ran.result.reasonCodes == [])
      && (ran.result.status == NeedsApproval ==> ran.result.reasonCodes == ["policy_requires_approval"])
      && (ran.result.status == Failed ==> ran.result.reasonCodes == ["syscall_failed"])
      && (ran.result.status == Blocked ==>
            ran.result.reasonCodes
            == if PolicyCodes(d.reasonCodes) == [] then ["policy_denied"] else PolicyCodes(d.reasonCodes))
  {
    hide Issues, Binding, SyscallName, Explain, RunMetadata, BlockedResult, UnsupportedResult, OptionalKeys;
    hide PolicyCodes;
  }

  /** Without a dispatch there is one report for each reason that kept the command from being dispatched. */
  lemma ExplanationReports(r: Runner, c: Command, explain: bool)
    requires Explained(c, explain)
    ensures var result := Run(r, c, explain).result;
      if Issues(c) != [] then
        result.status == Blocked && !result.success && result.dryRun && result.reasonCodes == ["invalid_command"]
      else if c.kind == ProviderSelect then
        result.status == Completed && result.success && !result.dryRun && result.reasonCodes == []
      else
        result.status == DryRunStatus && !result.success && result.dryRun
        && result.reasonCodes == ["dry_run_no_side_effect"]
  {
    hide Issues, Binding, OptionalKeys;
  }

  /** The hint of the command cannot be honoured. */
  predicate HintFails(r: Runner, c: Command) { c.hint.Some? && Binding(r, c).Unresolved? }

  predicate Registered(r: Runner, kind: CommandKind) {
    r.router.Some? && SyscallName(kind).Some? && SyscallName(kind).value in r.router.value.registered
  }

  /** The command never gets as far as its hint: it is invalid, or a selection that the policy engine denies. */
  predicate TurnedAway(r: Runner, c: Command) {
    if c.kind == ProviderSelect then !r.policy(c).allowed else Issues(c) != []
  }

  lemma RunReports(r: Runner, c: Command)
    requires c.kind != ExplainOnly
    ensures var ran, d := Run(r, c, false), r.policy(c);
      var result := ran.result;
      if TurnedAway(r, c) then
        result.status == Blocked && !result.success && result.dryRun == c.dryRun && BlockedCode(result, d)
      else if HintFails(r, c) then
        result.status == Failed && !result.success && result.dryRun == c.dryRun
        && result.reasonCodes == [
          match Binding(r, c).reason
          case NotFound => "provider_not_found"
          case CapabilityUnavailable => "provider_capability_unavailable"
          case LocalOnlyRequired => "provider_local_only_required"]
      else if c.kind == ProviderSelect then
        result.status == Completed && result.success && result.dryRun == c.dryRun && result.reasonCodes == []
      else if c.kind == FilePatch || c.kind == GitCommit || (r.router.Some? && !Registered(r, c.kind)) then
        result.status == Unsupported && !result.success && !result.dryRun
        && result.reasonCodes == ["unsupported_command_kind"]
      else if r.router.Some? then ran.calls != []
      else if !d.allowed then
        result.status == Blocked && !result.success && result.dryRun == c.dryRun && BlockedCode(result, d)
      else
        result.status == (if c.dryRun then DryRunStatus else Completed) && result.success
        && result.dryRun == c.dryRun && result.reasonCodes == []
  {
    hide Issues, Binding, OptionalKeys, Materialize, FirstCode;
  }

  predicate BlockedCode(result: Result, d: Decision) {
    result.reasonCodes == [FirstCode(d.reasonCodes + d.allReasonCodes, "policy_denied")]
  }

  /** Every result of a command carries its id and the policy decision. */
  lemma ReportNamesCommand(r: Runner, c: Command, explain: bool)
    ensures var result := Run(r, c, explain).result;
      result.commandId == c.id && result.policyAllowed == Some(r.policy(c).allowed)
  {
    hide Issues, Binding, OptionalKeys, FirstCode, PolicyCodes, SyscallName;
  }

  /** The code of a blocked command is the first one that is not empty, in either list, or the default. */
  lemma {:induction false} FirstCodeExactly(codes: seq<string>, fallback: string)
    ensures var code := FirstCode(codes, fallback);
      || (code == fallback && forall i :: 0 <= i < |codes| ==> codes[i] == "")
      || exists i :: 0 <= i < |codes| && codes[i] == code && code != "" && forall j :: 0 <= j < i ==> codes[j] == ""
  {
    if |codes| > 0 && codes[0] == "" {
      FirstCodeExactly(codes[1..], fallback);
      var rest := codes[1..];
      var code := FirstCode(rest, fallback);
      if i :| 0 <= i < |rest| && rest[i] == code && code != "" && forall j :: 0 <= j < i ==> rest[j] == "" {
        assert codes[i + 1] == code;
        forall j | 0 <= j < i + 1 ensures codes[j] == "" { if j > 0 { assert codes[j] == rest[j - 1]; } }
      }
    }
  }

  /** A refused syscall passes on the codes of the policy engine that start with one of six prefixes. */
  lemma PolicyCodesOfOne(code: string)
    ensures PolicyCodes([code]) ==
      if "policy_" <= code || "terminal_" <= code || "remote_" <= code || "network_" <= code || "git_" <= code
         || "release_" <= code then [code] else []
  {
    assert [code][1..] == [];
  }

  lemma {:induction false} PolicyCodesInOrder(a: seq<string>, b: seq<string>)
    ensures PolicyCodes(a + b) == PolicyCodes(a) + PolicyCodes(b)
    decreases |a|
  {
    hide PolicyPrefix;
    if |a| == 0 {
      assert a + b == b;
    } else {
      assert (a + b)[1..] == a[1..] + b;
      PolicyCodesInOrder(a[1..], b);
    }
  }

  /** Which optional keys the audit payload of a run has: a trace id if the runner has one and the command was
      dispatched, blocked or passed without a router; a syscall id after a dispatch that gave one; a provider
      wherever the hint was honoured and not merely checked. */
  lemma KeysOfRun(r: Runner, c: Command, explain: bool)
    ensures var ran := Run(r, c, explain);
      var keys, result := ran.result.optionalKeys, ran.result;
      && "policy_decision" in keys && "convergence_reason_code" in keys
      && ("trace_id" in keys <==>
            && r.traceId.Some? && r.traceId.value != "" && !Explained(c, explain)
            && (ran.calls != [] || result.status == Blocked
                || (c.kind != ProviderSelect && result.status in {Completed, DryRunStatus})))
      && ("syscall_id" in keys <==> ran.calls != [] && r.router.value.answer(ran.calls[0]).syscallId != "")
      && ("provider_id" in keys <==> "provider_source" in keys)
      && ("provider_id" in keys <==>
            && Binding(r, c).Resolved?
            && (Explained(c, explain) || c.kind == ProviderSelect || ran.calls != [] || result.status == Blocked))
  {
    forall trace, syscallId, bound { OptionalKeysExactly(trace, syscallId, bound); }
    hide OptionalKeys, Issues, Binding, FirstCode, PolicyCodes, SyscallName, ReasonText, CallOf;
    if Explained(c, explain) {
    } else if c.kind == ProviderSelect {
    } else {
      hide Explain, RunMetadata;
    }
  }

  lemma OptionalKeysExactly(trace: Option<string>, syscallId: string, bound: bool)
    ensures var keys := OptionalKeys(trace, syscallId, bound);
      && "policy_decision" in keys && "convergence_reason_code" in keys
      && ("trace_id" in keys <==> trace.Some? && trace.value != "")
      && ("syscall_id" in keys <==> syscallId != "")
      && ("provider_id" in keys <==> bound) && ("provider_source" in keys <==> bound)
  {}

  // ---- where it takes a session -------------------------------------------------------------------------------------

  /** Where the answer of the router takes a running session. */
  function AnsweredState(s: SyscallResult, allowed: bool): LoopState {
    if s.success then Running
    else if s.requiresApproval then WaitingApproval
    else if s.blockedRisk || !allowed then HaltedBlocked
    else HaltedFailure
  }

  /** End to end: after a dispatched command a running session stays running exactly if the router reports
      success, and records the completed syscall exactly if that was no dry run; it waits for approval, is
      halted as blocked, or is halted with failure as the router and the policy engine answer. */
  lemma DispatchMovesSession(r: Runner, c: Command, explain: bool, s: Session)
    requires s.state == Running && Run(r, c, explain).calls != []
    ensures r.router.Some?
    ensures var ran := Run(r, c, explain);
      var a, d := r.router.value.answer(ran.calls[0]), r.policy(c);
      var s' := Consumed(TABLE, s, ran.result).0;
      && s'.state == AnsweredState(a, d.allowed)
      && |s'.events| > |s.events| && s'.events[..|s.events|] == s.events
      && (s'.events[|s'.events| - 1].event == SyscallCompleted <==> a.success && !a.dryRun)
      && s'.refs == s.refs + [AciRef(c.id, StatusText(AnsweredStatus(a, d.allowed)), a.success)]
  {
    hide *;
    DispatchReports(r, c, explain);
    NeverRepairable(r, c, explain);
    var ran := Run(r, c, explain);
    MovedByAnswer(r.router.value.answer(ran.calls[0]), r.policy(c).allowed, ran.result, s);
  }

  lemma MovedByAnswer(a: SyscallResult, allowed: bool, result: Result, s: Session)
    requires s.state == Running && !result.repairable && !result.noProgress
    requires result.status == AnsweredStatus(a, allowed) && result.dryRun == a.dryRun
    ensures var s' := Consumed(TABLE, s, result).0;
      && s'.state == AnsweredState(a, allowed)
      && |s'.events| > |s.events| && s'.events[..|s.events|] == s.events
      && (s'.events[|s'.events| - 1].event == SyscallCompleted <==> a.success && !a.dryRun)
      && s'.refs == s.refs + [AciRef(result.commandId, StatusText(result.status), result.success)]
  {
    hide *;
    FollowUpOfAnswer(a, allowed, result);
    ConsumedShape(s, result);
    ReferenceIs(result);
  }

  lemma ReferenceIs(result: Result)
    ensures RefOf(result) == AciRef(result.commandId, StatusText(result.status), result.success)
  {}

  lemma FollowUpOfAnswer(a: SyscallResult, allowed: bool, result: Result)
    requires result.status == AnsweredStatus(a, allowed) && result.dryRun == a.dryRun
    requires !result.repairable && !result.noProgress
    ensures var (_, e) := FollowUpOf(result);
      var last := if e.Some? then e.value else ProgressUpdated;
      Onward(last) == AnsweredState(a, allowed)
      && (last == SyscallCompleted <==> a.success && !a.dryRun)
  {
    hide IsPolicyDenial;
  }

  /** A command that is turned away for its shape is recorded as denied by the policy engine unless the
      policy engine allows it and gives a code that is none of its denials: the code of a blocked command
      defaults to `policy_denied`. */
  lemma TurnedAwayEvent(r: Runner, c: Command)
    requires c.kind != ExplainOnly && c.kind != ProviderSelect && Issues(c) != []
    ensures var d := r.policy(c);
      Desired(Run(r, c, false).result) ==
        if !d.allowed || PolicyDenialReason(FirstCode(d.reasonCodes + d.allReasonCodes, "policy_denied"))
        then [PolicyDenied] else [ConvergenceHaltBlocked]
  {
    RunReports(r, c);
    ReportNamesCommand(r, c, false);
    hide Run, PolicyDenialReason, FirstCode;
    var d, result := r.policy(c), Run(r, c, false).result;
    var code := FirstCode(d.reasonCodes + d.allReasonCodes, "policy_denied");
    assert result.reasonCodes == [code];
    assert code in result.reasonCodes;
  }
}
