/** What the default table says, event by event, and what the state of a session says about its log. */
module AliStates {
  import opened Text
  import opened Ali
  import opened AliLaws

  // ---- the default table, event by event -----------------------------------------------------------------------

  /** Work is under way and can be brought to a halt. */
  predicate UnderWay(s: LoopState) {
    s == Running || s == WaitingApproval || s == Repairing || s == Replanning || s == AskingUser
  }

  /** Where an event takes a session: each event has its states, and one target in all of them, except
      that a failed syscall is repaired first and sends a repair back to planning. */
  function Target(s: LoopState, e: Event): Option<LoopState> {
    match e
    case GoalSubmitted => if s == Created then Some(Ready) else None
    case CommandSubmitted => if s == Ready || Detour(s) then Some(Running) else None
    case PolicyAllowed => if s == Running || s == WaitingApproval then Some(Running) else None
    case PolicyDenied => if s == Running || s == WaitingApproval then Some(HaltedBlocked) else None
    case ApprovalRequired => if s == Running then Some(WaitingApproval) else None
    case SyscallFailed => if s == Running then Some(Repairing) else if s == Repairing then Some(Replanning) else None
    case ConvergenceReplan => if s == Running || s == Repairing then Some(Replanning) else None
    case ConvergenceAsk => if s == Running || s == Repairing then Some(AskingUser) else None
    case ConvergenceHaltSuccess => if UnderWay(s) then Some(HaltedSuccess) else None
    case ConvergenceHaltFailure => if UnderWay(s) then Some(HaltedFailure) else None
    case ConvergenceHaltBlocked => if UnderWay(s) then Some(HaltedBlocked) else None
    case ConvergenceRepair => None
    case _ => if s == Running then Some(Running) else None
  }

  /** The reason code that is recorded with it. */
  function Reason(s: LoopState, e: Event): string {
    match e
    case GoalSubmitted => "ali.goal_submitted"
    case CommandSubmitted => (
      match s
      case Repairing => "ali.repair_command_submitted"
      case Replanning => "ali.replan_command_submitted"
      case AskingUser => "ali.user_response_received"
      case _ => "ali.command_submitted")
    case PolicyAllowed => if s == WaitingApproval then "ali.approval_granted" else "ali.policy_allowed"
    case PolicyDenied => if s == WaitingApproval then "ali.approval_denied" else "ali.policy_denied"
    case ApprovalRequired => "ali.approval_required"
    case SyscallCompleted => "ali.syscall_completed"
    case SyscallFailed => if s == Repairing then "ali.repair_repeated_failure" else "ali.syscall_failed_repairable"
    case ObservationRecorded => "ali.observation_recorded"
    case EvaluationApplied => "ali.evaluation_applied"
    case ProgressUpdated => "ali.progress_updated"
    case ConvergenceContinue => "ali.convergence_continue"
    case ConvergenceRepair => ""
    case ConvergenceReplan => if s == Repairing then "ali.repair_to_replan" else "ali.convergence_replan"
    case ConvergenceAsk => if s == Repairing then "ali.repair_to_ask" else "ali.convergence_ask"
    case ConvergenceHaltSuccess => "ali.halt_success"
    case ConvergenceHaltFailure => "ali.halt_failure"
    case ConvergenceHaltBlocked => "ali.halt_blocked"
  }

  predicate Right(row: Row) {
    Target(row.state, row.event) == Some(row.next) && row.reason == Reason(row.state, row.event) && row.required == []
  }

  lemma RowRight(i: nat)
    requires i < |TABLE|
    ensures Right(TABLE[i])
  {
    hide Right;
    if i < 12 {
      if i < 6 { RowRight0(i); } else { RowRight1(i); }
    } else if i < 24 {
      if i < 18 { RowRight2(i); } else { RowRight3(i); }
    } else {
      if i < 30 { RowRight4(i); } else { RowRight5(i); }
    }
  }

  lemma RowRight0(i: nat)
    requires i < 6
    ensures Right(TABLE[i])
  {}

  lemma RowRight1(i: nat)
    requires 6 <= i < 12
    ensures Right(TABLE[i])
  {}

  lemma RowRight2(i: nat)
    requires 12 <= i < 18
    ensures Right(TABLE[i])
  {}

  lemma RowRight3(i: nat)
    requires 18 <= i < 24
    ensures Right(TABLE[i])
  {}

  lemma RowRight4(i: nat)
    requires 24 <= i < 30
    ensures Right(TABLE[i])
  {}

  lemma RowRight5(i: nat)
    requires 30 <= i < |TABLE|
    ensures Right(TABLE[i])
  {}

  predicate HasRow(s: LoopState, e: Event) {
    exists i :: 0 <= i < |TABLE| && TABLE[i].state == s && TABLE[i].event == e
  }

  lemma RowAt(i: nat, s: LoopState, e: Event)
    requires i < |TABLE| && TABLE[i].state == s && TABLE[i].event == e
    ensures HasRow(s, e)
  {
    hide TABLE;
  }

  lemma SubmitRows()
    ensures HasRow(Created, GoalSubmitted) && HasRow(Ready, CommandSubmitted) && HasRow(Repairing, CommandSubmitted)
    ensures HasRow(Replanning, CommandSubmitted) && HasRow(AskingUser, CommandSubmitted)
  {
    hide HasRow;
    RowAt(0, Created, GoalSubmitted);
    RowAt(1, Ready, CommandSubmitted);
    RowAt(12, Repairing, CommandSubmitted);
    RowAt(16, Replanning, CommandSubmitted);
    RowAt(19, AskingUser, CommandSubmitted);
  }

  lemma PolicyRows()
    ensures HasRow(Running, PolicyAllowed) && HasRow(WaitingApproval, PolicyAllowed)
    ensures HasRow(Running, PolicyDenied) && HasRow(WaitingApproval, PolicyDenied) && HasRow(Running, ApprovalRequired)
  {
    hide HasRow;
    RowAt(2, Running, PolicyAllowed);
    RowAt(5, WaitingApproval, PolicyAllowed);
    RowAt(3, Running, PolicyDenied);
    RowAt(6, WaitingApproval, PolicyDenied);
    RowAt(4, Running, ApprovalRequired);
  }

  lemma LoopRows()
    ensures HasRow(Running, SyscallCompleted) && HasRow(Running, ObservationRecorded)
    ensures HasRow(Running, EvaluationApplied)
    ensures HasRow(Running, ProgressUpdated) && HasRow(Running, ConvergenceContinue)
  {
    hide HasRow;
    RowAt(7, Running, SyscallCompleted);
    RowAt(9, Running, ObservationRecorded);
    RowAt(10, Running, EvaluationApplied);
    RowAt(11, Running, ProgressUpdated);
    RowAt(20, Running, ConvergenceContinue);
  }

  lemma DetourRows()
    ensures HasRow(Running, SyscallFailed) && HasRow(Repairing, SyscallFailed)
    ensures HasRow(Running, ConvergenceReplan) && HasRow(Repairing, ConvergenceReplan)
    ensures HasRow(Running, ConvergenceAsk) && HasRow(Repairing, ConvergenceAsk)
  {
    hide HasRow;
    RowAt(8, Running, SyscallFailed);
    RowAt(13, Repairing, SyscallFailed);
    RowAt(14, Running, ConvergenceReplan);
    RowAt(15, Repairing, ConvergenceReplan);
    RowAt(17, Running, ConvergenceAsk);
    RowAt(18, Repairing, ConvergenceAsk);
  }

  /** The place of a state among the rows of a halt. */
  function HaltPlace(s: LoopState): nat {
    match s
    case Running => 0
    case Repairing => 1
    case Replanning => 2
    case AskingUser => 3
    case _ => 4
  }

  lemma HaltRows(s: LoopState)
    requires UnderWay(s)
    ensures HasRow(s, ConvergenceHaltSuccess) && HasRow(s, ConvergenceHaltFailure) && HasRow(s, ConvergenceHaltBlocked)
  {
    hide HasRow;
    var k := HaltPlace(s);
    HaltRow(21 + k, s, ConvergenceHaltSuccess);
    HaltRow(26 + k, s, ConvergenceHaltFailure);
    HaltRow(31 + k, s, ConvergenceHaltBlocked);
  }

  lemma HaltRow(i: nat, s: LoopState, e: Event)
    requires UnderWay(s)
    requires var k := HaltPlace(s);
      (e == ConvergenceHaltSuccess && i == 21 + k) || (e == ConvergenceHaltFailure && i == 26 + k)
      || (e == ConvergenceHaltBlocked && i == 31 + k)
    ensures HasRow(s, e)
  {
    RowAt(i, s, e);
  }

  lemma TargetHasRow(s: LoopState, e: Event)
    ensures Target(s, e).Some? ==> HasRow(s, e)
  {
    hide HasRow;
    SubmitRows();
    PolicyRows();
    LoopRows();
    DetourRows();
    if UnderWay(s) { HaltRows(s); }
  }

  /** Looking a state and event up in the default table finds exactly the target and the reason. */
  lemma DefaultLookup(s: LoopState, e: Event)
    ensures var found := Lookup(TABLE, s, e);
      (match found case Some(row) => Some(row.next) case None => None) == Target(s, e)
      && (found.Some? ==> found.value.reason == Reason(s, e) && found.value.required == [])
  {
    hide TABLE, Index, Target, Reason;
    IndexIsLastMatch(TABLE, s, e);
    LastMatchRow(TABLE, s, e);
    TargetHasRow(s, e);
    if Lookup(TABLE, s, e).Some? {
      var i :| 0 <= i < |TABLE| && TABLE[i] == Lookup(TABLE, s, e).value;
      RowRight(i);
    }
  }

  lemma KnownExactly(e: Event)
    ensures Known(e) <==> e != ConvergenceRepair
  {
    hide Known;
    if Known(e) { KnownHasTarget(e); }
    if e != ConvergenceRepair { TargetIsKnown(FirstState(e), e); }
  }

  /** A state in which the event is taken, if there is one. */
  function FirstState(e: Event): (s: LoopState)
    ensures e != ConvergenceRepair ==> Target(s, e).Some?
  {
    if e == GoalSubmitted then Created else if e == CommandSubmitted then Ready else Running
  }

  lemma KnownHasTarget(e: Event)
    requires Known(e)
    ensures e != ConvergenceRepair
  {
    hide TABLE, Reason;
    var i :| 0 <= i < |TABLE| && TABLE[i].event == e;
    RowRight(i);
  }

  lemma TargetIsKnown(s: LoopState, e: Event)
    requires Target(s, e).Some?
    ensures Known(e)
  {
    hide TABLE, Target;
    TargetHasRow(s, e);
  }

  /** With the default table an attempt is recorded exactly if the event has a target in the state of the
      session; the record then names the event, its reason, the target and the payload keys, and is the
      session's next state. Otherwise `convergence_repair` is unknown, a halted session is closed, and
      every other transition is invalid. */
  lemma DefaultAnswer(s: Session, e: Event, keys: set<string>)
    ensures Answer(Index(TABLE), s, e, keys) ==
      match Target(s.state, e)
      case Some(next) => Recorded(Record(|s.events|, e, keys, Reason(s.state, e), next))
      case None =>
        Refused(
          if e == ConvergenceRepair then UnknownEvent
          else if Halted(s.state) then SessionClosed
          else InvalidTransition)
  {
    DefaultLookup(s.state, e);
    KnownExactly(e);
    hide TABLE, Index, Reason, Known;
  }

  /** For any table, which error an attempt is refused with. */
  lemma RefusedExactly(table: seq<Row>, s: Session, e: Event, keys: set<string>)
    ensures var a := Answer(Index(table), s, e, keys);
      && (a == Refused(UnknownEvent) <==> e == ConvergenceRepair)
      && (a == Refused(SessionClosed) <==> e != ConvergenceRepair && Halted(s.state))
      && (a == Refused(InvalidTransition) <==>
            && e != ConvergenceRepair && !Halted(s.state)
            && (Lookup(table, s.state, e).None?
                || exists k | k in Lookup(table, s.state, e).value.required :: k !in keys))
  {
    KnownExactly(e);
    hide Index, Known;
  }

  // ---- what the state says about the log -------------------------------------------------------------------------

  predicate KeepsRunning(e: Event) {
    e == CommandSubmitted || e == PolicyAllowed || e == SyscallCompleted || e == ObservationRecorded
    || e == EvaluationApplied || e == ProgressUpdated || e == ConvergenceContinue
  }

  /** The state after an event from a state, as the reader of a log would put it. */
  predicate Tells(before: LoopState, e: Event, after: LoopState) {
    && after != Created
    && (after == Ready <==> e == GoalSubmitted)
    && (after == Running <==> KeepsRunning(e))
    && (after == WaitingApproval <==> e == ApprovalRequired)
    && (after == Repairing <==> e == SyscallFailed && before == Running)
    && (after == Replanning <==> e == ConvergenceReplan || (e == SyscallFailed && before == Repairing))
    && (after == AskingUser <==> e == ConvergenceAsk)
    && (after == HaltedSuccess <==> e == ConvergenceHaltSuccess)
    && (after == HaltedFailure <==> e == ConvergenceHaltFailure)
    && (after == HaltedBlocked <==> e == PolicyDenied || e == ConvergenceHaltBlocked)
  }

  lemma TargetTells(s: LoopState, e: Event)
    requires Target(s, e).Some?
    ensures Tells(s, e, Target(s, e).value)
  {}

  /** After any attempts on the default table the state of the session is read off its last record (and,
      after a failed syscall, the state before it): it is CREATED exactly with an empty log, READY after
      the goal, WAITING_APPROVAL after approval_required, halted with success exactly after
      convergence_halt_success, with failure exactly after convergence_halt_failure, blocked exactly after
      policy_denied or convergence_halt_blocked, and so on. */
  lemma StateTellsLastEvent(attempts: seq<Attempt>)
    ensures var s := RunAll(TABLE, attempts);
      var n := |s.events|;
      && (s.state == Created <==> n == 0)
      && (n > 0 ==> Tells(Replayed(s.events[..n - 1]), s.events[n - 1].event, s.state))
  {
    hide TABLE, FromRow, Tells;
    LogExplainsState(TABLE, attempts);
    var log := RunAll(TABLE, attempts).events;
    if |log| > 0 {
      var n := |log| - 1;
      LastTells(Replayed(log[..n]), log[n]);
    }
  }

  lemma LastTells(before: LoopState, r: Record)
    requires FromRow(TABLE, before, r)
    ensures Tells(before, r.event, r.next) && r.next != Created
  {
    hide TABLE, Index, Reason;
    DefaultLookup(before, r.event);
    TargetTells(before, r.event);
  }
}
