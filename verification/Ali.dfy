/** The Agent Loop Interface: the transition table, the session and the table-driven machine. */
module Ali {
  import opened Text

  datatype LoopState =
    | Created | Ready | Running | WaitingApproval | Repairing | Replanning | AskingUser
    | HaltedSuccess | HaltedFailure | HaltedBlocked

  datatype Event =
    | GoalSubmitted | CommandSubmitted | PolicyAllowed | PolicyDenied | ApprovalRequired
    | SyscallCompleted | SyscallFailed | ObservationRecorded | EvaluationApplied | ProgressUpdated
    | ConvergenceContinue | ConvergenceRepair | ConvergenceReplan | ConvergenceAsk
    | ConvergenceHaltSuccess | ConvergenceHaltFailure | ConvergenceHaltBlocked

  predicate Halted(s: LoopState) { s == HaltedSuccess || s == HaltedFailure || s == HaltedBlocked }

  datatype Row = Row(state: LoopState, event: Event, next: LoopState, reason: string, required: seq<string>)

  function R(state: LoopState, event: Event, next: LoopState, reason: string): Row {
    Row(state, event, next, reason, [])
  }

  const TABLE: seq<Row> := [
    R(Created, GoalSubmitted, Ready, "ali.goal_submitted"),
    R(Ready, CommandSubmitted, Running, "ali.command_submitted"),
    R(Running, PolicyAllowed, Running, "ali.policy_allowed"),
    R(Running, PolicyDenied, HaltedBlocked, "ali.policy_denied"),
    R(Running, ApprovalRequired, WaitingApproval, "ali.approval_required"),
    R(WaitingApproval, PolicyAllowed, Running, "ali.approval_granted"),
    R(WaitingApproval, PolicyDenied, HaltedBlocked, "ali.approval_denied"),
    R(Running, SyscallCompleted, Running, "ali.syscall_completed"),
    R(Running, SyscallFailed, Repairing, "ali.syscall_failed_repairable"),
    R(Running, ObservationRecorded, Running, "ali.observation_recorded"),
    R(Running, EvaluationApplied, Running, "ali.evaluation_applied"),
    R(Running, ProgressUpdated, Running, "ali.progress_updated"),
    R(Repairing, CommandSubmitted, Running, "ali.repair_command_submitted"),
    R(Repairing, SyscallFailed, Replanning, "ali.repair_repeated_failure"),
    R(Running, ConvergenceReplan, Replanning, "ali.convergence_replan"),
    R(Repairing, ConvergenceReplan, Replanning, "ali.repair_to_replan"),
    R(Replanning, CommandSubmitted, Running, "ali.replan_command_submitted"),
    R(Running, ConvergenceAsk, AskingUser, "ali.convergence_ask"),
    R(Repairing, ConvergenceAsk, AskingUser, "ali.repair_to_ask"),
    R(AskingUser, CommandSubmitted, Running, "ali.user_response_received"),
    R(Running, ConvergenceContinue, Running, "ali.convergence_continue"),
    R(Running, ConvergenceHaltSuccess, HaltedSuccess, "ali.halt_success"),
    R(Repairing, ConvergenceHaltSuccess, HaltedSuccess, "ali.halt_success"),
    R(Replanning, ConvergenceHaltSuccess, HaltedSuccess, "ali.halt_success"),
    R(AskingUser, ConvergenceHaltSuccess, HaltedSuccess, "ali.halt_success"),
    R(WaitingApproval, ConvergenceHaltSuccess, HaltedSuccess, "ali.halt_success"),
    R(Running, ConvergenceHaltFailure, HaltedFailure, "ali.halt_failure"),
    R(Repairing, ConvergenceHaltFailure, HaltedFailure, "ali.halt_failure"),
    R(Replanning, ConvergenceHaltFailure, HaltedFailure, "ali.halt_failure"),
    R(AskingUser, ConvergenceHaltFailure, HaltedFailure, "ali.halt_failure"),
    R(WaitingApproval, ConvergenceHaltFailure, HaltedFailure, "ali.halt_failure"),
    R(Running, ConvergenceHaltBlocked, HaltedBlocked, "ali.halt_blocked"),
    R(Repairing, ConvergenceHaltBlocked, HaltedBlocked, "ali.halt_blocked"),
    R(Replanning, ConvergenceHaltBlocked, HaltedBlocked, "ali.halt_blocked"),
    R(AskingUser, ConvergenceHaltBlocked, HaltedBlocked, "ali.halt_blocked"),
    R(WaitingApproval, ConvergenceHaltBlocked, HaltedBlocked, "ali.halt_blocked")]

  /** `_VALID_EVENTS`: the events that occur in the default table, whatever table an engine holds. */
  predicate Known(e: Event) { exists i :: 0 <= i < |TABLE| && TABLE[i].event == e }

  /** The index of a table: a later row for the same state and event replaces an earlier one. */
  function Index(table: seq<Row>): map<(LoopState, Event), Row> {
    if |table| == 0 then map[]
    else
      var last := table[|table| - 1];
      Index(table[..|table| - 1])[(last.state, last.event) := last]
  }

  datatype Error = UnknownEvent | SessionClosed | InvalidTransition

  /** One audit record; of the payload the model keeps which keys it has. */
  datatype Record = Record(seqNo: nat, event: Event, keys: set<string>, reason: string, next: LoopState)

  /** A compact reference to an ACI result. */
  datatype AciRef = AciRef(commandId: string, status: string, success: bool)

  /** The contents of a session. */
  datatype Session = Session(state: LoopState, events: seq<Record>, refs: seq<AciRef>)

  datatype Outcome = Recorded(record: Record) | Refused(error: Error)

  /** What `apply` answers. */
  function Answer(index: map<(LoopState, Event), Row>, s: Session, event: Event, keys: set<string>): Outcome {
    if !Known(event) then Refused(UnknownEvent)
    else if Halted(s.state) then Refused(SessionClosed)
    else if (s.state, event) !in index then Refused(InvalidTransition)
    else
      var row := index[(s.state, event)];
      if exists k | k in row.required :: k !in keys then Refused(InvalidTransition)
      else Recorded(Record(|s.events|, event, keys, row.reason, row.next))
  }

  /** What `apply` makes of the session: a recorded event is appended, a refused one changes nothing. */
  function After(index: map<(LoopState, Event), Row>, s: Session, event: Event, keys: set<string>): Session {
    match Answer(index, s, event, keys)
    case Refused(_) => s
    case Recorded(record) => s.(state := record.next, events := s.events + [record])
  }

  class AgentLoopSession {
    var state: LoopState
    var events: seq<Record>
    var aciRefs: seq<AciRef>
    const maxEvents: nat

    function Now(): Session
      reads this
    {
      Session(state, events, aciRefs)
    }

    constructor (maxEvents: nat)
      ensures Now() == Session(Created, [], []) && this.maxEvents == maxEvents
    {
      state, events, aciRefs := Created, [], [];
      this.maxEvents := maxEvents;
    }

    method AttachAciResult(ref: AciRef)
      modifies this
      ensures Now() == old(Now()).(refs := old(aciRefs) + [ref])
    {
      aciRefs := aciRefs + [ref];
    }
  }

  class AgentLoopFSM {
    const table: seq<Row>
    const index: map<(LoopState, Event), Row>

    ghost predicate Valid() { index == Index(table) }

    constructor (table: seq<Row>)
      ensures Valid() && this.table == table
    {
      var built: map<(LoopState, Event), Row> := map[];
      var i := 0;
      while i < |table|
        invariant 0 <= i <= |table| && built == Index(table[..i])
      {
        assert table[..i + 1][..i] == table[..i];
        built := built[(table[i].state, table[i].event) := table[i]];
        i := i + 1;
      }
      assert table[..i] == table;
      this.table := table;
      this.index := built;
    }

    /** `apply`: appends the record and moves the state, or raises and changes nothing. */
    method Apply(session: AgentLoopSession, event: Event, keys: set<string>) returns (r: Outcome)
      requires Valid()
      modifies session
      ensures r == Answer(Index(table), old(session.Now()), event, keys)
      ensures session.Now() == After(Index(table), old(session.Now()), event, keys)
    {
      hide Known, TABLE;
      if !Known(event) { return Refused(UnknownEvent); }
      if Halted(session.state) { return Refused(SessionClosed); }
      if (session.state, event) !in index { return Refused(InvalidTransition); }
      var row := index[(session.state, event)];
      if exists k | k in row.required :: k !in keys { return Refused(InvalidTransition); }
      var record := Record(|session.events|, event, keys, row.reason, row.next);
      session.events := session.events + [record];
      session.state := row.next;
      return Recorded(record);
    }
  }
}
