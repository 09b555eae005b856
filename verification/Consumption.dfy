/** Consuming an ACI result: the mapping to events, the filter, and atomicity of the event log. */
module Consumption {
  import opened Text
  import opened Ali
  import opened AliLaws

  datatype Status = Completed | DryRunStatus | NeedsApproval | Blocked | Unsupported | Failed

  function StatusText(s: Status): string {
    match s
    case Completed => "completed"
    case DryRunStatus => "dry_run"
    case NeedsApproval => "approval_required"
    case Blocked => "blocked"
    case Unsupported => "unsupported"
    case Failed => "failed"
  }

  /** The parts of an `AgentCommandResult` that consumption reads. `policyAllowed` is the summary's
      `allowed` flag; `optionalKeys` are the payload keys that are present only sometimes. */
  datatype Result = Result(
    commandId: string, status: Status, success: bool, dryRun: bool, policyAllowed: Option<bool>,
    reasonCodes: seq<string>, repairable: bool, noProgress: bool, optionalKeys: set<string>)

  predicate PolicyDenialReason(code: string) {
    code in {"policy_denied", "terminal_rm_rf_denied", "remote_script_pipe_denied", "network_access_denied",
             "git_tag_denied", "release_evidence_mutation_denied"}
  }

  /** `_is_policy_denial` */
  predicate IsPolicyDenial(r: Result) {
    r.policyAllowed == Some(false) || exists code | code in r.reasonCodes :: PolicyDenialReason(code)
  }

  /** `_desired_event_sequence`; every `AgentCommandStatus` has its branch. */
  function Desired(r: Result): seq<Event> {
    match r.status
    case Completed => if r.dryRun then [ProgressUpdated] else [ProgressUpdated, SyscallCompleted]
    case DryRunStatus => [ProgressUpdated]
    case NeedsApproval => [ApprovalRequired]
    case Blocked => if IsPolicyDenial(r) then [PolicyDenied] else [ConvergenceHaltBlocked]
    case Unsupported => [ConvergenceHaltFailure]
    case Failed =>
      if r.repairable then [ProgressUpdated, SyscallFailed]
      else if r.noProgress then [ProgressUpdated, ConvergenceReplan]
      else [ProgressUpdated, ConvergenceHaltFailure]
  }

  predicate ValidIn(table: seq<Row>, s: LoopState, e: Event) {
    exists i :: 0 <= i < |table| && table[i].state == s && table[i].event == e
  }

  /** `_filter_for_state` */
  function Filtered(table: seq<Row>, desired: seq<Event>, s: LoopState): seq<Event> {
    if |desired| == 0 then []
    else (if ValidIn(table, s, desired[0]) then [desired[0]] else []) + Filtered(table, desired[1..], s)
  }

  /** The keys of `_extract_event_payload`. */
  function PayloadKeys(r: Result): set<string> {
    {"command_id", "goal_id", "aci_status", "aci_success", "reason_codes", "messages"} + r.optionalKeys
  }

  datatype Answered = Records(records: seq<Record>) | Raised(error: Error)

  /** The events applied one after the other; the first refusal is raised. */
  function ApplyEach(index: map<(LoopState, Event), Row>, s: Session, events: seq<Event>, keys: set<string>)
    : (Session, Answered)
    decreases |events|
  {
    hide Answer, After;
    if |events| == 0 then (s, Records([]))
    else
      match Answer(index, s, events[0], keys)
      case Refused(error) => (s, Raised(error))
      case Recorded(record) =>
        var (s', rest) := ApplyEach(index, After(index, s, events[0], keys), events[1..], keys);
        (s', match rest case Raised(error) => Raised(error) case Records(rs) => Records([record] + rs))
  }

  function RefOf(r: Result): AciRef { AciRef(r.commandId, StatusText(r.status), r.success) }

  /** `consume_aci_result`: the session afterwards and what the caller gets. */
  function Consumed(table: seq<Row>, s: Session, r: Result): (Session, Answered) {
    if Halted(s.state) then (s, Raised(SessionClosed))
    else
      var attached := s.(refs := s.refs + [RefOf(r)]);
      var events := Filtered(table, Desired(r), s.state);
      if events == [] then (attached, Raised(InvalidTransition))
      else ApplyEach(Index(table), attached, events, PayloadKeys(r))
  }

  lemma ApplyEachRecords(index: map<(LoopState, Event), Row>, s: Session, events: seq<Event>, keys: set<string>)
    requires |events| > 0 && Answer(index, s, events[0], keys).Recorded?
    ensures var rest := ApplyEach(index, After(index, s, events[0], keys), events[1..], keys);
      var all := ApplyEach(index, s, events, keys);
      all.0 == rest.0
      && (rest.1.Records? ==> all.1 == Records([Answer(index, s, events[0], keys).record] + rest.1.records))
      && (rest.1.Raised? ==> all.1 == rest.1)
  {
    hide Answer, After;
  }

  /** What is still to be applied, after some records, completes the whole answer. */
  ghost predicate Completes(index: map<(LoopState, Event), Row>, now: Session, events: seq<Event>, keys: set<string>,
                            done: seq<Record>, all: (Session, Answered)) {
    var rest := ApplyEach(index, now, events, keys);
    rest.0 == all.0 && all.1 == match rest.1 case Raised(error) => Raised(error) case Records(rs) => Records(done + rs)
  }

  lemma CompletesStep(table: seq<Row>, now: Session, events: seq<Event>, i: nat, keys: set<string>,
                      done: seq<Record>, all: (Session, Answered))
    requires i < |events| && Completes(Index(table), now, events[i..], keys, done, all)
    ensures match Answer(Index(table), now, events[i], keys)
      case Refused(error) => all == (now, Raised(error)) && After(Index(table), now, events[i], keys) == now
      case Recorded(record) =>
        Completes(Index(table), After(Index(table), now, events[i], keys), events[i + 1..], keys, done + [record], all)
  {
    hide Index, Answer, After, Known, Lookup, FromRow, Halted;
    RecordedIff(table, now, events[i], keys);
    var index, rest := Index(table), events[i..];
    assert rest[0] == events[i] && rest[1..] == events[i + 1..];
    match Answer(index, now, events[i], keys)
    case Refused(error) => assert ApplyEach(index, now, rest, keys) == (now, Raised(error));
    case Recorded(record) =>
      ApplyEachRecords(index, now, rest, keys);
      var later := ApplyEach(index, After(index, now, events[i], keys), events[i + 1..], keys);
      hide ApplyEach;
      if later.1.Records? { assert done + ([record] + later.1.records) == (done + [record]) + later.1.records; }
  }

  lemma CompletesEnds(index: map<(LoopState, Event), Row>, now: Session, keys: set<string>, done: seq<Record>,
                      all: (Session, Answered))
    requires Completes(index, now, [], keys, done, all)
    ensures all == (now, Records(done))
  {
    assert done + [] == done;
  }

  lemma CompletesStarts(index: map<(LoopState, Event), Row>, now: Session, events: seq<Event>, keys: set<string>)
    ensures Completes(index, now, events[0..], keys, [], ApplyEach(index, now, events, keys))
  {
    hide ApplyEach;
    assert events[0..] == events;
    var rest := ApplyEach(index, now, events, keys);
    if rest.1.Records? { assert [] + rest.1.records == rest.1.records; }
  }

  method ConsumeAciResult(fsm: AgentLoopFSM, session: AgentLoopSession, r: Result) returns (answer: Answered)
    requires fsm.Valid()
    modifies session
    ensures (session.Now(), answer) == Consumed(fsm.table, old(session.Now()), r)
  {
    hide Desired, IsPolicyDenial, Index, PayloadKeys, Answer, After, ApplyEach, Filtered, Completes;
    if Halted(session.state) { return Raised(SessionClosed); }
    session.AttachAciResult(RefOf(r));
    var events := Filtered(fsm.table, Desired(r), session.state);
    if events == [] { return Raised(InvalidTransition); }
    var keys := PayloadKeys(r);
    var records := [];
    var i := 0;
    ghost var all := ApplyEach(Index(fsm.table), session.Now(), events, keys);
    CompletesStarts(Index(fsm.table), session.Now(), events, keys);
    while i < |events|
      invariant 0 <= i <= |events|
      invariant Completes(Index(fsm.table), session.Now(), events[i..], keys, records, all)
    {
      CompletesStep(fsm.table, session.Now(), events, i, keys, records, all);
      var outcome := fsm.Apply(session, events[i], keys);
      if outcome.Refused? { return Raised(outcome.error); }
      records := records + [outcome.record];
      i := i + 1;
    }
    assert events[i..] == [];
    CompletesEnds(Index(fsm.table), session.Now(), keys, records, all);
    return Records(records);
  }

  // ---- atomicity --------------------------------------------------------------------------------------------------

  /** The call records every filtered event, or raises with state and event log unchanged. */
  ghost predicate AtomicOn(table: seq<Row>, s: Session, r: Result) {
    var (s', answer) := Consumed(table, s, r);
    match answer
    case Raised(_) => s'.state == s.state && s'.events == s.events
    case Records(records) =>
      && s'.events == s.events + records
      && |records| == |Filtered(table, Desired(r), s.state)|
      && forall i :: 0 <= i < |records| ==> records[i].event == Filtered(table, Desired(r), s.state)[i]
  }

  /** Rows ask for no payload keys and their events are known. */
  ghost predicate OpenTable(table: seq<Row>) {
    forall i :: 0 <= i < |table| ==> table[i].required == [] && Known(table[i].event)
  }

  /** The events that can follow `progress_updated` in a desired sequence. */
  predicate FollowUp(e: Event) {
    e == SyscallCompleted || e == SyscallFailed || e == ConvergenceReplan || e == ConvergenceHaltFailure
  }

  /** No follow-up that is valid where progress is recorded is lost by recording progress. */
  ghost predicate KeepsFollowUps(table: seq<Row>) {
    forall s, e :: !Halted(s) && FollowUp(e) && ValidIn(table, s, ProgressUpdated) && ValidIn(table, s, e) ==>
      var next := Lookup(table, s, ProgressUpdated);
      next.Some? && !Halted(next.value.next) && ValidIn(table, next.value.next, e)
  }

  lemma ValidIsLookup(table: seq<Row>, s: LoopState, e: Event)
    ensures ValidIn(table, s, e) <==> Lookup(table, s, e).Some?
  {
    IndexIsLastMatch(table, s, e);
    LastMatchRow(table, s, e);
  }

  /** In an open table an event is accepted exactly where it is valid, except in a halted session. */
  lemma OpenAnswer(table: seq<Row>, s: Session, e: Event, keys: set<string>)
    requires OpenTable(table)
    ensures Answer(Index(table), s, e, keys).Recorded? <==> !Halted(s.state) && ValidIn(table, s.state, e)
    ensures Answer(Index(table), s, e, keys).Recorded? ==>
      var record := Answer(Index(table), s, e, keys).record;
      record.event == e && record.next == Lookup(table, s.state, e).value.next
      && After(Index(table), s, e, keys) == s.(state := record.next, events := s.events + [record])
  {
    hide Index, Known;
    ValidIsLookup(table, s.state, e);
    IndexIsLastMatch(table, s.state, e);
    LastMatchRow(table, s.state, e);
    if Lookup(table, s.state, e).Some? {
      var i :| 0 <= i < |table| && table[i] == Lookup(table, s.state, e).value;
      assert Known(table[i].event) && table[i].required == [];
    }
    RecordedIff(table, s, e, keys);
  }

  lemma DesiredShape(r: Result)
    ensures |Desired(r)| == 1 || (|Desired(r)| == 2 && Desired(r)[0] == ProgressUpdated && FollowUp(Desired(r)[1]))
  {}

  lemma FilteredOne(table: seq<Row>, e: Event, s: LoopState)
    ensures Filtered(table, [e], s) == if ValidIn(table, s, e) then [e] else []
  {
    assert [e][1..] == [];
  }

  lemma FilteredTwo(table: seq<Row>, e: Event, f: Event, s: LoopState)
    ensures Filtered(table, [e, f], s)
         == (if ValidIn(table, s, e) then [e] else []) + (if ValidIn(table, s, f) then [f] else [])
  {
    assert [e, f][1..] == [f];
    FilteredOne(table, f, s);
  }

  lemma ApplyOne(table: seq<Row>, s: Session, e: Event, keys: set<string>)
    requires OpenTable(table) && !Halted(s.state) && ValidIn(table, s.state, e)
    ensures Lookup(table, s.state, e).Some?
    ensures var (s', a) := ApplyEach(Index(table), s, [e], keys);
      a.Records? && |a.records| == 1 && a.records[0].event == e && s'.events == s.events + a.records
      && s'.state == Lookup(table, s.state, e).value.next
  {
    hide Answer, After, Index, Known, Lookup, ValidIn, OpenTable;
    OpenAnswer(table, s, e, keys);
    ValidIsLookup(table, s.state, e);
    assert [e][1..] == [];
  }

  /** The second event is judged in the state the first one leads to. */
  lemma ApplyTwo(table: seq<Row>, s: Session, e: Event, f: Event, keys: set<string>, next: LoopState)
    requires OpenTable(table) && !Halted(s.state) && ValidIn(table, s.state, e)
    requires Lookup(table, s.state, e).Some? && Lookup(table, s.state, e).value.next == next
    ensures var (s', a) := ApplyEach(Index(table), s, [e, f], keys);
      if !Halted(next) && ValidIn(table, next, f) then
        a.Records? && |a.records| == 2 && a.records[0].event == e && a.records[1].event == f
        && s'.events == s.events + a.records
      else a.Raised? && |s'.events| == |s.events| + 1
  {
    hide Answer, After, Index, Known, Lookup, ValidIn, OpenTable, Halted;
    OpenAnswer(table, s, e, keys);
    var both := [e, f];
    assert both[1..] == [f];
    var record := Answer(Index(table), s, e, keys).record;
    var s1 := After(Index(table), s, e, keys);
    OpenAnswer(table, s1, f, keys);
    if !Halted(next) && ValidIn(table, next, f) {
      ApplyOne(table, s1, f, keys);
      hide ApplyEach;
      var rest := ApplyEach(Index(table), s1, [f], keys).1;
      ApplyEachRecords(Index(table), s, both, keys);
      assert s.events + [record] + rest.records == s.events + ([record] + rest.records);
    } else {
      ApplyRefused(Index(table), s, e, f, keys);
    }
  }

  lemma ApplyRefused(index: map<(LoopState, Event), Row>, s: Session, e: Event, f: Event, keys: set<string>)
    requires Answer(index, s, e, keys).Recorded? && Answer(index, After(index, s, e, keys), f, keys).Refused?
    ensures ApplyEach(index, s, [e, f], keys).0 == After(index, s, e, keys)
    ensures ApplyEach(index, s, [e, f], keys).1.Raised?
  {
    hide Answer, After;
    var both := [e, f];
    assert both[1..] == [f];
    ApplyEachRecords(index, s, both, keys);
  }

  lemma AtomicPair(table: seq<Row>, s: Session, r: Result, next: LoopState)
    requires OpenTable(table) && !Halted(s.state) && |Desired(r)| == 2
    requires ValidIn(table, s.state, ProgressUpdated) && ValidIn(table, s.state, Desired(r)[1])
    requires Lookup(table, s.state, ProgressUpdated).Some? && Lookup(table, s.state, ProgressUpdated).value.next == next
    ensures AtomicOn(table, s, r) <==> !Halted(next) && ValidIn(table, next, Desired(r)[1])
  {
    DesiredShape(r);
    var e := Desired(r)[1];
    var both := [ProgressUpdated, e];
    assert Desired(r) == both;
    hide Desired, OpenTable, ValidIn, Index, PayloadKeys, Lookup, Halted;
    FilteredTwo(table, ProgressUpdated, e, s.state);
    var attached := s.(refs := s.refs + [RefOf(r)]);
    assert [ProgressUpdated] + [e] == both;
    ApplyTwo(table, attached, ProgressUpdated, e, PayloadKeys(r), next);
    hide ApplyEach, Filtered;
  }

  /** With at most one event left after filtering there is nothing to tear apart. */
  lemma AtomicSingle(table: seq<Row>, s: Session, r: Result)
    requires OpenTable(table)
    requires !(!Halted(s.state) && |Desired(r)| == 2
               && ValidIn(table, s.state, ProgressUpdated) && ValidIn(table, s.state, Desired(r)[1]))
    ensures AtomicOn(table, s, r)
  {
    hide Desired, ValidIn, Index, PayloadKeys, OpenTable, Filtered, ApplyEach, Lookup;
    if !Halted(s.state) {
      var attached := s.(refs := s.refs + [RefOf(r)]);
      FilteredShort(table, r, s.state);
      var f := Filtered(table, Desired(r), s.state);
      if |f| == 1 {
        var e := f[0];
        assert f == [e];
        ApplyOne(table, attached, e, PayloadKeys(r));
      }
    }
  }

  lemma FilteredShort(table: seq<Row>, r: Result, s: LoopState)
    requires !(|Desired(r)| == 2 && ValidIn(table, s, ProgressUpdated) && ValidIn(table, s, Desired(r)[1]))
    ensures var f := Filtered(table, Desired(r), s); |f| == 0 || (|f| == 1 && ValidIn(table, s, f[0]))
  {
    DesiredShape(r);
    var d := Desired(r);
    hide Desired, ValidIn, Filtered;
    if |d| == 1 {
      assert d == [d[0]];
      FilteredOne(table, d[0], s);
    } else {
      assert d == [ProgressUpdated, d[1]];
      FilteredTwo(table, ProgressUpdated, d[1], s);
    }
  }

  /** A result that asks for progress and then the given follow-up. */
  function Witness(e: Event): Result {
    var status := if e == SyscallCompleted then Completed else Failed;
    Result("", status, false, false, None, [], e == SyscallFailed, e == ConvergenceReplan, {})
  }

  /** Although it filters against the starting state only, `consume_aci_result` is atomic on events
      for every session and result if and only if the table keeps follow-ups. */
  lemma AtomicIff(table: seq<Row>)
    requires OpenTable(table)
    ensures (forall s, r :: AtomicOn(table, s, r)) <==> KeepsFollowUps(table)
  {
    hide AtomicOn, Desired, ValidIn, OpenTable, Lookup, KeepsFollowUps;
    if KeepsFollowUps(table) {
      forall s, r ensures AtomicOn(table, s, r) { KeptIsAtomic(table, s, r); }
    }
    if forall s, r :: AtomicOn(table, s, r) {
      AtomicIsKept(table);
    }
  }

  lemma KeptIsAtomic(table: seq<Row>, s: Session, r: Result)
    requires OpenTable(table) && KeepsFollowUps(table)
    ensures AtomicOn(table, s, r)
  {
    DesiredShape(r);
    hide AtomicOn, Desired, ValidIn, OpenTable;
    if !Halted(s.state) && |Desired(r)| == 2
       && ValidIn(table, s.state, ProgressUpdated) && ValidIn(table, s.state, Desired(r)[1]) {
      ValidIsLookup(table, s.state, ProgressUpdated);
      AtomicPair(table, s, r, Lookup(table, s.state, ProgressUpdated).value.next);
    } else {
      AtomicSingle(table, s, r);
    }
  }

  lemma AtomicIsKept(table: seq<Row>)
    requires OpenTable(table) && forall s, r :: AtomicOn(table, s, r)
    ensures KeepsFollowUps(table)
  {
    forall s, e | !Halted(s) && FollowUp(e) && ValidIn(table, s, ProgressUpdated) && ValidIn(table, s, e)
      ensures Lookup(table, s, ProgressUpdated).Some?
      ensures var next := Lookup(table, s, ProgressUpdated).value.next; !Halted(next) && ValidIn(table, next, e)
    {
      ValidIsLookup(table, s, ProgressUpdated);
      var r := Witness(e);
      assert Desired(r) == [ProgressUpdated, e];
      assert AtomicOn(table, Session(s, [], []), r);
      AtomicPair(table, Session(s, [], []), r, Lookup(table, s, ProgressUpdated).value.next);
    }
  }

  /** In particular for every open table whose progress rows all loop, such as the default table. */
  lemma SelfLoopsKeep(table: seq<Row>)
    requires forall i :: 0 <= i < |table| && table[i].event == ProgressUpdated ==> table[i].next == table[i].state
    ensures KeepsFollowUps(table)
  {
    forall s | ValidIn(table, s, ProgressUpdated)
      ensures Lookup(table, s, ProgressUpdated).Some? && Lookup(table, s, ProgressUpdated).value.next == s
    {
      hide Lookup, ValidIn;
      ValidIsLookup(table, s, ProgressUpdated);
      IndexIsLastMatch(table, s, ProgressUpdated);
      LastMatchRow(table, s, ProgressUpdated);
    }
  }

  lemma DefaultTableIsAtomic(s: Session, r: Result)
    ensures AtomicOn(TABLE, s, r)
  {
    hide TABLE, AtomicOn, KeepsFollowUps;
    forall i | 0 <= i < |TABLE|
      ensures TABLE[i].required == [] && Known(TABLE[i].event)
      ensures TABLE[i].event == ProgressUpdated ==> TABLE[i].next == TABLE[i].state
    {
      TableKeepsBooks(i);
    }
    SelfLoopsKeep(TABLE);
    KeptIsAtomic(TABLE, s, r);
  }

  /** The reference is attached even when the call then raises, unless the session is halted. */
  lemma ReferenceStays(table: seq<Row>, s: Session, r: Result)
    ensures Consumed(table, s, r).0.refs == if Halted(s.state) then s.refs else s.refs + [RefOf(r)]
  {
    hide Answer, Index, Filtered, Desired;
    if !Halted(s.state) {
      var attached := s.(refs := s.refs + [RefOf(r)]);
      ApplyKeepsRefs(Index(table), attached, Filtered(table, Desired(r), s.state), PayloadKeys(r));
    }
  }

  lemma {:induction false} ApplyKeepsRefs(index: map<(LoopState, Event), Row>, s: Session, events: seq<Event>,
                                          keys: set<string>)
    ensures ApplyEach(index, s, events, keys).0.refs == s.refs
    decreases |events|
  {
    hide Answer;
    if |events| > 0 { ApplyKeepsRefs(index, After(index, s, events[0], keys), events[1..], keys); }
  }
}
