/** What the audit log of a session says, over every run of any table and of the default table. */
module AliLaws {
  import opened Text
  import opened Ali

  // ---- the index and the row list ------------------------------------------------------------------------------

  /** The last row for the state and event, found by scanning the list. */
  function LastMatch(table: seq<Row>, s: LoopState, e: Event): Option<Row> {
    if |table| == 0 then None
    else
      var last := table[|table| - 1];
      if last.state == s && last.event == e then Some(last) else LastMatch(table[..|table| - 1], s, e)
  }

  function Lookup(table: seq<Row>, s: LoopState, e: Event): Option<Row> {
    var index := Index(table);
    if (s, e) in index then Some(index[(s, e)]) else None
  }

  /** For any table the index agrees with a last-match scan of the row list. */
  lemma {:induction false} IndexIsLastMatch(table: seq<Row>, s: LoopState, e: Event)
    ensures Lookup(table, s, e) == LastMatch(table, s, e)
  {
    if |table| > 0 { IndexIsLastMatch(table[..|table| - 1], s, e); }
  }

  lemma {:induction false} LastMatchRow(table: seq<Row>, s: LoopState, e: Event)
    ensures match LastMatch(table, s, e)
      case Some(row) => row.state == s && row.event == e && exists i :: 0 <= i < |table| && table[i] == row
      case None => forall i :: 0 <= i < |table| ==> table[i].state != s || table[i].event != e
  {
    if |table| > 0 {
      var n := |table| - 1;
      var init := table[..n];
      LastMatchRow(init, s, e);
      var r := LastMatch(table, s, e);
      if table[n].state == s && table[n].event == e {
        assert table[n] == r.value;
      } else {
        assert r == LastMatch(init, s, e);
        hide LastMatch;
        match r {
          case Some(row) =>
            var i :| 0 <= i < n && init[i] == row;
            assert table[i] == row;
          case None =>
            forall i | 0 <= i < |table| ensures table[i].state != s || table[i].event != e {
              if i < n { assert table[i] == init[i]; }
            }
        }
      }
    }
  }

  // ---- every run of any table ------------------------------------------------------------------------------------

  datatype Attempt = Attempt(event: Event, keys: set<string>)

  const FRESH := Session(Created, [], [])

  /** A session after a sequence of attempted events, whether they were recorded or refused. */
  function RunAll(table: seq<Row>, attempts: seq<Attempt>): Session {
    if |attempts| == 0 then FRESH
    else
      var last := attempts[|attempts| - 1];
      After(Index(table), RunAll(table, attempts[..|attempts| - 1]), last.event, last.keys)
  }

  /** The state the log leads to, replayed from the start. */
  function Replayed(events: seq<Record>): LoopState {
    if |events| == 0 then Created else events[|events| - 1].next
  }

  /** The record is the table row of the given state and its event. */
  ghost predicate FromRow(table: seq<Row>, s: LoopState, r: Record) {
    && Known(r.event) && !Halted(s)
    && Lookup(table, s, r.event).Some?
    && var row := Lookup(table, s, r.event).value;
       r.next == row.next && r.reason == row.reason && forall k :: k in row.required ==> k in r.keys
  }

  /** Every record is numbered by its place and explained by the records before it. */
  ghost predicate Explained(table: seq<Row>, events: seq<Record>) {
    forall i :: 0 <= i < |events| ==> events[i].seqNo == i && FromRow(table, Replayed(events[..i]), events[i])
  }

  /** An attempt is recorded exactly if the event is known, the session is not halted, the table has
      a row for it and the payload has the keys of that row; otherwise nothing changes. */
  lemma RecordedIff(table: seq<Row>, s: Session, e: Event, keys: set<string>)
    ensures Answer(Index(table), s, e, keys).Recorded? <==>
      Known(e) && !Halted(s.state) && Lookup(table, s.state, e).Some?
      && forall k :: k in Lookup(table, s.state, e).value.required ==> k in keys
    ensures Answer(Index(table), s, e, keys).Recorded? ==>
      FromRow(table, s.state, Answer(Index(table), s, e, keys).record)
      && Answer(Index(table), s, e, keys).record.seqNo == |s.events|
    ensures Answer(Index(table), s, e, keys).Refused? ==> After(Index(table), s, e, keys) == s
  {
    hide Known, Index;
  }

  /** For any table and any attempts on a fresh session: the log is numbered 0 to n-1, every record is
      the row of the state before it, none follows a halted state, and replaying the log from the
      start gives the current state. */
  lemma {:induction false} LogExplainsState(table: seq<Row>, attempts: seq<Attempt>)
    ensures var s := RunAll(table, attempts); Explained(table, s.events) && s.state == Replayed(s.events)
  {
    hide Known, Index, FromRow;
    if |attempts| > 0 {
      var n := |attempts| - 1;
      var s, a := RunAll(table, attempts[..n]), attempts[n];
      LogExplainsState(table, attempts[..n]);
      RecordedIff(table, s, a.event, a.keys);
      var s' := RunAll(table, attempts);
      if s' != s {
        assert |s'.events| == |s.events| + 1;
        forall i | 0 <= i < |s'.events|
          ensures s'.events[i].seqNo == i && FromRow(table, Replayed(s'.events[..i]), s'.events[i])
        {
          assert s'.events[..i] == s.events[..i];
          if i == |s.events| { assert s.events[..i] == s.events; }
        }
      }
    }
  }

  /** `convergence_repair` is in no row of the default table, so no engine ever records it. */
  lemma RepairIsUnknown(table: seq<Row>, s: Session, keys: set<string>)
    ensures Answer(Index(table), s, ConvergenceRepair, keys) == Refused(UnknownEvent)
  {
    hide Index;
    forall i | 0 <= i < |TABLE| ensures TABLE[i].event != ConvergenceRepair {}
  }

  // ---- the default table ------------------------------------------------------------------------------------------

  function Count(events: seq<Record>, e: Event): nat {
    if |events| == 0 then 0
    else Count(events[..|events| - 1], e) + if events[|events| - 1].event == e then 1 else 0
  }

  predicate Detour(s: LoopState) { s == Repairing || s == Replanning || s == AskingUser }

  /** How often the log leaves `RUNNING` for repairing, replanning or asking the user. */
  function Departures(events: seq<Record>): nat {
    if |events| == 0 then 0
    else
      var init, last := events[..|events| - 1], events[|events| - 1];
      Departures(init) + if Replayed(init) == Running && Detour(last.next) then 1 else 0
  }

  /** The books of a session: submitted commands, departures and submitted goals by state. */
  predicate Balanced(s: LoopState, commands: nat, departures: nat, goals: nat) {
    match s
    case Created => commands == 0 && departures == 0 && goals == 0
    case Ready => commands == 0 && departures == 0 && goals == 1
    case Running => commands == departures + 1 && goals == 1
    case WaitingApproval => commands == departures + 1 && goals == 1
    case Repairing => commands == departures && goals == 1
    case Replanning => commands == departures && goals == 1
    case AskingUser => commands == departures && goals == 1
    case _ => departures <= commands <= departures + 1 && goals == 1
  }

  /** One row keeps the books. */
  predicate KeepsBooks(row: Row) {
    && (row.event == GoalSubmitted <==> row.state == Created)
    && (row.event == CommandSubmitted <==>
          row.state in {Ready, Repairing, Replanning, AskingUser} && row.next == Running)
    && !Halted(row.state) && row.next != Created
    && (row.state == Created <==> row.next == Ready)
    && (row.state == Ready ==> row.next == Running)
    && (row.state == WaitingApproval ==> row.next == Running || Halted(row.next))
    && (row.next == WaitingApproval ==> row.state == Running)
    && (Detour(row.state) ==> row.next == Running || Detour(row.next) || Halted(row.next))
    && row.required == []
    && (row.event == ProgressUpdated ==> row.next == row.state == Running)
  }

  lemma TableKeepsBooks(i: nat)
    requires i < |TABLE|
    ensures KeepsBooks(TABLE[i])
  {
    hide KeepsBooks;
    if i < 9 {
      TableStart(i);
    } else if i < 18 {
      TableSecond(i);
    } else if i < 27 {
      TableThird(i);
    } else {
      TableEnd(i);
    }
  }

  lemma TableStart(i: nat)
    requires i < 9
    ensures KeepsBooks(TABLE[i])
  {}

  lemma TableSecond(i: nat)
    requires 9 <= i < 18
    ensures KeepsBooks(TABLE[i])
  {}

  lemma TableThird(i: nat)
    requires 18 <= i < 27
    ensures KeepsBooks(TABLE[i])
  {}

  lemma TableEnd(i: nat)
    requires 27 <= i < |TABLE|
    ensures KeepsBooks(TABLE[i])
  {}

  lemma BalanceStep(row: Row, c: nat, d: nat, g: nat)
    requires KeepsBooks(row) && Balanced(row.state, c, d, g)
    ensures Balanced(row.next,
      c + if row.event == CommandSubmitted then 1 else 0,
      d + if row.state == Running && Detour(row.next) then 1 else 0,
      g + if row.event == GoalSubmitted then 1 else 0)
  {}

  lemma DefaultRow(s: LoopState, r: Record)
    requires FromRow(TABLE, s, r)
    ensures KeepsBooks(Row(s, r.event, r.next, r.reason, []))
  {
    hide TABLE, Index;
    IndexIsLastMatch(TABLE, s, r.event);
    LastMatchRow(TABLE, s, r.event);
    var row := Lookup(TABLE, s, r.event).value;
    var i :| 0 <= i < |TABLE| && TABLE[i] == row;
    TableKeepsBooks(i);
  }

  lemma {:induction false} BooksBalance(events: seq<Record>)
    requires Explained(TABLE, events)
    ensures Balanced(Replayed(events), Count(events, CommandSubmitted), Departures(events),
                     Count(events, GoalSubmitted))
    ensures |events| > 0 ==> events[0].event == GoalSubmitted
  {
    hide TABLE, FromRow, KeepsBooks;
    if |events| > 0 {
      var n := |events| - 1;
      var init, last := events[..n], events[n];
      assert forall i :: 0 <= i < n ==> init[i] == events[i] && init[..i] == events[..i];
      BooksBalance(init);
      assert FromRow(TABLE, Replayed(init), last);
      DefaultRow(Replayed(init), last);
      var row := Row(Replayed(init), last.event, last.next, last.reason, []);
      hide Explained;
      BalanceStep(row, Count(init, CommandSubmitted), Departures(init), Count(init, GoalSubmitted));
      if n == 0 { assert init == []; GoalFirst(row); }
    }
  }

  lemma GoalFirst(row: Row)
    requires KeepsBooks(row) && row.state == Created
    ensures row.event == GoalSubmitted
  {}

  /** Conservation over every run of the default table: while the session is running or waiting for
      approval, commands were submitted exactly once more than the session left `RUNNING` for
      repairing, replanning or asking; the goal was submitted exactly once, as the first event. */
  lemma CommandsConserved(attempts: seq<Attempt>)
    ensures var s := RunAll(TABLE, attempts);
      && (s.state == Running || s.state == WaitingApproval ==>
            Count(s.events, CommandSubmitted) == Departures(s.events) + 1)
      && (Detour(s.state) ==> Count(s.events, CommandSubmitted) == Departures(s.events))
      && Count(s.events, GoalSubmitted) == (if s.state == Created then 0 else 1)
      && (s.state != Created ==> |s.events| > 0 && s.events[0].event == GoalSubmitted)
  {
    hide TABLE, Explained;
    LogExplainsState(TABLE, attempts);
    BooksBalance(RunAll(TABLE, attempts).events);
  }

  /** A default row whose event is attempted in its state is recorded. */
  lemma Fires(s: Session, i: nat)
    requires i < |TABLE| && s.state == TABLE[i].state
    ensures var s' := After(Index(TABLE), s, TABLE[i].event, {});
      && |s'.events| == |s.events| + 1
      && KeepsBooks(Row(s.state, TABLE[i].event, s'.state, s'.events[|s.events|].reason, []))
  {
    hide TABLE, Index;
    var e := TABLE[i].event;
    TableKeepsBooks(i);
    IndexIsLastMatch(TABLE, s.state, e);
    LastMatchRow(TABLE, s.state, e);
    var row := Lookup(TABLE, s.state, e).value;
    var j :| 0 <= j < |TABLE| && TABLE[j] == row;
    TableKeepsBooks(j);
    RecordedIff(TABLE, s, e, {});
    DefaultRow(s.state, Answer(Index(TABLE), s, e, {}).record);
  }

  // ---- the cap on events ------------------------------------------------------------------------------------------

  /** `apply` keeps a session within a cap if and only if there is room for an event or the attempt is
      refused; the cap itself plays no part in what `apply` does. */
  lemma CapKeptExactly(table: seq<Row>, s: Session, e: Event, keys: set<string>, cap: nat)
    requires |s.events| <= cap
    ensures |After(Index(table), s, e, keys).events| <= cap <==>
      |s.events| < cap || Answer(Index(table), s, e, keys).Refused?
  {
    hide Answer, Index;
  }

  /** The attempt at step `i` of a run has room for its event or is refused. */
  ghost predicate RoomAt(table: seq<Row>, attempts: seq<Attempt>, i: nat, cap: nat)
    requires i < |attempts|
  {
    var s := RunAll(table, attempts[..i]);
    |s.events| < cap || Answer(Index(table), s, attempts[i].event, attempts[i].keys).Refused?
  }

  /** A run stays within a cap if and only if every attempt on the way has room or is refused. */
  lemma {:induction false} RunWithinCapExactly(table: seq<Row>, attempts: seq<Attempt>, cap: nat)
    ensures |RunAll(table, attempts).events| <= cap <==>
      forall i :: 0 <= i < |attempts| ==> RoomAt(table, attempts, i, cap)
  {
    hide Answer, Index, After;
    if |attempts| > 0 {
      var n := |attempts| - 1;
      var init, a := attempts[..n], attempts[n];
      var s := RunAll(table, init);
      RunWithinCapExactly(table, init, cap);
      forall i | 0 <= i < n ensures RoomAt(table, attempts, i, cap) <==> RoomAt(table, init, i, cap) {
        assert attempts[..i] == init[..i];
      }
      AfterGrows(table, s, a.event, a.keys);
      if |s.events| <= cap { CapKeptExactly(table, s, a.event, a.keys, cap); }
      assert RunAll(table, attempts) == After(Index(table), s, a.event, a.keys);
      assert RoomAt(table, attempts, n, cap) <==> |s.events| < cap || Answer(Index(table), s, a.event, a.keys).Refused?;
    }
  }

  lemma AfterGrows(table: seq<Row>, s: Session, e: Event, keys: set<string>)
    ensures |After(Index(table), s, e, keys).events| >= |s.events|
  {
    hide Answer, Index;
  }

  /** And for every cap there is a run of the default table that exceeds it. */
  lemma {:induction false} EventsExceedAnyCap(cap: nat) returns (attempts: seq<Attempt>)
    ensures |RunAll(TABLE, attempts).events| == cap + 2 && RunAll(TABLE, attempts).state == Running
  {
    assert TABLE[0].state == Created && TABLE[0].event == GoalSubmitted;
    assert TABLE[1].state == Ready && TABLE[1].event == CommandSubmitted;
    assert TABLE[11].state == Running && TABLE[11].event == ProgressUpdated;
    hide TABLE, After, Index;
    if cap == 0 {
      Fires(FRESH, 0);
      var first := [Attempt(GoalSubmitted, {})];
      assert first[..0] == [];
      Fires(RunAll(TABLE, first), 1);
      attempts := first + [Attempt(CommandSubmitted, {})];
      assert attempts[..1] == first;
    } else {
      var before := EventsExceedAnyCap(cap - 1);
      Fires(RunAll(TABLE, before), 11);
      attempts := before + [Attempt(ProgressUpdated, {})];
      assert attempts[..|attempts| - 1] == before;
    }
  }
}
