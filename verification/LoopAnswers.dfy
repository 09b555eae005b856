/** What a step does, in terms of what the collaborators of the loop engine answer. */
module LoopAnswers {
  import opened Text
  import opened LoopEngine

  // ---- reaching the executor ----------------------------------------------------------------------------------------

  /** A required argument is a text with something besides whitespace in it. */
  predicate Given(arg: Option<string>) { arg.Some? && |Strip(arg.value)| > 0 }

  lemma MissingExactly(arg: Option<string>)
    ensures Missing(arg) <==> !Given(arg)
  {
    if arg.Some? { StripsToNothing(arg.value); }
  }

  /** The policy engine denies one of the scopes that the instruction is checked in. */
  predicate PolicyDenies(env: Environment, i: nat, ins: Instruction) {
    || !env.allowed(i, ins, InstructionScope)
    || (ins.op == ExecTerminal && !env.allowed(i, ins, TerminalScope))
    || (ins.op == CallTool && !env.allowed(i, ins, ToolScope))
  }

  /** The instruction has the argument that its operation needs, and approval metadata if its risk needs it. */
  predicate WellFormed(ins: Instruction) {
    && (ins.op == ExecTerminal ==> Given(ins.cmd))
    && (ins.op == CallTool ==> Given(ins.tool))
    && (ins.op == Terminate ==> Given(ins.reason))
    && (ins.blockedRisk ==> ins.requiresApproval)
  }

  lemma IssuesExactly(ins: Instruction)
    ensures Issues(ins) == [] <==> WellFormed(ins)
    ensures forall text :: text in Issues(ins) <==>
      || (text == "EXEC_TERMINAL requires args.cmd" && ins.op == ExecTerminal && !Given(ins.cmd))
      || (text == "CALL_TOOL requires args.tool" && ins.op == CallTool && !Given(ins.tool))
      || (text == "TERMINATE requires args.reason" && ins.op == Terminate && !Given(ins.reason))
      || (text == "blocked risk_level requires approval metadata" && ins.blockedRisk && !ins.requiresApproval)
  {
    MissingExactly(ins.cmd);
    MissingExactly(ins.tool);
    MissingExactly(ins.reason);
    hide Missing, Given;
  }

  /** An instruction reaches the executor if and only if it can be converted, the policy engine denies none
      of its scopes, it is well formed, and the gate does not forbid it. */
  lemma ExecutedExactly(env: Environment, i: nat, ins: Instruction)
    ensures Executed(env, i, ins) <==>
      && env.refusal(ins).None? && !PolicyDenies(env, i, ins) && WellFormed(ins) && env.gate(i, ins) != Some(Forbid)
  {
    IssuesExactly(ins);
    hide Issues, WellFormed;
  }

  /** What is observed, by what stopped the instruction. */
  lemma ObservationSays(env: Environment, i: nat, ins: Instruction)
    ensures var o := Observe(env, i, ins);
      if env.refusal(ins).Some? then o == Observation(false, "AIL validation failed", env.refusal(ins), false)
      else if PolicyDenies(env, i, ins) then !o.success && o.error == Some("policy_blocked") && !o.gateBlock
      else if !WellFormed(ins) then
        o == Observation(false, "instruction validation failed", Some(Join("; ", Issues(ins))), false)
      else if env.gate(i, ins) == Some(Forbid) then
        o == Observation(false, "pre-action gate blocked instruction", Some("blocked"), true)
      else if env.gate(i, ins) == Some(Warn) then o == env.execute(i, ins).(gateBlock := false)
      else o == env.execute(i, ins)
  {
    IssuesExactly(ins);
    hide Issues, WellFormed, Join;
  }

  /** The summary of an instruction that the policy engine denies names the scope. */
  lemma DenialNamesScope(env: Environment, i: nat, ins: Instruction)
    requires env.refusal(ins).None? && PolicyDenies(env, i, ins)
    ensures Observe(env, i, ins).summary ==
      if !env.allowed(i, ins, InstructionScope) then "instruction blocked by policy"
      else if ins.op == ExecTerminal then "terminal instruction blocked by policy"
      else "tool call blocked by policy"
  {}

  /** The executor has no part in what is observed of an instruction that does not reach it. */
  lemma UnexecutedIgnoresExecutor(env: Environment, execute: (nat, Instruction) -> Observation, i: nat,
                                  ins: Instruction)
    requires !Executed(env, i, ins)
    ensures Observe(env.(execute := execute), i, ins) == Observe(env, i, ins)
  {
    hide Issues, Join;
  }

  // ---- applying a step ----------------------------------------------------------------------------------------------

  /** The reference list takes up new references one by one, each behind the others if it is not there yet. */
  lemma ExtendedByOne(refs: seq<string>, x: string)
    ensures Extended(refs, [x]) == if x in refs then refs else refs + [x]
  {
    assert [x][1..] == [];
  }

  lemma {:induction false} ExtendedInTurn(refs: seq<string>, a: seq<string>, b: seq<string>)
    ensures Extended(refs, a + b) == Extended(Extended(refs, a), b)
    decreases |a|
  {
    if |a| == 0 {
      assert a + b == b;
    } else {
      assert (a + b)[1..] == a[1..] + b;
      ExtendedInTurn(if a[0] in refs then refs else refs + [a[0]], a[1..], b);
    }
  }

  /** One step counts once, moves progress by its delta within [0, 1] (to 1 on success), takes its status from
      the verdict, and adds one history entry and at most one error: the error text, or the summary of an
      unsuccessful observation without one. */
  lemma AppliedSays(s: State, ins: Instruction, o: Observation, e: Evaluation)
    ensures var s' := Applied(s, ins, o, e);
      && s'.stepIndex == s.stepIndex + 1 && s'.current == Some(ins) && s'.last == Some(o)
      && s'.history == s.history + [Entry(ins.id, ins.op, o.success, o.summary)]
      && s'.refs == Extended(s.refs, e.refs)
      && (e.verdict == Success <==> s'.status == Succeeded) && (e.verdict == Failure <==> s'.status == Failed)
      && (e.verdict == Block <==> s'.status == Blocked) && (e.verdict == Continue <==> s'.status == Active)
      && (e.verdict == Success ==> s'.progress == 1.0)
      && (e.verdict != Success && 0.0 <= s.progress + e.delta <= 1.0 ==> s'.progress == s.progress + e.delta)
      && (e.verdict != Success && s.progress + e.delta < 0.0 ==> s'.progress == 0.0)
      && (e.verdict != Success && s.progress + e.delta > 1.0 ==> s'.progress == 1.0)
      && (if o.error.Some? && o.error.value != "" then s'.errors == s.errors + [o.error.value]
          else if !o.success then s'.errors == s.errors + [o.summary]
          else s'.errors == s.errors)
  {
    hide Extended;
  }

  // ---- the end of a run ---------------------------------------------------------------------------------------------

  ghost predicate AllContinue(events: seq<Event>) {
    forall i :: 0 <= i < |events| && events[i].Evaluated? ==> events[i].evaluation.verdict == Continue
  }

  lemma StepEvents(s: State, p: Step, rest: seq<Event>)
    ensures AllContinue(EventsOf(s, p) + rest) <==> p.evaluation.verdict == Continue && AllContinue(rest)
  {
    var all := EventsOf(s, p) + rest;
    assert forall i :: 0 <= i < |rest| ==> all[i + 3] == rest[i];
    assert all[2] == Evaluated(p.next.stepIndex, p.evaluation);
    if p.evaluation.verdict == Continue && AllContinue(rest) {
      forall i | 0 <= i < |all| && all[i].Evaluated? ensures all[i].evaluation.verdict == Continue {
        if i >= 3 { assert all[i] == rest[i - 3]; }
      }
    }
    if AllContinue(all) {
      forall i | 0 <= i < |rest| && rest[i].Evaluated? ensures rest[i].evaluation.verdict == Continue {
        assert all[i + 3] == rest[i];
      }
    }
  }

  lemma OnlyFinish(e: Event)
    requires e.RunFinished?
    ensures AllContinue([e])
  {}

  lemma {:induction false} RemainingLimit(env: Environment, s: State, i: nat, n: nat)
    ensures var t := Remaining(env, s, i, n);
      var m := |t.events|;
      && m > 0 && t.events[m - 1].RunFinished?
      && (t.events[m - 1].exceeded <==> AllContinue(t.events))
      && (t.events[m - 1].exceeded ==>
            |t.final.errors| > 0 && t.final.errors[|t.final.errors| - 1] == "max_steps exceeded")
    decreases n
  {
    hide Remaining, StepAt, EventsOf, AllContinue, Applied;
    if n == 0 {
      RemainingNone(env, s, i);
      OnlyFinish(RunFinished(s.stepIndex, Failed, true));
    } else {
      var p := StepAt(env, s, i);
      RemainingStep(env, s, i, n);
      StepVerdict(env, s, i);
      if Terminal(p.next.status) {
        StepEvents(s, p, [RunFinished(p.next.stepIndex, p.next.status, false)]);
      } else {
        var rest := Remaining(env, p.next, i + 1, n - 1);
        RemainingLimit(env, p.next, i + 1, n - 1);
        StepEvents(s, p, rest.events);
        var all := EventsOf(s, p) + rest.events;
        assert all[|all| - 1] == rest.events[|rest.events| - 1];
      }
    }
  }

  lemma StepVerdict(env: Environment, s: State, i: nat)
    ensures var p := StepAt(env, s, i); Terminal(p.next.status) <==> p.evaluation.verdict != Continue
  {
    hide Observe, Extended;
  }

  /** A run is ended by the step limit if and only if every one of its evaluations said to continue; its last
      error then says so. */
  lemma LimitExactly(env: Environment, maxSteps: nat)
    ensures var t := Whole(env, maxSteps);
      var m := |t.events|;
      && m > 1 && t.events[m - 1].RunFinished?
      && (t.events[m - 1].exceeded <==> AllContinue(t.events))
      && (t.events[m - 1].exceeded ==>
            |t.final.errors| > 0 && t.final.errors[|t.final.errors| - 1] == "max_steps exceeded")
  {
    hide Remaining, AllContinue;
    var rest := Remaining(env, START, 0, maxSteps);
    RemainingLimit(env, START, 0, maxSteps);
    StartEvent(rest.events);
    var all := [RunStarted(0)] + rest.events;
    assert all[|all| - 1] == rest.events[|rest.events| - 1];
  }

  lemma StartEvent(rest: seq<Event>)
    ensures AllContinue([RunStarted(0)] + rest) <==> AllContinue(rest)
  {
    var all := [RunStarted(0)] + rest;
    if AllContinue(rest) {
      forall i | 0 <= i < |all| && all[i].Evaluated? ensures all[i].evaluation.verdict == Continue {
        assert all[i] == rest[i - 1];
      }
    }
    if AllContinue(all) {
      forall i | 0 <= i < |rest| && rest[i].Evaluated? ensures rest[i].evaluation.verdict == Continue {
        assert all[i + 1] == rest[i];
      }
    }
  }

  // ---- the simple evaluator -----------------------------------------------------------------------------------------

  /** A refusal blocks; a TERMINATE ends the run with a full point, in success or failure as it reports; any other
      failure ends it; and every other step goes on with half a point. */
  lemma SimpleJudges(ins: Instruction, o: Observation)
    ensures var e := SimpleEvaluation(ins, o);
      && e.refs == []
      && (o.error == Some("blocked") || o.error == Some("policy_blocked") || o.gateBlock ==>
            e.verdict == Block && e.delta == 0.0)
      && (!Refused(o) && ins.op == Terminate ==>
            e.verdict == (if o.success then Success else Failure) && e.delta == 1.0)
      && (!Refused(o) && ins.op != Terminate && !o.success ==> e.verdict == Failure && e.delta == 0.0)
      && (!Refused(o) && ins.op != Terminate && o.success ==> e.verdict == Continue && e.delta == 0.5)
      && (Refused(o) <==> o.error == Some("blocked") || o.error == Some("policy_blocked") || o.gateBlock)
  {}

  /** With the simple evaluator every planned step but the last is one that the policy engine does not deny. */
  ghost predicate OnlyLastDenied(env: Environment, events: seq<Event>, i: nat)
    decreases |events|
  {
    |events| > 4 ==>
      events[0].Planned? && !PolicyDenies(env, i, events[0].instruction) && OnlyLastDenied(env, events[3..], i + 1)
  }

  lemma {:induction false} RefusedThenDenied(env: Environment, events: seq<Event>, i: nat)
    requires OnlyLastRefused(env, events, i)
    ensures OnlyLastDenied(env, events, i)
    decreases |events|
  {
    hide Executed, PolicyDenies;
    if |events| > 4 {
      ExecutedExactly(env, i, events[0].instruction);
      RefusedThenDenied(env, events[3..], i + 1);
    }
  }

  /** How the log of a run with the simple evaluator ends, in terms of its last step. */
  ghost predicate EndsAnswered(env: Environment, final: State, log: seq<Event>) {
    var m := |log|;
    && m >= 4 && log[m - 4].Planned? && log[m - 3].Observed?
    && var (ins, o, at) := (log[m - 4].instruction, log[m - 3].observation, log[m - 4].step);
       && (final.status == Blocked <==> o.error == Some("blocked") || o.error == Some("policy_blocked") || o.gateBlock)
       && (env.refusal(ins).None? && PolicyDenies(env, at, ins) ==> final.status == Blocked)
       && (final.status == Succeeded ==> ins.op == Terminate && o.success)
       && final.status in {Succeeded, Failed, Blocked}
       && log[m - 1].RunFinished?
       && (log[m - 1].exceeded <==>
             && !(o.error == Some("blocked") || o.error == Some("policy_blocked") || o.gateBlock)
             && ins.op != Terminate && o.success)
  }

  /** With the simple evaluator a step that the policy engine denies is the last one and ends the run as
      blocked. The run is blocked exactly if its last observation carries one of the refusals; it succeeds
      only with a TERMINATE that reports success, and fails otherwise; and it reaches the step limit exactly if
      its last step was an ordinary success. */
  lemma SimpleRunEnds(env: Environment, maxSteps: nat)
    requires Simple(env) && maxSteps > 0
    ensures var t := Whole(env, maxSteps);
      |t.events| > 0 && OnlyLastDenied(env, t.events[1..], 0) && EndsAnswered(env, t.final, t.events[1..])
  {
    assert |Whole(env, maxSteps).events| > 0;
    hide Whole, Executed, Observe, PolicyDenies, OnlyLastRefused, OnlyLastDenied, Simple;
    hide Form, Told, Rebuilt, NoRepeats;
    SimpleRuns(env, maxSteps);
    RunKeeps(env, maxSteps);
    var log := Whole(env, maxSteps).events[1..];
    RefusedThenDenied(env, log, 0);
    var m := |log|;
    ObservationSays(env, log[m - 4].step, log[m - 4].instruction);
  }

  /** Half a point for every step, up to one. */
  function HalfPoints(k: nat): real { if k == 0 then 0.0 else if k == 1 then 0.5 else 1.0 }

  /** The progress with which a run of the simple evaluator ends after `k` steps. */
  function FinalProgress(k: nat, op: Op, status: Status, exceeded: bool): real
    requires k > 0
  {
    if exceeded then HalfPoints(k)
    else if op == Terminate && status != Blocked then 1.0
    else HalfPoints(k - 1)
  }

  /** The last instruction of a log. */
  function LastOp(events: seq<Event>): Op {
    if |events| >= 4 && events[|events| - 4].Planned? then events[|events| - 4].instruction.op else OtherOp("")
  }

  lemma StepScores(env: Environment, s: State, i: nat)
    requires Simple(env) && s.progress == HalfPoints(s.stepIndex)
    ensures var p := StepAt(env, s, i);
      && p.next.stepIndex == s.stepIndex + 1 && p.next.status in {Active, Succeeded, Failed, Blocked}
      && (p.next.status == Active ==> p.next.progress == HalfPoints(p.next.stepIndex))
      && (p.next.status != Active ==>
            p.next.progress == FinalProgress(p.next.stepIndex, p.instruction.op, p.next.status, false))
  {
    hide Observe, Extended, Refused;
    var ins := env.plan(i, s);
    var o := Observe(env, i, ins);
    assert env.evaluate(i, s, ins, o) == SimpleEvaluation(ins, o);
    AppliedSays(s, ins, o, SimpleEvaluation(ins, o));
    hide Applied;
  }

  lemma {:induction false} RemainingScores(env: Environment, s: State, i: nat, n: nat)
    requires Simple(env) && s.progress == HalfPoints(s.stepIndex) && n > 0
    ensures var t := Remaining(env, s, i, n);
      var m := |t.events|;
      && m >= 4 && t.events[m - 1].RunFinished? && t.final.stepIndex > 0
      && t.final.progress
         == FinalProgress(t.final.stepIndex, LastOp(t.events), t.final.status, t.events[m - 1].exceeded)
    decreases n
  {
    hide StepAt, Remaining, Simple, HalfPoints, FinalProgress;
    var p := StepAt(env, s, i);
    StepScores(env, s, i);
    RemainingStep(env, s, i, n);
    if !Terminal(p.next.status) {
      var rest := Remaining(env, p.next, i + 1, n - 1);
      if n == 1 {
        RemainingNone(env, p.next, i + 1);
        LimitScore(p.next.stepIndex, p.instruction.op);
      } else {
        RemainingScores(env, p.next, i + 1, n - 1);
        LastOpLater(EventsOf(s, p), rest.events);
      }
    }
  }

  lemma LimitScore(k: nat, op: Op)
    requires k > 0
    ensures FinalProgress(k, op, Failed, true) == HalfPoints(k)
  {}

  lemma LastOpLater(three: seq<Event>, rest: seq<Event>)
    requires |rest| >= 4
    ensures LastOp(three + rest) == LastOp(rest) && (three + rest)[|three + rest| - 1] == rest[|rest| - 1]
  {
    assert (three + rest)[|three| + |rest| - 4] == rest[|rest| - 4];
  }

  /** The simple evaluator scores half a point for every step that goes on, up to one, and a full point for a
      TERMINATE that is not blocked; a step that fails or is blocked scores nothing. */
  lemma SimpleProgress(env: Environment, maxSteps: nat)
    requires Simple(env) && maxSteps > 0
    ensures var t := Whole(env, maxSteps);
      var m := |t.events|;
      && m > 4 && t.events[m - 1].RunFinished? && t.final.stepIndex > 0
      && t.final.progress
         == FinalProgress(t.final.stepIndex, LastOp(t.events), t.final.status, t.events[m - 1].exceeded)
  {
    hide Remaining, Simple, FinalProgress;
    RemainingScores(env, START, 0, maxSteps);
    var rest := Remaining(env, START, 0, maxSteps).events;
    LastOpLater([RunStarted(0)], rest);
  }
}
