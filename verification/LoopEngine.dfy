/** The bounded loop engine: plan, check, execute, evaluate, apply, until a terminal status or the step limit. */
module LoopEngine {
  import opened Text

  datatype Status = Pending | Active | Succeeded | Failed | Cancelled | Blocked

  predicate Terminal(s: Status) { s == Succeeded || s == Failed || s == Cancelled || s == Blocked }

  datatype Op = ExecTerminal | CallTool | Terminate | OtherOp(name: string)

  /** The arguments are `None` where they are absent or no strings. */
  datatype Instruction = Instruction(
    id: string, op: Op, cmd: Option<string>, tool: Option<string>, reason: Option<string>,
    blockedRisk: bool, requiresApproval: bool)

  /** `gateBlock` says whether the data carry the gate action `block`. */
  datatype Observation = Observation(success: bool, summary: string, error: Option<string>, gateBlock: bool)

  datatype Verdict = Continue | Success | Failure | Block

  datatype Evaluation = Evaluation(verdict: Verdict, delta: real, refs: seq<string>)

  datatype Entry = Entry(instructionId: string, op: Op, success: bool, summary: string)

  /** The contents of a loop state. */
  datatype State = State(
    status: Status, stepIndex: nat, progress: real, current: Option<Instruction>, last: Option<Observation>,
    errors: seq<string>, history: seq<Entry>, refs: seq<string>)

  const START := State(Active, 0, 0.0, None, None, [], [], [])

  function Clamp(x: real): real { if x < 0.0 then 0.0 else if x > 1.0 then 1.0 else x }

  /** The reference list after a generator has extended it while reading it. */
  function Extended(refs: seq<string>, more: seq<string>): seq<string>
    decreases |more|
  {
    if |more| == 0 then refs
    else Extended(if more[0] in refs then refs else refs + [more[0]], more[1..])
  }

  function ErrorsOf(o: Observation): seq<string> {
    if o.error.Some? && |o.error.value| > 0 then [o.error.value] else if !o.success then [o.summary] else []
  }

  function StatusOf(v: Verdict): Status {
    match v
    case Success => Succeeded
    case Failure => Failed
    case Block => Blocked
    case Continue => Active
  }

  /** One loop step applied to the contents of a state. */
  function Applied(s: State, ins: Instruction, o: Observation, e: Evaluation): State {
    var score := Clamp(s.progress + e.delta);
    State(StatusOf(e.verdict), s.stepIndex + 1, if e.verdict == Success && score < 1.0 then 1.0 else score,
      Some(ins), Some(o), s.errors + ErrorsOf(o),
      s.history + [Entry(ins.id, ins.op, o.success, o.summary)], Extended(s.refs, e.refs))
  }

  class LoopState {
    var status: Status
    var stepIndex: nat
    var progress: real
    var current: Option<Instruction>
    var last: Option<Observation>
    var errors: seq<string>
    var history: seq<Entry>
    var refs: seq<string>

    function Now(): State
      reads this
    {
      State(status, stepIndex, progress, current, last, errors, history, refs)
    }

    constructor ()
      ensures Now() == START
    {
      status, stepIndex, progress, current, last := Active, 0, 0.0, None, None;
      errors, history, refs := [], [], [];
    }

    method Apply(ins: Instruction, o: Observation, e: Evaluation)
      modifies this
      ensures Now() == Applied(old(Now()), ins, o, e)
    {
      ghost var before := Now();
      current, last := Some(ins), Some(o);
      stepIndex := stepIndex + 1;
      progress := Clamp(progress + e.delta);
      var i := 0;
      while i < |e.refs|
        invariant 0 <= i <= |e.refs|
        invariant Now() == before.(current := Some(ins), last := Some(o), stepIndex := before.stepIndex + 1,
                                   progress := Clamp(before.progress + e.delta), refs := refs)
        invariant Extended(refs, e.refs[i..]) == Extended(before.refs, e.refs)
      {
        assert e.refs[i..][0] == e.refs[i] && e.refs[i..][1..] == e.refs[i + 1..];
        if e.refs[i] !in refs { refs := refs + [e.refs[i]]; }
        i := i + 1;
      }
      assert e.refs[i..] == [];
      if o.error.Some? && |o.error.value| > 0 {
        errors := errors + [o.error.value];
      } else if !o.success {
        errors := errors + [o.summary];
      }
      history := history + [Entry(ins.id, ins.op, o.success, o.summary)];
      match e.verdict {
        case Success =>
          status := Succeeded;
          if progress < 1.0 { progress := 1.0; }
        case Failure => status := Failed;
        case Block => status := Blocked;
        case Continue => status := Active;
      }
    }
  }

  // ---- one step ---------------------------------------------------------------------------------------------------

  datatype Scope = InstructionScope | TerminalScope | ToolScope

  datatype Gate = Allow | Forbid | Warn

  /** The collaborators. Each may answer differently at every step; `refusal` is the message with which
      the conversion to an AIL instruction fails. Without a gate every answer of `gate` is `None`. */
  datatype Environment = Environment(
    plan: (nat, State) -> Instruction,
    refusal: Instruction -> Option<string>,
    allowed: (nat, Instruction, Scope) -> bool,
    gate: (nat, Instruction) -> Option<Gate>,
    execute: (nat, Instruction) -> Observation,
    evaluate: (nat, State, Instruction, Observation) -> Evaluation)

  predicate Missing(arg: Option<string>) { arg.None? || forall c | c in arg.value :: IsSpace(c) }

  /** `validate_instruction_for_mvp` */
  function Issues(ins: Instruction): seq<string> {
    (if ins.op == ExecTerminal && Missing(ins.cmd) then ["EXEC_TERMINAL requires args.cmd"] else [])
    + (if ins.op == CallTool && Missing(ins.tool) then ["CALL_TOOL requires args.tool"] else [])
    + (if ins.op == Terminate && Missing(ins.reason) then ["TERMINATE requires args.reason"] else [])
    + (if ins.blockedRisk && !ins.requiresApproval then ["blocked risk_level requires approval metadata"] else [])
  }

  function PolicyBlocked(summary: string): Option<Observation> {
    Some(Observation(false, summary, Some("policy_blocked"), false))
  }

  /** `_policy_observation` */
  function PolicyObservation(env: Environment, i: nat, ins: Instruction): Option<Observation> {
    if env.refusal(ins).Some? then Some(Observation(false, "AIL validation failed", env.refusal(ins), false))
    else if !env.allowed(i, ins, InstructionScope) then PolicyBlocked("instruction blocked by policy")
    else if ins.op == ExecTerminal && !env.allowed(i, ins, TerminalScope) then
      PolicyBlocked("terminal instruction blocked by policy")
    else if ins.op == CallTool && !env.allowed(i, ins, ToolScope) then PolicyBlocked("tool call blocked by policy")
    else None
  }

  /** Whether the executor is reached. */
  predicate Executed(env: Environment, i: nat, ins: Instruction) {
    PolicyObservation(env, i, ins).None? && Issues(ins) == [] && env.gate(i, ins) != Some(Forbid)
  }

  /** The observation of a step; a warning gate overwrites the executor's own gate action. */
  function Observe(env: Environment, i: nat, ins: Instruction): Observation {
    if PolicyObservation(env, i, ins).Some? then PolicyObservation(env, i, ins).value
    else if Issues(ins) != [] then
      Observation(false, "instruction validation failed", Some(Join("; ", Issues(ins))), false)
    else
      match env.gate(i, ins)
      case Some(Forbid) => Observation(false, "pre-action gate blocked instruction", Some("blocked"), true)
      case Some(Warn) => env.execute(i, ins).(gateBlock := false)
      case _ => env.execute(i, ins)
  }

  // ---- whole runs ---------------------------------------------------------------------------------------------------

  datatype Event =
    | RunStarted(step: nat)
    | Planned(step: nat, instruction: Instruction)
    | Observed(step: nat, observation: Observation)
    | Evaluated(step: nat, evaluation: Evaluation)
    | RunFinished(step: nat, status: Status, exceeded: bool)

  /** A run as its stores see it. */
  datatype Trace = Trace(final: State, events: seq<Event>, saved: seq<State>)

  /** What one step plans, observes and judges, and the state it leads to. */
  datatype Step = Step(instruction: Instruction, observation: Observation, evaluation: Evaluation, next: State)

  function StepAt(env: Environment, s: State, i: nat): Step {
    var ins := env.plan(i, s);
    var o := Observe(env, i, ins);
    var e := env.evaluate(i, s, ins, o);
    Step(ins, o, e, Applied(s, ins, o, e))
  }

  function EventsOf(s: State, p: Step): (r: seq<Event>)
    ensures |r| == 3
  {
    var n := p.next.stepIndex;
    [Planned(s.stepIndex, p.instruction), Observed(n, p.observation), Evaluated(n, p.evaluation)]
  }

  function Exhausted(s: State): State { s.(status := Failed, errors := s.errors + ["max_steps exceeded"]) }

  /** The rest of a run from step `i` on, with `n` steps left. */
  function Remaining(env: Environment, s: State, i: nat, n: nat): Trace
    decreases n
  {
    if n == 0 then Trace(Exhausted(s), [RunFinished(s.stepIndex, Failed, true)], [Exhausted(s)])
    else
      var p := StepAt(env, s, i);
      if Terminal(p.next.status) then
        Trace(p.next, EventsOf(s, p) + [RunFinished(p.next.stepIndex, p.next.status, false)], [p.next])
      else Before(EventsOf(s, p), [p.next], Remaining(env, p.next, i + 1, n - 1))
  }

  /** A trace with something stored before it. */
  function Before(events: seq<Event>, saved: seq<State>, t: Trace): Trace {
    Trace(t.final, events + t.events, saved + t.saved)
  }

  lemma BeforeTwice(a: seq<Event>, x: seq<State>, b: seq<Event>, y: seq<State>, t: Trace)
    ensures Before(a, x, Before(b, y, t)) == Before(a + b, x + y, t)
  {
    assert a + (b + t.events) == (a + b) + t.events;
    assert x + (y + t.saved) == (x + y) + t.saved;
  }

  function Whole(env: Environment, maxSteps: nat): Trace {
    Before([RunStarted(0)], [START], Remaining(env, START, 0, maxSteps))
  }

  class LoopEngine {
    const logging: bool
    const saving: bool
    var events: seq<Event>
    var saved: seq<State>

    constructor (logging: bool, saving: bool)
      ensures this.logging == logging && this.saving == saving && events == [] && saved == []
    {
      this.logging, this.saving := logging, saving;
      events, saved := [], [];
    }

    /** What the log and the store hold after something more was offered to them. */
    function Logged(before: seq<Event>, more: seq<Event>): seq<Event> { if logging then before + more else before }

    function Kept(before: seq<State>, more: seq<State>): seq<State> { if saving then before + more else before }

    lemma OfferTwice(b: seq<Event>, c: seq<State>, x: seq<Event>, y: seq<Event>, u: seq<State>, v: seq<State>)
      ensures Logged(Logged(b, x), y) == Logged(b, x + y)
      ensures Kept(Kept(c, u), v) == Kept(c, u + v)
    {
      assert (b + x) + y == b + (x + y);
      assert (c + u) + v == c + (u + v);
    }

    method Append(e: Event)
      modifies this
      ensures events == Logged(old(events), [e]) && saved == old(saved)
    {
      if logging { events := events + [e]; }
    }

    method Save(s: State)
      modifies this
      ensures saved == Kept(old(saved), [s]) && events == old(events)
    {
      if saving { saved := saved + [s]; }
    }

    /** The body of the loop. */
    method TakeStep(env: Environment, state: LoopState, i: nat)
      modifies this, state
      ensures state.Now() == StepAt(env, old(state.Now()), i).next
      ensures events == Logged(old(events), EventsOf(old(state.Now()), StepAt(env, old(state.Now()), i)))
      ensures saved == Kept(old(saved), [state.Now()])
    {
      hide Applied, Observe;
      ghost var before, s := events, state.Now();
      var ins := env.plan(i, state.Now());
      Append(Planned(state.stepIndex, ins));
      var o := Observe(env, i, ins);
      var e := env.evaluate(i, state.Now(), ins, o);
      state.Apply(ins, o, e);
      Append(Observed(state.stepIndex, o));
      Append(Evaluated(state.stepIndex, e));
      Save(state.Now());
      hide Kept;
      assert EventsOf(s, StepAt(env, s, i))
          == [Planned(s.stepIndex, ins)] + [Observed(state.stepIndex, o)] + [Evaluated(state.stepIndex, e)];
    }

    /** `run`: no state for a step limit that is not positive, which the source rejects with an error. */
    method Run(env: Environment, maxSteps: int) returns (r: Option<LoopState>)
      modifies this
      ensures r.None? <==> maxSteps <= 0
      ensures r.None? ==> events == old(events) && saved == old(saved)
      ensures r.Some? ==>
        var whole := Whole(env, maxSteps);
        && r.value.Now() == whole.final
        && events == Logged(old(events), whole.events) && saved == Kept(old(saved), whole.saved)
    {
      hide Observe, Applied, Remaining, StepAt, EventsOf, Logged, Kept, Terminal;
      if maxSteps <= 0 { return None; }
      var state := new LoopState();
      Append(RunStarted(0));
      Save(state.Now());
      ghost var done, kept := [RunStarted(0)], [START];
      var i := 0;
      while i < maxSteps
        invariant 0 <= i <= maxSteps && fresh(state)
        invariant events == Logged(old(events), done) && saved == Kept(old(saved), kept)
        invariant Whole(env, maxSteps) == Before(done, kept, Remaining(env, state.Now(), i, maxSteps - i))
      {
        ghost var s := state.Now();
        ghost var p := StepAt(env, s, i);
        RemainingStep(env, s, i, maxSteps - i);
        TakeStep(env, state, i);
        OfferTwice(old(events), old(saved), done, EventsOf(s, p), kept, [p.next]);
        BeforeTwice(done, kept, EventsOf(s, p), [p.next], Remaining(env, p.next, i + 1, maxSteps - (i + 1)));
        if Terminal(state.status) {
          Append(RunFinished(state.stepIndex, state.status, false));
          ghost var last := [RunFinished(p.next.stepIndex, p.next.status, false)];
          OfferTwice(old(events), old(saved), done + EventsOf(s, p), last, kept, [p.next]);
          assert done + (EventsOf(s, p) + last) == done + EventsOf(s, p) + last;
          return Some(state);
        }
        done, kept := done + EventsOf(s, p), kept + [p.next];
        i := i + 1;
      }
      ghost var s := state.Now();
      RemainingNone(env, s, i);
      OfferTwice(old(events), old(saved), done, [RunFinished(s.stepIndex, Failed, true)], kept, [Exhausted(s)]);
      state.status := Failed;
      state.errors := state.errors + ["max_steps exceeded"];
      Append(RunFinished(state.stepIndex, state.status, true));
      Save(state.Now());
      return Some(state);
    }
  }

  lemma RemainingStep(env: Environment, s: State, i: nat, n: nat)
    requires n > 0
    ensures var p := StepAt(env, s, i);
      Remaining(env, s, i, n) ==
        if Terminal(p.next.status) then
          Trace(p.next, EventsOf(s, p) + [RunFinished(p.next.stepIndex, p.next.status, false)], [p.next])
        else Before(EventsOf(s, p), [p.next], Remaining(env, p.next, i + 1, n - 1))
  {}

  lemma RemainingNone(env: Environment, s: State, i: nat)
    ensures Remaining(env, s, i, 0) == Trace(Exhausted(s), [RunFinished(s.stepIndex, Failed, true)], [Exhausted(s)])
  {}

  // ---- what every run keeps -----------------------------------------------------------------------------------------

  ghost predicate NoRepeats(s: seq<string>) { forall i, j :: 0 <= i < j < |s| ==> s[i] != s[j] }

  lemma NoRepeatsMore(refs: seq<string>, x: string)
    requires NoRepeats(refs) && x !in refs
    ensures NoRepeats(refs + [x])
  {}

  lemma {:induction false} ExtendedKeeps(refs: seq<string>, more: seq<string>)
    requires NoRepeats(refs)
    ensures NoRepeats(Extended(refs, more)) && refs <= Extended(refs, more)
    ensures forall x :: x in Extended(refs, more) <==> x in refs || x in more
    decreases |more|
  {
    hide NoRepeats;
    if |more| > 0 {
      var first, rest := more[0], more[1..];
      var grown := if first in refs then refs else refs + [first];
      if first !in refs { NoRepeatsMore(refs, first); }
      ExtendedKeeps(grown, rest);
      assert more == [first] + rest;
      assert Extended(refs, more) == Extended(grown, rest);
      hide Extended;
      forall x ensures x in Extended(refs, more) <==> x in refs || x in more {
        assert x in grown <==> x in refs || x == first;
      }
    }
  }

  /** The log form (instruction_planned observation evaluation)^k run_finished, with its step numbers. */
  ghost predicate Form(events: seq<Event>, i: nat, k: nat)
    decreases k
  {
    if k == 0 then |events| == 1 && events[0].RunFinished? && events[0].step == i
    else
      && |events| > 3
      && events[0].Planned? && events[0].step == i
      && events[1].Observed? && events[1].step == i + 1
      && events[2].Evaluated? && events[2].step == i + 1
      && Form(events[3..], i + 1, k - 1)
  }

  /** The tool history that a log tells. */
  function Told(events: seq<Event>): seq<Entry> {
    if |events| <= 3 || !events[0].Planned? || !events[1].Observed? then []
    else
      var ins, o := events[0].instruction, events[1].observation;
      [Entry(ins.id, ins.op, o.success, o.summary)] + Told(events[3..])
  }

  /** The state that a log leads to, rebuilt from its payloads alone. */
  function Rebuilt(s: State, events: seq<Event>): State
    decreases |events|
  {
    if |events| > 3 && events[0].Planned? && events[1].Observed? && events[2].Evaluated? then
      Rebuilt(Applied(s, events[0].instruction, events[1].observation, events[2].evaluation), events[3..])
    else if |events| > 0 && events[0].RunFinished? && events[0].exceeded then Exhausted(s)
    else s
  }

  /** What holds of a state between two steps. */
  ghost predicate Sound(s: State) {
    && s.stepIndex == |s.history| && 0.0 <= s.progress <= 1.0 && NoRepeats(s.refs)
    && (s.status == Succeeded ==> s.progress == 1.0)
  }

  lemma AppliedKeeps(s: State, ins: Instruction, o: Observation, e: Evaluation)
    requires Sound(s)
    ensures Sound(Applied(s, ins, o, e))
  {
    ExtendedKeeps(s.refs, e.refs);
    hide Extended, NoRepeats;
  }

  /** The end of a run of which `k` steps were left to take. */
  ghost predicate Ends(t: Trace, s: State, k: nat, n: nat) {
    && k <= n && (n > 0 ==> k > 0)
    && Form(t.events, s.stepIndex, k)
    && t.final.stepIndex == s.stepIndex + k && t.final.history == s.history + Told(t.events)
    && t.final == Rebuilt(s, t.events)
    && Sound(t.final) && t.final.status in {Succeeded, Failed, Blocked}
    && t.saved != [] && t.saved[|t.saved| - 1] == t.final
    && (var last := t.events[|t.events| - 1];
        last.RunFinished? && last.status == t.final.status
        && (last.exceeded ==> k == n && last.status == Failed))
  }

  lemma {:induction false} RemainingEnds(env: Environment, s: State, i: nat, n: nat) returns (k: nat)
    requires Sound(s) && s.status == Active
    ensures Ends(Remaining(env, s, i, n), s, k, n)
    decreases n
  {
    hide Sound, StepAt, Remaining, Ends;
    if n == 0 {
      k := 0;
      RemainingNone(env, s, i);
      EndsNow(s);
    } else {
      var p := StepAt(env, s, i);
      RemainingStep(env, s, i, n);
      StepKeeps(env, s, i);
      if Terminal(p.next.status) {
        k := 1;
        EndsAfter(s, p, n);
      } else {
        var rest := Remaining(env, p.next, i + 1, n - 1);
        var k' := RemainingEnds(env, p.next, i + 1, n - 1);
        k := k' + 1;
        EndsLater(s, p, rest, k', n);
      }
    }
  }

  function EntryOf(p: Step): Entry {
    Entry(p.instruction.id, p.instruction.op, p.observation.success, p.observation.summary)
  }

  /** A step that leads from a state to the next. */
  ghost predicate Follows(s: State, p: Step) {
    && Sound(p.next) && p.next == Applied(s, p.instruction, p.observation, p.evaluation)
    && p.next.stepIndex == s.stepIndex + 1
    && p.next.history == s.history + [EntryOf(p)]
    && p.next.status in {Active, Succeeded, Failed, Blocked}
  }

  lemma StepKeeps(env: Environment, s: State, i: nat)
    requires Sound(s)
    ensures Follows(s, StepAt(env, s, i))
  {
    hide Sound, Observe, Extended;
    var p := StepAt(env, s, i);
    AppliedKeeps(s, p.instruction, p.observation, p.evaluation);
  }

  lemma EndsNow(s: State)
    requires Sound(s)
    ensures Ends(Trace(Exhausted(s), [RunFinished(s.stepIndex, Failed, true)], [Exhausted(s)]), s, 0, 0)
  {
    assert s.history + [] == s.history;
  }

  lemma EndsAfter(s: State, p: Step, n: nat)
    requires Follows(s, p) && Terminal(p.next.status) && n > 0
    ensures var last := [RunFinished(p.next.stepIndex, p.next.status, false)];
      Ends(Trace(p.next, EventsOf(s, p) + last, [p.next]), s, 1, n)
  {
    hide Sound, Applied;
    var last := [RunFinished(p.next.stepIndex, p.next.status, false)];
    var events := EventsOf(s, p) + last;
    assert events[3..] == last;
    assert Form(last, p.next.stepIndex, 0);
    assert Told(last) == [] && Rebuilt(p.next, last) == p.next;
    assert Told(events) == [EntryOf(p)] + [];
  }

  lemma EndsLater(s: State, p: Step, rest: Trace, k: nat, n: nat)
    requires Follows(s, p) && n > 0 && Ends(rest, p.next, k, n - 1)
    ensures Ends(Before(EventsOf(s, p), [p.next], rest), s, k + 1, n)
  {
    hide Sound, Applied;
    var t := Before(EventsOf(s, p), [p.next], rest);
    assert t.events[3..] == rest.events;
    FormNonEmpty(rest.events, p.next.stepIndex, k);
    assert t.events[|t.events| - 1] == rest.events[|rest.events| - 1];
    assert t.saved[|t.saved| - 1] == rest.saved[|rest.saved| - 1];
    var entry := EntryOf(p);
    assert Told(t.events) == [entry] + Told(rest.events);
    assert s.history + [entry] + Told(rest.events) == s.history + ([entry] + Told(rest.events));
  }

  lemma FormNonEmpty(events: seq<Event>, i: nat, k: nat)
    requires Form(events, i, k)
    ensures |events| > 0
  {}

  /** Whatever the collaborators answer, a run ends within the step limit in a terminal status; its log
      is run_started (instruction_planned observation evaluation)^k run_finished with k the step index
      and the length of the tool history, which is the one the log tells; the payloads of the log alone
      rebuild the final state; progress stays between 0 and 1 and is 1 on success; no memory reference
      repeats; the last saved state is the final one. */
  lemma RunKeeps(env: Environment, maxSteps: nat)
    requires maxSteps > 0
    ensures var t := Whole(env, maxSteps);
      var log := t.events[1..];
      && t.events[0] == RunStarted(0)
      && 1 <= t.final.stepIndex <= maxSteps
      && Form(log, 0, t.final.stepIndex)
      && |t.final.history| == t.final.stepIndex && t.final.history == Told(log) && t.final == Rebuilt(START, log)
      && t.final.status in {Succeeded, Failed, Blocked}
      && 0.0 <= t.final.progress <= 1.0 && (t.final.status == Succeeded ==> t.final.progress == 1.0)
      && NoRepeats(t.final.refs)
      && t.saved[|t.saved| - 1] == t.final
      && log != []
      && (var last := log[|log| - 1];
          last.RunFinished? && last.status == t.final.status
          && (last.exceeded ==> t.final.stepIndex == maxSteps && last.status == Failed))
  {
    hide Remaining, Form, Told, NoRepeats, Rebuilt;
    var rest := Remaining(env, START, 0, maxSteps);
    EmptyRefs();
    var k := RemainingEnds(env, START, 0, maxSteps);
    var log := rest.events;
    assert Whole(env, maxSteps).events[1..] == log;
    FormNonEmpty(log, 0, k);
    assert [] + Told(log) == Told(log);
  }

  lemma EmptyRefs()
    ensures NoRepeats(START.refs)
  {}

  // ---- the simple evaluator -----------------------------------------------------------------------------------------

  predicate Refused(o: Observation) { o.error == Some("blocked") || o.error == Some("policy_blocked") || o.gateBlock }

  /** `SimpleEvaluator.evaluate` */
  function SimpleEvaluation(ins: Instruction, o: Observation): Evaluation {
    if Refused(o) then Evaluation(Block, 0.0, [])
    else if ins.op == Terminate then Evaluation(if o.success then Success else Failure, 1.0, [])
    else if !o.success then Evaluation(Failure, 0.0, [])
    else Evaluation(Continue, 0.5, [])
  }

  ghost predicate Simple(env: Environment) {
    forall i, s, ins, o :: env.evaluate(i, s, ins, o) == SimpleEvaluation(ins, o)
  }

  /** Every planned step but the last one was executed. */
  ghost predicate OnlyLastRefused(env: Environment, events: seq<Event>, i: nat)
    decreases |events|
  {
    |events| > 4 ==>
      events[0].Planned? && Executed(env, i, events[0].instruction) && OnlyLastRefused(env, events[3..], i + 1)
  }

  lemma RefusedEnds(env: Environment, i: nat, ins: Instruction)
    ensures !Executed(env, i, ins) ==> !Observe(env, i, ins).success
    ensures !Observe(env, i, ins).success ==> SimpleEvaluation(ins, Observe(env, i, ins)).verdict in {Failure, Block}
    ensures SimpleEvaluation(ins, Observe(env, i, ins)).verdict == Block <==> Refused(Observe(env, i, ins))
    ensures SimpleEvaluation(ins, Observe(env, i, ins)).verdict == Continue <==>
      !Refused(Observe(env, i, ins)) && ins.op != Terminate && Observe(env, i, ins).success
    ensures SimpleEvaluation(ins, Observe(env, i, ins)).verdict == Success <==>
      ins.op == Terminate && Executed(env, i, ins) && Observe(env, i, ins).success && !Refused(Observe(env, i, ins))
  {
    hide Issues, Refused;
  }

  /** How a run with the simple evaluator ends. */
  ghost predicate EndsSimply(env: Environment, final: State, events: seq<Event>) {
    var m := |events|;
    && m >= 4 && events[m - 4].Planned? && events[m - 3].Observed?
    && var (ins, o, at) := (events[m - 4].instruction, events[m - 3].observation, events[m - 4].step);
       && o == Observe(env, at, ins)
       && (final.status == Blocked <==> Refused(o))
       && events[m - 1].RunFinished?
       && (events[m - 1].exceeded <==> !Refused(o) && ins.op != Terminate && o.success)
       && (final.status == Succeeded <==> ins.op == Terminate && Executed(env, at, ins) && o.success && !Refused(o))
       && (!Executed(env, at, ins) ==>
             final.status in {Failed, Blocked} && events[m - 1].RunFinished? && !events[m - 1].exceeded)
  }

  lemma EndsSimplyLater(env: Environment, final: State, three: seq<Event>, events: seq<Event>)
    requires EndsSimply(env, final, events)
    ensures EndsSimply(env, final, three + events)
  {
    hide Observe, Executed, Refused;
    var n, m := |three|, |events|;
    var all := three + events;
    assert all[n + m - 4] == events[m - 4] && all[n + m - 3] == events[m - 3] && all[n + m - 1] == events[m - 1];
  }

  lemma {:induction false} SimpleRemaining(env: Environment, s: State, i: nat, n: nat)
    requires Simple(env) && n > 0 && s.stepIndex == i
    ensures var t := Remaining(env, s, i, n);
      |t.events| >= 4 && OnlyLastRefused(env, t.events, i) && EndsSimply(env, t.final, t.events)
    decreases n
  {
    hide Executed, Observe, Applied, Refused, SimpleEvaluation, EndsSimply, Remaining;
    var p := StepAt(env, s, i);
    SimpleStep(env, s, i);
    RemainingStep(env, s, i, n);
    var t := Remaining(env, s, i, n);
    if Terminal(p.next.status) {
      SimpleEnd(env, s, i);
    } else {
      var rest := Remaining(env, p.next, i + 1, n - 1);
      assert t.events[3..] == rest.events;
      if n > 1 {
        SimpleRemaining(env, p.next, i + 1, n - 1);
        EndsSimplyLater(env, t.final, EventsOf(s, p), rest.events);
      } else {
        RemainingNone(env, p.next, i + 1);
        SimpleLimit(env, s, i);
      }
    }
  }

  /** One step with the simple evaluator. */
  lemma SimpleStep(env: Environment, s: State, i: nat)
    requires Simple(env) && s.stepIndex == i
    ensures var p := StepAt(env, s, i);
      && p.observation == Observe(env, i, p.instruction) && p.next.stepIndex == i + 1
      && (!Executed(env, i, p.instruction) ==> p.next.status in {Failed, Blocked})
      && (p.next.status == Blocked <==> Refused(p.observation))
      && (Terminal(p.next.status) <==>
            Refused(p.observation) || p.instruction.op == Terminate || !p.observation.success)
      && (p.next.status == Succeeded <==>
            && p.instruction.op == Terminate && Executed(env, i, p.instruction)
            && p.observation.success && !Refused(p.observation))
  {
    hide Observe, Executed, Refused, SimpleEvaluation, Extended;
    RefusedEnds(env, i, env.plan(i, s));
  }

  lemma SimpleEnd(env: Environment, s: State, i: nat)
    requires Simple(env) && s.stepIndex == i && Terminal(StepAt(env, s, i).next.status)
    ensures var p := StepAt(env, s, i);
      var events := EventsOf(s, p) + [RunFinished(p.next.stepIndex, p.next.status, false)];
      EndsSimply(env, p.next, events)
  {
    SimpleStep(env, s, i);
    hide Observe, Executed, Refused, Applied, StepAt;
  }

  lemma SimpleLimit(env: Environment, s: State, i: nat)
    requires Simple(env) && s.stepIndex == i && !Terminal(StepAt(env, s, i).next.status)
    ensures var p := StepAt(env, s, i);
      var events := EventsOf(s, p) + [RunFinished(p.next.stepIndex, Failed, true)];
      EndsSimply(env, Exhausted(p.next), events)
  {
    SimpleStep(env, s, i);
    hide Observe, Executed, Refused, Applied, StepAt;
  }

  /** With the simple evaluator an instruction that was not executed is the last one, and the run then
      fails or is blocked; the run succeeds exactly if its last instruction is a `TERMINATE` that was
      executed, reports success, and carries no refusal. */
  lemma SimpleRuns(env: Environment, maxSteps: nat)
    requires Simple(env) && maxSteps > 0
    ensures var t := Whole(env, maxSteps);
      OnlyLastRefused(env, t.events[1..], 0) && EndsSimply(env, t.final, t.events[1..])
  {
    hide Remaining, Observe, Executed, Simple, Refused, OnlyLastRefused, EndsSimply;
    SimpleRemaining(env, START, 0, maxSteps);
    assert Whole(env, maxSteps).events[1..] == Remaining(env, START, 0, maxSteps).events;
  }
}
