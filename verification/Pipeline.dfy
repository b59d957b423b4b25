/** The event pipeline as a transition system.

    Every event handed to `handleEvent` occupies a slot and moves through phases; the steps are
    the mutex-protected sections, the semaphore operations and the calls to the outside.  A
    step that is not enabled changes nothing, so a list of steps is one interleaving of all the
    goroutines, and every interleaving is some list of steps. */
module Pipeline {
  import opened Text
  import opened Policy
  import opened Escalation
  import Baseline
  import Normalizer
  import Lines
  import AuditHistory
  import Disk

  datatype Event = Event(eventType: string, comm: string, detail: string, pid: Uint32, uid: Uint32)

  datatype Mode = Learn | Filter

  datatype AgentConfig = AgentConfig(mode: Mode, selfPid: Uint32, policy: Policy.Config)

  const EXCLUDED_COMMS: set<string> := {"ollama", "llama-server", "watchbpf-agent"}
  const LLM_SLOTS: nat := 3
  const ACTIONS: set<string> := {"log", "alert", "isolate", "kill"}
  const STORM_TIER := "rate_limited"
  const STORM_REASON := "escalation storm \U{E2}\U{80}\U{94} LLM call skipped"

  function Key(ev: Event): string {
    Baseline.MakeKey(ev.eventType, ev.comm, ev.detail)
  }

  /** The self-feedback guard. */
  predicate SelfGuarded(cfg: AgentConfig, ev: Event) {
    ev.pid == cfg.selfPid || ev.comm in EXCLUDED_COMMS
  }

  /** What the LLM backend answered, before validation. */
  datatype Answer = Answer(score: Int64, action: string)

  /** The checks of `parseAssessment`. */
  predicate Usable(a: Option<Answer>) {
    a.Some? && 0 <= a.value.score <= 100 && a.value.action in ACTIONS
  }

  datatype Signal = SigKill | SigStop

  /** A call of the action limiter. */
  datatype Question = Question(at: Time, granted: bool)

  /** An assessed event and the decision on it. */
  datatype Case = Case(reading: Reading, score: Int64, decision: Decision, asked: Option<Question>)

  /** One audit call: the timestamp it read, and what became of its write. */
  datatype Filing = Filing(stamp: string, outcome: Disk.Outcome)

  datatype Phase =
    | Excluded | Arrived | Known | Unlearned | Learned
    | Novel | Escalating | Refused(reading: Reading) | RateLimited(reading: Reading, filing: Filing)
    | Waiting(reading: Reading) | Assessing(reading: Reading)
    | Failing(reading: Reading) | Failed(reading: Reading)
    | Scored(reading: Reading, score: Int64)
    | Ruled(c: Case) | Audited(c: Case, filing: Filing) | Acted(c: Case, filing: Filing) | Decided(c: Case, filing: Filing)

  datatype Slot = Slot(ev: Event, phase: Phase)

  /** What an event does that others can see, in the order it happens. */
  datatype Obs =
    | Learns(id: nat)
    | Escalates(id: nat)
    | Counted(id: nat, reading: Reading, admitted: bool)
    | Takes(id: nat)
    | Frees(id: nat)
    | Errs(id: nat)
    | Scores(id: nat, score: Int64)
    | Asks(id: nat, question: Question)
    | Logs(id: nat, call: AuditHistory.Call, outcome: Disk.Outcome)
    | Signals(id: nat, signal: Signal, pid: Uint32)
    | Isolates(id: nat, ip: string)

  datatype Metrics = Metrics(escalated: nat, rateLimited: nat, llmErrors: nat, llmSuccesses: nat, decisions: nat)

  /** Each limiter reads the clock under its own mutex, so its readings are ordered among
      themselves and not against the other's: there is one latest reading for each.  `calls` are the
      calls of the audit logger, each with the outcome of its write. */
  datatype State = State(
    escalationClock: Time,
    actionClock: Time,
    slots: seq<Slot>,
    known: set<string>,
    window: Window,
    retained: seq<Time>,
    permits: nat,
    metrics: Metrics,
    calls: seq<AuditHistory.Op>,
    trace: seq<Obs>)

  function Initial(loaded: set<string>, start: Time): State {
    State(start, start, [], loaded, Window(start, 0), [], 0, Metrics(0, 0, 0, 0, 0), [], [])
  }

  datatype Step =
    | Arrive(ev: Event)
    | Lookup(id: nat)
    | LearnKey(id: nat)
    | Escalate(id: nat)
    | Limit(id: nat, reading: Reading)
    | LogRefusal(id: nat, filing: Filing)
    | Acquire(id: nat)
    | Respond(id: nat, answer: Option<Answer>)
    | Evaluate(id: nat, at: Time)
    | LogDecision(id: nat, filing: Filing)
    | Act(id: nat)
    | Release(id: nat)

  /** The audit call about a rate-limited event. */
  function RefusalCall(ev: Event, stamp: string): AuditHistory.Call {
    AuditHistory.Call(stamp, ev.eventType, ev.comm, ev.detail, ev.pid, -1, STORM_TIER, STORM_REASON, "")
  }

  /** The audit call about a decision. */
  function DecisionCall(ev: Event, c: Case, stamp: string): AuditHistory.Call {
    AuditHistory.Call(stamp, ev.eventType, ev.comm, ev.detail, ev.pid, c.score,
                      TierName(c.decision.tier), c.decision.reason, "")
  }

  function LogsRefusal(id: nat, ev: Event, filing: Filing): Obs {
    Logs(id, RefusalCall(ev, filing.stamp), filing.outcome)
  }

  function LogsDecision(id: nat, ev: Event, c: Case, filing: Filing): Obs {
    Logs(id, DecisionCall(ev, c, filing.stamp), filing.outcome)
  }

  /** The guard of `KillProcess` and `PauseProcess`. */
  predicate Killable(pid: Uint32) {
    pid != 0 && pid != 1
  }

  /** What the end of `processLLM` does about a decision. */
  function Effects(id: nat, ev: Event, d: Decision): seq<Obs> {
    if IsDryRun(d) then []
    else if d.tier == TierHard then
      (if Killable(ev.pid) then [Signals(id, SigKill, ev.pid)] else []) +
      (if ev.eventType == "CONNECT" then [Isolates(id, Lines.FirstPiece(ev.detail))] else [])
    else if d.tier == TierSoft then
      (if Killable(ev.pid) then [Signals(id, SigStop, ev.pid)] else [])
    else []
  }

  /** The new phase of the event that moves, and what it is seen doing. */
  datatype Move = Move(phase: Phase, obs: seq<Obs>)

  /** The move of a step on a slot, or None when the step is not enabled there. */
  function MoveOf(cfg: AgentConfig, s: State, step: Step, slot: Slot): Option<Move> {
    var ev := slot.ev;
    match (step, slot.phase)
    case (Lookup(_), Arrived) =>
      Some(Move(if Key(ev) in s.known then Known else if cfg.mode == Learn then Unlearned else Novel, []))
    case (LearnKey(i), Unlearned) => Some(Move(Learned, [Learns(i)]))
    case (Escalate(i), Novel) => Some(Move(Escalating, [Escalates(i)]))
    case (Limit(i, r), Escalating) =>
      if s.escalationClock <= r.since && Ordered(r) then
        var admitted := Admits(s.window, r);
        Some(Move(if admitted then Waiting(r) else Refused(r), [Counted(i, r, admitted)]))
      else None
    case (LogRefusal(i, filing), Refused(r)) => Some(Move(RateLimited(r, filing), [LogsRefusal(i, ev, filing)]))
    case (Acquire(i), Waiting(r)) =>
      if s.permits < LLM_SLOTS then Some(Move(Assessing(r), [Takes(i)])) else None
    case (Respond(i, answer), Assessing(r)) =>
      Some(if Usable(answer) then Move(Scored(r, answer.value.score), [Scores(i, answer.value.score)])
           else Move(Failing(r), [Errs(i)]))
    case (Evaluate(i, at), Scored(r, score)) =>
      if s.actionClock <= at then
        var ruling := Rule(cfg.policy, ev.comm, score, s.retained, at);
        var asked := if ruling.asked.Some? then Some(Question(at, ruling.asked.value)) else None;
        Some(Move(Ruled(Case(r, score, ruling.decision, asked)),
                  if asked.Some? then [Asks(i, asked.value)] else []))
      else None
    case (LogDecision(i, filing), Ruled(c)) => Some(Move(Audited(c, filing), [LogsDecision(i, ev, c, filing)]))
    case (Act(i), Audited(c, filing)) => Some(Move(Acted(c, filing), Effects(i, ev, c.decision)))
    case (Release(i), Acted(c, filing)) => Some(Move(Decided(c, filing), [Frees(i)]))
    case (Release(i), Failing(r)) => Some(Move(Failed(r), [Frees(i)]))
    case _ => None
  }

  /** The shared state after an enabled step. */
  function Share(cfg: AgentConfig, s: State, step: Step, ev: Event, m: Move): State {
    match step
    case LearnKey(_) => s.(known := s.known + {Key(ev)})
    case Escalate(_) => s.(metrics := s.metrics.(escalated := s.metrics.escalated + 1))
    case Limit(_, r) => s.(window := Tick(s.window, r), escalationClock := r.done)
    case LogRefusal(_, filing) =>
      s.(metrics := s.metrics.(rateLimited := s.metrics.rateLimited + 1),
         calls := s.calls + [AuditHistory.Record(RefusalCall(ev, filing.stamp), filing.outcome)])
    case LogDecision(_, filing) =>
      if m.phase.Audited? then
        s.(calls := s.calls + [AuditHistory.Record(DecisionCall(ev, m.phase.c, filing.stamp), filing.outcome)])
      else s
    case Acquire(_) => s.(permits := s.permits + 1)
    case Respond(_, _) =>
      if m.phase.Scored? then s.(metrics := s.metrics.(llmSuccesses := s.metrics.llmSuccesses + 1))
      else s.(metrics := s.metrics.(llmErrors := s.metrics.llmErrors + 1))
    case Evaluate(_, at) =>
      if m.phase.Ruled? && m.phase.c.asked.Some? then
        s.(metrics := s.metrics.(decisions := s.metrics.decisions + 1),
           retained := Allow(s.retained, cfg.policy.maxActions, at).0, actionClock := at)
      else s.(metrics := s.metrics.(decisions := s.metrics.decisions + 1))
    case Release(_) => s.(permits := if s.permits > 0 then s.permits - 1 else 0)
    case _ => s
  }

  /** One step of the system. */
  function Apply(cfg: AgentConfig, s: State, step: Step): State {
    if step.Arrive? then
      s.(slots := s.slots + [Slot(step.ev, if SelfGuarded(cfg, step.ev) then Excluded else Arrived)])
    else if step.id < |s.slots| then
      var slot := s.slots[step.id];
      var m := MoveOf(cfg, s, step, slot);
      if m.None? then s
      else
        Share(cfg, s, step, slot.ev, m.value).(
          slots := s.slots[step.id := Slot(slot.ev, m.value.phase)],
          trace := s.trace + m.value.obs)
    else s
  }

  function Exec(cfg: AgentConfig, s: State, steps: seq<Step>): State {
    if steps == [] then s
    else
      var n := |steps| - 1;
      Apply(cfg, Exec(cfg, s, steps[..n]), steps[n])
  }

  /** The events that arrive, in order. */
  function Arrivals(steps: seq<Step>): seq<Event> {
    if steps == [] then []
    else
      var n := |steps| - 1;
      Arrivals(steps[..n]) + (if steps[n].Arrive? then [steps[n].ev] else [])
  }

  ghost predicate HoldsEvents(slots: seq<Slot>, events: seq<Event>) {
    |slots| == |events| && forall i :: 0 <= i < |slots| ==> slots[i].ev == events[i]
  }

  /** A step adds the event that arrives, as it is, and changes no other. */
  lemma StepKeepsEvents(cfg: AgentConfig, s: State, step: Step, events: seq<Event>)
    requires HoldsEvents(s.slots, events)
    ensures HoldsEvents(Apply(cfg, s, step).slots, events + (if step.Arrive? then [step.ev] else []))
  {
  }

  /** In every interleaving the slots hold the events that arrived, in their order and unchanged. */
  lemma {:induction false} SlotsHoldArrivals(cfg: AgentConfig, loaded: set<string>, start: Time, steps: seq<Step>)
    ensures HoldsEvents(Exec(cfg, Initial(loaded, start), steps).slots, Arrivals(steps))
    decreases |steps|
  {
    if steps == [] {
    } else {
      var n := |steps| - 1;
      SlotsHoldArrivals(cfg, loaded, start, steps[..n]);
      StepKeepsEvents(cfg, Exec(cfg, Initial(loaded, start), steps[..n]), steps[n], Arrivals(steps[..n]));
    }
  }

  lemma ExecSnoc(cfg: AgentConfig, s: State, steps: seq<Step>, step: Step)
    ensures Exec(cfg, s, steps + [step]) == Apply(cfg, Exec(cfg, s, steps), step)
  {
    assert (steps + [step])[..|steps|] == steps;
  }

  /** An enabled step on a slot, with its move. */
  ghost predicate Moves(cfg: AgentConfig, s: State, step: Step, m: Move) {
    && !step.Arrive? && step.id < |s.slots|
    && MoveOf(cfg, s, step, s.slots[step.id]) == Some(m)
  }

  ghost predicate Enabled(cfg: AgentConfig, s: State, step: Step) {
    step.Arrive? || (step.id < |s.slots| && MoveOf(cfg, s, step, s.slots[step.id]).Some?)
  }

  /** Each of the steps is enabled when its turn comes. */
  ghost predicate AllEnabled(cfg: AgentConfig, s: State, steps: seq<Step>) {
    forall n :: 0 <= n < |steps| ==> Enabled(cfg, Exec(cfg, s, steps[..n]), steps[n])
  }

  lemma EnabledNext(cfg: AgentConfig, s: State, steps: seq<Step>, n: nat)
    requires AllEnabled(cfg, s, steps) && n < |steps|
    ensures Enabled(cfg, Exec(cfg, s, steps[..n]), steps[n])
    ensures Exec(cfg, s, steps[..n + 1]) == Apply(cfg, Exec(cfg, s, steps[..n]), steps[n])
  {
    assert steps[..n + 1] == steps[..n] + [steps[n]];
    ExecSnoc(cfg, s, steps[..n], steps[n]);
  }

  /** The guards and checks of the pipeline, written out. */
  lemma GuardsExactly(cfg: AgentConfig, ev: Event, answer: Option<Answer>)
    ensures SelfGuarded(cfg, ev) <==>
            ev.pid == cfg.selfPid || ev.comm in {"ollama", "llama-server", "watchbpf-agent"}
    ensures Usable(answer) <==>
            answer.Some? && 0 <= answer.value.score <= 100 && answer.value.action in {"log", "alert", "isolate", "kill"}
    ensures Killable(ev.pid) <==> ev.pid !in {0, 1}
    ensures Key(ev) == ev.eventType + "|" + (ev.comm + "|" + Normalizer.Normalize(ev.detail))
  {
    Baseline.KeyFront(ev.eventType, ev.comm, ev.detail);
  }

  /** What it takes for each step. */
  lemma EnabledExactly(cfg: AgentConfig, s: State, step: Step)
    requires !step.Arrive? && step.id < |s.slots|
    ensures var p := s.slots[step.id].phase;
            Enabled(cfg, s, step) <==>
              match step
              case Lookup(_) => p.Arrived?
              case LearnKey(_) => p.Unlearned?
              case Escalate(_) => p.Novel?
              case Limit(_, r) => p.Escalating? && s.escalationClock <= r.since && Ordered(r)
              case LogRefusal(_, _) => p.Refused?
              case Acquire(_) => p.Waiting? && s.permits < 3
              case Respond(_, _) => p.Assessing?
              case Evaluate(_, at) => p.Scored? && s.actionClock <= at
              case LogDecision(_, _) => p.Ruled?
              case Act(_) => p.Audited?
              case Release(_) => p.Acted? || p.Failing?
  {
  }

  // ---- Single steps, spelled out -------------------------------------------------------

  lemma ApplyEvaluate(cfg: AgentConfig, s: State, id: nat, at: Time)
    requires id < |s.slots| && s.slots[id].phase.Scored? && s.actionClock <= at
    ensures var slot := s.slots[id];
            var ruling := Rule(cfg.policy, slot.ev.comm, slot.phase.score, s.retained, at);
            var asked := if ruling.asked.Some? then Some(Question(at, ruling.asked.value)) else None;
            Apply(cfg, s, Evaluate(id, at)) == State(
              s.escalationClock, if asked.Some? then at else s.actionClock,
              s.slots[id := Slot(slot.ev, Ruled(Case(slot.phase.reading, slot.phase.score, ruling.decision, asked)))],
              s.known, s.window, ruling.retained, s.permits,
              s.metrics.(decisions := s.metrics.decisions + 1), s.calls,
              s.trace + (if asked.Some? then [Asks(id, asked.value)] else []))
  {
  }

  /** Looking an event up: known exactly when its key is in the store at that moment; otherwise to be
      learned or to be escalated, by the mode. */
  lemma ApplyLookup(cfg: AgentConfig, s: State, id: nat)
    requires id < |s.slots| && s.slots[id].phase.Arrived?
    ensures var slot := s.slots[id];
            Apply(cfg, s, Lookup(id)) ==
              s.(slots := s.slots[id := Slot(slot.ev,
                   if Key(slot.ev) in s.known then Known else if cfg.mode == Learn then Unlearned else Novel)])
  {
    assert s.trace + [] == s.trace;
  }

  lemma ApplyLimit(cfg: AgentConfig, s: State, id: nat, r: Reading)
    requires id < |s.slots| && s.slots[id].phase.Escalating? && s.escalationClock <= r.since && Ordered(r)
    ensures var admitted := Tick(s.window, r).count <= 50;
            Apply(cfg, s, Limit(id, r)) ==
              s.(window := Tick(s.window, r), escalationClock := r.done,
                 slots := s.slots[id := Slot(s.slots[id].ev, if admitted then Waiting(r) else Refused(r))],
                 trace := s.trace + [Counted(id, r, admitted)])
  {
  }

  lemma ApplyEscalate(cfg: AgentConfig, s: State, id: nat)
    requires id < |s.slots| && s.slots[id].phase.Novel?
    ensures Apply(cfg, s, Escalate(id)) ==
              s.(metrics := s.metrics.(escalated := s.metrics.escalated + 1),
                 slots := s.slots[id := Slot(s.slots[id].ev, Escalating)],
                 trace := s.trace + [Escalates(id)])
  {
  }

  lemma ApplyAcquire(cfg: AgentConfig, s: State, id: nat)
    requires id < |s.slots| && s.slots[id].phase.Waiting? && s.permits < LLM_SLOTS
    ensures Apply(cfg, s, Acquire(id)) ==
              s.(permits := s.permits + 1,
                 slots := s.slots[id := Slot(s.slots[id].ev, Assessing(s.slots[id].phase.reading))],
                 trace := s.trace + [Takes(id)])
  {
  }

  lemma ApplyRespond(cfg: AgentConfig, s: State, id: nat, answer: Option<Answer>)
    requires id < |s.slots| && s.slots[id].phase.Assessing?
    ensures var slot := s.slots[id];
            var r := slot.phase.reading;
            Apply(cfg, s, Respond(id, answer)) ==
              if Usable(answer) then
                s.(metrics := s.metrics.(llmSuccesses := s.metrics.llmSuccesses + 1),
                   slots := s.slots[id := Slot(slot.ev, Scored(r, answer.value.score))],
                   trace := s.trace + [Scores(id, answer.value.score)])
              else
                s.(metrics := s.metrics.(llmErrors := s.metrics.llmErrors + 1),
                   slots := s.slots[id := Slot(slot.ev, Failing(r))],
                   trace := s.trace + [Errs(id)])
  {
  }

  lemma ApplyLogRefusal(cfg: AgentConfig, s: State, id: nat, filing: Filing)
    requires id < |s.slots| && s.slots[id].phase.Refused?
    ensures var slot := s.slots[id];
            Apply(cfg, s, LogRefusal(id, filing)) ==
              s.(metrics := s.metrics.(rateLimited := s.metrics.rateLimited + 1),
                 calls := s.calls + [AuditHistory.Record(RefusalCall(slot.ev, filing.stamp), filing.outcome)],
                 slots := s.slots[id := Slot(slot.ev, RateLimited(slot.phase.reading, filing))],
                 trace := s.trace + [LogsRefusal(id, slot.ev, filing)])
  {
  }

  lemma ApplyLogDecision(cfg: AgentConfig, s: State, id: nat, filing: Filing)
    requires id < |s.slots| && s.slots[id].phase.Ruled?
    ensures var ev, c := s.slots[id].ev, s.slots[id].phase.c;
            Apply(cfg, s, LogDecision(id, filing)) ==
              s.(calls := s.calls + [AuditHistory.Record(DecisionCall(ev, c, filing.stamp), filing.outcome)],
                 slots := s.slots[id := Slot(ev, Audited(c, filing))],
                 trace := s.trace + [LogsDecision(id, ev, c, filing)])
  {
  }

  lemma ApplyAct(cfg: AgentConfig, s: State, id: nat)
    requires id < |s.slots| && s.slots[id].phase.Audited?
    ensures var slot := s.slots[id];
            Apply(cfg, s, Act(id)) ==
              s.(slots := s.slots[id := Slot(slot.ev, Acted(slot.phase.c, slot.phase.filing))],
                 trace := s.trace + Effects(id, slot.ev, slot.phase.c.decision))
  {
  }

  lemma ApplyRelease(cfg: AgentConfig, s: State, id: nat)
    requires id < |s.slots| && (s.slots[id].phase.Acted? || s.slots[id].phase.Failing?)
    ensures var slot := s.slots[id];
            Apply(cfg, s, Release(id)) ==
              s.(permits := if s.permits > 0 then s.permits - 1 else 0,
                 slots := s.slots[id := Slot(slot.ev,
                   if slot.phase.Acted? then Decided(slot.phase.c, slot.phase.filing) else Failed(slot.phase.reading))],
                 trace := s.trace + [Frees(id)])
  {
  }
}
