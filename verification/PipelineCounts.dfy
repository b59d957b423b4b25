/** Conservation: no event is lost or counted twice, in any interleaving. */
module PipelineCounts {
  import opened Policy
  import opened Pipeline
  import opened PipelineHistory

  /** Groups of phases that some counter should have counted. */
  datatype Group =
    | EscalatedEvents
    | LimitingEvents    // escalated, not yet past the escalation limiter and its log entry
    | DroppedEvents     // rate-limited and logged
    | QueuedEvents      // waiting for an LLM slot
    | InsideEvents      // inside processLLM, holding a slot
    | FailedEvents      // the LLM call failed and the slot is free again
    | DecidedEvents     // decided, logged, acted on, and the slot is free again
    | ClosingEvents     // inside processLLM, already logged
    | LlmErrors
    | LlmSuccesses
    | Decisions
    | LoggedEvents

  predicate In(p: Phase, g: Group) {
    match g
    case EscalatedEvents => Escalated(p) && !p.Novel?
    case LimitingEvents => p.Escalating? || p.Refused?
    case DroppedEvents => p.RateLimited?
    case QueuedEvents => p.Waiting?
    case InsideEvents => p.Assessing? || p.Failing? || p.Scored? || p.Ruled? || p.Audited? || p.Acted?
    case FailedEvents => p.Failed?
    case DecidedEvents => p.Decided?
    case ClosingEvents => p.Audited? || p.Acted?
    case LlmErrors => p.Failing? || p.Failed?
    case LlmSuccesses => p.Scored? || p.Ruled? || p.Audited? || p.Acted? || p.Decided?
    case Decisions => p.Ruled? || p.Audited? || p.Acted? || p.Decided?
    case LoggedEvents => p.RateLimited? || p.Audited? || p.Acted? || p.Decided?
  }

  function Tally(slots: seq<Slot>, g: Group): nat {
    if slots == [] then 0
    else
      var n := |slots| - 1;
      Tally(slots[..n], g) + One(In(slots[n].phase, g))
  }

  lemma {:induction false} TallyUpdate(slots: seq<Slot>, i: nat, slot: Slot, g: Group)
    requires i < |slots|
    ensures Tally(slots[i := slot], g) == Tally(slots, g) + One(In(slot.phase, g)) - One(In(slots[i].phase, g))
  {
    var n := |slots| - 1;
    if i < n {
      TallyUpdate(slots[..n], i, slot, g);
      assert slots[i := slot][..n] == slots[..n][i := slot];
    } else {
      assert slots[i := slot][..n] == slots[..n];
    }
  }

  lemma TallySnoc(slots: seq<Slot>, slot: Slot, g: Group)
    ensures Tally(slots + [slot], g) == Tally(slots, g) + One(In(slot.phase, g))
  {
    assert (slots + [slot])[..|slots|] == slots;
  }

  lemma {:induction false} TallyPositive(slots: seq<Slot>, i: nat, g: Group)
    requires i < |slots| && In(slots[i].phase, g)
    ensures Tally(slots, g) > 0
    decreases |slots|
  {
    if i == |slots| - 1 {
    } else {
      TallyPositive(slots[..|slots| - 1], i, g);
    }
  }

  lemma PhaseSplits(p: Phase)
    ensures One(In(p, EscalatedEvents)) ==
              One(In(p, LimitingEvents)) + One(In(p, DroppedEvents)) + One(In(p, QueuedEvents))
              + One(In(p, InsideEvents)) + One(In(p, FailedEvents)) + One(In(p, DecidedEvents))
    ensures One(In(p, LoggedEvents)) ==
              One(In(p, DroppedEvents)) + One(In(p, ClosingEvents)) + One(In(p, DecidedEvents))
  {
  }

  /** The escalated events are split among the groups, and so are the logged ones. */
  lemma {:induction false} TallySplits(slots: seq<Slot>)
    ensures Tally(slots, EscalatedEvents) ==
              Tally(slots, LimitingEvents) + Tally(slots, DroppedEvents) + Tally(slots, QueuedEvents)
              + Tally(slots, InsideEvents) + Tally(slots, FailedEvents) + Tally(slots, DecidedEvents)
    ensures Tally(slots, LoggedEvents) ==
              Tally(slots, DroppedEvents) + Tally(slots, ClosingEvents) + Tally(slots, DecidedEvents)
    decreases |slots|
  {
    if slots == [] {
    } else {
      var n := |slots| - 1;
      TallySplits(slots[..n]);
      PhaseSplits(slots[n].phase);
    }
  }

  // ---- Audit calls ---------------------------------------------------------------------

  function AuditCalls(trace: seq<Obs>): nat {
    if trace == [] then 0
    else
      var n := |trace| - 1;
      AuditCalls(trace[..n]) + One(trace[n].Logs?)
  }

  lemma {:induction false} AuditCallsAppend(a: seq<Obs>, b: seq<Obs>)
    ensures AuditCalls(a + b) == AuditCalls(a) + AuditCalls(b)
    decreases |b|
  {
    if b == [] {
      assert a + b == a;
    } else {
      var n := |b| - 1;
      assert (a + b)[..|a| + n] == a + b[..n] && (a + b)[|a| + n] == b[n];
      AuditCallsAppend(a, b[..n]);
    }
  }

  lemma {:induction false} NoAuditCalls(obs: seq<Obs>)
    requires forall k :: 0 <= k < |obs| ==> !obs[k].Logs?
    ensures AuditCalls(obs) == 0
    decreases |obs|
  {
    if obs == [] {
    } else {
      NoAuditCalls(obs[..|obs| - 1]);
    }
  }

  /** The audit logger is called by the moves that make an event logged, once each. */
  lemma MoveLogs(cfg: AgentConfig, s: State, step: Step, m: Move)
    requires Moves(cfg, s, step, m)
    ensures AuditCalls(m.obs) == One(In(m.phase, LoggedEvents)) - One(In(s.slots[step.id].phase, LoggedEvents))
  {
    if step.LogRefusal? || step.LogDecision? {
      assert m.obs[..0] == [];
    } else {
      assert forall k :: 0 <= k < |m.obs| ==> !m.obs[k].Logs?;
      NoAuditCalls(m.obs);
    }
  }

  // ---- The counters --------------------------------------------------------------------

  /** Every counter against the events it should have counted. */
  ghost predicate Balanced(s: State) {
    && s.permits == Tally(s.slots, InsideEvents) <= LLM_SLOTS
    && s.metrics.escalated == Tally(s.slots, EscalatedEvents)
    && s.metrics.rateLimited == Tally(s.slots, DroppedEvents)
    && s.metrics.llmErrors == Tally(s.slots, LlmErrors)
    && s.metrics.llmSuccesses == Tally(s.slots, LlmSuccesses)
    && s.metrics.decisions == Tally(s.slots, Decisions)
    && AuditCalls(s.trace) == Tally(s.slots, LoggedEvents)
  }

  /** The change of a group when an event moves from phase `p` to phase `q`. */
  function Change(p: Phase, q: Phase, g: Group): int {
    One(In(q, g)) - One(In(p, g))
  }

  lemma MovePermits(cfg: AgentConfig, s: State, step: Step, m: Move)
    requires Moves(cfg, s, step, m) && (step.Release? ==> s.permits > 0)
    ensures var u := Apply(cfg, s, step);
            && u.permits == s.permits + Change(s.slots[step.id].phase, m.phase, InsideEvents)
            && (s.permits <= LLM_SLOTS ==> u.permits <= LLM_SLOTS)
  {
  }

  lemma MoveEscalationMetrics(cfg: AgentConfig, s: State, step: Step, m: Move)
    requires Moves(cfg, s, step, m)
    ensures var u, p, q := Apply(cfg, s, step), s.slots[step.id].phase, m.phase;
            && u.metrics.escalated == s.metrics.escalated + Change(p, q, EscalatedEvents)
            && u.metrics.rateLimited == s.metrics.rateLimited + Change(p, q, DroppedEvents)
  {
  }

  lemma MoveLlmMetrics(cfg: AgentConfig, s: State, step: Step, m: Move)
    requires Moves(cfg, s, step, m)
    ensures var u, p, q := Apply(cfg, s, step), s.slots[step.id].phase, m.phase;
            && u.metrics.llmErrors == s.metrics.llmErrors + Change(p, q, LlmErrors)
            && u.metrics.llmSuccesses == s.metrics.llmSuccesses + Change(p, q, LlmSuccesses)
            && u.metrics.decisions == s.metrics.decisions + Change(p, q, Decisions)
  {
  }

  lemma BalancedMove(cfg: AgentConfig, s: State, step: Step, m: Move)
    requires Balanced(s) && Moves(cfg, s, step, m)
    ensures Balanced(Apply(cfg, s, step))
  {
    var i := step.id;
    var slot := s.slots[i].(phase := m.phase);
    if step.Release? {
      TallyPositive(s.slots, i, InsideEvents);
    }
    MovePermits(cfg, s, step, m);
    MoveEscalationMetrics(cfg, s, step, m);
    MoveLlmMetrics(cfg, s, step, m);
    MoveLogs(cfg, s, step, m);
    AuditCallsAppend(s.trace, m.obs);
    TallyUpdate(s.slots, i, slot, InsideEvents);
    TallyUpdate(s.slots, i, slot, EscalatedEvents);
    TallyUpdate(s.slots, i, slot, DroppedEvents);
    TallyUpdate(s.slots, i, slot, LlmErrors);
    TallyUpdate(s.slots, i, slot, LlmSuccesses);
    TallyUpdate(s.slots, i, slot, Decisions);
    TallyUpdate(s.slots, i, slot, LoggedEvents);
    ApplyMove(cfg, s, step, m);
  }

  lemma BalancedArrive(s: State, slot: Slot)
    requires Balanced(s) && (slot.phase.Excluded? || slot.phase.Arrived?)
    ensures Balanced(s.(slots := s.slots + [slot]))
  {
    TallySnoc(s.slots, slot, InsideEvents);
    TallySnoc(s.slots, slot, EscalatedEvents);
    TallySnoc(s.slots, slot, DroppedEvents);
    TallySnoc(s.slots, slot, LlmErrors);
    TallySnoc(s.slots, slot, LlmSuccesses);
    TallySnoc(s.slots, slot, Decisions);
    TallySnoc(s.slots, slot, LoggedEvents);
  }

  lemma BalancedStep(cfg: AgentConfig, s: State, step: Step)
    requires Balanced(s)
    ensures Balanced(Apply(cfg, s, step))
  {
    if step.Arrive? {
      BalancedArrive(s, Slot(step.ev, if SelfGuarded(cfg, step.ev) then Excluded else Arrived));
    } else if step.id < |s.slots| {
      var m := MoveOf(cfg, s, step, s.slots[step.id]);
      if m.Some? {
        BalancedMove(cfg, s, step, m.value);
      }
    }
  }

  lemma {:induction false} BalancedHolds(cfg: AgentConfig, loaded: set<string>, start: Time, steps: seq<Step>)
    ensures Balanced(Exec(cfg, Initial(loaded, start), steps))
    decreases |steps|
  {
    if steps == [] {
    } else {
      var n := |steps| - 1;
      BalancedHolds(cfg, loaded, start, steps[..n]);
      BalancedStep(cfg, Exec(cfg, Initial(loaded, start), steps[..n]), steps[n]);
    }
  }

  /** No event is mid-step: each is finished or waits for an LLM slot. */
  ghost predicate Quiescent(slots: seq<Slot>) {
    forall i :: 0 <= i < |slots| ==> !In(slots[i].phase, LimitingEvents) && !In(slots[i].phase, InsideEvents)
  }

  lemma {:induction false} QuiescentTallies(slots: seq<Slot>)
    requires Quiescent(slots)
    ensures Tally(slots, LimitingEvents) == Tally(slots, InsideEvents) == Tally(slots, ClosingEvents) == 0
    ensures Tally(slots, LlmErrors) == Tally(slots, FailedEvents)
    ensures Tally(slots, Decisions) == Tally(slots, DecidedEvents)
    decreases |slots|
  {
    if slots == [] {
    } else {
      QuiescentTallies(slots[..|slots| - 1]);
    }
  }

  /** Conservation: in every interleaving at most 3 events are inside `processLLM`; every
      escalated event is in exactly one of six places; the audit logger has been called once for
      each rate-limited event and each decided one that has got that far.  Once no event is
      mid-step, escalated = rate-limited + waiting + LLM-failed + decided, and the audit calls are
      the rate-limited and the decided events. */
  lemma EventsConserved(cfg: AgentConfig, loaded: set<string>, start: Time, steps: seq<Step>, s: State)
    requires s == Exec(cfg, Initial(loaded, start), steps)
    ensures Tally(s.slots, InsideEvents) <= 3
    ensures s.metrics.escalated ==
              Tally(s.slots, LimitingEvents) + Tally(s.slots, DroppedEvents) + Tally(s.slots, QueuedEvents)
              + Tally(s.slots, InsideEvents) + Tally(s.slots, FailedEvents) + Tally(s.slots, DecidedEvents)
    ensures AuditCalls(s.trace) ==
              Tally(s.slots, DroppedEvents) + Tally(s.slots, ClosingEvents) + Tally(s.slots, DecidedEvents)
    ensures Quiescent(s.slots) ==>
              && s.permits == 0
              && s.metrics.escalated ==
                   s.metrics.rateLimited + Tally(s.slots, QueuedEvents) + s.metrics.llmErrors + s.metrics.decisions
              && AuditCalls(s.trace) == s.metrics.rateLimited + s.metrics.decisions
  {
    BalancedHolds(cfg, loaded, start, steps);
    TallySplits(s.slots);
    if Quiescent(s.slots) {
      QuiescentTallies(s.slots);
    }
  }
}
