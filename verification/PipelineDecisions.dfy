/** What the agent decides and does about an event, exactly, in every interleaving. */
module PipelineDecisions {
  import opened Text
  import opened Policy
  import opened Pipeline
  import opened PipelineHistory
  import opened PipelineLimits
  import Lines
  import AuditHistory

  /** The events that have been decided on. */
  predicate Ruling(p: Phase) {
    p.Ruled? || p.Audited? || p.Acted? || p.Decided?
  }

  predicate Done(p: Phase) {
    p.Acted? || p.Decided?
  }

  lemma {:induction false} OwnMembers(trace: seq<Obs>, i: nat, o: Obs)
    ensures o in Own(trace, i) <==> o in trace && o.id == i
    decreases |trace|
  {
    if trace == [] {
    } else {
      var n := |trace| - 1;
      OwnMembers(trace[..n], i, o);
      assert trace == trace[..n] + [trace[n]];
    }
  }

  /** What an event has been seen doing is in its trail, and the other way round. */
  lemma SeenExactly(cfg: AgentConfig, loaded: set<string>, start: Time, steps: seq<Step>, s: State, i: nat, o: Obs)
    requires s == Exec(cfg, Initial(loaded, start), steps) && i < |s.slots| && o.id == i
    ensures o in s.trace <==> o in Trail(i, s.slots[i])
  {
    TrailsHold(cfg, loaded, start, steps);
    OwnMembers(s.trace, i, o);
  }

  // ---- The decision --------------------------------------------------------------------

  lemma AsksInTrail(i: nat, slot: Slot, q: Question)
    requires Ruling(slot.phase)
    ensures Asks(i, q) in Trail(i, slot) <==> slot.phase.c.asked == Some(q)
  {
    var c := slot.phase.c;
    assert Asks(i, q) in TrailRuled(i, c) <==> c.asked == Some(q);
  }

  /** The event asked for an action at a moment when the last minute's grants were used up. */
  ghost predicate AskedInVain(cfg: AgentConfig, trace: seq<Obs>, i: nat) {
    exists k :: 0 <= k < |trace| && trace[k].Asks? && trace[k].id == i && !Room(cfg, trace[..k], trace[k].question.at)
  }

  /** An action is withheld exactly from an event that asked in vain. */
  lemma WithheldExactly(cfg: AgentConfig, loaded: set<string>, start: Time, steps: seq<Step>, s: State, i: nat)
    requires s == Exec(cfg, Initial(loaded, start), steps) && i < |s.slots| && Ruling(s.slots[i].phase)
    ensures Withheld(s.slots[i].phase.c) <==> AskedInVain(cfg, s.trace, i)
  {
    var c := s.slots[i].phase.c;
    AnsweredHolds(cfg, loaded, start, steps);
    if c.asked.Some? {
      SeenExactly(cfg, loaded, start, steps, s, i, Asks(i, c.asked.value));
      AsksInTrail(i, s.slots[i], c.asked.value);
      var k :| 0 <= k < |s.trace| && s.trace[k] == Asks(i, c.asked.value);
      assert c.asked.value.granted <==> Room(cfg, s.trace[..k], s.trace[k].question.at);
    }
    if AskedInVain(cfg, s.trace, i) {
      var k :| 0 <= k < |s.trace| && s.trace[k].Asks? && s.trace[k].id == i
               && !Room(cfg, s.trace[..k], s.trace[k].question.at);
      SeenExactly(cfg, loaded, start, steps, s, i, s.trace[k]);
      AsksInTrail(i, s.slots[i], s.trace[k].question);
    }
  }

  /** The tier of every decision, told from the score, the configuration and the history of grants:
      it is the score's, except that an action is lowered to Alert for a protected process and for
      an event that asked the limiter in vain. */
  lemma TierExactly(cfg: AgentConfig, loaded: set<string>, start: Time, steps: seq<Step>, s: State, i: nat)
    requires s == Exec(cfg, Initial(loaded, start), steps) && i < |s.slots| && Ruling(s.slots[i].phase)
    ensures var c, t := s.slots[i].phase.c, TierOf(cfg.policy, s.slots[i].phase.c.score);
            c.decision.tier ==
              if Acts(t) && (s.slots[i].ev.comm in cfg.policy.protectedComms || AskedInVain(cfg, s.trace, i)) then TierAlert
              else t
  {
    SaneHolds(cfg, loaded, start, steps);
    assert PhaseSound(cfg, loaded, s.slots[i]);
    WithheldExactly(cfg, loaded, start, steps, s, i);
  }

  // ---- The action ----------------------------------------------------------------------

  lemma EffectInTrail(i: nat, slot: Slot, o: Obs)
    requires Done(slot.phase) && (o.Signals? || o.Isolates?)
    ensures o in Trail(i, slot) <==> o in Effects(i, slot.ev, slot.phase.c.decision)
  {
    var audited := TrailAudited(i, slot.ev, slot.phase.c, slot.phase.filing);
    var effects := Effects(i, slot.ev, slot.phase.c.decision);
    assert forall q :: 0 <= q < |audited| ==> !audited[q].Signals? && !audited[q].Isolates?;
    assert Trail(i, slot) == audited + effects + (if slot.phase.Decided? then [Frees(i)] else []);
  }

  /** The score calls for this signal. */
  predicate CallsFor(cfg: AgentConfig, score: int, signal: Signal) {
    if signal == SigKill then cfg.policy.hard <= score else cfg.policy.soft <= score < cfg.policy.hard
  }

  /** Everything the policy asks for before a process is signalled, but for the limiter. */
  predicate Enforceable(cfg: AgentConfig, ev: Event, score: int, signal: Signal) {
    && CallsFor(cfg, score, signal) && cfg.policy.enforceMode == "live"
    && ev.comm !in cfg.policy.protectedComms && ev.pid != 0 && ev.pid != 1
  }

  lemma SignalsExactly(cfg: AgentConfig, loaded: set<string>, i: nat, slot: Slot, signal: Signal)
    requires PhaseSound(cfg, loaded, slot) && Done(slot.phase)
    ensures var c := slot.phase.c;
            Signals(i, signal, slot.ev.pid) in Effects(i, slot.ev, c.decision) <==>
            Enforceable(cfg, slot.ev, c.score, signal) && !Withheld(c)
  {
  }

  /** Enforcement, exactly: in every interleaving an event that has been acted on got its process
      killed if and only if its score is at or above the hard threshold, enforcement is live, the
      process is unprotected and may be signalled, and the event did not ask the limiter in vain.
      The same for pausing and a score between the soft and the hard threshold.  The fate of the
      audit write plays no part. */
  lemma EnforcedExactly(cfg: AgentConfig, loaded: set<string>, start: Time, steps: seq<Step>, s: State, i: nat, signal: Signal)
    requires s == Exec(cfg, Initial(loaded, start), steps) && i < |s.slots| && Done(s.slots[i].phase)
    ensures Signals(i, signal, s.slots[i].ev.pid) in s.trace <==>
            Enforceable(cfg, s.slots[i].ev, s.slots[i].phase.c.score, signal) && !AskedInVain(cfg, s.trace, i)
  {
    var o := Signals(i, signal, s.slots[i].ev.pid);
    SaneHolds(cfg, loaded, start, steps);
    assert PhaseSound(cfg, loaded, s.slots[i]);
    SeenExactly(cfg, loaded, start, steps, s, i, o);
    EffectInTrail(i, s.slots[i], o);
    SignalsExactly(cfg, loaded, i, s.slots[i], signal);
    WithheldExactly(cfg, loaded, start, steps, s, i);
  }

  /** Everything the policy asks for before an address is isolated, but for the limiter; the pid plays
      no part. */
  predicate Isolable(cfg: AgentConfig, ev: Event, score: int) {
    && ev.eventType == "CONNECT" && cfg.policy.hard <= score && cfg.policy.enforceMode == "live"
    && ev.comm !in cfg.policy.protectedComms
  }

  lemma IsolatesExactly(cfg: AgentConfig, loaded: set<string>, i: nat, slot: Slot, ip: string)
    requires PhaseSound(cfg, loaded, slot) && Done(slot.phase)
    ensures var c := slot.phase.c;
            Isolates(i, ip) in Effects(i, slot.ev, c.decision) <==>
            Isolable(cfg, slot.ev, c.score) && !Withheld(c) && ip == Lines.FirstPiece(slot.ev.detail)
  {
  }

  /** Isolation, exactly: in every interleaving an event that has been acted on got an address isolated
      if and only if it is a CONNECT event with a score at or above the hard threshold, enforcement is
      live, the process is unprotected and the event did not ask the limiter in vain; the address is
      then the text of the detail before the first colon.  This is besides the kill, not instead of
      it. */
  lemma IsolatedExactly(cfg: AgentConfig, loaded: set<string>, start: Time, steps: seq<Step>, s: State, i: nat, ip: string)
    requires s == Exec(cfg, Initial(loaded, start), steps) && i < |s.slots| && Done(s.slots[i].phase)
    ensures Isolates(i, ip) in s.trace <==>
            && Isolable(cfg, s.slots[i].ev, s.slots[i].phase.c.score) && !AskedInVain(cfg, s.trace, i)
            && ip == Lines.FirstPiece(s.slots[i].ev.detail)
  {
    SaneHolds(cfg, loaded, start, steps);
    assert PhaseSound(cfg, loaded, s.slots[i]);
    SeenExactly(cfg, loaded, start, steps, s, i, Isolates(i, ip));
    EffectInTrail(i, s.slots[i], Isolates(i, ip));
    IsolatesExactly(cfg, loaded, i, s.slots[i], ip);
    WithheldExactly(cfg, loaded, start, steps, s, i);
  }

  // ---- Nothing stands in the way -------------------------------------------------------

  /** The last three steps of an event that has been scored. */
  function LastSteps(i: nat, at: Time, filing: Filing): seq<Step> {
    [Evaluate(i, at), LogDecision(i, filing), Act(i)]
  }

  lemma ExecLastSteps(cfg: AgentConfig, s: State, steps: seq<Step>, i: nat, at: Time, filing: Filing)
    ensures Exec(cfg, s, steps + LastSteps(i, at, filing)) == AfterLastSteps(cfg, Exec(cfg, s, steps), i, at, filing)
  {
    var a, b, c := Evaluate(i, at), LogDecision(i, filing), Act(i);
    ExecSnoc(cfg, s, steps, a);
    ExecSnoc(cfg, s, steps + [a], b);
    ExecSnoc(cfg, s, steps + [a] + [b], c);
    assert steps + LastSteps(i, at, filing) == steps + [a] + [b] + [c];
  }

  function AfterLastSteps(cfg: AgentConfig, s: State, i: nat, at: Time, filing: Filing): State {
    Apply(cfg, Apply(cfg, Apply(cfg, s, Evaluate(i, at)), LogDecision(i, filing)), Act(i))
  }

  /** From any state these steps act on the event, by the ruling on the timestamps of the moment. */
  lemma LastStepsAct(cfg: AgentConfig, s: State, i: nat, at: Time, filing: Filing)
    requires i < |s.slots| && s.slots[i].phase.Scored? && s.actionClock <= at
    ensures var t := AfterLastSteps(cfg, s, i, at, filing);
            var slot := s.slots[i];
            var ruling := Rule(cfg.policy, slot.ev.comm, slot.phase.score, s.retained, at);
            var asked := if ruling.asked.Some? then Some(Question(at, ruling.asked.value)) else None;
            && |t.slots| == |s.slots|
            && t.slots[i] == Slot(slot.ev, Acted(Case(slot.phase.reading, slot.phase.score, ruling.decision, asked), filing))
  {
    ApplyEvaluate(cfg, s, i, at);
    var u := Apply(cfg, s, Evaluate(i, at));
    ApplyLogDecision(cfg, u, i, filing);
    var v := Apply(cfg, u, LogDecision(i, filing));
    ApplyAct(cfg, v, i);
  }

  /** Enforcement happens: from every reachable state an event that has been scored can be acted on
      at any later reading of the clock, whatever the other events are doing and whatever becomes of
      its audit entry; its process is then killed, or paused, exactly when the policy calls for it
      and the limiter has room at that reading. */
  lemma ScoredIsEnforcedExactly(cfg: AgentConfig, loaded: set<string>, start: Time, steps: seq<Step>, s: State,
                                i: nat, at: Time, filing: Filing, signal: Signal)
    requires s == Exec(cfg, Initial(loaded, start), steps)
    requires i < |s.slots| && s.slots[i].phase.Scored? && s.actionClock <= at
    ensures var t := Exec(cfg, Initial(loaded, start), steps + LastSteps(i, at, filing));
            && i < |t.slots| && t.slots[i].phase.Acted?
            && (Signals(i, signal, s.slots[i].ev.pid) in t.trace <==>
                Enforceable(cfg, s.slots[i].ev, s.slots[i].phase.score, signal) && Room(cfg, s.trace, at))
  {
    var more := steps + LastSteps(i, at, filing);
    var t := Exec(cfg, Initial(loaded, start), more);
    ExecLastSteps(cfg, Initial(loaded, start), steps, i, at, filing);
    LastStepsAct(cfg, s, i, at, filing);
    var slot := s.slots[i];
    RuleExactly(cfg.policy, slot.ev.comm, slot.phase.score, s.retained, at);
    TrackedHolds(cfg, loaded, start, steps);
    AnswerIsRoom(cfg, start, s, at);
    EnforcedExactly(cfg, loaded, start, more, t, i, signal);
    WithheldExactly(cfg, loaded, start, more, t, i);
  }

  // ---- Events that never get a decision ------------------------------------------------

  /** An event refused by the escalation limiter is recorded as rate-limited, under a name that is no
      tier, and nothing else is ever seen of it: no score, no alert, no action. */
  lemma RefusedIsOnlyRecorded(cfg: AgentConfig, loaded: set<string>, start: Time, steps: seq<Step>, s: State, i: nat, t: Tier)
    requires s == Exec(cfg, Initial(loaded, start), steps) && i < |s.slots| && s.slots[i].phase.RateLimited?
    ensures var p, ev := s.slots[i].phase, s.slots[i].ev;
            var call := AuditHistory.Call(p.filing.stamp, ev.eventType, ev.comm, ev.detail, ev.pid, -1, "rate_limited",
                                          "escalation storm \U{E2}\U{80}\U{94} LLM call skipped", "");
            Own(s.trace, i) == [Escalates(i), Counted(i, p.reading, false), Logs(i, call, p.filing.outcome)]
    ensures TierName(t) != "rate_limited"
  {
    TrailsHold(cfg, loaded, start, steps);
    assert |TierName(t)| != |"rate_limited"|;
  }
}
