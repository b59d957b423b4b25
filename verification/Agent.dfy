/** The running agent: the globals of the program as objects, and the locked sections, semaphore
    operations and outside calls of `handleEvent` and `processLLM` as methods.  Each method is one
    step of the transition system, so every run of the agent is one of the system's runs, and its
    audit file is what the audit calls of that run leave behind. */
module Agent {
  import opened Text
  import opened Policy
  import opened Escalation
  import opened Pipeline
  import opened PipelineAudit
  import AuditLogger
  import Baseline
  import Lines
  import Disk
  import AuditHistory
  import AuditLog
  import HashChain

  class Agent {
    const cfg: AgentConfig
    const limiter: EscalationLimiter
    const engine: Engine
    const store: Baseline.Store
    const logger: AuditLogger.Logger
    var slots: seq<Slot>
    var permits: nat
    var metrics: Metrics
    ghost const auditFile: Option<string>
    ghost var escalationClock: Time
    ghost var actionClock: Time
    ghost var calls: seq<AuditHistory.Op>
    ghost var trace: seq<Obs>

    /** The log is where the audit calls so far have taken it from the file found at the start. */
    ghost predicate Logged()
      reads this, logger, logger.file
    {
      logger.State() == LogAfter(logger.env, auditFile, calls)
    }

    ghost predicate Valid()
      reads this, engine, store, logger, logger.file
    {
      engine.Valid() && engine.cfg == cfg.policy && store.Valid() && Logged()
    }

    ghost function View(): State
      requires Valid()
      reads this, limiter, engine, engine.buffer, store, logger, logger.file
    {
      State(escalationClock, actionClock, slots, store.known.Keys, limiter.State(), engine.Timestamps(), permits, metrics, calls, trace)
    }

    constructor (cfg: AgentConfig, store: Baseline.Store, env: AuditLog.Env, file: Disk.File, start: Time)
      requires store.Valid()
      ensures Valid() && fresh(limiter) && fresh(engine) && fresh(engine.buffer) && this.store == store
      ensures fresh(logger) && logger.env == env && logger.file == file && auditFile == file.content
      ensures this.cfg == cfg && View() == Initial(store.known.Keys, start)
    {
      this.cfg, this.store := cfg, store;
      logger := new AuditLogger.Logger(env, file);
      auditFile := file.content;
      limiter := new EscalationLimiter(start);
      engine := new Engine(cfg.policy);
      slots, permits, metrics := [], 0, Metrics(0, 0, 0, 0, 0);
      escalationClock, actionClock, calls, trace := start, start, [], [];
    }

    /** The beginning of `handleEvent`. */
    method HandleEvent(ev: Event)
      requires Valid()
      modifies this
      ensures Valid() && View() == Apply(cfg, old(View()), Arrive(ev))
    {
      if ev.pid == cfg.selfPid || ev.comm in EXCLUDED_COMMS {
        slots := slots + [Slot(ev, Excluded)];
      } else {
        slots := slots + [Slot(ev, Arrived)];
      }
    }

    /** `store.IsKnown` and the branches on mode and answer. */
    method LookupEvent(id: nat)
      requires Valid() && id < |slots| && slots[id].phase.Arrived?
      modifies this
      ensures Valid() && View() == Apply(cfg, old(View()), Lookup(id))
    {
      var ev := slots[id].ev;
      ApplyLookup(cfg, View(), id);
      var known := store.IsKnown(ev.eventType, ev.comm, ev.detail);
      var phase := Novel;
      if cfg.mode == Learn {
        phase := if known then Known else Unlearned;
      } else if known {
        phase := Known;
      }
      slots := slots[id := Slot(ev, phase)];
      assert trace + [] == trace;
    }

    /** `store.Learn`. */
    method LearnEvent(id: nat)
      requires Valid() && id < |slots| && slots[id].phase.Unlearned?
      modifies this, store
      ensures Valid() && View() == Apply(cfg, old(View()), LearnKey(id))
    {
      var ev := slots[id].ev;
      store.Learn(ev.eventType, ev.comm, ev.detail);
      slots := slots[id := Slot(ev, Learned)];
      trace := trace + [Learns(id)];
    }

    /** The escalation metric. */
    method CountEscalation(id: nat)
      requires Valid() && id < |slots| && slots[id].phase.Novel?
      modifies this
      ensures Valid() && View() == Apply(cfg, old(View()), Escalate(id))
    {
      ApplyEscalate(cfg, View(), id);
      metrics := metrics.(escalated := metrics.escalated + 1);
      slots := slots[id := Slot(slots[id].ev, Escalating)];
      trace := trace + [Escalates(id)];
    }

    /** The section under `escalationMu`. */
    method LimitEscalation(id: nat, r: Reading)
      requires Valid() && id < |slots| && slots[id].phase.Escalating? && escalationClock <= r.since && Ordered(r)
      modifies this, limiter
      ensures Valid() && View() == Apply(cfg, old(View()), Limit(id, r))
    {
      ApplyLimit(cfg, View(), id, r);
      var overLimit := limiter.Count(r);
      slots := slots[id := Slot(slots[id].ev, if overLimit then Refused(r) else Waiting(r))];
      escalationClock := r.done;
      trace := trace + [Counted(id, r, !overLimit)];
    }

    /** `auditLogger.Log`: whatever becomes of the write, the log is where this call takes it. */
    method Audit(call: AuditHistory.Call, outcome: Disk.Outcome) returns (written: bool)
      requires Logged()
      modifies this`calls, logger, logger.file
      ensures Logged() && calls == old(calls) + [AuditHistory.Record(call, outcome)]
      ensures written <==> outcome.Full?
    {
      LogAfterSnoc(logger.env, auditFile, calls, call, outcome);
      written := logger.Log(call, outcome);
      calls := calls + [AuditHistory.Record(call, outcome)];
    }

    /** The rate-limited event's metric and audit entry; an error of the logger is ignored. */
    method RecordRefusal(id: nat, filing: Filing)
      requires Valid() && id < |slots| && slots[id].phase.Refused?
      modifies this, logger, logger.file
      ensures Valid() && View() == Apply(cfg, old(View()), LogRefusal(id, filing))
    {
      var slot := slots[id];
      var ev := slot.ev;
      ApplyLogRefusal(cfg, View(), id, filing);
      metrics := metrics.(rateLimited := metrics.rateLimited + 1);
      var written := Audit(
        AuditHistory.Call(filing.stamp, ev.eventType, ev.comm, ev.detail, ev.pid, -1, STORM_TIER, STORM_REASON, ""),
        filing.outcome);
      slots := slots[id := Slot(ev, RateLimited(slot.phase.reading, filing))];
      trace := trace + [LogsRefusal(id, ev, filing)];
    }

    /** Sending on `llmSemaphore`, which blocks while the channel is full. */
    method AcquireSlot(id: nat)
      requires Valid() && id < |slots| && slots[id].phase.Waiting? && permits < 3
      modifies this
      ensures Valid() && View() == Apply(cfg, old(View()), Acquire(id))
    {
      ApplyAcquire(cfg, View(), id);
      permits := permits + 1;
      slots := slots[id := Slot(slots[id].ev, Assessing(slots[id].phase.reading))];
      trace := trace + [Takes(id)];
    }

    /** The return of `llmClient.Assess`, after `parseAssessment`. */
    method ReceiveAnswer(id: nat, answer: Option<Answer>)
      requires Valid() && id < |slots| && slots[id].phase.Assessing?
      modifies this
      ensures Valid() && View() == Apply(cfg, old(View()), Respond(id, answer))
    {
      var slot := slots[id];
      var r := slot.phase.reading;
      ApplyRespond(cfg, View(), id, answer);
      if answer.None? || answer.value.score < 0 || answer.value.score > 100 || answer.value.action !in ACTIONS {
        metrics := metrics.(llmErrors := metrics.llmErrors + 1);
        slots := slots[id := Slot(slot.ev, Failing(r))];
        trace := trace + [Errs(id)];
      } else {
        metrics := metrics.(llmSuccesses := metrics.llmSuccesses + 1);
        slots := slots[id := Slot(slot.ev, Scored(r, answer.value.score))];
        trace := trace + [Scores(id, answer.value.score)];
      }
    }

    /** `policyEngine.Evaluate`; the clock is read only if the limiter is asked. */
    method EvaluateEvent(id: nat, at: Time)
      requires Valid() && id < |slots| && slots[id].phase.Scored? && actionClock <= at
      modifies this, engine, engine.buffer
      ensures Valid() && (engine.buffer == old(engine.buffer) || fresh(engine.buffer))
      ensures View() == Apply(cfg, old(View()), Evaluate(id, at))
    {
      var slot := slots[id];
      var r, score := slot.phase.reading, slot.phase.score;
      ghost var before := View();
      var decision, answer := engine.Evaluate(slot.ev.comm, score, at);
      ApplyEvaluate(cfg, before, id, at);
      var asked := if answer.Some? then Some(Question(at, answer.value)) else None;
      metrics := metrics.(decisions := metrics.decisions + 1);
      slots := slots[id := Slot(slot.ev, Ruled(Case(r, score, decision, asked)))];
      actionClock := if asked.Some? then at else actionClock;
      trace := trace + (if asked.Some? then [Asks(id, asked.value)] else []);
    }

    /** The decision's audit entry; a failed write is reported and nothing more. */
    method RecordDecision(id: nat, filing: Filing) returns (written: bool)
      requires Valid() && id < |slots| && slots[id].phase.Ruled?
      modifies this, logger, logger.file
      ensures Valid() && View() == Apply(cfg, old(View()), LogDecision(id, filing))
      ensures written <==> filing.outcome.Full?
    {
      var slot := slots[id];
      var ev, c := slot.ev, slot.phase.c;
      ApplyLogDecision(cfg, View(), id, filing);
      written := Audit(
        AuditHistory.Call(filing.stamp, ev.eventType, ev.comm, ev.detail, ev.pid, c.score,
                          TierName(c.decision.tier), c.decision.reason, ""),
        filing.outcome);
      slots := slots[id := Slot(ev, Audited(c, filing))];
      trace := trace + [LogsDecision(id, ev, c, filing)];
    }

    /** The switch at the end of `processLLM`. */
    method TakeAction(id: nat)
      requires Valid() && id < |slots| && slots[id].phase.Audited?
      modifies this
      ensures Valid() && View() == Apply(cfg, old(View()), Act(id))
    {
      var slot := slots[id];
      ApplyAct(cfg, View(), id);
      var done := Perform(id, slot.ev, slot.phase.c.decision);
      slots := slots[id := Slot(slot.ev, Acted(slot.phase.c, slot.phase.filing))];
      trace := trace + done;
    }

    static method Perform(id: nat, ev: Event, d: Decision) returns (done: seq<Obs>)
      ensures done == Effects(id, ev, d)
    {
      done := [];
      var isDryRun := HasPrefix(d.reason, DRY_RUN_PREFIX);
      if d.tier == TierHard {
        if !isDryRun {
          if ev.pid != 0 && ev.pid != 1 {
            done := done + [Signals(id, SigKill, ev.pid)];
          }
          if ev.eventType == "CONNECT" {
            done := done + [Isolates(id, Lines.FirstPiece(ev.detail))];
          }
        }
      } else if d.tier == TierSoft {
        if !isDryRun {
          if ev.pid != 0 && ev.pid != 1 {
            done := done + [Signals(id, SigStop, ev.pid)];
          }
        }
      }
    }

    /** The deferred receive from `llmSemaphore`. */
    method ReleaseSlot(id: nat)
      requires Valid() && id < |slots| && (slots[id].phase.Acted? || slots[id].phase.Failing?)
      modifies this
      ensures Valid() && View() == Apply(cfg, old(View()), Release(id))
    {
      var slot := slots[id];
      ApplyRelease(cfg, View(), id);
      if permits > 0 {
        permits := permits - 1;
      }
      slots := slots[id := Slot(slot.ev, if slot.phase.Acted? then Decided(slot.phase.c, slot.phase.filing) else Failed(slot.phase.reading))];
      trace := trace + [Frees(id)];
    }

    /** One enabled step, by the method that takes it. */
    method Take(step: Step)
      requires Valid() && Enabled(cfg, View(), step)
      modifies this, limiter, engine, engine.buffer, store, logger, logger.file
      ensures Valid() && (engine.buffer == old(engine.buffer) || fresh(engine.buffer))
      ensures View() == Apply(cfg, old(View()), step)
    {
      if !step.Arrive? {
        EnabledExactly(cfg, View(), step);
      }
      match step
      case Arrive(ev) => HandleEvent(ev);
      case Lookup(id) => LookupEvent(id);
      case LearnKey(id) => LearnEvent(id);
      case Escalate(id) => CountEscalation(id);
      case Limit(id, r) => LimitEscalation(id, r);
      case LogRefusal(id, filing) => RecordRefusal(id, filing);
      case Acquire(id) => AcquireSlot(id);
      case Respond(id, answer) => ReceiveAnswer(id, answer);
      case Evaluate(id, at) => EvaluateEvent(id, at);
      case LogDecision(id, filing) => var written := RecordDecision(id, filing);
      case Act(id) => TakeAction(id);
      case Release(id) => ReleaseSlot(id);
    }

    /** Steps one after another, as the goroutines happen to interleave. */
    method TakeAll(steps: seq<Step>)
      requires Valid() && AllEnabled(cfg, View(), steps)
      modifies this, limiter, engine, engine.buffer, store, logger, logger.file
      ensures Valid() && View() == Exec(cfg, old(View()), steps)
    {
      ghost var s0 := View();
      for n := 0 to |steps|
        invariant Valid() && (engine.buffer == old(engine.buffer) || fresh(engine.buffer))
        invariant View() == Exec(cfg, s0, steps[..n])
      {
        EnabledNext(cfg, s0, steps, n);
        Take(steps[n]);
      }
      assert steps[..|steps|] == steps;
    }
  }

  /** A run of the agent from its start: it is the system's run of the same steps. */
  method Run(cfg: AgentConfig, store: Baseline.Store, env: AuditLog.Env, file: Disk.File, start: Time, steps: seq<Step>)
    returns (agent: Agent)
    requires store.Valid() && AllEnabled(cfg, Initial(store.known.Keys, start), steps)
    modifies store, file
    ensures agent.Valid() && agent.View() == Exec(cfg, Initial(old(store.known.Keys), start), steps)
    ensures agent.logger.env == env && agent.logger.file == file && agent.auditFile == old(file.content)
  {
    agent := new Agent(cfg, store, env, file, start);
    agent.TakeAll(steps);
  }

  /** What the verifier may return on the file that a run with these calls leaves. */
  ghost predicate RightVerdict(env: AuditLog.Env, found: Option<string>, calls: seq<AuditHistory.Op>, v: AuditLog.Verdict) {
    AuditLog.Lawful(env) && AuditHistory.Tidy(env, found) && AuditHistory.CleanRun(calls)
    && !HashChain.Collides(env.digest, HashedTexts(env, found, calls)) ==>
      (v.Valid? <==> LeavesValidFile(found, calls))
  }

  /** A run of the agent and the verification of its audit file afterwards: success exactly when the
      audit theorem says so of the run. */
  method RunAndVerify(cfg: AgentConfig, store: Baseline.Store, env: AuditLog.Env, file: Disk.File, start: Time, steps: seq<Step>)
    returns (agent: Agent, v: AuditLog.Verdict)
    requires store.Valid() && AllEnabled(cfg, Initial(store.known.Keys, start), steps)
    modifies store, file
    ensures agent.Valid() && agent.View() == Exec(cfg, Initial(old(store.known.Keys), start), steps)
    ensures AuditLog.Reports(env, file.content, v) && RightVerdict(env, old(file.content), agent.calls, v)
  {
    ghost var loaded, found := store.known.Keys, file.content;
    agent := Run(cfg, store, env, file, start, steps);
    v := AuditLog.VerifyChain(env, file.content);
    VerdictIsRight(env, found, cfg, loaded, start, steps, agent.calls, v);
  }

  lemma VerdictIsRight(env: AuditLog.Env, found: Option<string>, cfg: AgentConfig, loaded: set<string>, start: Time,
                       steps: seq<Step>, calls: seq<AuditHistory.Op>, v: AuditLog.Verdict)
    requires calls == Exec(cfg, Initial(loaded, start), steps).calls
    requires AuditLog.Reports(env, LogAfter(env, found, calls).file, v)
    ensures RightVerdict(env, found, calls, v)
  {
    if AuditLog.Lawful(env) && AuditHistory.Tidy(env, found) && AuditHistory.CleanRun(calls) {
      AuditFileVerifiesExactly(env, found, cfg, loaded, start, steps, Exec(cfg, Initial(loaded, start), steps));
    }
  }
}
