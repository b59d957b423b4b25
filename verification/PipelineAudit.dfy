/** The audit log under the pipeline: what the agent's own calls leave in the file, whatever
    becomes of each write. */
module PipelineAudit {
  import opened Text
  import opened Policy
  import opened Pipeline
  import opened PipelineHistory
  import opened AuditLog
  import opened Lines
  import PipelineCounts
  import PipelineDecisions
  import HashChain
  import AuditHistory
  import Disk

  /** The audit calls of a trace, in order, each with the outcome of its write. */
  function LogOps(trace: seq<Obs>): seq<AuditHistory.Op> {
    if trace == [] then []
    else
      var n := |trace| - 1;
      LogOps(trace[..n]) + (if trace[n].Logs? then [AuditHistory.Record(trace[n].call, trace[n].outcome)] else [])
  }

  lemma LogOpsSnoc(trace: seq<Obs>, o: Obs)
    ensures LogOps(trace + [o]) ==
              LogOps(trace) + (if o.Logs? then [AuditHistory.Record(o.call, o.outcome)] else [])
  {
    assert (trace + [o])[..|trace|] == trace;
  }

  lemma {:induction false} LogOpsQuiet(trace: seq<Obs>, obs: seq<Obs>)
    requires forall k :: 0 <= k < |obs| ==> !obs[k].Logs?
    ensures LogOps(trace + obs) == LogOps(trace)
    decreases |obs|
  {
    if obs == [] {
      assert trace + obs == trace;
    } else {
      var n := |obs| - 1;
      LogOpsQuiet(trace, obs[..n]);
      LogOpsSnoc(trace + obs[..n], obs[n]);
      assert trace + obs == trace + obs[..n] + [obs[n]];
    }
  }

  lemma MoveCalls(cfg: AgentConfig, s: State, step: Step, m: Move)
    requires Moves(cfg, s, step, m)
    ensures var u := Apply(cfg, s, step);
            if step.LogRefusal? || step.LogDecision? then
              |m.obs| == 1 && m.obs[0].Logs? && u.calls == s.calls + [AuditHistory.Record(m.obs[0].call, m.obs[0].outcome)]
            else (forall k :: 0 <= k < |m.obs| ==> !m.obs[k].Logs?) && u.calls == s.calls
  {
  }

  /** In every interleaving the calls of the audit logger are those the events were seen making, in
      the same order. */
  lemma {:induction false} CallsAreSeen(cfg: AgentConfig, loaded: set<string>, start: Time, steps: seq<Step>)
    ensures var s := Exec(cfg, Initial(loaded, start), steps);
            s.calls == LogOps(s.trace)
    decreases |steps|
  {
    if steps == [] {
    } else {
      var n := |steps| - 1;
      var s, step := Exec(cfg, Initial(loaded, start), steps[..n]), steps[n];
      CallsAreSeen(cfg, loaded, start, steps[..n]);
      if !step.Arrive? && step.id < |s.slots| && MoveOf(cfg, s, step, s.slots[step.id]).Some? {
        var m := MoveOf(cfg, s, step, s.slots[step.id]).value;
        MoveCalls(cfg, s, step, m);
        ApplyMove(cfg, s, step, m);
        if step.LogRefusal? || step.LogDecision? {
          LogOpsSnoc(s.trace, m.obs[0]);
          assert m.obs == [m.obs[0]];
        } else {
          LogOpsQuiet(s.trace, m.obs);
        }
      }
    }
  }

  /** The logger of a running agent is called, never restarted. */
  lemma {:induction false} LogOpsAreCalls(trace: seq<Obs>)
    ensures |LogOps(trace)| == PipelineCounts.AuditCalls(trace)
    ensures forall i :: 0 <= i < |LogOps(trace)| ==> LogOps(trace)[i].Record?
    decreases |trace|
  {
    if trace == [] {
    } else {
      LogOpsAreCalls(trace[..|trace| - 1]);
    }
  }

  /** Some call reached the file after another had been lost. */
  ghost predicate LandsAfterLoss(ops: seq<AuditHistory.Op>) {
    exists i, j :: 0 <= i < j < |ops| && AuditHistory.Lost(ops[i]) && AuditHistory.Lands(ops[j])
  }

  lemma LandsAfterLossIsGap(ops: seq<AuditHistory.Op>)
    requires AuditHistory.CleanRun(ops) && forall i :: 0 <= i < |ops| ==> ops[i].Record?
    ensures LandsAfterLoss(ops) <==> AuditHistory.Watch(ops).gap.Some?
  {
    AuditHistory.PendingMeaning(ops);
    if LandsAfterLoss(ops) {
      var i, j :| 0 <= i < j < |ops| && AuditHistory.Lost(ops[i]) && AuditHistory.Lands(ops[j]);
      assert AuditHistory.GapBetween(ops, i, j);
      assert AuditHistory.GapAt(ops, j);
    }
    if AuditHistory.AnyGap(ops) {
      var j: nat :| AuditHistory.GapAt(ops, j);
      var i: nat :| AuditHistory.GapBetween(ops, i, j);
    }
  }

  /** The log after the audit calls of a run that began on `file`. */
  function LogAfter(env: Env, file: Option<string>, ops: seq<AuditHistory.Op>): AuditHistory.LogState {
    AuditHistory.Drive(env, AuditHistory.Started(env, file), ops)
  }

  lemma LogAfterSnoc(env: Env, file: Option<string>, ops: seq<AuditHistory.Op>, call: AuditHistory.Call, outcome: Disk.Outcome)
    ensures LogAfter(env, file, ops + [AuditHistory.Record(call, outcome)])
         == AuditHistory.AfterLog(env, LogAfter(env, file, ops), call, outcome)
  {
    assert (ops + [AuditHistory.Record(call, outcome)])[..|ops|] == ops;
  }

  /** Every text hashed by the initial file and by the run's audit calls. */
  function HashedTexts(env: Env, file: Option<string>, ops: seq<AuditHistory.Op>): set<string> {
    AuditHistory.RunInputs(env, AuditHistory.Started(env, file), ops)
  }

  function RecordsIn(file: Option<string>): seq<string> {
    Records(AuditHistory.Content(file))
  }

  /** While no call lands after a lost one, the file reads back as the initial records followed by
      every call that landed, in order and field by field, and the verifier can only accept it, once
      it exists. */
  lemma AuditFileReadsBack(env: Env, file: Option<string>, trace: seq<Obs>, ops: seq<AuditHistory.Op>)
    requires ops == LogOps(trace) && AuditHistory.CleanRun(ops) && !LandsAfterLoss(ops)
    requires Lawful(env) && AuditHistory.Tidy(env, file)
    ensures AuditHistory.HoldsAll(env, RecordsIn(file), AuditHistory.LandedCalls(ops), RecordsIn(LogAfter(env, file, ops).file))
    ensures forall v :: Reports(env, LogAfter(env, file, ops).file, v) ==>
              v == if file.Some? || AuditHistory.AnyOpens(ops)
                   then Valid(|RecordsIn(file)| + |AuditHistory.LandedCalls(ops)|) else Unreadable
  {
    LogOpsAreCalls(trace);
    LandsAfterLossIsGap(ops);
    AuditHistory.LandedIsCount(ops);
    AuditHistory.GapFreeHistoryVerifies(
      env, file, ops, LogAfter(env, file, ops), AuditHistory.Watch(ops), HashedTexts(env, file, ops));
    AuditHistory.HistoryReadsBack(env, file, ops);
  }

  /** Once a call has landed behind a lost one, the verifier can only report a broken link, counting
      the records present before the first such call, unless the digest collides on what was
      hashed. */
  lemma AuditGapIsReported(env: Env, file: Option<string>, trace: seq<Obs>, ops: seq<AuditHistory.Op>)
    returns (j: nat)
    requires ops == LogOps(trace) && AuditHistory.CleanRun(ops) && LandsAfterLoss(ops)
    requires Lawful(env) && AuditHistory.Tidy(env, file)
    ensures AuditHistory.FirstGapAt(ops, j)
    ensures !HashChain.Collides(env.digest, HashedTexts(env, file, ops)) ==>
              forall v :: Reports(env, LogAfter(env, file, ops).file, v) ==>
                v == BrokenLink(|RecordsIn(file)| + |AuditHistory.LandedCalls(ops[..j])|)
  {
    LogOpsAreCalls(trace);
    LandsAfterLossIsGap(ops);
    j := AuditHistory.FindFirstGap(ops);
    AuditHistory.GapIsDetected(
      env, file, ops, LogAfter(env, file, ops), AuditHistory.Watch(ops), HashedTexts(env, file, ops));
  }

  /** The calls leave a file that verifies: there is one, and no call landed after a lost one. */
  ghost predicate LeavesValidFile(file: Option<string>, ops: seq<AuditHistory.Op>) {
    (file.Some? || AuditHistory.AnyOpens(ops)) && !LandsAfterLoss(ops)
  }

  /** The agent's audit log, in every interleaving and for every fate of its writes: the logger is
      called once for each rate-limited and each decided event, counted as soon as no event is
      mid-step, and the verifier accepts the file if and only if it was there at the start or some
      call opened it, and no call landed after a lost one, unless the digest collides on what was
      hashed. */
  lemma AuditFileVerifiesExactly(env: Env, file: Option<string>, cfg: AgentConfig, loaded: set<string>, start: Time,
                                 steps: seq<Step>, s: State)
    requires s == Exec(cfg, Initial(loaded, start), steps)
    requires Lawful(env) && AuditHistory.Tidy(env, file) && AuditHistory.CleanRun(s.calls)
    ensures PipelineCounts.Quiescent(s.slots) ==> |s.calls| == s.metrics.rateLimited + s.metrics.decisions
    ensures !HashChain.Collides(env.digest, HashedTexts(env, file, s.calls)) ==>
              forall v :: Reports(env, LogAfter(env, file, s.calls).file, v) ==>
                (v.Valid? <==> LeavesValidFile(file, s.calls))
  {
    CallsAreSeen(cfg, loaded, start, steps);
    LogOpsAreCalls(s.trace);
    PipelineCounts.EventsConserved(cfg, loaded, start, steps, s);
    if LandsAfterLoss(s.calls) {
      var j := AuditGapIsReported(env, file, s.trace, s.calls);
    } else {
      AuditFileReadsBack(env, file, s.trace, s.calls);
    }
  }

  // ---- What the records say ------------------------------------------------------------

  /** The name of a tier in the log. */
  function LoggedName(t: Tier): string {
    match t
    case TierLog => "log"
    case TierAlert => "alert"
    case TierSoft => "soft_action"
    case TierHard => "hard_action"
  }

  /** The call is about the event: its type, name, detail and pid, and no action. */
  predicate IsAbout(call: AuditHistory.Call, ev: Event) {
    && call.eventType == ev.eventType && call.comm == ev.comm && call.detail == ev.detail && call.pid == ev.pid
    && call.actionTaken == ""
  }

  /** The call records the decision. */
  predicate RecordsDecision(call: AuditHistory.Call, ev: Event, c: Case, stamp: string) {
    && IsAbout(call, ev) && call.timestamp == stamp
    && call.threatScore == c.score && call.tier == LoggedName(c.decision.tier) && call.reason == c.decision.reason
  }

  /** The call records that the event was not sent to the LLM. */
  predicate RecordsRefusal(call: AuditHistory.Call, ev: Event, stamp: string) {
    && IsAbout(call, ev) && call.timestamp == stamp
    && call.threatScore == -1 && call.tier == "rate_limited"
    && call.reason == "escalation storm \U{E2}\U{80}\U{94} LLM call skipped"
  }

  /** The event has been handed to the audit log. */
  predicate HandedOver(p: Phase) {
    p.RateLimited? || p.Audited? || p.Acted? || p.Decided?
  }

  /** The call and outcome are what the event in this slot was logged with. */
  predicate Truthful(slot: Slot, call: AuditHistory.Call, outcome: Disk.Outcome)
    requires HandedOver(slot.phase)
  {
    && outcome == slot.phase.filing.outcome
    && (if slot.phase.RateLimited? then RecordsRefusal(call, slot.ev, slot.phase.filing.stamp)
        else RecordsDecision(call, slot.ev, slot.phase.c, slot.phase.filing.stamp))
  }

  lemma LogsInTrail(i: nat, slot: Slot, call: AuditHistory.Call, outcome: Disk.Outcome)
    ensures Logs(i, call, outcome) in Trail(i, slot) <==> HandedOver(slot.phase) && Truthful(slot, call, outcome)
  {
    var p := slot.phase;
    TierNames();
    if p.Audited? || p.Acted? || p.Decided? {
      var audited := TrailAudited(i, slot.ev, p.c, p.filing);
      assert audited[|audited| - 1] == LogsDecision(i, slot.ev, p.c, p.filing);
      assert forall q :: 0 <= q < |audited| - 1 ==> !audited[q].Logs?;
      assert p.Acted? ==> Trail(i, slot) == audited + Effects(i, slot.ev, p.c.decision);
      assert p.Decided? ==> Trail(i, slot) == audited + Effects(i, slot.ev, p.c.decision) + [Frees(i)];
      assert forall o :: o in Effects(i, slot.ev, p.c.decision) ==> !o.Logs?;
    } else if p.RateLimited? {
      assert Trail(i, slot)[2] == LogsRefusal(i, slot.ev, p.filing);
    } else {
      assert forall q :: 0 <= q < |Trail(i, slot)| ==> !Trail(i, slot)[q].Logs?;
    }
  }

  /** What is logged, exactly: in every interleaving an audit call is seen of an event if and only if
      the event is rate-limited or decided, and the call says so: the event's own type, name, detail
      and pid with the decision's score, tier and reason, or with the score -1 and the tier
      rate_limited. */
  lemma LoggedExactly(cfg: AgentConfig, loaded: set<string>, start: Time, steps: seq<Step>, s: State, i: nat,
                      call: AuditHistory.Call, outcome: Disk.Outcome)
    requires s == Exec(cfg, Initial(loaded, start), steps) && i < |s.slots|
    ensures Logs(i, call, outcome) in s.trace <==>
            HandedOver(s.slots[i].phase) && Truthful(s.slots[i], call, outcome)
  {
    PipelineDecisions.SeenExactly(cfg, loaded, start, steps, s, i, Logs(i, call, outcome));
    LogsInTrail(i, s.slots[i], call, outcome);
  }

  lemma {:induction false} LogOpsMembers(trace: seq<Obs>, o: Obs)
    requires o in trace && o.Logs?
    ensures AuditHistory.Record(o.call, o.outcome) in LogOps(trace)
    decreases |trace|
  {
    var n := |trace| - 1;
    if o != trace[n] {
      assert o in trace[..n];
      LogOpsMembers(trace[..n], o);
    }
  }

  lemma {:induction false} LandedMembers(ops: seq<AuditHistory.Op>, op: AuditHistory.Op)
    requires op in ops && AuditHistory.Lands(op)
    ensures op.call in AuditHistory.LandedCalls(ops)
    decreases |ops|
  {
    var n := |ops| - 1;
    if op != ops[n] {
      assert op in ops[..n];
      LandedMembers(ops[..n], op);
    }
  }

  /** The record decodes to an entry that tells the event's story. */
  ghost predicate TellsOf(env: Env, record: string, slot: Slot)
    requires HandedOver(slot.phase)
  {
    && env.decode(record).Some?
    && Truthful(slot, AuditHistory.CallIn(env.decode(record).value), slot.phase.filing.outcome)
  }

  /** From the event to the file: while no call lands after a lost one, every event whose audit write
      landed has a record in the file, behind the records found at the start, that decodes to its
      type, name, detail and pid and to what became of it. */
  lemma EventIsOnRecord(env: Env, file: Option<string>, cfg: AgentConfig, loaded: set<string>, start: Time,
                        steps: seq<Step>, s: State, i: nat) returns (n: nat)
    requires s == Exec(cfg, Initial(loaded, start), steps)
    requires Lawful(env) && AuditHistory.Tidy(env, file) && AuditHistory.CleanRun(s.calls) && !LandsAfterLoss(s.calls)
    requires i < |s.slots| && HandedOver(s.slots[i].phase) && s.slots[i].phase.filing.outcome.Full?
    ensures var records := RecordsIn(LogAfter(env, file, s.calls).file);
            |RecordsIn(file)| <= n < |records| && TellsOf(env, records[n], s.slots[i])
  {
    var call := CallOf(s.slots[i]);
    CallLands(cfg, loaded, start, steps, s, i);
    assert AuditHistory.HoldsAll(env, RecordsIn(file), AuditHistory.LandedCalls(s.calls),
                                 RecordsIn(LogAfter(env, file, s.calls).file)) by {
      CallsAreSeen(cfg, loaded, start, steps);
      AuditFileReadsBack(env, file, s.trace, s.calls);
    }
    n := FindHeld(env, RecordsIn(file), AuditHistory.LandedCalls(s.calls), RecordsIn(LogAfter(env, file, s.calls).file), call);
    HeldCall(env, RecordsIn(LogAfter(env, file, s.calls).file)[n], call);
  }

  /** The call of an event whose audit write landed is among those that landed. */
  lemma CallLands(cfg: AgentConfig, loaded: set<string>, start: Time, steps: seq<Step>, s: State, i: nat)
    requires s == Exec(cfg, Initial(loaded, start), steps)
    requires i < |s.slots| && HandedOver(s.slots[i].phase) && s.slots[i].phase.filing.outcome.Full?
    ensures CallOf(s.slots[i]) in AuditHistory.LandedCalls(s.calls)
  {
    var call := CallOf(s.slots[i]);
    LoggedExactly(cfg, loaded, start, steps, s, i, call, Disk.Full);
    CallsAreSeen(cfg, loaded, start, steps);
    LogOpsMembers(s.trace, Logs(i, call, Disk.Full));
    LandedMembers(s.calls, AuditHistory.Record(call, Disk.Full));
  }

  lemma FindHeld(env: Env, initial: seq<string>, calls: seq<AuditHistory.Call>, records: seq<string>, call: AuditHistory.Call)
    returns (n: nat)
    requires AuditHistory.HoldsAll(env, initial, calls, records) && call in calls
    ensures |initial| <= n < |records| && AuditHistory.Holds(env, records[n], call)
  {
    var k :| 0 <= k < |calls| && calls[k] == call;
    n := |initial| + k;
  }

  lemma HeldCall(env: Env, record: string, call: AuditHistory.Call)
    requires AuditHistory.Holds(env, record, call)
    ensures env.decode(record).Some? && AuditHistory.CallIn(env.decode(record).value) == call
  {
  }

  /** The call an event was logged with. */
  function CallOf(slot: Slot): (call: AuditHistory.Call)
    requires HandedOver(slot.phase)
    ensures Truthful(slot, call, slot.phase.filing.outcome)
  {
    TierNames();
    if slot.phase.RateLimited? then RefusalCall(slot.ev, slot.phase.filing.stamp)
    else DecisionCall(slot.ev, slot.phase.c, slot.phase.filing.stamp)
  }

  /** An absent file is not a valid one: an agent that makes no audit call, or whose calls cannot
      open the file, leaves none, and the verifier returns an error. */
  lemma AbsentFileIsUnreadable(env: Env, ops: seq<AuditHistory.Op>, v: Verdict)
    requires !AuditHistory.AnyOpens(ops) && Reports(env, LogAfter(env, None, ops).file, v)
    ensures v == Unreadable
  {
    AuditHistory.FileExistsExactly(env, AuditHistory.Started(env, None), ops);
  }
}
