/** The two limiters inside the pipeline: in every interleaving, what the trace shows of each is
    a run of that limiter on a non-decreasing clock. */
module PipelineLimits {
  import opened Policy
  import opened Escalation
  import opened Pipeline
  import opened PipelineHistory

  /** The clock readings of the escalation limiter, in order. */
  function Readings(trace: seq<Obs>): seq<Reading> {
    if trace == [] then []
    else
      var n := |trace| - 1;
      Readings(trace[..n]) + (if trace[n].Counted? then [trace[n].reading] else [])
  }

  /** How many escalations passed in the closed minute from `x`. */
  function PassedIn(trace: seq<Obs>, x: Time): nat {
    if trace == [] then 0
    else
      var n := |trace| - 1;
      PassedIn(trace[..n], x) +
      (if trace[n].Counted? && trace[n].admitted && x <= trace[n].reading.done <= x + 60_000_000_000 then 1 else 0)
  }

  /** The limiter's window after the readings, begun at `start`. */
  function WindowAfter(start: Time, rs: seq<Reading>): Window {
    if rs == [] then Window(start, 0)
    else
      var n := |rs| - 1;
      Tick(WindowAfter(start, rs[..n]), rs[n])
  }

  /** How many of the readings reset the window. */
  function Resettings(start: Time, rs: seq<Reading>): nat {
    if rs == [] then 0
    else
      var n := |rs| - 1;
      Resettings(start, rs[..n]) + One(Resets(WindowAfter(start, rs[..n]), rs[n]))
  }

  /** How many escalations passed after exactly `k` resets: between reset `k` and the next. */
  function PassedAfter(start: Time, trace: seq<Obs>, k: nat): nat {
    if trace == [] then 0
    else
      var n := |trace| - 1;
      PassedAfter(start, trace[..n], k) +
      (if trace[n].Counted? && trace[n].admitted && Resettings(start, Readings(trace)) == k then 1 else 0)
  }

  /** The clock readings of the action limiter, in order. */
  function Questions(trace: seq<Obs>): seq<Time> {
    if trace == [] then []
    else
      var n := |trace| - 1;
      Questions(trace[..n]) + (if trace[n].Asks? then [trace[n].question.at] else [])
  }

  /** The times of the grants, in order. */
  function Grants(trace: seq<Obs>): seq<Time> {
    if trace == [] then []
    else
      var n := |trace| - 1;
      Grants(trace[..n]) + (if trace[n].Asks? && trace[n].question.granted then [trace[n].question.at] else [])
  }

  ghost predicate Plain(obs: seq<Obs>) {
    forall k :: 0 <= k < |obs| ==> !obs[k].Counted? && !obs[k].Asks?
  }

  ghost predicate SamePasses(start: Time, a: seq<Obs>, b: seq<Obs>) {
    && Readings(a) == Readings(b)
    && (forall x :: PassedIn(a, x) == PassedIn(b, x))
    && (forall k :: PassedAfter(start, a, k) == PassedAfter(start, b, k))
  }

  ghost predicate SameLimits(start: Time, a: seq<Obs>, b: seq<Obs>) {
    SamePasses(start, a, b) && Questions(a) == Questions(b) && Grants(a) == Grants(b)
  }

  lemma SnocLimits(trace: seq<Obs>, o: Obs)
    ensures Readings(trace + [o]) == Readings(trace) + (if o.Counted? then [o.reading] else [])
    ensures Questions(trace + [o]) == Questions(trace) + (if o.Asks? then [o.question.at] else [])
    ensures Grants(trace + [o]) == Grants(trace) + (if o.Asks? && o.question.granted then [o.question.at] else [])
    ensures forall x :: PassedIn(trace + [o], x) == PassedIn(trace, x) +
              (if o.Counted? && o.admitted && x <= o.reading.done <= x + MINUTE then 1 else 0)
  {
    assert (trace + [o])[..|trace|] == trace;
  }

  /** The same for the escalations counted by window. */
  lemma SnocPassedAfter(start: Time, trace: seq<Obs>, o: Obs, k: nat)
    ensures PassedAfter(start, trace + [o], k) == PassedAfter(start, trace, k) +
              (if o.Counted? && o.admitted && Resettings(start, Readings(trace) + [o.reading]) == k then 1 else 0)
  {
    assert (trace + [o])[..|trace|] == trace;
  }

  lemma PlainKeepsWindows(start: Time, trace: seq<Obs>, o: Obs)
    requires !o.Counted?
    ensures forall k :: PassedAfter(start, trace + [o], k) == PassedAfter(start, trace, k)
  {
    forall k ensures PassedAfter(start, trace + [o], k) == PassedAfter(start, trace, k) {
      SnocPassedAfter(start, trace, o, k);
    }
  }

  lemma {:induction false} PlainAppend(start: Time, trace: seq<Obs>, obs: seq<Obs>)
    requires Plain(obs)
    ensures SameLimits(start, trace + obs, trace)
    decreases |obs|
  {
    if obs == [] {
      assert trace + obs == trace;
    } else {
      var n := |obs| - 1;
      PlainAppend(start, trace, obs[..n]);
      SnocLimits(trace + obs[..n], obs[n]);
      PlainKeepsWindows(start, trace + obs[..n], obs[n]);
      assert trace + obs == trace + obs[..n] + [obs[n]];
    }
  }

  // ---- The escalation limiter ----------------------------------------------------------

  ghost predicate PassesAgree(start: Time, trace: seq<Obs>, passes: seq<Pass>) {
    && (forall x :: PassedIn(trace, x) == InClosedMinute(passes, x))
    && (forall k: nat :: PassedAfter(start, trace, k) == InWindowNo(passes, k))
  }

  lemma {:induction false} NotedWindow(start: Time, rs: seq<Reading>)
    ensures var t := NoteAll(Fresh(start), rs);
            t.now == WindowAfter(start, rs) && |t.starts| == Resettings(start, rs) + 1
    decreases |rs|
  {
    if rs == [] {
    } else {
      NotedWindow(start, rs[..|rs| - 1]);
    }
  }

  ghost predicate EscalationTracked(start: Time, now: Time, window: Window, trace: seq<Obs>) {
    var rs := Readings(trace);
    var t := NoteAll(Fresh(start), rs);
    && start <= now && ClockRun(start, rs) && DoneBy(rs, now)
    && t.now == window && PassesAgree(start, trace, t.passes)
  }

  ghost predicate DoneBy(rs: seq<Reading>, now: Time) {
    forall i :: 0 <= i < |rs| ==> rs[i].done <= now
  }

  lemma ClockRunSnoc(start: Time, rs: seq<Reading>, now: Time, r: Reading)
    requires ClockRun(start, rs) && DoneBy(rs, now) && start <= now <= r.since && Ordered(r)
    ensures ClockRun(start, rs + [r]) && DoneBy(rs + [r], r.done)
  {
  }

  lemma SnocPassedIn(trace: seq<Obs>, o: Obs, x: Time)
    ensures PassedIn(trace + [o], x) == PassedIn(trace, x) +
              (if o.Counted? && o.admitted && x <= o.reading.done <= x + MINUTE then 1 else 0)
  {
    assert (trace + [o])[..|trace|] == trace;
  }

  function WithPass(passes: seq<Pass>, o: Obs, p: Pass): seq<Pass> {
    if o.Counted? && o.admitted then passes + [p] else passes
  }

  lemma MinuteAgrees(trace: seq<Obs>, passes: seq<Pass>, o: Obs, p: Pass, x: Time)
    requires o.Counted? && p.at == o.reading.done && PassedIn(trace, x) == InClosedMinute(passes, x)
    ensures PassedIn(trace + [o], x) == InClosedMinute(WithPass(passes, o, p), x)
  {
    SnocPassedIn(trace, o, x);
    ClosedMinuteSnoc(passes, p, x);
  }

  lemma WindowAgrees(start: Time, trace: seq<Obs>, passes: seq<Pass>, o: Obs, p: Pass, k: nat)
    requires o.Counted? && p.window == Resettings(start, Readings(trace) + [o.reading])
    requires PassedAfter(start, trace, k) == InWindowNo(passes, k)
    ensures PassedAfter(start, trace + [o], k) == InWindowNo(WithPass(passes, o, p), k)
  {
    SnocPassedAfter(start, trace, o, k);
    WindowNoSnoc(passes, p, k);
  }

  /** One more observation and the pass that belongs to it add the same on both sides. */
  lemma PassesAgreeSnoc(start: Time, trace: seq<Obs>, passes: seq<Pass>, o: Obs, p: Pass)
    requires o.Counted? && p == Pass(o.reading.done, Resettings(start, Readings(trace) + [o.reading]))
    requires PassesAgree(start, trace, passes)
    ensures PassesAgree(start, trace + [o], WithPass(passes, o, p))
  {
    forall x ensures PassedIn(trace + [o], x) == InClosedMinute(WithPass(passes, o, p), x) {
      MinuteAgrees(trace, passes, o, p, x);
    }
    forall k: nat ensures PassedAfter(start, trace + [o], k) == InWindowNo(WithPass(passes, o, p), k) {
      WindowAgrees(start, trace, passes, o, p, k);
    }
  }

  lemma NotedPasses(start: Time, rs: seq<Reading>, t: Track, r: Reading)
    requires t == NoteAll(Fresh(start), rs)
    ensures Note(t, r).passes ==
              if Admits(t.now, r) then t.passes + [Pass(r.done, Resettings(start, rs + [r]))] else t.passes
  {
    NotedWindow(start, rs);
    NoteSnoc(Fresh(start), rs, r);
    NotedWindow(start, rs + [r]);
  }

  lemma PassesAgreeCounted(start: Time, trace: seq<Obs>, t: Track, i: nat, r: Reading)
    requires t == NoteAll(Fresh(start), Readings(trace)) && PassesAgree(start, trace, t.passes)
    ensures PassesAgree(start, trace + [Counted(i, r, Admits(t.now, r))], Note(t, r).passes)
  {
    var o := Counted(i, r, Admits(t.now, r));
    var p := Pass(r.done, Resettings(start, Readings(trace) + [r]));
    NotedPasses(start, Readings(trace), t, r);
    assert Note(t, r).passes == WithPass(t.passes, o, p);
    PassesAgreeSnoc(start, trace, t.passes, o, p);
  }

  lemma EscalationTrackedLimit(start: Time, now: Time, window: Window, trace: seq<Obs>, i: nat, r: Reading)
    requires EscalationTracked(start, now, window, trace) && now <= r.since && Ordered(r)
    ensures EscalationTracked(start, r.done, Tick(window, r), trace + [Counted(i, r, Admits(window, r))])
  {
    var rs := Readings(trace);
    var t := NoteAll(Fresh(start), rs);
    SnocLimits(trace, Counted(i, r, Admits(window, r)));
    NoteSnoc(Fresh(start), rs, r);
    RunIsSound(start, rs);
    ClockRunSnoc(start, rs, now, r);
    PassesAgreeCounted(start, trace, t, i, r);
  }

  /** Anything that is not a call of the limiter leaves its run as it was. */
  lemma EscalationCarries(start: Time, now: Time, window: Window, trace: seq<Obs>, trace': seq<Obs>)
    requires EscalationTracked(start, now, window, trace) && SamePasses(start, trace', trace)
    ensures EscalationTracked(start, now, window, trace')
  {
  }

  // ---- The action limiter --------------------------------------------------------------

  ghost predicate ActionsTracked(maxActions: int, now: Time, retained: seq<Time>, trace: seq<Obs>) {
    var qs := Questions(trace);
    && NonDecreasing(qs) && AllUpTo(qs, now)
    && AskAll(maxActions, qs) == Limiter(retained, Grants(trace))
  }

  lemma ActionsTrackedAsk(maxActions: int, now: Time, retained: seq<Time>, trace: seq<Obs>, i: nat, at: Time)
    requires ActionsTracked(maxActions, now, retained, trace) && now <= at
    ensures var (ts, ok) := Allow(retained, maxActions, at);
            ActionsTracked(maxActions, at, ts, trace + [Asks(i, Question(at, ok))])
  {
    var (ts, ok) := Allow(retained, maxActions, at);
    SnocLimits(trace, Asks(i, Question(at, ok)));
    AskAllSnoc(maxActions, Questions(trace), now, at);
  }

  lemma AskAllSnoc(maxActions: int, qs: seq<Time>, now: Time, at: Time)
    requires NonDecreasing(qs) && AllUpTo(qs, now) && now <= at
    ensures NonDecreasing(qs + [at]) && AllUpTo(qs + [at], at)
    ensures AskAll(maxActions, qs + [at]) == Ask(AskAll(maxActions, qs), maxActions, at)
  {
    assert (qs + [at])[..|qs|] == qs;
  }

  lemma ActionsCarry(maxActions: int, now: Time, retained: seq<Time>, trace: seq<Obs>, trace': seq<Obs>)
    requires ActionsTracked(maxActions, now, retained, trace)
    requires Questions(trace') == Questions(trace) && Grants(trace') == Grants(trace)
    ensures ActionsTracked(maxActions, now, retained, trace')
  {
  }

  // ---- Every step ----------------------------------------------------------------------

  ghost predicate Tracked(cfg: AgentConfig, start: Time, s: State) {
    && EscalationTracked(start, s.escalationClock, s.window, s.trace)
    && ActionsTracked(cfg.policy.maxActions, s.actionClock, s.retained, s.trace)
  }

  lemma MovePlain(cfg: AgentConfig, s: State, step: Step, m: Move)
    requires Moves(cfg, s, step, m) && !step.Limit? && (step.Evaluate? ==> m.obs == [])
    ensures Plain(m.obs)
    ensures var u := Apply(cfg, s, step);
            && u.escalationClock == s.escalationClock && u.window == s.window
            && u.actionClock == s.actionClock && u.retained == s.retained
  {
  }

  lemma MoveAsks(cfg: AgentConfig, s: State, step: Step, m: Move)
    requires Moves(cfg, s, step, m) && step.Evaluate? && m.obs != []
    ensures var u, answer := Apply(cfg, s, step), Allow(s.retained, cfg.policy.maxActions, step.at);
            && s.actionClock <= step.at
            && m.obs == [Asks(step.id, Question(step.at, answer.1))]
            && u.escalationClock == s.escalationClock && u.window == s.window
            && u.actionClock == step.at && u.retained == answer.0
  {
  }

  lemma MoveLimits(cfg: AgentConfig, s: State, step: Step, m: Move)
    requires Moves(cfg, s, step, m) && step.Limit?
    ensures var u, r := Apply(cfg, s, step), step.reading;
            && s.escalationClock <= r.since && Ordered(r)
            && s.slots[step.id].phase.Escalating? && (m.phase.Waiting? || m.phase.Refused?)
            && m.obs == [Counted(step.id, r, Admits(s.window, r))]
            && u.escalationClock == r.done && u.window == Tick(s.window, r)
            && u.actionClock == s.actionClock && u.retained == s.retained
  {
  }

  lemma TrackedMove(cfg: AgentConfig, start: Time, s: State, step: Step, m: Move)
    requires Tracked(cfg, start, s) && Moves(cfg, s, step, m)
    ensures Tracked(cfg, start, Apply(cfg, s, step))
  {
    var u := Apply(cfg, s, step);
    var max := cfg.policy.maxActions;
    ApplyMove(cfg, s, step, m);
    if step.Limit? {
      MoveLimits(cfg, s, step, m);
      SnocLimits(s.trace, m.obs[0]);
      EscalationTrackedLimit(start, s.escalationClock, s.window, s.trace, step.id, step.reading);
      ActionsCarry(max, s.actionClock, s.retained, s.trace, u.trace);
    } else if step.Evaluate? && m.obs != [] {
      MoveAsks(cfg, s, step, m);
      SnocLimits(s.trace, m.obs[0]);
      PlainKeepsWindows(start, s.trace, m.obs[0]);
      ActionsTrackedAsk(max, s.actionClock, s.retained, s.trace, step.id, step.at);
      EscalationCarries(start, s.escalationClock, s.window, s.trace, u.trace);
    } else {
      MovePlain(cfg, s, step, m);
      PlainAppend(start, s.trace, m.obs);
      EscalationCarries(start, s.escalationClock, s.window, s.trace, u.trace);
      ActionsCarry(max, s.actionClock, s.retained, s.trace, u.trace);
    }
  }

  lemma {:induction false} TrackedHolds(cfg: AgentConfig, loaded: set<string>, start: Time, steps: seq<Step>)
    ensures Tracked(cfg, start, Exec(cfg, Initial(loaded, start), steps))
    decreases |steps|
  {
    if steps == [] {
    } else {
      var n := |steps| - 1;
      var s, step := Exec(cfg, Initial(loaded, start), steps[..n]), steps[n];
      TrackedHolds(cfg, loaded, start, steps[..n]);
      if !step.Arrive? && step.id < |s.slots| && MoveOf(cfg, s, step, s.slots[step.id]).Some? {
        TrackedMove(cfg, start, s, step, MoveOf(cfg, s, step, s.slots[step.id]).value);
      }
    }
  }

  /** In every interleaving, at most 50 escalations pass between two resets of the window, at most
      100 in any closed minute, and at most max(0, maxActions) actions are granted in any half-open
      minute. */
  lemma RatesBounded(cfg: AgentConfig, loaded: set<string>, start: Time, steps: seq<Step>, s: State, x: Time, k: nat)
    requires s == Exec(cfg, Initial(loaded, start), steps)
    ensures PassedAfter(start, s.trace, k) <= 50
    ensures PassedIn(s.trace, x) <= 100
    ensures InMinuteAfter(Grants(s.trace), x) <= if cfg.policy.maxActions > 0 then cfg.policy.maxActions else 0
  {
    TrackedHolds(cfg, loaded, start, steps);
    FixedWindowBound(start, Readings(s.trace), x, k);
    SlidingWindowBound(cfg.policy.maxActions, Questions(s.trace));
  }

  // ---- The answers of the action limiter -----------------------------------------------

  /** Fewer than the maximum were granted in the minute up to `at`. */
  predicate Room(cfg: AgentConfig, trace: seq<Obs>, at: Time) {
    InWindow(Grants(trace), at - 60_000_000_000, at) < cfg.policy.maxActions
  }

  /** Every question was answered by the grants before it. */
  ghost predicate Answered(cfg: AgentConfig, trace: seq<Obs>) {
    forall k :: 0 <= k < |trace| && trace[k].Asks? ==>
      (trace[k].question.granted <==> Room(cfg, trace[..k], trace[k].question.at))
  }

  lemma AnswerIsRoom(cfg: AgentConfig, start: Time, s: State, at: Time)
    requires Tracked(cfg, start, s) && s.actionClock <= at
    ensures Allow(s.retained, cfg.policy.maxActions, at).1 <==> Room(cfg, s.trace, at)
  {
    var qs, max := Questions(s.trace), cfg.policy.maxActions;
    RunIsFaithful(max, qs);
    AskRefinesHistory(AskAll(max, qs), max, if qs == [] then at else qs[|qs| - 1], at);
  }

  lemma AnsweredAppend(cfg: AgentConfig, trace: seq<Obs>, obs: seq<Obs>)
    requires Answered(cfg, trace)
    requires forall k :: 0 <= k < |obs| && obs[k].Asks? ==>
               |obs| == 1 && (obs[k].question.granted <==> Room(cfg, trace, obs[k].question.at))
    ensures Answered(cfg, trace + obs)
  {
    var all := trace + obs;
    forall k | 0 <= k < |all| && all[k].Asks?
      ensures all[k].question.granted <==> Room(cfg, all[..k], all[k].question.at)
    {
      if k < |trace| {
        assert all[..k] == trace[..k];
      } else {
        assert all[k] == obs[k - |trace|] && all[..|trace|] == trace;
      }
    }
  }

  lemma AnsweredMove(cfg: AgentConfig, start: Time, s: State, step: Step, m: Move)
    requires Tracked(cfg, start, s) && Answered(cfg, s.trace) && Moves(cfg, s, step, m)
    ensures Answered(cfg, s.trace + m.obs)
  {
    if step.Limit? {
      MoveLimits(cfg, s, step, m);
    } else if step.Evaluate? && m.obs != [] {
      MoveAsks(cfg, s, step, m);
      AnswerIsRoom(cfg, start, s, step.at);
    } else {
      MovePlain(cfg, s, step, m);
    }
    AnsweredAppend(cfg, s.trace, m.obs);
  }

  /** In every interleaving the action limiter grants exactly when there is room: when the trace up to
      the question has fewer than the maximum of grants in the last minute. */
  lemma {:induction false} AnsweredHolds(cfg: AgentConfig, loaded: set<string>, start: Time, steps: seq<Step>)
    ensures Answered(cfg, Exec(cfg, Initial(loaded, start), steps).trace)
    decreases |steps|
  {
    if steps == [] {
    } else {
      var n := |steps| - 1;
      var s, step := Exec(cfg, Initial(loaded, start), steps[..n]), steps[n];
      AnsweredHolds(cfg, loaded, start, steps[..n]);
      TrackedHolds(cfg, loaded, start, steps[..n]);
      if !step.Arrive? && step.id < |s.slots| && MoveOf(cfg, s, step, s.slots[step.id]).Some? {
        var m := MoveOf(cfg, s, step, s.slots[step.id]).value;
        AnsweredMove(cfg, start, s, step, m);
        ApplyMove(cfg, s, step, m);
      }
    }
  }

  // ---- Grants and signals per event ----------------------------------------------------

  /** The event was granted an action in (x, x + 1 minute]. */
  predicate GrantedIn(p: Phase, x: Time) {
    && (p.Ruled? || p.Audited? || p.Acted? || p.Decided?)
    && p.c.asked.Some? && p.c.asked.value.granted && x < p.c.asked.value.at <= x + 60_000_000_000
  }

  /** The event's process was sent a signal. */
  predicate Signalled(slot: Slot) {
    && (slot.phase.Acted? || slot.phase.Decided?)
    && Effects(0, slot.ev, slot.phase.c.decision) != []
    && Effects(0, slot.ev, slot.phase.c.decision)[0].Signals?
  }

  function GrantTally(slots: seq<Slot>, x: Time): nat {
    if slots == [] then 0
    else
      var n := |slots| - 1;
      GrantTally(slots[..n], x) + One(GrantedIn(slots[n].phase, x))
  }

  /** How many events were signalled on a grant from (x, x + 1 minute]. */
  function SignalTally(slots: seq<Slot>, x: Time): nat {
    if slots == [] then 0
    else
      var n := |slots| - 1;
      SignalTally(slots[..n], x) + One(Signalled(slots[n]) && GrantedIn(slots[n].phase, x))
  }

  lemma {:induction false} SignalsAreGranted(slots: seq<Slot>, x: Time)
    ensures SignalTally(slots, x) <= GrantTally(slots, x)
    decreases |slots|
  {
    if slots == [] {
    } else {
      SignalsAreGranted(slots[..|slots| - 1], x);
    }
  }

  lemma {:induction false} GrantTallyUpdate(slots: seq<Slot>, i: nat, slot: Slot, x: Time)
    requires i < |slots|
    ensures GrantTally(slots[i := slot], x)
         == GrantTally(slots, x) + One(GrantedIn(slot.phase, x)) - One(GrantedIn(slots[i].phase, x))
    decreases |slots|
  {
    var n := |slots| - 1;
    if i < n {
      GrantTallyUpdate(slots[..n], i, slot, x);
      assert slots[i := slot][..n] == slots[..n][i := slot];
    } else {
      assert slots[i := slot][..n] == slots[..n];
    }
  }

  lemma GrantTallySnoc(slots: seq<Slot>, slot: Slot, x: Time)
    ensures GrantTally(slots + [slot], x) == GrantTally(slots, x) + One(GrantedIn(slot.phase, x))
  {
    assert (slots + [slot])[..|slots|] == slots;
  }

  lemma MoveGrants(cfg: AgentConfig, s: State, step: Step, m: Move, x: Time)
    requires Moves(cfg, s, step, m)
    ensures InMinuteAfter(Grants(s.trace + m.obs), x) + One(GrantedIn(s.slots[step.id].phase, x))
         == InMinuteAfter(Grants(s.trace), x) + One(GrantedIn(m.phase, x))
  {
    if step.Evaluate? && m.obs != [] {
      EvaluateCase(cfg, s, step, m);
      AskGrants(s.trace, step.id, m.phase.c.asked.value, x);
    } else if step.Limit? {
      MoveLimits(cfg, s, step, m);
      SnocLimits(s.trace, m.obs[0]);
      assert m.obs == [m.obs[0]];
      assert Grants(s.trace) + [] == Grants(s.trace);
    } else {
      MovePlain(cfg, s, step, m);
      PlainAppend(0, s.trace, m.obs);
      PlainKeepsGrant(cfg, s, step, m, x);
    }
  }

  lemma AskGrants(trace: seq<Obs>, id: nat, q: Question, x: Time)
    ensures InMinuteAfter(Grants(trace + [Asks(id, q)]), x)
         == InMinuteAfter(Grants(trace), x) + One(q.granted && x < q.at <= x + MINUTE)
  {
    var grants := Grants(trace);
    GrantsSnoc(trace, id, q);
    if q.granted {
      WindowSnoc(grants, q.at, x, x + MINUTE);
    }
  }

  lemma GrantsSnoc(trace: seq<Obs>, id: nat, q: Question)
    ensures Grants(trace + [Asks(id, q)]) == if q.granted then Grants(trace) + [q.at] else Grants(trace)
  {
    assert (trace + [Asks(id, q)])[..|trace|] == trace;
    assert Grants(trace) + [] == Grants(trace);
  }

  lemma EvaluateCase(cfg: AgentConfig, s: State, step: Step, m: Move)
    requires Moves(cfg, s, step, m) && step.Evaluate? && m.obs != []
    ensures s.slots[step.id].phase.Scored? && m.phase.Ruled? && m.phase.c.asked.Some?
    ensures m.obs == [Asks(step.id, m.phase.c.asked.value)]
  {
  }

  lemma PlainKeepsGrant(cfg: AgentConfig, s: State, step: Step, m: Move, x: Time)
    requires Moves(cfg, s, step, m) && !step.Limit? && (step.Evaluate? ==> m.obs == [])
    ensures GrantedIn(m.phase, x) <==> GrantedIn(s.slots[step.id].phase, x)
  {
  }

  ghost predicate GrantsTallied(s: State, x: Time) {
    GrantTally(s.slots, x) == InMinuteAfter(Grants(s.trace), x)
  }

  lemma GrantsTalliedStep(cfg: AgentConfig, s: State, step: Step, x: Time)
    requires GrantsTallied(s, x)
    ensures GrantsTallied(Apply(cfg, s, step), x)
  {
    if step.Arrive? {
      GrantTallySnoc(s.slots, Slot(step.ev, if SelfGuarded(cfg, step.ev) then Excluded else Arrived), x);
    } else if step.id < |s.slots| && MoveOf(cfg, s, step, s.slots[step.id]).Some? {
      var m := MoveOf(cfg, s, step, s.slots[step.id]).value;
      MoveGrants(cfg, s, step, m, x);
      GrantTallyUpdate(s.slots, step.id, s.slots[step.id].(phase := m.phase), x);
      ApplyMove(cfg, s, step, m);
    }
  }

  lemma {:induction false} GrantsTalliedHolds(cfg: AgentConfig, loaded: set<string>, start: Time, steps: seq<Step>, x: Time)
    ensures GrantsTallied(Exec(cfg, Initial(loaded, start), steps), x)
    decreases |steps|
  {
    if steps == [] {
    } else {
      var n := |steps| - 1;
      GrantsTalliedHolds(cfg, loaded, start, steps[..n], x);
      GrantsTalliedStep(cfg, Exec(cfg, Initial(loaded, start), steps[..n]), steps[n], x);
    }
  }

  /** No action storm: in every interleaving, at most max(0, maxActions) events are signalled on
      grants from any one minute. */
  lemma SignalsPerMinuteBounded(cfg: AgentConfig, loaded: set<string>, start: Time, steps: seq<Step>, s: State, x: Time)
    requires s == Exec(cfg, Initial(loaded, start), steps)
    ensures SignalTally(s.slots, x) <= if cfg.policy.maxActions > 0 then cfg.policy.maxActions else 0
  {
    RatesBounded(cfg, loaded, start, steps, s, x, 0);
    GrantsTalliedHolds(cfg, loaded, start, steps, x);
    SignalsAreGranted(s.slots, x);
  }
}
