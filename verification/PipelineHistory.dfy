/** Every event's own history: what it has been seen doing is determined by its phase. */
module PipelineHistory {
  import opened Text
  import opened Policy
  import opened Pipeline

  function One(b: bool): nat { if b then 1 else 0 }

  /** The observations of event `i`, in order. */
  function Own(trace: seq<Obs>, i: nat): seq<Obs> {
    if trace == [] then []
    else
      var n := |trace| - 1;
      Own(trace[..n], i) + (if trace[n].id == i then [trace[n]] else [])
  }

  ghost predicate AllBy(obs: seq<Obs>, i: nat) {
    forall k :: 0 <= k < |obs| ==> obs[k].id == i
  }

  lemma {:induction false} OwnAppend(a: seq<Obs>, b: seq<Obs>, i: nat)
    ensures Own(a + b, i) == Own(a, i) + Own(b, i)
    decreases |b|
  {
    if b == [] {
      assert a + b == a;
    } else {
      var n := |b| - 1;
      assert (a + b)[..|a| + n] == a + b[..n] && (a + b)[|a| + n] == b[n];
      OwnAppend(a, b[..n], i);
    }
  }

  lemma {:induction false} OwnBy(obs: seq<Obs>, j: nat, i: nat)
    requires AllBy(obs, j)
    ensures Own(obs, i) == if i == j then obs else []
    decreases |obs|
  {
    if obs == [] {
    } else {
      var n := |obs| - 1;
      OwnBy(obs[..n], j, i);
      assert obs == obs[..n] + [obs[n]];
    }
  }

  /** The history up to `k` and then observation `k` is the beginning of the whole history. */
  lemma {:induction false} OwnPrefix(trace: seq<Obs>, k: nat)
    requires k < |trace|
    ensures Own(trace[..k], trace[k].id) + [trace[k]] <= Own(trace, trace[k].id)
    decreases |trace|
  {
    var n := |trace| - 1;
    if k == n {
    } else {
      OwnPrefix(trace[..n], k);
      assert trace[..n][..k] == trace[..k];
    }
  }

  lemma ApplyMove(cfg: AgentConfig, s: State, step: Step, m: Move)
    requires Moves(cfg, s, step, m)
    ensures var u := Apply(cfg, s, step);
            && u.slots == s.slots[step.id := s.slots[step.id].(phase := m.phase)]
            && u.trace == s.trace + m.obs
  {
  }

  /** Each further observation makes the history longer. */
  lemma OwnGrows(trace: seq<Obs>, j: nat, k: nat)
    requires j < k < |trace| && trace[j].id == trace[k].id
    ensures |Own(trace[..j], trace[k].id)| < |Own(trace[..k], trace[k].id)|
  {
    OwnPrefix(trace[..k], j);
    assert trace[..k][..j] == trace[..j];
  }

  // ---- The trail of a phase ------------------------------------------------------------

  /** The question to the action limiter, if there was one. */
  function IfAsked(i: nat, asked: Option<Question>): seq<Obs> {
    if asked.Some? then [Asks(i, asked.value)] else []
  }

  function TrailRuled(i: nat, c: Case): seq<Obs> {
    [Escalates(i), Counted(i, c.reading, true), Takes(i), Scores(i, c.score)] + IfAsked(i, c.asked)
  }

  function TrailAudited(i: nat, ev: Event, c: Case, filing: Filing): seq<Obs> {
    TrailRuled(i, c) + [LogsDecision(i, ev, c, filing)]
  }

  /** Everything an event in the given slot has been seen doing. */
  function Trail(i: nat, slot: Slot): seq<Obs> {
    match slot.phase
    case Excluded => []
    case Arrived => []
    case Known => []
    case Unlearned => []
    case Learned => [Learns(i)]
    case Novel => []
    case Escalating => [Escalates(i)]
    case Refused(r) => [Escalates(i), Counted(i, r, false)]
    case RateLimited(r, filing) => [Escalates(i), Counted(i, r, false), LogsRefusal(i, slot.ev, filing)]
    case Waiting(r) => [Escalates(i), Counted(i, r, true)]
    case Assessing(r) => [Escalates(i), Counted(i, r, true), Takes(i)]
    case Failing(r) => [Escalates(i), Counted(i, r, true), Takes(i), Errs(i)]
    case Failed(r) => [Escalates(i), Counted(i, r, true), Takes(i), Errs(i), Frees(i)]
    case Scored(r, score) => [Escalates(i), Counted(i, r, true), Takes(i), Scores(i, score)]
    case Ruled(c) => TrailRuled(i, c)
    case Audited(c, filing) => TrailAudited(i, slot.ev, c, filing)
    case Acted(c, filing) => TrailAudited(i, slot.ev, c, filing) + Effects(i, slot.ev, c.decision)
    case Decided(c, filing) => TrailAudited(i, slot.ev, c, filing) + Effects(i, slot.ev, c.decision) + [Frees(i)]
  }

  /** A move extends the trail by exactly what it is seen doing. */
  ghost predicate Extends(i: nat, slot: Slot, m: Move) {
    AllBy(m.obs, i) && Trail(i, slot.(phase := m.phase)) == Trail(i, slot) + m.obs
  }

  lemma MoveExtendsTrail(cfg: AgentConfig, s: State, step: Step, m: Move)
    requires Moves(cfg, s, step, m)
    ensures Extends(step.id, s.slots[step.id], m)
  {
    var p := s.slots[step.id].phase;
    if p.Scored? || p.Ruled? || p.Audited? || p.Acted? {
      LateMoveExtendsTrail(cfg, s, step, m);
    } else {
      EarlyMoveExtendsTrail(cfg, s, step, m);
    }
  }

  lemma EarlyMoveExtendsTrail(cfg: AgentConfig, s: State, step: Step, m: Move)
    requires Moves(cfg, s, step, m)
    requires var p := s.slots[step.id].phase; !p.Scored? && !p.Ruled? && !p.Audited? && !p.Acted?
    ensures Extends(step.id, s.slots[step.id], m)
  {
  }

  lemma LateMoveExtendsTrail(cfg: AgentConfig, s: State, step: Step, m: Move)
    requires Moves(cfg, s, step, m)
    requires var p := s.slots[step.id].phase; p.Scored? || p.Ruled? || p.Audited? || p.Acted?
    ensures Extends(step.id, s.slots[step.id], m)
  {
  }

  ghost predicate Trails(slots: seq<Slot>, trace: seq<Obs>) {
    && (forall i :: 0 <= i < |slots| ==> Own(trace, i) == Trail(i, slots[i]))
    && (forall i :: i >= |slots| ==> Own(trace, i) == [])
  }

  lemma TrailsMove(slots: seq<Slot>, trace: seq<Obs>, i: nat, m: Move)
    requires Trails(slots, trace) && i < |slots| && Extends(i, slots[i], m)
    ensures Trails(slots[i := slots[i].(phase := m.phase)], trace + m.obs)
  {
    forall j: nat ensures Own(trace + m.obs, j) == Own(trace, j) + (if j == i then m.obs else []) {
      OwnAppend(trace, m.obs, j);
      OwnBy(m.obs, i, j);
    }
  }

  lemma TrailsStep(cfg: AgentConfig, s: State, step: Step)
    requires Trails(s.slots, s.trace)
    ensures Trails(Apply(cfg, s, step).slots, Apply(cfg, s, step).trace)
  {
    if !step.Arrive? && step.id < |s.slots| && MoveOf(cfg, s, step, s.slots[step.id]).Some? {
      var m := MoveOf(cfg, s, step, s.slots[step.id]).value;
      MoveExtendsTrail(cfg, s, step, m);
      TrailsMove(s.slots, s.trace, step.id, m);
      ApplyMove(cfg, s, step, m);
    }
  }

  lemma {:induction false} TrailsHold(cfg: AgentConfig, loaded: set<string>, start: Time, steps: seq<Step>)
    ensures var s := Exec(cfg, Initial(loaded, start), steps);
            Trails(s.slots, s.trace)
    decreases |steps|
  {
    if steps == [] {
    } else {
      var n := |steps| - 1;
      TrailsHold(cfg, loaded, start, steps[..n]);
      TrailsStep(cfg, Exec(cfg, Initial(loaded, start), steps[..n]), steps[n]);
    }
  }

  // ---- What a phase says ---------------------------------------------------------------

  /** The decision is the policy's, for a validated score: the limiter was asked exactly when the
      tier acts, the process is unprotected and enforcement is live; the tier is the score's unless
      an action was withheld; and it is a dry run exactly when only enforcement was missing. */
  ghost predicate Justified(cfg: AgentConfig, comm: string, c: Case) {
    var t := TierOf(cfg.policy, c.score);
    && 0 <= c.score <= 100
    && (c.asked.Some? <==> Acts(t) && comm !in cfg.policy.protectedComms && cfg.policy.enforceMode == "live")
    && c.decision.tier == (if Acts(t) && (comm in cfg.policy.protectedComms || Withheld(c)) then TierAlert else t)
    && (IsDryRun(c.decision) <==> Acts(t) && comm !in cfg.policy.protectedComms && cfg.policy.enforceMode != "live")
  }

  /** The action limiter was asked and refused. */
  predicate Withheld(c: Case) {
    c.asked.Some? && !c.asked.value.granted
  }

  predicate Escalated(p: Phase) {
    !p.Excluded? && !p.Arrived? && !p.Known? && !p.Unlearned? && !p.Learned?
  }

  ghost predicate PhaseSound(cfg: AgentConfig, loaded: set<string>, slot: Slot) {
    var ev, p := slot.ev, slot.phase;
    && (p.Excluded? <==> SelfGuarded(cfg, ev))
    && (p.Unlearned? || p.Learned? ==> cfg.mode == Learn)
    && (Escalated(p) ==> cfg.mode == Filter && Key(ev) !in loaded)
    && (p.Scored? ==> 0 <= p.score <= 100)
    && (p.Ruled? || p.Audited? || p.Acted? || p.Decided? ==> Justified(cfg, ev.comm, p.c))
  }

  ghost predicate Learnt(slot: Slot, key: string) {
    slot.phase.Learned? && Key(slot.ev) == key
  }

  /** The allowlist is what was loaded and what events have taught it, and an event that found
      itself known is in it. */
  ghost predicate StoreAgrees(loaded: set<string>, slots: seq<Slot>, known: set<string>) {
    && loaded <= known
    && (forall key :: key in known && key !in loaded ==> Taught(slots, key))
    && (forall i :: 0 <= i < |slots| && (slots[i].phase.Learned? || slots[i].phase.Known?) ==> Key(slots[i].ev) in known)
  }

  ghost predicate Taught(slots: seq<Slot>, key: string) {
    exists i :: 0 <= i < |slots| && Learnt(slots[i], key)
  }

  ghost predicate AllSound(cfg: AgentConfig, loaded: set<string>, slots: seq<Slot>) {
    forall i :: 0 <= i < |slots| ==> PhaseSound(cfg, loaded, slots[i])
  }

  ghost predicate Sane(cfg: AgentConfig, loaded: set<string>, s: State) {
    AllSound(cfg, loaded, s.slots) && StoreAgrees(loaded, s.slots, s.known)
  }

  /** In filter mode nothing is ever learned. */
  lemma FilterLearnsNothing(cfg: AgentConfig, loaded: set<string>, s: State)
    requires Sane(cfg, loaded, s) && cfg.mode == Filter
    ensures s.known == loaded
  {
    assert forall key :: !Taught(s.slots, key);
  }

  lemma MoveIsSound(cfg: AgentConfig, loaded: set<string>, s: State, step: Step, m: Move)
    requires Moves(cfg, s, step, m) && PhaseSound(cfg, loaded, s.slots[step.id])
    requires cfg.mode == Filter ==> s.known == loaded
    ensures PhaseSound(cfg, loaded, s.slots[step.id].(phase := m.phase))
  {
    if step.Evaluate? {
      var slot := s.slots[step.id];
      RuleExactly(cfg.policy, slot.ev.comm, slot.phase.score, s.retained, step.at);
    }
  }

  /** How a move may touch the allowlist: it starts from an event that is neither known nor
      learned, and adds the event's key exactly when it makes it learned. */
  ghost predicate StoreMove(slot: Slot, m: Move, known: set<string>, known': set<string>) {
    && !slot.phase.Learned? && !slot.phase.Known?
    && known' == (if m.phase.Learned? then known + {Key(slot.ev)} else known)
    && (m.phase.Known? ==> Key(slot.ev) in known)
  }

  lemma MoveOnStore(cfg: AgentConfig, s: State, step: Step, m: Move)
    requires Moves(cfg, s, step, m)
    ensures StoreMove(s.slots[step.id], m, s.known, Apply(cfg, s, step).known)
  {
  }

  lemma StoreAgreesMove(loaded: set<string>, slots: seq<Slot>, known: set<string>, i: nat, m: Move, known': set<string>)
    requires StoreAgrees(loaded, slots, known) && i < |slots| && StoreMove(slots[i], m, known, known')
    ensures StoreAgrees(loaded, slots[i := slots[i].(phase := m.phase)], known')
  {
    var slots' := slots[i := slots[i].(phase := m.phase)];
    forall key | key in known' && key !in loaded ensures Taught(slots', key) {
      if key in known {
        var j :| 0 <= j < |slots| && Learnt(slots[j], key);
        assert slots'[j] == slots[j];
      } else {
        assert Learnt(slots'[i], key);
      }
    }
  }

  lemma StoreAgreesArrive(loaded: set<string>, slots: seq<Slot>, known: set<string>, slot: Slot)
    requires StoreAgrees(loaded, slots, known) && !slot.phase.Learned? && !slot.phase.Known?
    ensures StoreAgrees(loaded, slots + [slot], known)
  {
    forall key | key in known && key !in loaded ensures Taught(slots + [slot], key) {
      var j :| 0 <= j < |slots| && Learnt(slots[j], key);
      assert (slots + [slot])[j] == slots[j];
    }
  }

  lemma SaneStep(cfg: AgentConfig, loaded: set<string>, s: State, step: Step)
    requires Sane(cfg, loaded, s)
    ensures Sane(cfg, loaded, Apply(cfg, s, step))
  {
    if step.Arrive? {
      var slot := Slot(step.ev, if SelfGuarded(cfg, step.ev) then Excluded else Arrived);
      StoreAgreesArrive(loaded, s.slots, s.known, slot);
    } else if step.id < |s.slots| && MoveOf(cfg, s, step, s.slots[step.id]).Some? {
      var m := MoveOf(cfg, s, step, s.slots[step.id]).value;
      if cfg.mode == Filter {
        FilterLearnsNothing(cfg, loaded, s);
      }
      MoveIsSound(cfg, loaded, s, step, m);
      MoveOnStore(cfg, s, step, m);
      StoreAgreesMove(loaded, s.slots, s.known, step.id, m, Apply(cfg, s, step).known);
      ApplyMove(cfg, s, step, m);
    }
  }

  lemma {:induction false} SaneHolds(cfg: AgentConfig, loaded: set<string>, start: Time, steps: seq<Step>)
    ensures Sane(cfg, loaded, Exec(cfg, Initial(loaded, start), steps))
    decreases |steps|
  {
    if steps == [] {
    } else {
      var n := |steps| - 1;
      SaneHolds(cfg, loaded, start, steps[..n]);
      SaneStep(cfg, loaded, Exec(cfg, Initial(loaded, start), steps[..n]), steps[n]);
    }
  }
}
