/** What holds of the whole agent, in every interleaving. */
module PipelineSafety {
  import opened Text
  import opened Policy
  import opened Pipeline
  import opened PipelineHistory
  import PipelineLimits
  import Normalizer
  import Connect
  import Utf8
  import Baseline
  import Lines

  // ---- Enforcement ---------------------------------------------------------------------

  /** The history of an event up to its decision being logged, when it was granted an action. */
  function GrantedTrail(i: nat, ev: Event, c: Case, filing: Filing): seq<Obs>
    requires c.asked.Some?
  {
    [Escalates(i), Counted(i, c.reading, true), Takes(i), Scores(i, c.score), Asks(i, c.asked.value),
     LogsDecision(i, ev, c, filing)]
  }

  /** What the policy demands before an event may be acted on, in the given tier. */
  ghost predicate Permitted(cfg: AgentConfig, ev: Event, c: Case, t: Tier) {
    && ev.pid != cfg.selfPid && ev.comm !in {"ollama", "llama-server", "watchbpf-agent"}
    && c.decision.tier == t
    && (if t == TierHard then cfg.policy.hard <= c.score <= 100
        else cfg.policy.soft <= c.score < cfg.policy.hard && c.score <= 100)
    && 0 <= c.score
    && cfg.policy.enforceMode == "live"
    && ev.comm !in cfg.policy.protectedComms
    && c.asked.Some? && c.asked.value.granted
  }

  predicate IsEffect(o: Obs) {
    o.Signals? || o.Isolates?
  }

  lemma AuditedHasNoEffects(i: nat, ev: Event, c: Case, filing: Filing, q: nat)
    requires q < |TrailAudited(i, ev, c, filing)|
    ensures !IsEffect(TrailAudited(i, ev, c, filing)[q])
  {
  }

  lemma UnactedHasNoEffects(i: nat, slot: Slot, q: nat)
    requires !slot.phase.Acted? && !slot.phase.Decided? && q < |Trail(i, slot)|
    ensures !IsEffect(Trail(i, slot)[q])
  {
    if slot.phase.Audited? {
      AuditedHasNoEffects(i, slot.ev, slot.phase.c, slot.phase.filing, q);
    }
  }

  /** Only a decision that has been acted on leaves effects, and they are the end of its trail. */
  lemma EffectPhase(i: nat, slot: Slot, q: nat)
    requires q < |Trail(i, slot)| && IsEffect(Trail(i, slot)[q])
    ensures slot.phase.Acted? || slot.phase.Decided?
    ensures var c := slot.phase.c;
            var n := |TrailAudited(i, slot.ev, c, slot.phase.filing)|;
            && n <= q < n + |Effects(i, slot.ev, c.decision)|
            && Trail(i, slot)[q] == Effects(i, slot.ev, c.decision)[q - n]
            && Trail(i, slot)[..n] == TrailAudited(i, slot.ev, c, slot.phase.filing)
  {
    if !slot.phase.Acted? && !slot.phase.Decided? {
      UnactedHasNoEffects(i, slot, q);
    } else {
      var audited := TrailAudited(i, slot.ev, slot.phase.c, slot.phase.filing);
      var effects := Effects(i, slot.ev, slot.phase.c.decision);
      assert Trail(i, slot) == audited + effects + (if slot.phase.Decided? then [Frees(i)] else []);
      if q < |audited| {
        AuditedHasNoEffects(i, slot.ev, slot.phase.c, slot.phase.filing, q);
      }
    }
  }

  /** A decision with effects was carried out because it was permitted. */
  lemma EffectsArePermitted(cfg: AgentConfig, loaded: set<string>, i: nat, slot: Slot)
    requires PhaseSound(cfg, loaded, slot) && (slot.phase.Acted? || slot.phase.Decided?)
    requires Effects(i, slot.ev, slot.phase.c.decision) != []
    ensures var c := slot.phase.c;
            && Acts(c.decision.tier) && Permitted(cfg, slot.ev, c, c.decision.tier)
            && TrailAudited(i, slot.ev, c, slot.phase.filing) == GrantedTrail(i, slot.ev, c, slot.phase.filing)
  {
    GuardsExactly(cfg, slot.ev, None);
  }

  /** Effects appear in a trail only behind a granted and logged decision. */
  lemma EffectInTrail(cfg: AgentConfig, loaded: set<string>, i: nat, slot: Slot, q: nat) returns (c: Case)
    requires PhaseSound(cfg, loaded, slot)
    requires q < |Trail(i, slot)| && IsEffect(Trail(i, slot)[q])
    ensures Acts(c.decision.tier) && Permitted(cfg, slot.ev, c, c.decision.tier)
    ensures (slot.phase.Acted? || slot.phase.Decided?) && slot.phase.c == c
    ensures c.asked.Some? && 6 <= q && GrantedTrail(i, slot.ev, c, slot.phase.filing) == Trail(i, slot)[..6]
    ensures q - 6 < |Effects(i, slot.ev, c.decision)| && Effects(i, slot.ev, c.decision)[q - 6] == Trail(i, slot)[q]
  {
    EffectPhase(i, slot, q);
    EffectsArePermitted(cfg, loaded, i, slot);
    c := slot.phase.c;
  }

  /** Enforcement safety.  In every interleaving, a signal goes to the process of its own event
      and nowhere else: SIGKILL only for a score of at least the hard threshold, SIGSTOP only for
      one between soft and hard, always a validated score in live mode, for a process that is
      neither protected nor excluded, with a pid other than 0, 1 and the agent's own.  What the
      event did before the signal is exactly this, in this order: it was escalated, passed the
      escalation limiter, took an LLM slot, was scored, was granted an action of its own by the
      action limiter, and was handed to the audit log, whatever became of that write.  Such an
      event is one of those the bound on signals per minute counts. */
  lemma SignalsAreJustified(cfg: AgentConfig, loaded: set<string>, start: Time, steps: seq<Step>, s: State, k: nat)
    returns (c: Case, filing: Filing)
    requires s == Exec(cfg, Initial(loaded, start), steps)
    requires k < |s.trace| && s.trace[k].Signals?
    ensures s.trace[k].id < |s.slots|
    ensures var i := s.trace[k].id;
            var ev := s.slots[i].ev;
            && Permitted(cfg, ev, c, if s.trace[k].signal == SigKill then TierHard else TierSoft)
            && s.trace[k].pid == ev.pid && ev.pid !in {0, 1, cfg.selfPid}
            && Own(s.trace[..k], i) == GrantedTrail(i, ev, c, filing)
            && PipelineLimits.Signalled(s.slots[i]) && s.slots[i].phase.c == c
  {
    var i, q := s.trace[k].id, |Own(s.trace[..k], s.trace[k].id)|;
    EffectPosition(cfg, loaded, start, steps, s, k);
    c := EffectInTrail(cfg, loaded, i, s.slots[i], q);
    filing := s.slots[i].phase.filing;
    SignalIsFirst(i, s.slots[i].ev, c.decision, q - 6);
  }

  /** The signal comes first among the effects of a decision, and its kind is the tier's. */
  lemma SignalIsFirst(i: nat, ev: Event, d: Decision, n: nat)
    requires n < |Effects(i, ev, d)| && Effects(i, ev, d)[n].Signals?
    ensures n == 0 && Effects(i, ev, d)[n] == Signals(i, if d.tier == TierHard then SigKill else SigStop, ev.pid)
    ensures Killable(ev.pid) && Acts(d.tier)
    ensures Effects(0, ev, d) != [] && Effects(0, ev, d)[0].Signals?
  {
  }

  /** Where an effect stands in its event's trail. */
  lemma EffectPosition(cfg: AgentConfig, loaded: set<string>, start: Time, steps: seq<Step>, s: State, k: nat)
    requires s == Exec(cfg, Initial(loaded, start), steps) && k < |s.trace|
    ensures var i := s.trace[k].id;
            var q := |Own(s.trace[..k], i)|;
            && i < |s.slots| && PhaseSound(cfg, loaded, s.slots[i])
            && q < |Trail(i, s.slots[i])| && Trail(i, s.slots[i])[q] == s.trace[k]
            && Own(s.trace[..k], i) == Trail(i, s.slots[i])[..q]
  {
    TrailsHold(cfg, loaded, start, steps);
    SaneHolds(cfg, loaded, start, steps);
    OwnPrefix(s.trace, k);
    var i := s.trace[k].id;
    var before := Own(s.trace[..k], i);
    assert (before + [s.trace[k]])[..|before|] == before;
  }

  /** No event is signalled twice. */
  lemma AtMostOneSignal(cfg: AgentConfig, loaded: set<string>, start: Time, steps: seq<Step>, s: State, j: nat, k: nat)
    requires s == Exec(cfg, Initial(loaded, start), steps)
    requires j < k < |s.trace| && s.trace[j].Signals? && s.trace[k].Signals?
    ensures s.trace[j].id != s.trace[k].id
  {
    var c, filing := SignalsAreJustified(cfg, loaded, start, steps, s, j);
    var d, filing' := SignalsAreJustified(cfg, loaded, start, steps, s, k);
    if s.trace[j].id == s.trace[k].id {
      OwnGrows(s.trace, j, k);
    }
  }

  /** The self guard, in every interleaving: an event is excluded if and only if it comes from the
      agent itself or from a process with one of the three names, and an excluded event is never
      seen doing anything. */
  lemma ExcludedExactly(cfg: AgentConfig, loaded: set<string>, start: Time, steps: seq<Step>, s: State, i: nat)
    requires s == Exec(cfg, Initial(loaded, start), steps) && i < |s.slots|
    ensures s.slots[i].phase.Excluded? <==>
            s.slots[i].ev.pid == cfg.selfPid || s.slots[i].ev.comm in {"ollama", "llama-server", "watchbpf-agent"}
    ensures s.slots[i].phase.Excluded? ==> Own(s.trace, i) == []
  {
    SaneHolds(cfg, loaded, start, steps);
    TrailsHold(cfg, loaded, start, steps);
    assert PhaseSound(cfg, loaded, s.slots[i]);
    GuardsExactly(cfg, s.slots[i].ev, None);
  }

  /** Addresses are isolated only for CONNECT events whose process may be killed by the policy,
      and what is isolated is the part of the detail before the first colon. */
  lemma IsolationsAreJustified(cfg: AgentConfig, loaded: set<string>, start: Time, steps: seq<Step>, s: State, k: nat)
    returns (c: Case, filing: Filing)
    requires s == Exec(cfg, Initial(loaded, start), steps)
    requires k < |s.trace| && s.trace[k].Isolates?
    ensures s.trace[k].id < |s.slots|
    ensures var i := s.trace[k].id;
            var ev := s.slots[i].ev;
            && Permitted(cfg, ev, c, TierHard)
            && ev.eventType == "CONNECT" && s.trace[k].ip == Lines.FirstPiece(ev.detail)
            && GrantedTrail(i, ev, c, filing) <= Own(s.trace[..k], i)
  {
    var i, q := s.trace[k].id, |Own(s.trace[..k], s.trace[k].id)|;
    EffectPosition(cfg, loaded, start, steps, s, k);
    c := EffectInTrail(cfg, loaded, i, s.slots[i], q);
    filing := s.slots[i].phase.filing;
    assert Trail(i, s.slots[i])[..q][..6] == Trail(i, s.slots[i])[..6];
  }

  /** One connect() call on its way through the probe: the record, what the two reads of user memory
      gave, and the sockaddr the call connects to. */
  datatype ConnectCall = ConnectCall(
    rec: seq<Connect.Byte>, family: Connect.Uint16, read: Option<seq<Connect.Byte>>, user: seq<Connect.Byte>)

  ghost predicate WellFormed(call: ConnectCall) {
    Connect.IsSockaddr(call.user) && (call.read.Some? ==> |call.read.value| == Connect.AddrSize(call.family))
  }

  /** The bytes the probe recorded of the sockaddr: zeros when the read failed. */
  function Recorded(call: ConnectCall): (addr: seq<Connect.Byte>)
    requires WellFormed(call)
    ensures |addr| == Connect.AddrSize(call.family)
  {
    Connect.Fetched(call.read, Connect.AddrSize(call.family))
  }

  /** The detail of the event was printed from the record the probe wrote for the call. */
  ghost predicate PrintedFor(ev: Event, call: ConnectCall, ipv6Text: seq<Connect.Byte> -> string)
    requires WellFormed(call)
  {
    && (exists pid, uid, comm :: Connect.Written(call.rec, pid, uid, comm, call.family, Recorded(call)))
    && Connect.ReadConnect(call.rec).Some?
    && ev.detail == Connect.Detail(Connect.ReadConnect(call.rec).value, ipv6Text)
  }

  lemma PrintedFirstPiece(ev: Event, call: ConnectCall, ipv6Text: seq<Connect.Byte> -> string)
    requires WellFormed(call) && Connect.Unbracketed(ipv6Text)
    ensures PrintedFor(ev, call, ipv6Text) ==>
              (Lines.FirstPiece(ev.detail) == Connect.DestinationText(call.user, ipv6Text) <==>
               Connect.ReadRight(call.family, Recorded(call), call.user, ipv6Text))
  {
    if PrintedFor(ev, call, ipv6Text) {
      var pid, uid, comm :| Connect.Written(call.rec, pid, uid, comm, call.family, Recorded(call));
      Connect.PrintedPiece(call.rec, pid, uid, comm, call.family, Recorded(call), ipv6Text);
      Connect.PieceIsDestinationExactly(Lines.FirstPiece(ev.detail), call.family, Recorded(call), call.user, ipv6Text);
    }
  }

  /** From the connect() call to the firewall: what is isolated for a call is its destination if and
      only if the probe took it for IPv4 and read the four address bytes as they are in the call's
      sockaddr.  So an IPv6 destination is never isolated, and an IPv4 one whose second read failed
      is not either, unless it is 0.0.0.0. */
  lemma IsolatedIsDestinationExactly(
    cfg: AgentConfig, loaded: set<string>, start: Time, steps: seq<Step>, s: State, k: nat,
    call: ConnectCall, ipv6Text: seq<Connect.Byte> -> string)
    requires s == Exec(cfg, Initial(loaded, start), steps)
    requires k < |s.trace| && s.trace[k].Isolates? && WellFormed(call) && Connect.Unbracketed(ipv6Text)
    ensures s.trace[k].id < |s.slots|
    ensures PrintedFor(s.slots[s.trace[k].id].ev, call, ipv6Text) ==>
              (s.trace[k].ip == Connect.DestinationText(call.user, ipv6Text) <==>
               Connect.ReadRight(call.family, Recorded(call), call.user, ipv6Text))
  {
    var c, filing := IsolationsAreJustified(cfg, loaded, start, steps, s, k);
    PrintedFirstPiece(s.slots[s.trace[k].id].ev, call, ipv6Text);
  }

  // ---- The allowlist -------------------------------------------------------------------

  /** Store agreement: in every interleaving the known keys are the loaded ones and those of the
      learned events, and an event that has been looked up and let go is known. */
  lemma KnownIsLoadedPlusLearned(cfg: AgentConfig, loaded: set<string>, start: Time, steps: seq<Step>, s: State)
    requires s == Exec(cfg, Initial(loaded, start), steps)
    ensures s.known == loaded + (set i | 0 <= i < |s.slots| && s.slots[i].phase.Learned? :: Key(s.slots[i].ev))
    ensures forall i :: 0 <= i < |s.slots| && s.slots[i].phase.Known? ==> Key(s.slots[i].ev) in s.known
    ensures cfg.mode == Filter ==> s.known == loaded
  {
    SaneHolds(cfg, loaded, start, steps);
    if cfg.mode == Filter {
      FilterLearnsNothing(cfg, loaded, s);
    }
    var learned := set i | 0 <= i < |s.slots| && s.slots[i].phase.Learned? :: Key(s.slots[i].ev);
    forall key | key in s.known && key !in loaded ensures key in learned {
      assert Taught(s.slots, key);
      var i :| 0 <= i < |s.slots| && Learnt(s.slots[i], key);
      assert s.slots[i].phase.Learned?;
    }
  }

  /** An event whose key was loaded is never escalated by a filter run. */
  lemma LoadedNeverEscalates(cfg: AgentConfig, loaded: set<string>, start: Time, steps: seq<Step>, s: State, j: nat)
    requires s == Exec(cfg, Initial(loaded, start), steps)
    requires j < |s.slots| && Key(s.slots[j].ev) in loaded
    ensures !Escalated(s.slots[j].phase)
    ensures Escalates(j) !in s.trace
  {
    SaneHolds(cfg, loaded, start, steps);
    assert PhaseSound(cfg, loaded, s.slots[j]);
    if Escalates(j) in s.trace {
      var k :| 0 <= k < |s.trace| && s.trace[k] == Escalates(j);
      EffectPosition(cfg, loaded, start, steps, s, k);
    }
  }

  /** What was learned is valid UTF-8. */
  ghost predicate ValidLearned(slots: seq<Slot>) {
    forall i :: 0 <= i < |slots| && slots[i].phase.Learned? ==>
      Utf8.Valid(slots[i].ev.eventType) && Utf8.Valid(slots[i].ev.comm) && Utf8.Valid(slots[i].ev.detail)
  }

  lemma KnownKeysAreValid(cfg: AgentConfig, loaded: set<string>, start: Time, steps: seq<Step>, s: State)
    requires s == Exec(cfg, Initial(loaded, start), steps)
    requires ValidLearned(s.slots) && forall key :: key in loaded ==> Utf8.Valid(key)
    ensures forall key :: key in s.known ==> Utf8.Valid(key)
  {
    SaneHolds(cfg, loaded, start, steps);
    forall key | key in s.known && key !in loaded ensures Utf8.Valid(key) {
      assert Taught(s.slots, key);
      var i :| 0 <= i < |s.slots| && Learnt(s.slots[i], key);
      var ev := s.slots[i].ev;
      Baseline.KeyIsValidUtf8(ev.eventType, ev.comm, ev.detail);
    }
  }

  /** A learn run, then a successful save that lists `keys`, then a filter run on the saved file. */
  datatype TwoRuns = TwoRuns(
    codec: Baseline.ListCodec, content: Option<string>, keys: seq<string>,
    learn: AgentConfig, loaded: set<string>, learnStart: Time, learnSteps: seq<Step>, learned: State,
    filter: AgentConfig, filterStart: Time, filterSteps: seq<Step>, filtered: State)

  ghost predicate LearnedThenFiltered(r: TwoRuns) {
    && Baseline.LawfulList(r.codec)
    && r.learn.mode == Learn && r.filter.mode == Filter
    && r.learned == Exec(r.learn, Initial(r.loaded, r.learnStart), r.learnSteps)
    && ValidLearned(r.learned.slots) && (forall key :: key in r.loaded ==> Utf8.Valid(key))
    && Baseline.SavedAs(r.codec, r.content, r.keys, r.learned.known)
    && r.filtered == Exec(r.filter, Initial(Baseline.LoadKeys(r.codec, r.content), r.filterStart), r.filterSteps)
  }

  /** An event the learn run has dealt with, past the self guard. */
  predicate DealtWith(slots: seq<Slot>, i: nat) {
    i < |slots| && (slots[i].phase.Learned? || slots[i].phase.Known?)
  }

  /** The filter run starts from what the learn run knew. */
  lemma FilterLoadsLearned(r: TwoRuns)
    requires LearnedThenFiltered(r)
    ensures Baseline.LoadKeys(r.codec, r.content) == r.learned.known
  {
    KnownKeysAreValid(r.learn, r.loaded, r.learnStart, r.learnSteps, r.learned);
    assert Baseline.Saved(r.codec, r.content, r.learned.known);
    Baseline.SavedLoadsBack(r.codec, r.content, r.learned.known);
  }

  lemma LearnedKeyStaysQuiet(r: TwoRuns, i: nat, j: nat)
    requires LearnedThenFiltered(r) && DealtWith(r.learned.slots, i) && j < |r.filtered.slots|
    requires Key(r.filtered.slots[j].ev) == Key(r.learned.slots[i].ev)
    ensures !Escalated(r.filtered.slots[j].phase) && Escalates(j) !in r.filtered.trace
  {
    SaneHolds(r.learn, r.loaded, r.learnStart, r.learnSteps);
    FilterLoadsLearned(r);
    LoadedNeverEscalates(r.filter, r.learned.known, r.filterStart, r.filterSteps, r.filtered, j);
  }

  /** An event past the self guard whose key has been looked up. */
  predicate LookedUp(p: Phase) {
    !p.Excluded? && !p.Arrived?
  }

  /** In a filter run an event that has been looked up is let go exactly when its key was loaded,
      and is escalated exactly when it was not. */
  lemma FilterKnowsExactly(cfg: AgentConfig, loaded: set<string>, start: Time, steps: seq<Step>, s: State, j: nat)
    requires s == Exec(cfg, Initial(loaded, start), steps) && cfg.mode == Filter
    requires j < |s.slots| && LookedUp(s.slots[j].phase)
    ensures s.slots[j].phase.Known? <==> Key(s.slots[j].ev) in loaded
    ensures Escalated(s.slots[j].phase) <==> Key(s.slots[j].ev) !in loaded
  {
    SaneHolds(cfg, loaded, start, steps);
    FilterLearnsNothing(cfg, loaded, s);
    assert PhaseSound(cfg, loaded, s.slots[j]);
  }

  /** Type and name hold no delimiter. */
  predicate Unambiguous(ev: Event) {
    '|' !in ev.eventType && '|' !in ev.comm
  }

  /** The same type and name, and paths that differ at most in digit-only words, a literal `<NUM>`
      counting as one. */
  ghost predicate Alike(a: Event, b: Event) {
    a.eventType == b.eventType && a.comm == b.comm && Normalizer.Resembles(a.detail, b.detail)
  }

  lemma KeyMeansAlike(a: Event, b: Event)
    requires Unambiguous(a) && Unambiguous(b)
    ensures Key(a) == Key(b) <==> Alike(a, b)
  {
    Baseline.KeysEqualExactly(a.eventType, a.comm, a.detail, b.eventType, b.comm, b.detail);
    Normalizer.NormalizeKernelExactly(a.detail, b.detail);
  }

  /** The learn run dealt with an event like this one. */
  ghost predicate SawAlike(slots: seq<Slot>, ev: Event) {
    exists i: nat :: DealtWith(slots, i) && Alike(slots[i].ev, ev)
  }

  ghost predicate AllUnambiguous(slots: seq<Slot>) {
    forall i: nat :: DealtWith(slots, i) ==> Unambiguous(slots[i].ev)
  }

  /** What a run knows, told by the events it has dealt with. */
  lemma KnownMeansSeen(cfg: AgentConfig, loaded: set<string>, s: State, ev: Event)
    requires Sane(cfg, loaded, s) && AllUnambiguous(s.slots) && Unambiguous(ev)
    ensures Key(ev) in s.known && Key(ev) !in loaded ==> SawAlike(s.slots, ev)
    ensures SawAlike(s.slots, ev) ==> Key(ev) in s.known
  {
    if Key(ev) in s.known && Key(ev) !in loaded {
      assert Taught(s.slots, Key(ev));
      var i: nat :| 0 <= i < |s.slots| && Learnt(s.slots[i], Key(ev));
      assert DealtWith(s.slots, i);
      KeyMeansAlike(s.slots[i].ev, ev);
    }
    if SawAlike(s.slots, ev) {
      var i: nat :| DealtWith(s.slots, i) && Alike(s.slots[i].ev, ev);
      KeyMeansAlike(s.slots[i].ev, ev);
    }
  }

  /** What a learn run silences, exactly: among unambiguous events, one that a filter run on the
      saved file has looked up is let go if and only if its key was there before the learn run or
      the learn run dealt with an event like it. */
  lemma LearnedExactly(r: TwoRuns, j: nat)
    requires LearnedThenFiltered(r) && j < |r.filtered.slots| && LookedUp(r.filtered.slots[j].phase)
    requires Unambiguous(r.filtered.slots[j].ev) && AllUnambiguous(r.learned.slots)
    ensures var ev := r.filtered.slots[j].ev;
            r.filtered.slots[j].phase.Known? <==> Key(ev) in r.loaded || SawAlike(r.learned.slots, ev)
  {
    FilterLoadsLearned(r);
    FilterKnowsExactly(r.filter, r.learned.known, r.filterStart, r.filterSteps, r.filtered, j);
    SaneHolds(r.learn, r.loaded, r.learnStart, r.learnSteps);
    KnownMeansSeen(r.learn, r.loaded, r.learned, r.filtered.slots[j].ev);
  }

  /** Learn, then filter: an event the learn run has dealt with, and any event of the same type
      and process whose path differs only in digit-only words, is never escalated by a filter run
      on the saved file. */
  lemma LearnThenFilter(r: TwoRuns, i: nat, j: nat)
    requires LearnedThenFiltered(r) && DealtWith(r.learned.slots, i) && j < |r.filtered.slots|
    requires Alike(r.learned.slots[i].ev, r.filtered.slots[j].ev)
    ensures !Escalated(r.filtered.slots[j].phase) && Escalates(j) !in r.filtered.trace
  {
    Normalizer.NormalizeKernelExactly(r.learned.slots[i].ev.detail, r.filtered.slots[j].ev.detail);
    LearnedKeyStaysQuiet(r, i, j);
  }

  /** The case the allowlist is made for: paths that differ only in digit-only words,
      such as /proc/1/stat and /proc/2/stat. */
  lemma LearnThenFilterSimilar(r: TwoRuns, i: nat, j: nat)
    requires LearnedThenFiltered(r) && DealtWith(r.learned.slots, i) && j < |r.filtered.slots|
    requires var a, b := r.learned.slots[i].ev, r.filtered.slots[j].ev;
             a.eventType == b.eventType && a.comm == b.comm && Normalizer.Similar(a.detail, b.detail)
    ensures !Escalated(r.filtered.slots[j].phase) && Escalates(j) !in r.filtered.trace
  {
    Normalizer.SimilarNormalizeAlike(r.learned.slots[i].ev.detail, r.filtered.slots[j].ev.detail);
    LearnThenFilter(r, i, j);
  }

  /** An event of an IPv4 connection. */
  ghost predicate IPv4Connection(ev: Event, c: Connect.ConnectEvent, ipv6Text: seq<Connect.Byte> -> string) {
    c.isIPv6 != 1 && ev.eventType == "CONNECT" && ev.detail == Connect.Detail(c, ipv6Text)
  }

  /** One learned IPv4 connection of a process silences every IPv4 connection of processes with
      that name, to any address and port. */
  lemma OneConnectionSilencesAll(r: TwoRuns, i: nat, j: nat, c: Connect.ConnectEvent, d: Connect.ConnectEvent, ipv6Text: seq<Connect.Byte> -> string)
    requires LearnedThenFiltered(r) && DealtWith(r.learned.slots, i) && j < |r.filtered.slots|
    ensures var a, b := r.learned.slots[i].ev, r.filtered.slots[j].ev;
            IPv4Connection(a, c, ipv6Text) && IPv4Connection(b, d, ipv6Text) && a.comm == b.comm ==>
              !Escalated(r.filtered.slots[j].phase) && Escalates(j) !in r.filtered.trace
  {
    var a, b := r.learned.slots[i].ev, r.filtered.slots[j].ev;
    if IPv4Connection(a, c, ipv6Text) && IPv4Connection(b, d, ipv6Text) && a.comm == b.comm {
      Connect.IPv4DestinationsShareKey(a.comm, c, d, ipv6Text);
      LearnedKeyStaysQuiet(r, i, j);
    }
  }
}
