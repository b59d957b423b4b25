/** The tier engine and its sliding-window action limiter. */
module Policy {
  import opened Text

  /** A reading of the monotonic clock, in nanoseconds. */
  type Time = int

  const MINUTE: int := 60_000_000_000

  datatype Tier = TierLog | TierAlert | TierSoft | TierHard

  function TierName(t: Tier): string {
    match t
    case TierLog => "log"
    case TierAlert => "alert"
    case TierSoft => "soft_action"
    case TierHard => "hard_action"
  }

  datatype Decision = Decision(tier: Tier, reason: string)

  /** `quote` is the rendering of a process name by fmt's %q. */
  datatype Config = Config(
    enforceMode: string, protectedComms: set<string>, maxActions: int,
    alert: int, soft: int, hard: int, quote: string -> string)

  // ---- The limiter ---------------------------------------------------------------------

  /** The timestamps after the cutoff, in order. */
  function After(ts: seq<Time>, cutoff: Time): seq<Time> {
    if ts == [] then []
    else
      var n := |ts| - 1;
      After(ts[..n], cutoff) + (if ts[n] > cutoff then [ts[n]] else [])
  }

  /** What `allowAction` leaves in `actionTimestamps`, and its answer. */
  function Allow(ts: seq<Time>, maxActions: int, now: Time): (seq<Time>, bool) {
    var kept := After(ts, now - MINUTE);
    if |kept| >= maxActions then (kept, false) else (kept + [now], true)
  }

  /** How many of the times lie in (lo, hi]. */
  function InWindow(ts: seq<Time>, lo: Time, hi: Time): nat {
    if ts == [] then 0
    else
      var n := |ts| - 1;
      InWindow(ts[..n], lo, hi) + (if lo < ts[n] <= hi then 1 else 0)
  }

  /** A run of `allowAction` at the given clock readings: the retained timestamps and the times
      of all grants so far, never pruned. */
  datatype Limiter = Limiter(retained: seq<Time>, grants: seq<Time>)

  function Ask(l: Limiter, maxActions: int, now: Time): Limiter {
    var (ts, ok) := Allow(l.retained, maxActions, now);
    Limiter(ts, if ok then l.grants + [now] else l.grants)
  }

  function AskAll(maxActions: int, readings: seq<Time>): Limiter {
    if readings == [] then Limiter([], [])
    else
      var n := |readings| - 1;
      Ask(AskAll(maxActions, readings[..n]), maxActions, readings[n])
  }

  ghost predicate NonDecreasing(ts: seq<Time>) {
    forall i, j :: 0 <= i < j < |ts| ==> ts[i] <= ts[j]
  }

  ghost predicate AllUpTo(ts: seq<Time>, t: Time) {
    forall i :: 0 <= i < |ts| ==> ts[i] <= t
  }

  lemma {:induction false} AfterTwice(ts: seq<Time>, c: Time, d: Time)
    requires c <= d
    ensures After(After(ts, c), d) == After(ts, d)
  {
    if ts == [] {
    } else {
      var n := |ts| - 1;
      AfterTwice(ts[..n], c, d);
      var a := After(ts[..n], c);
      assert ts[n] > c ==> (a + [ts[n]])[..|a|] == a;
      assert a + [] == a && After(ts[..n], d) + [] == After(ts[..n], d);
    }
  }

  lemma {:induction false} AfterCounts(ts: seq<Time>, cutoff: Time, now: Time)
    requires AllUpTo(ts, now)
    ensures |After(ts, cutoff)| == InWindow(ts, cutoff, now)
  {
    if ts == [] {
    } else {
      AfterCounts(ts[..|ts| - 1], cutoff, now);
    }
  }

  lemma {:induction false} WiderWindow(ts: seq<Time>, lo: Time, hi: Time, lo': Time, hi': Time)
    requires lo' <= lo && AllUpTo(ts, hi')
    ensures InWindow(ts, lo, hi) <= InWindow(ts, lo', hi')
  {
    if ts == [] {
    } else {
      WiderWindow(ts[..|ts| - 1], lo, hi, lo', hi');
    }
  }

  lemma WindowSnoc(ts: seq<Time>, t: Time, lo: Time, hi: Time)
    ensures InWindow(ts + [t], lo, hi) == InWindow(ts, lo, hi) + (if lo < t <= hi then 1 else 0)
  {
    assert (ts + [t])[..|ts|] == ts;
  }

  lemma AfterSnoc(ts: seq<Time>, t: Time, cutoff: Time)
    ensures After(ts + [t], cutoff) == After(ts, cutoff) + (if t > cutoff then [t] else [])
  {
    assert (ts + [t])[..|ts|] == ts;
  }

  lemma AfterNext(ts: seq<Time>, i: nat, cutoff: Time)
    requires i < |ts|
    ensures After(ts[..i + 1], cutoff) == After(ts[..i], cutoff) + (if ts[i] > cutoff then [ts[i]] else [])
  {
    assert ts[..i + 1] == ts[..i] + [ts[i]];
    AfterSnoc(ts[..i], ts[i], cutoff);
  }

  /** The pruned list loses nothing that matters: it is the full grant history after some
      cutoff no later than the next one. */
  ghost predicate Faithful(l: Limiter, last: Time) {
    && AllUpTo(l.grants, last)
    && l.retained == After(l.grants, last - MINUTE)
  }

  /** Refinement: `allowAction` answers yes exactly when the unpruned history of grants has
      fewer than the maximum in (now - 1 minute, now]. */
  lemma AskRefinesHistory(l: Limiter, maxActions: int, last: Time, now: Time)
    requires Faithful(l, last) && last <= now
    ensures Allow(l.retained, maxActions, now).1 <==> InWindow(l.grants, now - 60_000_000_000, now) < maxActions
    ensures Faithful(Ask(l, maxActions, now), now)
  {
    AfterTwice(l.grants, last - MINUTE, now - MINUTE);
    AfterCounts(l.grants, now - MINUTE, now);
    AfterSnoc(l.grants, now, now - MINUTE);
  }

  lemma {:induction false} RunIsFaithful(maxActions: int, readings: seq<Time>)
    requires NonDecreasing(readings)
    ensures readings != [] ==> Faithful(AskAll(maxActions, readings), readings[|readings| - 1])
    ensures readings == [] ==> AskAll(maxActions, readings) == Limiter([], [])
    decreases |readings|
  {
    if readings == [] {
    } else {
      var n := |readings| - 1;
      RunIsFaithful(maxActions, readings[..n]);
      var last := if n == 0 then readings[n] else readings[n - 1];
      AskRefinesHistory(AskAll(maxActions, readings[..n]), maxActions, last, readings[n]);
    }
  }

  lemma NonDecreasingFront(ts: seq<Time>, t: Time)
    requires NonDecreasing(ts + [t])
    ensures NonDecreasing(ts) && AllUpTo(ts, t)
  {
    var all := ts + [t];
    assert all[|ts|] == t;
    assert forall i :: 0 <= i < |ts| ==> ts[i] == all[i];
  }

  /** The whole run against its own history: the answer at every reading is decided by the
      unpruned grants before it. */
  lemma AnswerFromHistory(maxActions: int, readings: seq<Time>, now: Time)
    requires NonDecreasing(readings + [now])
    ensures var l := AskAll(maxActions, readings);
            AskAll(maxActions, readings + [now]).grants ==
              if InWindow(l.grants, now - 60_000_000_000, now) < maxActions then l.grants + [now] else l.grants
  {
    var n := |readings|;
    assert (readings + [now])[..n] == readings;
    NonDecreasingFront(readings, now);
    RunIsFaithful(maxActions, readings);
    var last := if n == 0 then now else readings[n - 1];
    AskRefinesHistory(AskAll(maxActions, readings), maxActions, last, now);
  }

  /** How many of the times lie in (x, x + 1 minute]. */
  function InMinuteAfter(ts: seq<Time>, x: Time): nat {
    InWindow(ts, x, x + 60_000_000_000)
  }

  ghost predicate Bounded(grants: seq<Time>, maxActions: int) {
    forall x :: InMinuteAfter(grants, x) <= if maxActions > 0 then maxActions else 0
  }

  lemma BoundStep(l: Limiter, maxActions: int, last: Time, now: Time)
    requires Faithful(l, last) && last <= now && Bounded(l.grants, maxActions)
    ensures Bounded(Ask(l, maxActions, now).grants, maxActions)
  {
    AskRefinesHistory(l, maxActions, last, now);
    if Allow(l.retained, maxActions, now).1 {
      forall x
        ensures InMinuteAfter(l.grants + [now], x) <= if maxActions > 0 then maxActions else 0
      {
        assert InMinuteAfter(l.grants, x) <= if maxActions > 0 then maxActions else 0;
        WindowSnoc(l.grants, now, x, x + MINUTE);
        if x < now <= x + MINUTE {
          WiderWindow(l.grants, x, x + MINUTE, now - MINUTE, now);
        }
      }
    }
  }

  /** Sliding-window bound: in every run with a non-decreasing clock, any window (x, x + 1 minute]
      contains at most max(0, maxActions) grants. */
  lemma {:induction false} SlidingWindowBound(maxActions: int, readings: seq<Time>)
    requires NonDecreasing(readings)
    ensures Bounded(AskAll(maxActions, readings).grants, maxActions)
    decreases |readings|
  {
    if readings == [] {
    } else {
      var n := |readings| - 1;
      var front := readings[..n];
      SlidingWindowBound(maxActions, front);
      RunIsFaithful(maxActions, front);
      var last := if n == 0 then readings[n] else readings[n - 1];
      BoundStep(AskAll(maxActions, front), maxActions, last, readings[n]);
    }
  }

  // ---- The tiers -----------------------------------------------------------------------

  function TierOf(cfg: Config, score: int): Tier {
    if score >= cfg.hard then TierHard
    else if score >= cfg.soft then TierSoft
    else if score >= cfg.alert then TierAlert
    else TierLog
  }

  predicate Acts(t: Tier) {
    t == TierHard || t == TierSoft
  }

  const DRY_RUN_PREFIX := "DRY-RUN"
  const DASH := "\U{E2}\U{80}\U{94}"

  function ProtectedReason(cfg: Config, comm: string, t: Tier): string {
    "process " + cfg.quote(comm) + " is on protected list " + DASH + " downgraded from " + TierName(t) + " to alert"
  }

  const DRY_RUN_REASON := DRY_RUN_PREFIX + ": would have taken this action, but enforcement is not live"
  const RATE_REASON := "rate limit exceeded " + DASH + " downgraded to alert to prevent action storm"
  const THRESHOLD_REASON := "threshold-based decision"

  /** A decision, the timestamps it leaves, and the limiter's answer if the limiter was asked. */
  datatype Ruling = Ruling(decision: Decision, retained: seq<Time>, asked: Option<bool>)

  function Rule(cfg: Config, comm: string, score: int, ts: seq<Time>, now: Time): Ruling {
    var t := TierOf(cfg, score);
    if comm in cfg.protectedComms && Acts(t) then
      Ruling(Decision(TierAlert, ProtectedReason(cfg, comm, t)), ts, None)
    else if cfg.enforceMode != "live" && Acts(t) then
      Ruling(Decision(t, DRY_RUN_REASON), ts, None)
    else if Acts(t) then
      var (ts', ok) := Allow(ts, cfg.maxActions, now);
      if ok then Ruling(Decision(t, THRESHOLD_REASON), ts', Some(true))
      else Ruling(Decision(TierAlert, RATE_REASON), ts', Some(false))
    else Ruling(Decision(t, THRESHOLD_REASON), ts, None)
  }

  /** How the caller tells a dry run: by the reason's first characters. */
  predicate IsDryRun(d: Decision) {
    HasPrefix(d.reason, DRY_RUN_PREFIX)
  }

  /** Dry runs are recognised exactly, although only through the text of the reason: no process
      name can forge the prefix. */
  lemma DryRunExactly(cfg: Config, comm: string, score: int, ts: seq<Time>, now: Time)
    ensures IsDryRun(Rule(cfg, comm, score, ts, now).decision) <==>
            cfg.enforceMode != "live" && score >= (if cfg.soft < cfg.hard then cfg.soft else cfg.hard)
            && comm !in cfg.protectedComms
  {
    assert |DRY_RUN_PREFIX| == 7;
    assert DRY_RUN_REASON[..7] == DRY_RUN_PREFIX;
    assert RATE_REASON[0] == 'r' && THRESHOLD_REASON[0] == 't' && DRY_RUN_PREFIX[0] == 'D';
    var t := TierOf(cfg, score);
    assert ProtectedReason(cfg, comm, t)[0] == 'p';
    var reason := Rule(cfg, comm, score, ts, now).decision.reason;
    assert HasPrefix(reason, DRY_RUN_PREFIX) ==> reason[..7][0] == 'D';
  }

  /** An action goes ahead, in the given tier, exactly when the score reaches that tier, the
      process is not protected, enforcement is live, and the limiter grants it. */
  lemma ActionExactly(cfg: Config, comm: string, score: int, ts: seq<Time>, now: Time, t: Tier)
    requires Acts(t)
    ensures var r := Rule(cfg, comm, score, ts, now);
            r.decision.tier == t && !IsDryRun(r.decision) <==>
              && (if t == TierHard then cfg.hard <= score else cfg.soft <= score < cfg.hard)
              && comm !in cfg.protectedComms
              && cfg.enforceMode == "live"
              && r.asked == Some(true)
  {
    DryRunExactly(cfg, comm, score, ts, now);
  }

  /** The limiter has no room: enforcement is live and the last minute's grants are used up. */
  predicate Full(cfg: Config, ts: seq<Time>, now: Time) {
    cfg.enforceMode == "live" && |After(ts, now - MINUTE)| >= cfg.maxActions
  }

  predicate ReachesSome(cfg: Config, score: int) {
    score >= cfg.alert || score >= cfg.soft || score >= cfg.hard
  }

  /** What comes of a score, told from the inputs alone.  For a protected process, or when the
      limiter has no room, the tier is Alert if and only if the score reaches one of the thresholds;
      a score below all of them is only logged, in every case. */
  lemma AlertExactly(cfg: Config, comm: string, score: int, ts: seq<Time>, now: Time)
    ensures var tier := Rule(cfg, comm, score, ts, now).decision.tier;
            && (tier == TierLog <==> !ReachesSome(cfg, score))
            && (comm in cfg.protectedComms || Full(cfg, ts, now) ==> (tier == TierAlert <==> ReachesSome(cfg, score)))
            && (comm !in cfg.protectedComms && !Full(cfg, ts, now) ==>
                  (tier == TierAlert <==> cfg.alert <= score && score < cfg.soft && score < cfg.hard))
  {
  }

  /** Not regardless of score: a protected process and a limiter without room, with the agent's
      default thresholds and a score of 10, give a mere log entry. */
  lemma LowScoreIsNotAlert(quote: string -> string, now: Time)
    ensures var cfg := Config("live", {"sshd"}, 0, 40, 70, 90, quote);
            && "sshd" in cfg.protectedComms && Full(cfg, [], now)
            && Rule(cfg, "sshd", 10, [], now).decision.tier == TierLog
            && Rule(cfg, "curl", 10, [], now).decision.tier == TierLog
  {
    AlertExactly(Config("live", {"sshd"}, 0, 40, 70, 90, quote), "sshd", 10, [], now);
    AlertExactly(Config("live", {"sshd"}, 0, 40, 70, 90, quote), "curl", 10, [], now);
  }

  /** The names of the tiers, as they are logged. */
  lemma TierNames()
    ensures TierName(TierLog) == "log" && TierName(TierAlert) == "alert"
    ensures TierName(TierSoft) == "soft_action" && TierName(TierHard) == "hard_action"
  {
  }

  /** The reason given with a ruling: why an action was withheld, or would not be taken, or that only
      the thresholds decided.  The dash is the three bytes of U+2014. */
  lemma ReasonExactly(cfg: Config, comm: string, score: int, ts: seq<Time>, now: Time)
    ensures var r, dash := Rule(cfg, comm, score, ts, now), "\U{E2}\U{80}\U{94}";
            r.decision.reason ==
              if (score >= cfg.hard || score >= cfg.soft) && comm in cfg.protectedComms then
                "process " + cfg.quote(comm) + " is on protected list " + dash + " downgraded from "
                + (if score >= cfg.hard then "hard_action" else "soft_action") + " to alert"
              else if (score >= cfg.hard || score >= cfg.soft) && cfg.enforceMode != "live" then
                "DRY-RUN" + ": would have taken this action, but enforcement is not live"
              else if (score >= cfg.hard || score >= cfg.soft) && |After(ts, now - 60_000_000_000)| >= cfg.maxActions then
                "rate limit exceeded " + dash + " downgraded to alert to prevent action storm"
              else "threshold-based decision"
  {
  }

  /** Everything about a ruling except the wording of its reason. */
  lemma RuleExactly(cfg: Config, comm: string, score: int, ts: seq<Time>, now: Time)
    ensures var r, t := Rule(cfg, comm, score, ts, now), TierOf(cfg, score);
            && (r.asked.Some? <==> Acts(t) && comm !in cfg.protectedComms && cfg.enforceMode == "live")
            && (r.asked.Some? ==> (r.retained, r.asked.value) == Allow(ts, cfg.maxActions, now))
            && (r.asked.None? ==> r.retained == ts)
            && r.decision.tier == (if Acts(t) && (comm in cfg.protectedComms || r.asked == Some(false)) then TierAlert else t)
            && (IsDryRun(r.decision) <==> Acts(t) && comm !in cfg.protectedComms && cfg.enforceMode != "live")
  {
    DryRunExactly(cfg, comm, score, ts, now);
  }

  // ---- The engine object ---------------------------------------------------------------

  /** `Engine`.  The slice `actionTimestamps` is a buffer and a length; compaction and append
      work in the buffer, and append moves to a larger one only when it is full. */
  class Engine {
    const cfg: Config
    var buffer: array<Time>
    var len: nat

    ghost predicate Valid()
      reads this
    {
      len <= buffer.Length
    }

    ghost function Timestamps(): seq<Time>
      requires Valid()
      reads this, buffer
    {
      buffer[..len]
    }

    constructor (cfg: Config)
      ensures Valid() && fresh(buffer)
      ensures this.cfg == cfg && Timestamps() == []
    {
      this.cfg := cfg;
      buffer, len := new Time[0], 0;
    }

    /** `filtered := actionTimestamps[:0]` and the loop that refills it from the same memory. */
    method Compact(cutoff: Time)
      requires Valid()
      modifies this`len, buffer
      ensures Valid() && Timestamps() == After(old(Timestamps()), cutoff)
    {
      var kept: nat := 0;
      var i: nat := 0;
      ghost var was, done := buffer[..len], [];
      while i < len
        invariant kept <= i <= len == old(len)
        invariant done == After(was[..i], cutoff) && |done| == kept
        invariant forall k :: 0 <= k < kept ==> buffer[k] == done[k]
        invariant forall k :: i <= k < len ==> buffer[k] == was[k]
      {
        var t := buffer[i];
        AfterNext(was, i, cutoff);
        done := After(was[..i + 1], cutoff);
        if t > cutoff {
          buffer[kept] := t;
          kept := kept + 1;
        }
        i := i + 1;
      }
      assert was[..len] == was;
      len := kept;
    }

    method Append(t: Time)
      requires Valid()
      modifies this`len, this`buffer, buffer
      ensures Valid() && (buffer == old(buffer) || fresh(buffer))
      ensures Timestamps() == old(Timestamps()) + [t]
    {
      if len == buffer.Length {
        var bigger := new Time[2 * len + 1];
        for i := 0 to len
          modifies bigger
          invariant forall k :: 0 <= k < i ==> bigger[k] == buffer[k]
        {
          bigger[i] := buffer[i];
        }
        buffer := bigger;
      }
      buffer[len] := t;
      len := len + 1;
    }

    /** `allowAction`. */
    method AllowAction(now: Time) returns (ok: bool)
      requires Valid()
      modifies this`len, this`buffer, buffer
      ensures Valid() && (buffer == old(buffer) || fresh(buffer))
      ensures (Timestamps(), ok) == Allow(old(Timestamps()), cfg.maxActions, now)
    {
      Compact(now - MINUTE);
      if len >= cfg.maxActions {
        return false;
      }
      Append(now);
      return true;
    }

    /** `Evaluate`; the second result tells whether the limiter was asked, and its answer. */
    method Evaluate(comm: string, score: int, now: Time) returns (d: Decision, asked: Option<bool>)
      requires Valid()
      modifies this`len, this`buffer, buffer
      ensures Valid() && (buffer == old(buffer) || fresh(buffer))
      ensures Ruling(d, Timestamps(), asked) == Rule(cfg, comm, score, old(Timestamps()), now)
    {
      var tier := TierLog;
      if score >= cfg.hard {
        tier := TierHard;
      } else if score >= cfg.soft {
        tier := TierSoft;
      } else if score >= cfg.alert {
        tier := TierAlert;
      }
      asked := None;
      if comm in cfg.protectedComms {
        if tier == TierHard || tier == TierSoft {
          d := Decision(TierAlert, ProtectedReason(cfg, comm, tier));
          return;
        }
      }
      if cfg.enforceMode != "live" && (tier == TierHard || tier == TierSoft) {
        d := Decision(tier, DRY_RUN_REASON);
        return;
      }
      if tier == TierHard || tier == TierSoft {
        var ok := AllowAction(now);
        asked := Some(ok);
        if !ok {
          d := Decision(TierAlert, RATE_REASON);
          return;
        }
      }
      d := Decision(tier, THRESHOLD_REASON);
    }
  }
}
