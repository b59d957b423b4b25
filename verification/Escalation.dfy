/** The fixed-window limiter in front of the LLM. */
module Escalation {
  import opened Policy

  const LIMIT: nat := 50

  /** The clock readings of one pass through the locked section: the one behind `time.Since`,
      the one stored when the window is reset, and the moment the lock is released. */
  datatype Reading = Reading(since: Time, reset: Time, done: Time)

  predicate Ordered(r: Reading) {
    r.since <= r.reset <= r.done
  }

  /** `escalationWindow` and `escalationCount`. */
  datatype Window = Window(start: Time, count: nat)

  predicate Resets(w: Window, r: Reading) {
    r.since - w.start > MINUTE
  }

  function Tick(w: Window, r: Reading): Window {
    if Resets(w, r) then Window(r.reset, 1) else Window(w.start, w.count + 1)
  }

  predicate Admits(w: Window, r: Reading) {
    Tick(w, r).count <= LIMIT
  }

  /** The globals `escalationCount` and `escalationWindow` behind their mutex. */
  class EscalationLimiter {
    var escalationCount: nat
    var escalationWindow: Time

    ghost function State(): Window
      reads this
    {
      Window(escalationWindow, escalationCount)
    }

    constructor (now: Time)
      ensures State() == Window(now, 0)
    {
      escalationCount, escalationWindow := 0, now;
    }

    method Count(r: Reading) returns (overLimit: bool)
      modifies this
      ensures State() == Tick(old(State()), r)
      ensures overLimit <==> !Admits(old(State()), r)
    {
      if r.since - escalationWindow > MINUTE {
        escalationCount := 0;
        escalationWindow := r.reset;
      }
      escalationCount := escalationCount + 1;
      overLimit := escalationCount > LIMIT;
    }
  }

  // ---- Runs ----------------------------------------------------------------------------

  /** An escalation that passed: when, and in which window (numbered from 0). */
  datatype Pass = Pass(at: Time, window: nat)

  /** The limiter with its full history: the start of every window and every pass. */
  datatype Track = Track(now: Window, starts: seq<Time>, passes: seq<Pass>)

  function Fresh(start: Time): Track {
    Track(Window(start, 0), [start], [])
  }

  function Note(t: Track, r: Reading): Track {
    var starts := if Resets(t.now, r) then t.starts + [r.reset] else t.starts;
    Track(Tick(t.now, r), starts,
          if Admits(t.now, r) && starts != [] then t.passes + [Pass(r.done, |starts| - 1)] else t.passes)
  }

  function NoteAll(t: Track, rs: seq<Reading>): Track {
    if rs == [] then t
    else
      var n := |rs| - 1;
      Note(NoteAll(t, rs[..n]), rs[n])
  }

  /** Readings of a non-decreasing clock, none before `start`. */
  ghost predicate ClockRun(start: Time, rs: seq<Reading>) {
    && (forall i :: 0 <= i < |rs| ==> Ordered(rs[i]) && start <= rs[i].since)
    && (forall i, j :: 0 <= i < j < |rs| ==> rs[i].done <= rs[j].since)
  }

  function InClosedMinute(ps: seq<Pass>, x: Time): nat {
    if ps == [] then 0
    else
      var n := |ps| - 1;
      InClosedMinute(ps[..n], x) + (if x <= ps[n].at <= x + 60_000_000_000 then 1 else 0)
  }

  function InWindowNo(ps: seq<Pass>, k: nat): nat {
    if ps == [] then 0
    else
      var n := |ps| - 1;
      InWindowNo(ps[..n], k) + (if ps[n].window == k then 1 else 0)
  }

  lemma WindowNoSnoc(ps: seq<Pass>, p: Pass, k: nat)
    ensures InWindowNo(ps + [p], k) == InWindowNo(ps, k) + (if p.window == k then 1 else 0)
  {
    assert (ps + [p])[..|ps|] == ps;
  }

  lemma ClosedMinuteSnoc(ps: seq<Pass>, p: Pass, x: Time)
    ensures InClosedMinute(ps + [p], x) == InClosedMinute(ps, x) + (if x <= p.at <= x + MINUTE then 1 else 0)
  {
    assert (ps + [p])[..|ps|] == ps;
  }

  /** Windows start more than a minute apart, the current one last. */
  ghost predicate Spaced(starts: seq<Time>, current: Time, last: Time) {
    && starts != [] && current == starts[|starts| - 1] <= last
    && (forall j, k :: 0 <= j < k < |starts| ==> starts[j] + MINUTE < starts[k])
  }

  ghost predicate InOwnWindow(p: Pass, starts: seq<Time>, last: Time) {
    && p.window < |starts|
    && starts[p.window] <= p.at <= last
    && (p.window + 1 < |starts| ==> p.at <= starts[p.window + 1])
  }

  ghost predicate Placed(ps: seq<Pass>, starts: seq<Time>, last: Time) {
    forall i :: 0 <= i < |ps| ==> InOwnWindow(ps[i], starts, last)
  }

  /** No window lets more than the limit pass; the current one, number `current`, has let
      `count` pass, capped. */
  ghost predicate Capped(ps: seq<Pass>, current: nat, count: nat) {
    && (forall k: nat :: InWindowNo(ps, k) <= LIMIT)
    && (forall k: nat :: k > current ==> InWindowNo(ps, k) == 0)
    && InWindowNo(ps, current) == if count <= LIMIT then count else LIMIT
  }

  ghost predicate Sound(t: Track, last: Time) {
    && Spaced(t.starts, t.now.start, last)
    && Placed(t.passes, t.starts, last)
    && Capped(t.passes, |t.starts| - 1, t.now.count)
  }

  lemma CappedPass(ps: seq<Pass>, current: nat, count: nat, at: Time)
    requires Capped(ps, current, count) && count < LIMIT
    ensures Capped(ps + [Pass(at, current)], current, count + 1)
  {
    forall k: nat
      ensures InWindowNo(ps + [Pass(at, current)], k) == InWindowNo(ps, k) + (if k == current then 1 else 0)
    {
      WindowNoSnoc(ps, Pass(at, current), k);
    }
  }

  lemma CappedStep(t: Track, r: Reading)
    requires t.starts != [] && Capped(t.passes, |t.starts| - 1, t.now.count)
    ensures var u := Note(t, r);
            u.starts != [] && Capped(u.passes, |u.starts| - 1, u.now.count)
  {
    if Resets(t.now, r) {
      CappedPass(t.passes, |t.starts|, 0, r.done);
    } else if t.now.count < LIMIT {
      CappedPass(t.passes, |t.starts| - 1, t.now.count, r.done);
    }
  }

  lemma PlacedStep(t: Track, last: Time, r: Reading)
    requires Spaced(t.starts, t.now.start, last) && Placed(t.passes, t.starts, last)
    requires Ordered(r) && last <= r.since
    ensures var u := Note(t, r);
            Spaced(u.starts, u.now.start, r.done) && Placed(u.passes, u.starts, r.done)
  {
    var u := Note(t, r);
    forall i | 0 <= i < |t.passes| ensures InOwnWindow(t.passes[i], u.starts, r.done) {
      assert InOwnWindow(t.passes[i], t.starts, last);
    }
  }

  lemma SoundStep(t: Track, last: Time, r: Reading)
    requires Sound(t, last) && Ordered(r) && last <= r.since
    ensures Sound(Note(t, r), r.done)
  {
    CappedStep(t, r);
    PlacedStep(t, last, r);
  }

  lemma {:induction false} RunIsSound(start: Time, rs: seq<Reading>)
    requires ClockRun(start, rs)
    ensures Sound(NoteAll(Fresh(start), rs), if rs == [] then start else rs[|rs| - 1].done)
    decreases |rs|
  {
    if rs == [] {
    } else {
      var n := |rs| - 1;
      RunIsSound(start, rs[..n]);
      SoundStep(NoteAll(Fresh(start), rs[..n]), if n == 0 then start else rs[n - 1].done, rs[n]);
    }
  }

  /** The latest reset was at reading `k`, and none since. */
  ghost predicate ResetLast(start: Time, rs: seq<Reading>, w: Window, k: nat) {
    && k < |rs| && w == Window(rs[k].reset, |rs| - k)
    && rs[k].since - NoteAll(Fresh(start), rs[..k]).now.start > 60_000_000_000
    && forall j :: k < j < |rs| ==> rs[j].since - rs[k].reset <= 60_000_000_000
  }

  /** No reset yet. */
  ghost predicate NeverReset(start: Time, rs: seq<Reading>, w: Window) {
    && w == Window(start, |rs|)
    && forall j :: 0 <= j < |rs| ==> rs[j].since - start <= 60_000_000_000
  }

  /** The limiter's variables, told from the readings: the window began at the second reading of the
      latest pass that came more than a minute after the window before it, and the count is the
      number of passes since, that one included. */
  lemma {:induction false} WindowFromReadings(start: Time, rs: seq<Reading>)
    ensures var w := NoteAll(Fresh(start), rs).now;
            NeverReset(start, rs, w) || exists k: nat :: ResetLast(start, rs, w, k)
    decreases |rs|
  {
    if rs == [] {
    } else {
      var n := |rs| - 1;
      var w := NoteAll(Fresh(start), rs[..n]).now;
      WindowFromReadings(start, rs[..n]);
      if Resets(w, rs[n]) {
        assert ResetLast(start, rs, Tick(w, rs[n]), n);
      } else if NeverReset(start, rs[..n], w) {
        assert NeverReset(start, rs, Tick(w, rs[n]));
      } else {
        var k: nat :| ResetLast(start, rs[..n], w, k);
        assert rs[..n][..k] == rs[..k];
        assert ResetLast(start, rs, Tick(w, rs[n]), k);
      }
    }
  }

  /** The first window whose successor, if any, starts at or after `x`. */
  lemma PickWindow(starts: seq<Time>, x: Time) returns (e: nat)
    requires starts != []
    ensures e < |starts|
    ensures e + 1 < |starts| ==> x <= starts[e + 1]
    ensures forall k :: 0 < k <= e ==> starts[k] < x
  {
    e := 0;
    while e + 1 < |starts| && starts[e + 1] < x
      invariant e < |starts|
      invariant forall k :: 0 < k <= e ==> starts[k] < x
    {
      e := e + 1;
    }
  }

  lemma {:induction false} TwoWindows(ps: seq<Pass>, x: Time, e: nat)
    requires forall i :: 0 <= i < |ps| ==> x <= ps[i].at <= x + MINUTE ==> ps[i].window == e || ps[i].window == e + 1
    ensures InClosedMinute(ps, x) <= InWindowNo(ps, e) + InWindowNo(ps, e + 1)
  {
    if ps == [] {
    } else {
      TwoWindows(ps[..|ps| - 1], x, e);
    }
  }

  lemma SoundBound(t: Track, last: Time, x: Time)
    requires Sound(t, last)
    ensures InClosedMinute(t.passes, x) <= 2 * LIMIT
  {
    var e := PickWindow(t.starts, x);
    forall i | 0 <= i < |t.passes| && x <= t.passes[i].at <= x + MINUTE
      ensures t.passes[i].window == e || t.passes[i].window == e + 1
    {
      var p := t.passes[i];
      assert InOwnWindow(p, t.starts, last);
    }
    TwoWindows(t.passes, x, e);
    assert InWindowNo(t.passes, e) <= LIMIT && InWindowNo(t.passes, e + 1) <= LIMIT;
  }

  /** Fixed-window bound: in every run with a non-decreasing clock, at most 50 escalations pass
      between two resets and at most 100 in any closed one-minute interval. */
  lemma FixedWindowBound(start: Time, rs: seq<Reading>, x: Time, k: nat)
    requires ClockRun(start, rs)
    ensures InWindowNo(NoteAll(Fresh(start), rs).passes, k) <= 50
    ensures InClosedMinute(NoteAll(Fresh(start), rs).passes, x) <= 100
  {
    RunIsSound(start, rs);
    SoundBound(NoteAll(Fresh(start), rs), if rs == [] then start else rs[|rs| - 1].done, x);
  }

  // ---- The bound is attained -----------------------------------------------------------

  function Burst(t: Time, n: nat): (rs: seq<Reading>)
    ensures |rs| == n && forall i :: 0 <= i < n ==> rs[i] == Reading(t, t, t)
  {
    seq(n, _ => Reading(t, t, t))
  }

  lemma NoteSnoc(t: Track, rs: seq<Reading>, r: Reading)
    ensures NoteAll(t, rs + [r]) == Note(NoteAll(t, rs), r)
  {
    assert (rs + [r])[..|rs|] == rs;
  }

  lemma {:induction false} NoteConcat(t: Track, a: seq<Reading>, b: seq<Reading>)
    ensures NoteAll(t, a + b) == NoteAll(NoteAll(t, a), b)
  {
    if b == [] {
      assert a + b == a;
    } else {
      var n := |b| - 1;
      var front, r := b[..n], b[n];
      NoteConcat(t, a, front);
      assert b == front + [r];
      assert a + b == (a + front) + [r];
      NoteSnoc(t, a + front, r);
      NoteSnoc(NoteAll(t, a), front, r);
    }
  }

  lemma {:induction false} BurstPasses(t: Track, at: Time, n: nat, x: Time)
    requires t.starts != [] && at - t.now.start <= MINUTE && t.now.count + n <= LIMIT
    requires x <= at <= x + MINUTE
    ensures var u := NoteAll(t, Burst(at, n));
            && u.now == Window(t.now.start, t.now.count + n) && u.starts == t.starts
            && InClosedMinute(u.passes, x) == InClosedMinute(t.passes, x) + n
  {
    if n == 0 {
    } else {
      BurstPasses(t, at, n - 1, x);
      assert Burst(at, n)[..n - 1] == Burst(at, n - 1);
      var u := NoteAll(t, Burst(at, n - 1));
      ClosedMinuteSnoc(u.passes, Pass(at, |u.starts| - 1), x);
    }
  }

  /** A full window at its very end, then a reset and a second full window. */
  lemma TwoBursts(n: nat, start: Time, at: Time) returns (rs: seq<Reading>)
    requires n == LIMIT && at == start + MINUTE
    ensures ClockRun(start, rs)
    ensures InClosedMinute(NoteAll(Fresh(start), rs).passes, at) == 2 * n
  {
    var first, reset, rest := Burst(at, n), Burst(at + 1, 1), Burst(at + 1, n - 1);
    rs := first + (reset + rest);
    BurstsAreClockRun(first, reset + rest, start, at);
    NoteConcat(Fresh(start), first, reset + rest);
    BurstPasses(Fresh(start), at, n, at);
    SecondBurst(NoteAll(Fresh(start), first), n, at);
  }

  lemma BurstsAreClockRun(a: seq<Reading>, b: seq<Reading>, start: Time, at: Time)
    requires start <= at
    requires forall i :: 0 <= i < |a| ==> a[i] == Reading(at, at, at)
    requires forall i :: 0 <= i < |b| ==> b[i] == Reading(at + 1, at + 1, at + 1)
    ensures ClockRun(start, a + b)
  {
    var rs := a + b;
    assert forall i :: 0 <= i < |rs| ==> rs[i] == if i < |a| then Reading(at, at, at) else Reading(at + 1, at + 1, at + 1);
  }

  lemma SecondBurst(t: Track, n: nat, at: Time)
    requires n == LIMIT && t.starts != [] && at == t.now.start + MINUTE
    ensures InClosedMinute(NoteAll(t, Burst(at + 1, 1) + Burst(at + 1, n - 1)).passes, at)
         == InClosedMinute(t.passes, at) + n
  {
    var u := Note(t, Reading(at + 1, at + 1, at + 1));
    assert Burst(at + 1, 1)[..0] == [];
    assert NoteAll(t, Burst(at + 1, 1)) == u;
    NoteConcat(t, Burst(at + 1, 1), Burst(at + 1, n - 1));
    ClosedMinuteSnoc(t.passes, Pass(at + 1, |u.starts| - 1), at);
    BurstPasses(u, at + 1, n - 1, at);
  }

  /** The bound of 100 is attained, from any initial window start. */
  lemma HundredPass(start: Time) returns (rs: seq<Reading>)
    ensures ClockRun(start, rs)
    ensures InClosedMinute(NoteAll(Fresh(start), rs).passes, start + 60_000_000_000) == 100
  {
    rs := TwoBursts(LIMIT, start, start + MINUTE);
  }
}
