/**
 * The crawler's sliding-window rate limiter as values: the admission state,
 * one admission attempt as a function of the state and the clock, and what
 * the window guarantees over any run of calls.
 */
module RateWindow {

  /** The length of the sliding window, in seconds. */
  const WindowSeconds: real := 60.0

  /** A timestamp that has left the window at `now` (`now - t >= 60`). */
  predicate Stale(t: real, now: real) {
    now - t >= WindowSeconds
  }

  /** A timestamp inside the trailing window that ends at `now`. */
  predicate Recent(t: real, now: real) {
    t <= now && now - t < WindowSeconds
  }

  /** Every timestamp of `s` has left the window at `now`. */
  predicate AllStale(s: seq<real>, now: real) {
    forall i :: 0 <= i < |s| ==> Stale(s[i], now)
  }

  /** `tail` ends `history`, and everything before it has left the window at `clock`. */
  ghost predicate StaleBeforeTail(history: seq<real>, tail: seq<real>, clock: real) {
    && |tail| <= |history|
    && tail == history[|history| - |tail|..]
    && AllStale(history[..|history| - |tail|], clock)
  }

  lemma AllStaleConcat(a: seq<real>, b: seq<real>, now: real)
    requires AllStale(a, now) && AllStale(b, now)
    ensures AllStale(a + b, now)
  {
    assert forall i :: |a| <= i < |a + b| ==> (a + b)[i] == b[i - |a|];
  }

  predicate Sorted(s: seq<real>) {
    forall i, j :: 0 <= i < j < |s| ==> s[i] <= s[j]
  }

  /** `max(1, n)`: the quota the controller keeps for a requested per-minute limit. */
  function ClampQuota(n: int): (q: int)
    ensures q >= 1
    ensures q >= n && (n >= 1 ==> q == n)
    ensures n < 1 ==> q == 1
  {
    if n < 1 then 1 else n
  }

  /** The purge at the head of every admission check: front entries are dropped while they have left the window. */
  function Purge(ts: seq<real>, now: real): (r: seq<real>)
    ensures |r| <= |ts|
  {
    if ts != [] && Stale(ts[0], now) then Purge(ts[1..], now) else ts
  }

  /**
   * What the purge keeps is a suffix of the deque: everything it dropped
   * had left the window, and the new front (if any) has not.
   */
  lemma {:induction false} PurgeCutsStalePrefix(ts: seq<real>, now: real)
    ensures StaleBeforeTail(ts, Purge(ts, now), now)
    ensures Purge(ts, now) != [] ==> !Stale(Purge(ts, now)[0], now)
  {
    var r := Purge(ts, now);
    if ts != [] && Stale(ts[0], now) {
      var rest := ts[1..];
      assert r == Purge(rest, now);
      PurgeCutsStalePrefix(rest, now);
      assert StaleBeforeTail(ts, rest, now) by {
        assert ts[|ts| - |rest|..] == rest;
        assert ts[..|ts| - |rest|] == [ts[0]];
      }
      StaleCut(ts, rest, r, now);
    } else {
      assert r == ts;
      assert StaleBeforeTail(ts, r, now) by {
        assert ts[|ts| - |r|..] == ts;
        assert ts[..|ts| - |r|] == [];
      }
    }
  }

  /**
   * The purge removes exactly the longest stale prefix: any cut point `k`
   * with only stale entries before it and a fresh entry (or the end) at it
   * is where the purge stops.
   */
  lemma PurgeRemovesLongestStalePrefix(ts: seq<real>, now: real, k: nat)
    requires k <= |ts|
    requires forall i :: 0 <= i < k ==> Stale(ts[i], now)
    requires k < |ts| ==> !Stale(ts[k], now)
    ensures Purge(ts, now) == ts[k..]
  {
    PurgeCutsStalePrefix(ts, now);
    var r := Purge(ts, now);
    var m := |ts| - |r|;
    assert forall i :: 0 <= i < m ==> Stale(ts[i], now) by {
      assert forall i :: 0 <= i < m ==> ts[..m][i] == ts[i];
    }
    assert m < |ts| ==> r[0] == ts[m];
    assert k == m;
  }

  /** On a sorted deque the purge leaves only entries inside the window. */
  lemma PurgeLeavesOnlyRecent(ts: seq<real>, now: real)
    requires Sorted(ts)
    ensures Sorted(Purge(ts, now))
    ensures forall i :: 0 <= i < |Purge(ts, now)| ==> !Stale(Purge(ts, now)[i], now)
  {
    PurgeCutsStalePrefix(ts, now);
    var r := Purge(ts, now);
    var m := |ts| - |r|;
    forall i | 0 <= i < |r| ensures !Stale(r[i], now) {
      assert r[0] == ts[m] && r[i] == ts[m + i];
    }
  }

  /** Purging at `now1` and then at a later `now2` is purging at `now2`. */
  lemma {:induction false} PurgeCompose(ts: seq<real>, now1: real, now2: real)
    requires now1 <= now2
    ensures Purge(Purge(ts, now1), now2) == Purge(ts, now2)
  {
    if ts != [] && Stale(ts[0], now1) {
      PurgeCompose(ts[1..], now1, now2);
    }
  }

  /** A second purge at the same instant removes nothing. */
  lemma PurgeIdempotent(ts: seq<real>, now: real)
    ensures Purge(Purge(ts, now), now) == Purge(ts, now)
  {
    PurgeCompose(ts, now, now);
  }

  datatype Attempt = Admitted | BlockedPaused | BlockedFull(waitTime: real)

  /** The controller's state: the per-minute quota, the admission deque (oldest first) and the pause flag. */
  datatype ControllerState = ControllerState(quota: int, timestamps: seq<real>, paused: bool)

  datatype StepResult = StepResult(next: ControllerState, outcome: Attempt)

  /**
   * One pass of the admission loop at clock value `now`: a paused controller
   * admits nothing and changes nothing; otherwise the deque is purged and the
   * caller is admitted exactly when fewer than `quota` entries remain, or is
   * told how long to wait for the front entry to leave the window.
   */
  function Step(c: ControllerState, now: real): (s: StepResult)
    requires c.quota >= 1
    ensures s.next.quota == c.quota && s.next.paused == c.paused
    ensures c.paused ==> s == StepResult(c, BlockedPaused)
    ensures s.outcome == BlockedPaused <==> c.paused
    ensures !c.paused ==> (s.outcome == Admitted <==> |Purge(c.timestamps, now)| < c.quota)
    ensures s.outcome == Admitted ==>
              s.next.timestamps == Purge(c.timestamps, now) + [now] && |s.next.timestamps| <= c.quota
    ensures s.outcome.BlockedFull? ==>
              && s.next.timestamps == Purge(c.timestamps, now)
              && |s.next.timestamps| >= c.quota
              && s.outcome.waitTime > 0.0
              && now + s.outcome.waitTime == s.next.timestamps[0] + WindowSeconds
  {
    if c.paused then StepResult(c, BlockedPaused)
    else
      var p := Purge(c.timestamps, now);
      if |p| < c.quota then StepResult(c.(timestamps := p + [now]), Admitted)
      else
        PurgeCutsStalePrefix(c.timestamps, now);
        StepResult(c.(timestamps := p), BlockedFull(WindowSeconds - (now - p[0])))
  }

  /**
   * With a clock that never runs backwards the wait never exceeds the
   * window: the caller waits exactly until the oldest counted admission
   * leaves it.
   */
  lemma WaitAtMostWindow(c: ControllerState, now: real)
    requires c.quota >= 1
    requires forall i :: 0 <= i < |c.timestamps| ==> c.timestamps[i] <= now
    ensures Step(c, now).outcome.BlockedFull? ==> Step(c, now).outcome.waitTime <= WindowSeconds
  {
    var s := Step(c, now);
    if s.outcome.BlockedFull? {
      PurgeCutsStalePrefix(c.timestamps, now);
      var p := Purge(c.timestamps, now);
      assert p[0] == c.timestamps[|c.timestamps| - |p|];
    }
  }

  lemma SortedSuffixBounded(s: seq<real>, k: nat, bound: real)
    requires k <= |s| && Sorted(s)
    requires forall i :: 0 <= i < |s| ==> s[i] <= bound
    ensures Sorted(s[k..]) && forall i :: 0 <= i < |s[k..]| ==> s[k..][i] <= bound
  {
    assert forall i :: 0 <= i < |s[k..]| ==> s[k..][i] == s[k + i];
  }

  lemma SortedSnoc(s: seq<real>, x: real)
    requires Sorted(s)
    requires forall i :: 0 <= i < |s| ==> s[i] <= x
    ensures Sorted(s + [x])
  {
  }

  /** With a clock that never runs backwards the deque stays in chronological order. */
  lemma StepKeepsSorted(c: ControllerState, now: real)
    requires c.quota >= 1
    requires Sorted(c.timestamps)
    requires forall i :: 0 <= i < |c.timestamps| ==> c.timestamps[i] <= now
    ensures Sorted(Step(c, now).next.timestamps)
    ensures forall i :: 0 <= i < |Step(c, now).next.timestamps| ==> Step(c, now).next.timestamps[i] <= now
  {
    PurgeCutsStalePrefix(c.timestamps, now);
    var p := Purge(c.timestamps, now);
    SortedSuffixBounded(c.timestamps, |c.timestamps| - |p|, now);
    if !c.paused && |p| < c.quota {
      SortedSnoc(p, now);
    }
  }

  // ---- The sliding-window guarantee over a whole run ------------------------------

  /** How many of the admissions in `h` fall in the trailing window that ends at `now`. */
  function CountRecent(h: seq<real>, now: real): nat
  {
    if h == [] then 0
    else CountRecent(h[..|h| - 1], now) + (if Recent(h[|h| - 1], now) then 1 else 0)
  }

  lemma {:induction false} CountRecentAppend(a: seq<real>, b: seq<real>, now: real)
    ensures CountRecent(a + b, now) == CountRecent(a, now) + CountRecent(b, now)
    decreases |b|
  {
    if b != [] {
      assert (a + b)[..|a + b| - 1] == a + b[..|b| - 1];
      CountRecentAppend(a, b[..|b| - 1], now);
    } else {
      assert a + b == a;
    }
  }

  lemma {:induction false} CountRecentOfStale(s: seq<real>, now: real)
    requires AllStale(s, now)
    ensures CountRecent(s, now) == 0
  {
    if s != [] {
      CountRecentOfStale(s[..|s| - 1], now);
    }
  }

  lemma {:induction false} CountRecentAtMostLength(s: seq<real>, now: real)
    ensures CountRecent(s, now) <= |s|
  {
    if s != [] {
      CountRecentAtMostLength(s[..|s| - 1], now);
    }
  }

  /**
   * `c` is the controller after the admissions `history` (oldest first),
   * the latest clock value it has seen being `clock`: the deque is the tail
   * of the history, and everything before that tail left the window by `clock`.
   */
  ghost predicate Tracks(c: ControllerState, history: seq<real>, clock: real) {
    c.quota >= 1 && StaleBeforeTail(history, c.timestamps, clock)
  }


  lemma AllStaleLater(s: seq<real>, clock: real, now: real)
    requires AllStale(s, clock) && clock <= now
    ensures AllStale(s, now)
  {
  }

  /** Tracking survives a later clock value: what had left the window stays out of it. */
  lemma TracksLater(c: ControllerState, history: seq<real>, clock: real, now: real)
    requires Tracks(c, history, clock) && clock <= now
    ensures Tracks(c, history, now)
  {
    AllStaleLater(history[..|history| - |c.timestamps|], clock, now);
    assert StaleBeforeTail(history, c.timestamps, now);
  }

  /** Cutting a stale prefix off the tail of `history` leaves a shorter tail with a longer stale prefix. */
  lemma StaleCut(history: seq<real>, ts: seq<real>, p: seq<real>, now: real)
    requires StaleBeforeTail(history, ts, now) && StaleBeforeTail(ts, p, now)
    ensures StaleBeforeTail(history, p, now)
  {
    var m := |history| - |ts|;
    var q := |ts| - |p|;
    assert history[..m + q] == history[..m] + ts[..q];
    AllStaleConcat(history[..m], ts[..q], now);
  }

  /** Purging the deque at `now` keeps it tracking the history. */
  lemma TracksPurge(c: ControllerState, history: seq<real>, now: real)
    requires Tracks(c, history, now)
    ensures Tracks(c.(timestamps := Purge(c.timestamps, now)), history, now)
  {
    PurgeCutsStalePrefix(c.timestamps, now);
    StaleCut(history, c.timestamps, Purge(c.timestamps, now), now);
  }

  /** Recording an admission at `now` in the deque and in the history keeps the one tracking the other. */
  lemma TracksAdmit(c: ControllerState, history: seq<real>, now: real)
    requires Tracks(c, history, now)
    ensures Tracks(c.(timestamps := c.timestamps + [now]), history + [now], now)
  {
    var h := history + [now];
    assert c.timestamps + [now] == h[|h| - |c.timestamps| - 1..];
  }

  /** What the deque tracks is all the history has inside the window. */
  lemma TracksCount(c: ControllerState, history: seq<real>, now: real)
    requires Tracks(c, history, now)
    ensures CountRecent(history, now) <= |c.timestamps|
  {
    var k := |history| - |c.timestamps|;
    assert history == history[..k] + c.timestamps;
    CountRecentAppend(history[..k], c.timestamps, now);
    CountRecentOfStale(history[..k], now);
    CountRecentAtMostLength(c.timestamps, now);
  }

  /**
   * The window bound for one attempt: with a clock that never runs
   * backwards, an admission at `now` makes at most `quota` admissions in the
   * 60 seconds ending at `now`, counting it; and every attempt keeps the
   * deque tracking the history.
   */
  lemma StepRespectsWindow(c: ControllerState, history: seq<real>, clock: real, now: real)
    requires Tracks(c, history, clock) && clock <= now
    ensures Step(c, now).outcome == Admitted ==> CountRecent(history + [now], now) <= c.quota
    ensures Tracks(Step(c, now).next,
                   if Step(c, now).outcome == Admitted then history + [now] else history, now)
  {
    TracksLater(c, history, clock, now);
    if !c.paused {
      var purged := c.(timestamps := Purge(c.timestamps, now));
      TracksPurge(c, history, now);
      if |purged.timestamps| < c.quota {
        TracksAdmit(purged, history, now);
        TracksCount(purged, history, now);
        CountRecentAppend(history, [now], now);
        assert CountRecent([now], now) == 1 by {
          assert [now][..0] == [];
        }
      }
    }
  }

  /** Changing the quota or the pause flag keeps the deque tracking the history. */
  lemma ControlKeepsTracks(c: ControllerState, history: seq<real>, clock: real, limit: int, paused: bool)
    requires Tracks(c, history, clock)
    ensures Tracks(c.(quota := ClampQuota(limit)), history, clock)
    ensures Tracks(c.(paused := paused), history, clock)
  {
  }

  /** Every call the controller receives, in the order they take its lock. */
  datatype Call = Acquire(now: real) | SetRateLimit(limit: int) | Pause | Resume

  /** One granted admission: when, and under which quota. */
  datatype Admission = Admission(at: real, quota: int)

  datatype Run = Run(state: ControllerState, admissions: seq<Admission>, clock: real)

  /** The clock values passed to the admission attempts start at `start` and never decrease. */
  predicate ClockMonotone(calls: seq<Call>, start: real) {
    && (forall i :: 0 <= i < |calls| && calls[i].Acquire? ==> start <= calls[i].now)
    && (forall i, j :: 0 <= i < j < |calls| && calls[i].Acquire? && calls[j].Acquire? ==>
          calls[i].now <= calls[j].now)
  }

  function Times(admissions: seq<Admission>): (ts: seq<real>)
    ensures |ts| == |admissions|
  {
    if admissions == [] then []
    else Times(admissions[..|admissions| - 1]) + [admissions[|admissions| - 1].at]
  }

  lemma TimesSnoc(admissions: seq<Admission>, a: Admission)
    ensures Times(admissions + [a]) == Times(admissions) + [a.at]
  {
    assert (admissions + [a])[..|admissions|] == admissions;
  }

  /** The state, admissions and latest clock value after a sequential run of `calls`. */
  function Replay(c: ControllerState, calls: seq<Call>, start: real): (r: Run)
    requires c.quota >= 1
    ensures r.state.quota >= 1
  {
    if calls == [] then Run(c, [], start)
    else
      var before := Replay(c, calls[..|calls| - 1], start);
      match calls[|calls| - 1]
      case Acquire(now) =>
        var s := Step(before.state, now);
        Run(s.next, if s.outcome == Admitted then before.admissions + [Admission(now, before.state.quota)]
                    else before.admissions, now)
      case SetRateLimit(limit) => Run(before.state.(quota := ClampQuota(limit)), before.admissions, before.clock)
      case Pause => Run(before.state.(paused := true), before.admissions, before.clock)
      case Resume => Run(before.state.(paused := false), before.admissions, before.clock)
  }

  /** Every admission so far saw at most its quota of admissions, itself included, in the minute before it. */
  ghost predicate WindowRespected(admissions: seq<Admission>) {
    forall j :: 0 <= j < |admissions| ==>
      CountRecent(Times(admissions)[..j + 1], admissions[j].at) <= admissions[j].quota
  }

  lemma WindowRespectedSnoc(admissions: seq<Admission>, a: Admission)
    requires WindowRespected(admissions)
    requires CountRecent(Times(admissions) + [a.at], a.at) <= a.quota
    ensures WindowRespected(admissions + [a])
  {
    var adm := admissions + [a];
    var ts := Times(admissions);
    TimesSnoc(admissions, a);
    forall j | 0 <= j < |admissions|
      ensures CountRecent(Times(adm)[..j + 1], adm[j].at) <= adm[j].quota
    {
      assert Times(adm)[..j + 1] == ts[..j + 1];
    }
    assert Times(adm)[..|adm|] == ts + [a.at];
  }

  lemma ClockMonotonePrefix(calls: seq<Call>, start: real)
    requires calls != [] && ClockMonotone(calls, start)
    ensures ClockMonotone(calls[..|calls| - 1], start)
  {
    var init := calls[..|calls| - 1];
    assert forall i :: 0 <= i < |init| ==> init[i] == calls[i];
  }

  /** The latest clock value of a run is its start or the clock value of one of its admission attempts. */
  lemma {:induction false} ClockIsLastAcquire(c: ControllerState, calls: seq<Call>, start: real)
    requires c.quota >= 1
    ensures Replay(c, calls, start).clock == start ||
            exists k :: 0 <= k < |calls| && calls[k].Acquire? && calls[k].now == Replay(c, calls, start).clock
  {
    if calls != [] {
      var init := calls[..|calls| - 1];
      ClockIsLastAcquire(c, init, start);
      if !calls[|calls| - 1].Acquire? && Replay(c, init, start).clock != start {
        var k :| 0 <= k < |init| && init[k].Acquire? && init[k].now == Replay(c, init, start).clock;
        assert calls[k] == init[k];
      }
    }
  }

  /** Under a monotone clock, an admission attempt never sees a clock value earlier than the run's latest one. */
  lemma ClockBeforeNextAcquire(c: ControllerState, calls: seq<Call>, start: real)
    requires c.quota >= 1
    requires calls != [] && calls[|calls| - 1].Acquire? && ClockMonotone(calls, start)
    ensures Replay(c, calls[..|calls| - 1], start).clock <= calls[|calls| - 1].now
  {
    var init := calls[..|calls| - 1];
    ClockIsLastAcquire(c, init, start);
    if Replay(c, init, start).clock != start {
      var k :| 0 <= k < |init| && init[k].Acquire? && init[k].now == Replay(c, init, start).clock;
      assert calls[k] == init[k];
    }
  }

  lemma {:induction false} ReplayTracks(c: ControllerState, calls: seq<Call>, start: real)
    requires c.quota >= 1 && c.timestamps == []
    requires ClockMonotone(calls, start)
    ensures Tracks(Replay(c, calls, start).state, Times(Replay(c, calls, start).admissions), Replay(c, calls, start).clock)
    ensures WindowRespected(Replay(c, calls, start).admissions)
  {
    if calls != [] {
      var init := calls[..|calls| - 1];
      ClockMonotonePrefix(calls, start);
      ReplayTracks(c, init, start);
      var before := Replay(c, init, start);
      var h := Times(before.admissions);
      match calls[|calls| - 1]
      case Acquire(now) =>
        ClockBeforeNextAcquire(c, calls, start);
        StepRespectsWindow(before.state, h, before.clock, now);
        if Step(before.state, now).outcome == Admitted {
          var a := Admission(now, before.state.quota);
          TimesSnoc(before.admissions, a);
          WindowRespectedSnoc(before.admissions, a);
        }
      case SetRateLimit(limit) =>
        ControlKeepsTracks(before.state, h, before.clock, limit, false);
      case Pause =>
        ControlKeepsTracks(before.state, h, before.clock, 1, true);
      case Resume =>
        ControlKeepsTracks(before.state, h, before.clock, 1, false);
    }
  }

  /**
   * The rate guarantee: in any sequential run from a fresh controller whose
   * clock never runs backwards, however quota changes and pauses interleave
   * with admission attempts, every admission finds at most the quota then in
   * force of admissions, itself included, in the 60 seconds ending at it.
   */
  lemma AdmissionsRespectWindow(limit: int, calls: seq<Call>, start: real)
    requires ClockMonotone(calls, start)
    ensures WindowRespected(Replay(ControllerState(ClampQuota(limit), [], false), calls, start).admissions)
  {
    ReplayTracks(ControllerState(ClampQuota(limit), [], false), calls, start);
  }

  // ---- Scenarios: admission, a full window, its expiry, a raised quota, a pause ----

  /** Quota 2, three callers at t = 0: the first two are admitted at once. */
  lemma FirstTwoCallersAdmitted()
    ensures Step(ControllerState(2, [], false), 0.0) == StepResult(ControllerState(2, [0.0], false), Admitted)
    ensures Step(ControllerState(2, [0.0], false), 0.0) == StepResult(ControllerState(2, [0.0, 0.0], false), Admitted)
  {
    assert Purge([0.0], 0.0) == [0.0];
  }

  /** The third caller at t = 0 is told to wait the full 60 seconds. */
  lemma ThirdCallerWaitsFullWindow()
    ensures Step(ControllerState(2, [0.0, 0.0], false), 0.0)
              == StepResult(ControllerState(2, [0.0, 0.0], false), BlockedFull(60.0))
  {
    assert Purge([0.0, 0.0], 0.0) == [0.0, 0.0];
  }

  /** At t = 60 both earlier admissions have left the window and the third caller is admitted. */
  lemma ThirdCallerAdmittedAfterWindow()
    ensures Step(ControllerState(2, [0.0, 0.0], false), 60.0) == StepResult(ControllerState(2, [60.0], false), Admitted)
  {
    assert Purge([0.0], 60.0) == [];
    assert Purge([0.0, 0.0], 60.0) == [];
  }

  /** A caller blocked under quota 1 is admitted at once when the quota is raised to 10. */
  lemma RaisedQuotaAdmitsAtOnce(t: real, now: real)
    requires t <= now < t + WindowSeconds
    ensures Step(ControllerState(1, [t], false), now).outcome == BlockedFull(WindowSeconds - (now - t))
    ensures Step(ControllerState(ClampQuota(10), [t], false), now).outcome == Admitted
  {
    assert Purge([t], now) == [t];
  }

  /** Quota 5 with 3 admissions in the window: while paused, a fourth caller is not admitted. */
  lemma PausedControllerAdmitsNobody(a: real, b: real, c: real, now: real)
    ensures Step(ControllerState(5, [a, b, c], true), now).outcome == BlockedPaused
    ensures Step(ControllerState(5, [a, b, c], true), now).next.timestamps == [a, b, c]
  {
  }
}
