/**
 * The crawler: the controller that paces admissions through a sliding
 * one-minute window and can be paused, and the keyword crawler that takes
 * one admission per keyword before storing what the search client returned.
 */
module Crawler {
  import opened Wrappers
  import opened RateWindow
  import opened Storage

  /** The controller. Its lock and condition variable are not modelled: every call runs alone. */
  class CrawlerController {
    var rateLimitPerMinute: int
    /** The admission deque: clock values of the admissions still counted, oldest first. */
    var timestamps: seq<real>
    var paused: bool
    /** Every admission ever granted, oldest first. */
    ghost var admissions: seq<real>

    ghost predicate Valid()
      reads this
    {
      rateLimitPerMinute >= 1
    }

    /** The controller's state as a value, the argument of `Step`. */
    function State(): ControllerState
      reads this
    {
      ControllerState(rateLimitPerMinute, timestamps, paused)
    }

    constructor (rateLimitPerMinute: int)
      ensures Valid()
      ensures this.rateLimitPerMinute == ClampQuota(rateLimitPerMinute)
      ensures timestamps == [] && !paused && admissions == []
    {
      this.rateLimitPerMinute := ClampQuota(rateLimitPerMinute);
      timestamps := [];
      paused := false;
      admissions := [];
    }

    method SetRateLimit(rateLimitPerMinute: int)
      modifies this
      ensures Valid()
      ensures this.rateLimitPerMinute == ClampQuota(rateLimitPerMinute)
      ensures timestamps == old(timestamps) && paused == old(paused) && admissions == old(admissions)
    {
      this.rateLimitPerMinute := ClampQuota(rateLimitPerMinute);
    }

    /** Setting the flag again changes nothing: the state after one call is the state after two. */
    method Pause()
      modifies this
      ensures paused
      ensures rateLimitPerMinute == old(rateLimitPerMinute) && timestamps == old(timestamps)
      ensures admissions == old(admissions)
    {
      paused := true;
    }

    method Resume()
      modifies this
      ensures !paused
      ensures rateLimitPerMinute == old(rateLimitPerMinute) && timestamps == old(timestamps)
      ensures admissions == old(admissions)
    {
      paused := false;
    }

    /**
     * One pass of the admission loop at clock value `now`: purge the
     * deque front, then admit the caller or report how long to wait.
     */
    method TryAdmit(now: real) returns (outcome: Attempt)
      requires Valid()
      modifies this`timestamps, this`admissions
      ensures Valid()
      ensures StepResult(State(), outcome) == Step(old(State()), now)
      ensures admissions == if outcome == Admitted then old(admissions) + [now] else old(admissions)
    {
      if paused {
        return BlockedPaused;
      }
      while timestamps != [] && now - timestamps[0] >= WindowSeconds
        invariant Purge(timestamps, now) == Purge(old(timestamps), now)
        invariant admissions == old(admissions)
        decreases |timestamps|
      {
        timestamps := timestamps[1..];
      }
      PurgeStopsAtFreshFront(timestamps, now);
      if |timestamps| < rateLimitPerMinute {
        timestamps := timestamps + [now];
        admissions := admissions + [now];
        return Admitted;
      }
      var waitTime := WindowSeconds - (now - timestamps[0]);
      // The purge has just left a front entry younger than the window, so the
      // wait is positive and the branch that drops the front instead never runs.
      assert waitTime > 0.0;
      outcome := BlockedFull(waitTime);
    }

    /**
     * The caller's wait for a slot, starting at clock value `now`, on a
     * clock that advances only while the caller sleeps: every blocked pass
     * sleeps exactly the wait it was told. A paused controller returns `None`
     * (the caller would wait for another thread to resume it); otherwise the
     * caller is admitted at the returned clock value.
     */
    method WaitForSlot(now: real) returns (admittedAt: Option<real>)
      requires Valid()
      modifies this`timestamps, this`admissions
      ensures Valid()
      ensures admittedAt.None? <==> old(paused)
      ensures admittedAt.None? ==> timestamps == old(timestamps) && admissions == old(admissions)
      ensures admittedAt.Some? ==>
                && now <= admittedAt.value
                && |Purge(old(timestamps), admittedAt.value)| < rateLimitPerMinute
                && timestamps == Purge(old(timestamps), admittedAt.value) + [admittedAt.value]
                && admissions == old(admissions) + [admittedAt.value]
      ensures !old(paused) && |Purge(old(timestamps), now)| < rateLimitPerMinute ==> admittedAt == Some(now)
      ensures (forall i :: 0 <= i < |old(timestamps)| ==> old(timestamps)[i] <= now) && admittedAt.Some? ==>
                admittedAt.value <= now + WindowSeconds
      ensures admittedAt.Some? ==>
                forall u :: now <= u < admittedAt.value ==> |Purge(old(timestamps), u)| >= rateLimitPerMinute
    {
      var clock := now;
      while true
        invariant admissions == old(admissions)
        invariant now <= clock
        invariant Purge(timestamps, clock) == Purge(old(timestamps), clock)
        invariant clock == now ==> timestamps == old(timestamps)
        invariant paused ==> clock == now
        invariant now < clock ==> |Purge(old(timestamps), now)| >= rateLimitPerMinute
        invariant (forall i :: 0 <= i < |old(timestamps)| ==> old(timestamps)[i] <= now) ==> clock <= now + WindowSeconds
        invariant forall u :: now <= u < clock ==> |Purge(old(timestamps), u)| >= rateLimitPerMinute
        decreases |Purge(timestamps, clock)|
      {
        var before := timestamps;
        var outcome := TryAdmit(clock);
        match outcome
        case Admitted =>
          return Some(clock);
        case BlockedPaused =>
          return None;
        case BlockedFull(waitTime) =>
          var later := clock + waitTime;
          PurgeCompose(old(timestamps), clock, later);
          if forall i :: 0 <= i < |old(timestamps)| ==> old(timestamps)[i] <= now {
            PurgeSuffixBounded(old(timestamps), clock, now);
          }
          forall u | clock <= u < later
            ensures |Purge(old(timestamps), u)| >= rateLimitPerMinute
          {
            PurgeCompose(old(timestamps), clock, u);
            PurgeStopsAtFreshFront(timestamps, u);
          }
          PurgeShrinks(timestamps, later);
          clock := later;
      }
    }
  }

  /** A deque whose front is inside the window is left as it is by the purge. */
  lemma PurgeStopsAtFreshFront(ts: seq<real>, now: real)
    requires ts == [] || !Stale(ts[0], now)
    ensures Purge(ts, now) == ts
  {
  }

  /** A purge at a clock value at which the front entry has left the window drops at least that entry. */
  lemma PurgeShrinks(ts: seq<real>, now: real)
    requires ts != [] && Stale(ts[0], now)
    ensures |Purge(ts, now)| < |ts|
  {
  }

  /** The purge keeps entries of the deque, so it keeps any upper bound on them. */
  lemma PurgeSuffixBounded(ts: seq<real>, clock: real, bound: real)
    requires forall i :: 0 <= i < |ts| ==> ts[i] <= bound
    ensures forall i :: 0 <= i < |Purge(ts, clock)| ==> Purge(ts, clock)[i] <= bound
  {
    PurgeCutsStalePrefix(ts, clock);
    var p := Purge(ts, clock);
    assert forall i :: 0 <= i < |p| ==> p[i] == ts[|ts| - |p| + i];
  }

  /** What `crawl_keywords` returns per keyword: the client's metrics, field by field. */
  datatype CrawlResult = CrawlResult(keyword: string, url: string, position: real,
                                     impressions: int, clicks: int, fetchedAt: string)

  function ResultOf(m: KeywordRanking): (r: CrawlResult)
    ensures r.keyword == m.keyword && r.url == m.url && r.position == m.position
    ensures r.impressions == m.impressions && r.clicks == m.clicks && r.fetchedAt == m.fetchedAt
  {
    CrawlResult(m.keyword, m.url, m.position, m.impressions, m.clicks, m.fetchedAt)
  }

  /** The results for a run of client replies, one per reply and in the same order. */
  function ResultsOf(responses: seq<KeywordRanking>): (rs: seq<CrawlResult>)
    ensures |rs| == |responses|
  {
    if responses == [] then []
    else ResultsOf(responses[..|responses| - 1]) + [ResultOf(responses[|responses| - 1])]
  }

  lemma {:induction false} ResultsOfInOrder(responses: seq<KeywordRanking>)
    ensures forall i :: 0 <= i < |responses| ==> ResultsOf(responses)[i] == ResultOf(responses[i])
  {
    if responses != [] {
      ResultsOfInOrder(responses[..|responses| - 1]);
    }
  }

  lemma ResultsOfOneMore(responses: seq<KeywordRanking>, i: nat)
    requires i < |responses|
    ensures ResultsOf(responses[..i + 1]) == ResultsOf(responses[..i]) + [ResultOf(responses[i])]
  {
    assert responses[..i + 1][..i] == responses[..i];
  }

  /**
   * How a wait for a slot that starts at clock value `arrival`, on deque
   * `ts` under quota `quota`, ends when it admits the caller at `t`: no
   * earlier than `arrival`, at a moment when the purged deque had room, at
   * once when there was room at `arrival`, within one window when no
   * entry was later than `arrival`, and at the first such moment: the
   * purged deque was full at every clock value from `arrival` up to `t`.
   */
  ghost predicate AdmitsAt(ts: seq<real>, quota: int, arrival: real, t: real) {
    && arrival <= t
    && |Purge(ts, t)| < quota
    && (forall u :: arrival <= u < t ==> |Purge(ts, u)| >= quota)
    && (|Purge(ts, arrival)| < quota ==> t == arrival)
    && ((forall i :: 0 <= i < |ts| ==> ts[i] <= arrival) ==> t <= arrival + WindowSeconds)
  }

  /** The deque after admissions at each clock value of `grants` in turn, starting from `ts`. */
  function AfterGrants(ts: seq<real>, grants: seq<real>): (r: seq<real>)
    ensures grants != [] ==> |r| >= 1 && r[|r| - 1] == grants[|grants| - 1]
  {
    if grants == [] then ts
    else Purge(AfterGrants(ts, grants[..|grants| - 1]), grants[|grants| - 1]) + [grants[|grants| - 1]]
  }

  /** Every grant of a crawl admitted its caller, on the deque the grants before it left behind. */
  ghost predicate GrantsAdmit(ts: seq<real>, quota: int, arrivals: seq<real>, grants: seq<real>)
    decreases |grants|
  {
    && |grants| <= |arrivals|
    && (grants != [] ==>
          && GrantsAdmit(ts, quota, arrivals, grants[..|grants| - 1])
          && AdmitsAt(AfterGrants(ts, grants[..|grants| - 1]), quota, arrivals[|grants| - 1], grants[|grants| - 1]))
  }

  lemma GrantsAdmitSnoc(ts: seq<real>, quota: int, arrivals: seq<real>, grants: seq<real>, t: real)
    requires GrantsAdmit(ts, quota, arrivals, grants) && |grants| < |arrivals|
    requires AdmitsAt(AfterGrants(ts, grants), quota, arrivals[|grants|], t)
    ensures GrantsAdmit(ts, quota, arrivals, grants + [t])
    ensures AfterGrants(ts, grants + [t]) == Purge(AfterGrants(ts, grants), t) + [t]
  {
    assert (grants + [t])[..|grants|] == grants;
  }

  /** The k-th admission of a crawl comes no earlier than the k-th wait started, and found room in the window. */
  lemma {:induction false} GrantsFollowArrivals(ts: seq<real>, quota: int, arrivals: seq<real>, grants: seq<real>)
    requires GrantsAdmit(ts, quota, arrivals, grants)
    ensures forall k :: 0 <= k < |grants| ==>
              arrivals[k] <= grants[k] && |Purge(AfterGrants(ts, grants[..k]), grants[k])| < quota
  {
    if grants != [] {
      var n := |grants| - 1;
      var init := grants[..n];
      GrantsFollowArrivals(ts, quota, arrivals, init);
      assert AdmitsAt(AfterGrants(ts, init), quota, arrivals[n], grants[n]);
      forall k | 0 <= k < |grants|
        ensures arrivals[k] <= grants[k] && |Purge(AfterGrants(ts, grants[..k]), grants[k])| < quota
      {
        if k < n {
          assert init[..k] == grants[..k] && init[k] == grants[k];
        } else {
          assert grants[..k] == init;
        }
      }
    }
  }

  /**
   * The controller's state after a crawl granted `grants`, starting from
   * deque `ts0` and admission history `adm0`: every grant admitted its
   * caller in turn, the deque is what those admissions leave, and the
   * history has gained exactly the grants.
   */
  ghost predicate CrawledInTurn(ts0: seq<real>, adm0: seq<real>, quota: int, arrivals: seq<real>,
                                grants: seq<real>, ts: seq<real>, adm: seq<real>)
  {
    && GrantsAdmit(ts0, quota, arrivals, grants)
    && ts == AfterGrants(ts0, grants)
    && adm == adm0 + grants
  }

  lemma CrawledInTurnSnoc(ts0: seq<real>, adm0: seq<real>, quota: int, arrivals: seq<real>,
                          grants: seq<real>, ts: seq<real>, adm: seq<real>, t: real)
    requires CrawledInTurn(ts0, adm0, quota, arrivals, grants, ts, adm) && |grants| < |arrivals|
    requires AdmitsAt(ts, quota, arrivals[|grants|], t)
    ensures CrawledInTurn(ts0, adm0, quota, arrivals, grants + [t], Purge(ts, t) + [t], adm + [t])
  {
    GrantsAdmitSnoc(ts0, quota, arrivals, grants, t);
    assert adm0 + (grants + [t]) == adm + [t];
  }

  /**
   * Crawling keywords whose replies carry distinct keys into an empty
   * rankings table stores exactly those replies.
   */
  lemma CrawlStoresEveryReply(responses: seq<KeywordRanking>)
    requires forall i, j :: 0 <= i < j < |responses| ==> !SameKey(responses[i], responses[j])
    ensures forall x :: x in UpsertAll([], responses) <==> x in responses
  {
    UpsertAllStoresLatest([], responses);
    forall x | x in responses ensures x in UpsertAll([], responses) {
      var i :| 0 <= i < |responses| && responses[i] == x;
    }
  }

  class KeywordCrawler {
    const database: Database
    const controller: CrawlerController

    /** Without a controller of its own the crawler gets a fresh one allowing 60 admissions a minute. */
    constructor (database: Database, controller: Option<CrawlerController>)
      ensures this.database == database
      ensures controller.Some? ==> this.controller == controller.value
      ensures controller.None? ==>
                && fresh(this.controller) && this.controller.Valid()
                && this.controller.rateLimitPerMinute == 60
                && this.controller.timestamps == [] && !this.controller.paused
    {
      this.database := database;
      if controller.Some? {
        this.controller := controller.value;
      } else {
        this.controller := new CrawlerController(60);
      }
    }

    /**
     * One keyword's turn: wait for a slot from clock value `arrival`, then
     * store the client's reply `response` as a ranking and return it as a
     * result. `None` stands for waiting on a paused controller; otherwise
     * `grant` is the clock value at which the slot was granted.
     */
    method CrawlKeyword(response: KeywordRanking, arrival: real) returns (result: Option<CrawlResult>, ghost grant: real)
      requires controller.Valid() && database.Valid()
      modifies controller`timestamps, controller`admissions, database`keywordRankings
      ensures controller.Valid() && database.Valid()
      ensures result.None? <==> old(controller.paused)
      ensures result.None? ==>
                && controller.timestamps == old(controller.timestamps)
                && controller.admissions == old(controller.admissions)
                && database.keywordRankings == old(database.keywordRankings)
      ensures result.Some? ==>
                && result.value == ResultOf(response)
                && database.keywordRankings == Upsert(old(database.keywordRankings), response)
                && AdmitsAt(old(controller.timestamps), controller.rateLimitPerMinute, arrival, grant)
                && controller.timestamps == Purge(old(controller.timestamps), grant) + [grant]
                && controller.admissions == old(controller.admissions) + [grant]
    {
      var slot := controller.WaitForSlot(arrival);
      if slot.None? {
        return None, arrival;
      }
      grant := slot.value;
      database.UpsertKeywordRanking(response);
      return Some(ResultOf(response)), grant;
    }

    /**
     * Crawls `keywords` in order: for each, one admission from the
     * controller, then the client's reply `responses[i]` is upserted as a
     * ranking and returned as a result. `arrivals[i]` is the clock value at
     * which the i-th wait starts. `None` stands for the call blocking on a
     * paused controller.
     */
    method CrawlKeywords(keywords: seq<string>, responses: seq<KeywordRanking>, arrivals: seq<real>)
      returns (results: Option<seq<CrawlResult>>)
      requires |responses| == |keywords| && |arrivals| == |keywords|
      requires controller.Valid() && database.Valid()
      modifies controller`timestamps, controller`admissions, database`keywordRankings
      ensures controller.Valid() && database.Valid()
      ensures results.None? <==> old(controller.paused) && keywords != []
      ensures results.None? ==>
                && controller.timestamps == old(controller.timestamps)
                && controller.admissions == old(controller.admissions)
                && database.keywordRankings == old(database.keywordRankings)
      ensures results.Some? ==>
                && |results.value| == |keywords|
                && results.value == ResultsOf(responses)
                && database.keywordRankings == UpsertAll(old(database.keywordRankings), responses)
                && exists grants: seq<real> ::
                     && |grants| == |keywords|
                     && CrawledInTurn(old(controller.timestamps), old(controller.admissions),
                                      controller.rateLimitPerMinute, arrivals, grants,
                                      controller.timestamps, controller.admissions)
    {
      var out: seq<CrawlResult> := [];
      ghost var grants: seq<real> := [];
      for i := 0 to |keywords|
        invariant controller.Valid() && database.Valid()
        invariant controller.paused ==> i == 0
        invariant out == ResultsOf(responses[..i])
        invariant database.keywordRankings == UpsertAll(old(database.keywordRankings), responses[..i])
        invariant |grants| == i
        invariant CrawledInTurn(old(controller.timestamps), old(controller.admissions),
                                controller.rateLimitPerMinute, arrivals, grants,
                                controller.timestamps, controller.admissions)
      {
        ghost var before, admitted := controller.timestamps, controller.admissions;
        var result, t := CrawlKeyword(responses[i], arrivals[i]);
        if result.None? {
          return None;
        }
        CrawledInTurnSnoc(old(controller.timestamps), old(controller.admissions), controller.rateLimitPerMinute,
                          arrivals, grants, before, admitted, t);
        grants := grants + [t];
        UpsertAllOneMore(old(database.keywordRankings), responses, i);
        ResultsOfOneMore(responses, i);
        out := out + [result.value];
      }
      assert responses[..|keywords|] == responses;
      assert |grants| == |keywords|;
      return Some(out);
    }
  }
}
