/**
 * The content publication workflow: posts are scheduled with a publish
 * time, listed, and published ("Posted") once that time has come.
 */
module Scheduler {
  import opened Wrappers
  import opened Text
  import opened Ordering
  import opened IsoTime
  import opened Storage

  /** A post as the scheduler hands it out: the five columns of its content_schedule row. */
  type ScheduledPost = ScheduledContent

  const Scheduled := "Scheduled"

  function IdsOf(posts: seq<ScheduledPost>): set<int> {
    set p | p in posts :: p.id
  }

  /** `[post.id for post in posts]`. */
  function IdList(posts: seq<ScheduledPost>): (ids: seq<int>)
    ensures |ids| == |posts| && forall i :: 0 <= i < |posts| ==> ids[i] == posts[i].id
  {
    seq(|posts|, i requires 0 <= i < |posts| => posts[i].id)
  }

  lemma IdListOfOne(p: ScheduledPost)
    ensures IdList([p]) == [p.id]
  {
  }

  lemma IdsOfSnoc(posts: seq<ScheduledPost>, p: ScheduledPost)
    ensures IdsOf(posts + [p]) == IdsOf(posts) + {p.id}
  {
    forall id | id in IdsOf(posts + [p]) ensures id in IdsOf(posts) + {p.id} {
      var q :| q in posts + [p] && q.id == id;
    }
  }

  /**
   * For a post stored by `SchedulePost`, being due at `now` means its publish
   * time is no later than `now` to the second and it is not yet Posted.
   */
  lemma DueMeansPublishTimeReached(row: ScheduledPost, publishAt: DateTime, now: DateTime)
    requires row.publishAt == IsoSeconds(publishAt)
    ensures IsDue(row, IsoSeconds(now)) <==> SameSecondOrEarlier(publishAt, now) && row.status != Posted
  {
    IsoOrderIsChronological(publishAt, now);
  }

  class ContentScheduler {
    const database: Database

    constructor (database: Database)
      ensures this.database == database
    {
      this.database := database;
    }

    method SchedulePost(title: string, author: string, publishAt: DateTime) returns (post: ScheduledPost)
      requires database.Valid()
      modifies database
      ensures database.Valid()
      ensures post == ScheduledContent(post.id, title, author, IsoSeconds(publishAt), Scheduled)
      ensures post.id == old(database.contentLastId) + 1 && database.contentLastId == post.id
      ensures forall x :: x in old(database.contentSchedule) ==> x.id < post.id
      ensures database.contentSchedule == old(database.contentSchedule) + [post]
      ensures database.keywordRankings == old(database.keywordRankings)
      ensures database.trafficReports == old(database.trafficReports)
      ensures database.reportLastId == old(database.reportLastId)
    {
      var postId := database.AddContent(title, author, IsoSeconds(publishAt), Scheduled);
      post := ScheduledContent(postId, title, author, IsoSeconds(publishAt), Scheduled);
    }

    /** `list_posts(status)`: the posts with `status` (every post when none is given), by publish time. */
    function ListPosts(status: Option<string>): (posts: seq<ScheduledPost>)
      reads database
      ensures forall p :: p in posts <==> p in database.contentSchedule && (Given(status) ==> p.status == status.value)
      ensures multiset(posts) <= multiset(database.contentSchedule)
      ensures SortedBy(posts, PublishAt, false)
    {
      database.FetchContent(status)
    }

    /** `due_posts(now)`: the posts due at `now` (publish time reached, not Posted), earliest first. */
    function DuePosts(now: DateTime): (posts: seq<ScheduledPost>)
      reads database
      ensures forall p :: p in posts <==> p in database.contentSchedule && IsDue(p, IsoSeconds(now))
      ensures multiset(posts) <= multiset(database.contentSchedule)
      ensures SortedBy(posts, PublishAt, false)
    {
      database.FetchDueContent(IsoSeconds(now))
    }

    method MarkPosted(postId: int)
      requires database.Valid()
      modifies database
      ensures database.Valid()
      ensures database.contentSchedule == SetStatus(old(database.contentSchedule), postId, Posted)
      ensures database.contentLastId == old(database.contentLastId)
      ensures database.keywordRankings == old(database.keywordRankings)
      ensures database.trafficReports == old(database.trafficReports)
      ensures database.reportLastId == old(database.reportLastId)
    {
      database.UpdateContentStatus(postId, Posted);
    }

    /**
     * `run_due(now)`: publishes exactly the posts due at `now` and returns
     * them; every other post is left as it was, and nothing is due afterwards.
     */
    method RunDue(now: DateTime) returns (due: seq<ScheduledPost>)
      requires database.Valid()
      modifies database
      ensures database.Valid()
      ensures due == old(DuePosts(now))
      ensures database.contentSchedule == PublishDue(old(database.contentSchedule), IsoSeconds(now))
      ensures DuePosts(now) == []
      ensures database.contentLastId == old(database.contentLastId)
      ensures database.keywordRankings == old(database.keywordRankings)
      ensures database.trafficReports == old(database.trafficReports)
      ensures database.reportLastId == old(database.reportLastId)
    {
      due := DuePosts(now);
      ghost var before := database.contentSchedule;
      for i := 0 to |due|
        invariant database.Valid()
        invariant database.contentLastId == old(database.contentLastId)
        invariant database.keywordRankings == old(database.keywordRankings)
        invariant database.trafficReports == old(database.trafficReports)
        invariant database.reportLastId == old(database.reportLastId)
        invariant database.contentSchedule == MarkAll(before, due[..i])
      {
        MarkAllOneMore(before, due, i);
        MarkPosted(due[i].id);
      }
      assert due[..|due|] == due;
      MarkingDueIdsPublishesDue(before, old(database.contentLastId), due, IsoSeconds(now));
      NothingDueAfterPublish(before, IsoSeconds(now));
      assert forall x :: x in database.contentSchedule ==> !IsDue(x, IsoSeconds(now));
    }
  }

  /** The table as `run_due` leaves it: the due rows Posted, every other row as it was. */
  function PublishDue(rows: seq<ScheduledContent>, nowIso: string): (out: seq<ScheduledContent>)
    ensures |out| == |rows|
    ensures forall k :: 0 <= k < |rows| ==>
              out[k].id == rows[k].id && out[k].title == rows[k].title &&
              out[k].author == rows[k].author && out[k].publishAt == rows[k].publishAt
    ensures forall k :: 0 <= k < |rows| && !IsDue(rows[k], nowIso) ==> out[k] == rows[k]
    ensures forall k :: 0 <= k < |rows| && IsDue(rows[k], nowIso) ==> out[k].status == Posted
  {
    seq(|rows|, k requires 0 <= k < |rows| =>
      if IsDue(rows[k], nowIso) then rows[k].(status := Posted) else rows[k])
  }

  /** After publishing, no row is due at the same instant: a second `run_due(now)` returns nothing. */
  lemma NothingDueAfterPublish(rows: seq<ScheduledContent>, nowIso: string)
    ensures forall x :: x in PublishDue(rows, nowIso) ==> !IsDue(x, nowIso)
  {
  }

  /** Publishing twice at the same instant is publishing once. */
  lemma PublishDueIdempotent(rows: seq<ScheduledContent>, nowIso: string)
    ensures PublishDue(PublishDue(rows, nowIso), nowIso) == PublishDue(rows, nowIso)
  {
    var once := PublishDue(rows, nowIso);
    NothingDueAfterPublish(rows, nowIso);
    assert forall k :: 0 <= k < |once| ==> !IsDue(once[k], nowIso);
  }

  /** The table after `MarkPosted` has been called for each post of `posts` in turn. */
  function MarkAll(rows: seq<ScheduledContent>, posts: seq<ScheduledPost>): (out: seq<ScheduledContent>)
    ensures |out| == |rows|
    ensures forall k :: 0 <= k < |rows| ==>
              out[k].id == rows[k].id && out[k].title == rows[k].title &&
              out[k].author == rows[k].author && out[k].publishAt == rows[k].publishAt
  {
    if posts == [] then rows
    else SetStatus(MarkAll(rows, posts[..|posts| - 1]), posts[|posts| - 1].id, Posted)
  }

  lemma MarkAllOneMore(rows: seq<ScheduledContent>, posts: seq<ScheduledPost>, i: nat)
    requires i < |posts|
    ensures MarkAll(rows, posts[..i + 1]) == SetStatus(MarkAll(rows, posts[..i]), posts[i].id, Posted)
  {
    assert posts[..i + 1][..i] == posts[..i];
  }

  /** Marking a run of posts marks every row whose id one of them carries, and only those. */
  lemma {:induction false} MarkAllMarksIds(rows: seq<ScheduledContent>, posts: seq<ScheduledPost>)
    ensures |MarkAll(rows, posts)| == |rows|
    ensures forall k :: 0 <= k < |rows| ==>
              MarkAll(rows, posts)[k] == if rows[k].id in IdsOf(posts) then rows[k].(status := Posted) else rows[k]
  {
    if posts != [] {
      var init, last := posts[..|posts| - 1], posts[|posts| - 1];
      assert posts == init + [last];
      MarkAllMarksIds(rows, init);
      IdsOfSnoc(init, last);
    }
  }

  /**
   * Marking the ids of the due rows marks exactly the due rows: ids name
   * rows, so no row that is not due shares an id with one that is.
   */
  lemma MarkingDueIdsPublishesDue(rows: seq<ScheduledContent>, lastId: int, due: seq<ScheduledContent>, nowIso: string)
    requires ContentIdsIssued(rows, lastId)
    requires forall x :: x in due <==> x in rows && IsDue(x, nowIso)
    ensures MarkAll(rows, due) == PublishDue(rows, nowIso)
  {
    MarkAllMarksIds(rows, due);
    forall k | 0 <= k < |rows|
      ensures rows[k].id in IdsOf(due) <==> IsDue(rows[k], nowIso)
    {
      if rows[k].id in IdsOf(due) {
        var p :| p in due && p.id == rows[k].id;
        ContentIdsIdentify(rows, lastId, p, rows[k]);
      }
    }
  }

  lemma {:induction false} CountOfSole<T>(s: seq<T>, x: T)
    requires forall y :: y in s ==> y == x
    ensures multiset(s)[x] == |s|
  {
    if s != [] {
      assert s == [s[0]] + s[1..];
      assert s[0] in s && forall y :: y in s[1..] ==> y in s;
      CountOfSole(s[1..], x);
      assert multiset(s) == multiset{s[0]} + multiset(s[1..]);
    }
  }

  /** A sequence holding `x` at most once and nothing else is `[x]`. */
  lemma OnlyElement<T>(s: seq<T>, x: T)
    requires x in s && multiset(s)[x] <= 1
    requires forall y :: y in s ==> y == x
    ensures s == [x]
  {
    CountOfSole(s, x);
  }

  lemma PublishPastOnly(past: ScheduledContent, future: ScheduledContent, nowIso: string)
    requires IsDue(past, nowIso) && !IsDue(future, nowIso)
    ensures PublishDue([past, future], nowIso) == [past.(status := Posted), future]
  {
  }

  /** With one post due and one not, the due list is the first post alone. */
  lemma OnlyPastDue(scheduler: ContentScheduler, now: DateTime, past: ScheduledPost, future: ScheduledPost)
    requires scheduler.database.contentSchedule == [past, future]
    requires IsDue(past, IsoSeconds(now)) && !IsDue(future, IsoSeconds(now))
    ensures scheduler.DuePosts(now) == [past]
  {
    var due := scheduler.DuePosts(now);
    assert multiset([past, future])[past] == 1;
    OnlyElement(due, past);
  }

  /** Once the past post is Posted, listing the Scheduled posts yields the future post alone. */
  lemma OnlyFutureStillScheduled(scheduler: ContentScheduler, published: ScheduledPost, future: ScheduledPost)
    requires scheduler.database.contentSchedule == [published, future]
    requires published.status == Posted && future.status == Scheduled
    ensures scheduler.ListPosts(Some(Scheduled)) == [future]
  {
    var pending := scheduler.ListPosts(Some(Scheduled));
    assert published !in pending && future in pending;
    assert multiset([published, future])[future] == 1;
    OnlyElement(pending, future);
  }

  /**
   * The workflow test: with one post published before `now` and one after
   * it, `run_due` publishes only the first, and only the second is still
   * listed as Scheduled.
   */
  method PublishesOnlyPastPosts(pastAt: DateTime, now: DateTime, futureAt: DateTime)
    returns (dueIds: seq<int>, pendingIds: seq<int>, pastId: int, futureId: int)
    requires SameSecondOrEarlier(pastAt, now) && !SameSecondOrEarlier(futureAt, now)
    ensures dueIds == [pastId] && pendingIds == [futureId] && pastId != futureId
  {
    var db := new Database();
    var scheduler := new ContentScheduler(db);
    var past := scheduler.SchedulePost("Post 1", "Alice", pastAt);
    var future := scheduler.SchedulePost("Post 2", "Bob", futureAt);
    pastId, futureId := past.id, future.id;
    DueMeansPublishTimeReached(past, pastAt, now);
    DueMeansPublishTimeReached(future, futureAt, now);
    PublishPastOnly(past, future, IsoSeconds(now));
    OnlyPastDue(scheduler, now, past, future);
    var due := scheduler.RunDue(now);
    assert due == [past];
    IdListOfOne(past);
    dueIds := IdList(due);
    OnlyFutureStillScheduled(scheduler, past.(status := Posted), future);
    var pending := scheduler.ListPosts(Some(Scheduled));
    assert pending == [future];
    IdListOfOne(future);
    pendingIds := IdList(pending);
  }
}
