/**
 * The three tables of the store and the queries the Database class runs on
 * them, as in-memory sequences of rows in table (rowid) order.
 */
module Storage {
  import opened Wrappers
  import opened Text
  import opened Ordering

  datatype KeywordRanking = KeywordRanking(keyword: string, url: string, position: real,
                                           impressions: int, clicks: int, fetchedAt: string)

  datatype ScheduledContent = ScheduledContent(id: int, title: string, author: string,
                                               publishAt: string, status: string)

  /** The named parameters `insert_report` binds (every column but the id). */
  datatype ReportFields = ReportFields(startDate: string, endDate: string,
                                       totalClicks: int, totalImpressions: int, averagePosition: real,
                                       newUsers: int, returningUsers: int)

  datatype TrafficReport = TrafficReport(id: int, fields: ReportFields)

  const Posted := "Posted"

  // ---- keyword_rankings: PRIMARY KEY (keyword, fetched_at) ----------------------

  predicate SameKey(a: KeywordRanking, b: KeywordRanking) {
    a.keyword == b.keyword && a.fetchedAt == b.fetchedAt
  }

  predicate KeysUnique(rows: seq<KeywordRanking>) {
    forall i, j :: 0 <= i < j < |rows| ==> !SameKey(rows[i], rows[j])
  }

  /** The rows whose key differs from `r`'s, in table order. */
  function WithoutKey(rows: seq<KeywordRanking>, r: KeywordRanking): (out: seq<KeywordRanking>)
    ensures forall x :: x in out <==> x in rows && !SameKey(x, r)
  {
    if rows == [] then []
    else
      var rest := WithoutKey(rows[1..], r);
      assert forall x :: x in rows[1..] ==> x in rows;
      if SameKey(rows[0], r) then rest else [rows[0]] + rest
  }

  lemma {:induction false} WithoutKeyKeepsKeysUnique(rows: seq<KeywordRanking>, r: KeywordRanking)
    requires KeysUnique(rows)
    ensures KeysUnique(WithoutKey(rows, r))
  {
    if rows != [] {
      WithoutKeyKeepsKeysUnique(rows[1..], r);
      if !SameKey(rows[0], r) {
        forall x | x in WithoutKey(rows[1..], r) ensures !SameKey(rows[0], x) {
          var j :| 0 <= j < |rows[1..]| && rows[1..][j] == x;
          assert rows[j + 1] == x;
        }
      }
    }
  }

  /** INSERT OR REPLACE: the row holding `r`'s key, if any, is deleted and `r` is inserted after the rest. */
  function Upsert(rows: seq<KeywordRanking>, r: KeywordRanking): (out: seq<KeywordRanking>)
    ensures |out| >= 1 && out[|out| - 1] == r
  {
    WithoutKey(rows, r) + [r]
  }

  /** The upserted table holds `r` and the old rows with other keys, and keeps keys unique. */
  lemma UpsertReplacesKey(rows: seq<KeywordRanking>, r: KeywordRanking)
    ensures forall x :: x in Upsert(rows, r) <==> x == r || (x in rows && !SameKey(x, r))
    ensures KeysUnique(rows) ==> KeysUnique(Upsert(rows, r))
  {
    if KeysUnique(rows) {
      WithoutKeyKeepsKeysUnique(rows, r);
    }
  }

  /** After an upsert the key of `r` is held by exactly one row, and that row is `r`. */
  lemma UpsertLeavesOneRowForKey(rows: seq<KeywordRanking>, r: KeywordRanking, x: KeywordRanking)
    requires KeysUnique(rows)
    requires x in Upsert(rows, r) && SameKey(x, r)
    ensures x == r
  {
    UpsertReplacesKey(rows, r);
  }

  /** The table after upserting each ranking of `rs` in turn; the last one given is always stored. */
  function UpsertAll(rows: seq<KeywordRanking>, rs: seq<KeywordRanking>): (out: seq<KeywordRanking>)
    ensures rs != [] ==> rs[|rs| - 1] in out
  {
    if rs == [] then rows else Upsert(UpsertAll(rows, rs[..|rs| - 1]), rs[|rs| - 1])
  }

  /** One more ranking from `rs` is one more upsert. */
  lemma UpsertAllOneMore(rows: seq<KeywordRanking>, rs: seq<KeywordRanking>, i: nat)
    requires i < |rs|
    ensures UpsertAll(rows, rs[..i + 1]) == Upsert(UpsertAll(rows, rs[..i]), rs[i])
  {
    assert rs[..i + 1][..i] == rs[..i];
  }

  /**
   * A run of upserts stores, for every key it mentions, the last ranking
   * given for that key; every stored row was already there or was given.
   */
  lemma {:induction false} UpsertAllStoresLatest(rows: seq<KeywordRanking>, rs: seq<KeywordRanking>)
    requires KeysUnique(rows)
    ensures KeysUnique(UpsertAll(rows, rs))
    ensures forall x :: x in UpsertAll(rows, rs) ==> x in rows || x in rs
    ensures forall i :: 0 <= i < |rs| && (forall j :: i < j < |rs| ==> !SameKey(rs[j], rs[i])) ==>
              rs[i] in UpsertAll(rows, rs)
  {
    if rs != [] {
      var init := rs[..|rs| - 1];
      UpsertAllStoresLatest(rows, init);
      UpsertReplacesKey(UpsertAll(rows, init), rs[|rs| - 1]);
      forall i | 0 <= i < |rs| && (forall j :: i < j < |rs| ==> !SameKey(rs[j], rs[i]))
        ensures rs[i] in UpsertAll(rows, rs)
      {
        if i < |rs| - 1 {
          assert init[i] == rs[i];
          assert !SameKey(rs[|rs| - 1], rs[i]);
        }
      }
      forall x | x in UpsertAll(rows, rs) ensures x in rows || x in rs {
        if x in UpsertAll(rows, init) {
          assert x in rows || x in init;
        }
      }
    }
  }

  function FetchedAt(r: KeywordRanking): string { r.fetchedAt }

  // ---- content_schedule and traffic_reports: INTEGER PRIMARY KEY AUTOINCREMENT ---

  /** Row ids grow strictly in table order and none exceeds the last id issued. */
  predicate ContentIdsIssued(rows: seq<ScheduledContent>, lastId: int) {
    && (forall i, j :: 0 <= i < j < |rows| ==> rows[i].id < rows[j].id)
    && (forall i :: 0 <= i < |rows| ==> 0 < rows[i].id <= lastId)
  }

  predicate ReportIdsIssued(rows: seq<TrafficReport>, lastId: int) {
    && (forall i, j :: 0 <= i < j < |rows| ==> rows[i].id < rows[j].id)
    && (forall i :: 0 <= i < |rows| ==> 0 < rows[i].id <= lastId)
  }

  /** Ids name rows: two rows of the table with one id are the same row. */
  lemma ContentIdsIdentify(rows: seq<ScheduledContent>, lastId: int, a: ScheduledContent, b: ScheduledContent)
    requires ContentIdsIssued(rows, lastId)
    requires a in rows && b in rows && a.id == b.id
    ensures a == b
  {
    var i :| 0 <= i < |rows| && rows[i] == a;
    var j :| 0 <= j < |rows| && rows[j] == b;
    assert !(i < j) && !(j < i);
  }

  /** UPDATE content_schedule SET status = s WHERE id = id. */
  function SetStatus(rows: seq<ScheduledContent>, id: int, status: string): (out: seq<ScheduledContent>)
    ensures |out| == |rows|
    ensures forall i :: 0 <= i < |rows| ==>
              out[i] == if rows[i].id == id then rows[i].(status := status) else rows[i]
  {
    seq(|rows|, i requires 0 <= i < |rows| => if rows[i].id == id then rows[i].(status := status) else rows[i])
  }

  /** An update naming an id no row has changes nothing. */
  lemma SetStatusMissingId(rows: seq<ScheduledContent>, id: int, status: string)
    requires forall x :: x in rows ==> x.id != id
    ensures SetStatus(rows, id, status) == rows
  {
  }

  /** `WHERE publish_at <= now AND status != 'Posted'`, both compared as TEXT. */
  predicate IsDue(row: ScheduledContent, nowIso: string)
    ensures row.publishAt == nowIso ==> (IsDue(row, nowIso) <==> row.status != Posted)
  {
    LexLeReflexive(nowIso);
    LexLe(row.publishAt, nowIso) && row.status != Posted
  }

  /** A post that is due stays due at every later instant until it is Posted. */
  lemma DueStaysDue(row: ScheduledContent, nowIso: string, laterIso: string)
    requires IsDue(row, nowIso) && LexLe(nowIso, laterIso)
    ensures IsDue(row, laterIso)
  {
    LexLeTransitive(row.publishAt, nowIso, laterIso);
  }

  function PublishAt(r: ScheduledContent): string { r.publishAt }
  function EndDate(r: TrafficReport): string { r.fields.endDate }

  /** Python's `if x:` on an optional string: None and "" both mean "no filter". */
  predicate Given(filter: Option<string>)
    ensures filter == None ==> !Given(filter)
    ensures filter == Some("") ==> !Given(filter)
    ensures Given(filter) ==> |filter.value| > 0
    ensures filter.Some? && filter.value != "" ==> Given(filter)
  {
    filter.Some? && filter.value != ""
  }

  class Database {
    var keywordRankings: seq<KeywordRanking>
    var contentSchedule: seq<ScheduledContent>
    var contentLastId: nat      // the sqlite_sequence entry of content_schedule
    var trafficReports: seq<TrafficReport>
    var reportLastId: nat       // the sqlite_sequence entry of traffic_reports

    ghost predicate Valid()
      reads this
    {
      && KeysUnique(keywordRankings)
      && ContentIdsIssued(contentSchedule, contentLastId)
      && ReportIdsIssued(trafficReports, reportLastId)
    }

    /** A fresh store: the three tables exist and are empty. */
    constructor ()
      ensures Valid()
      ensures keywordRankings == [] && contentSchedule == [] && trafficReports == []
      ensures contentLastId == 0 && reportLastId == 0
    {
      keywordRankings, contentSchedule, trafficReports := [], [], [];
      contentLastId, reportLastId := 0, 0;
    }

    method UpsertKeywordRanking(ranking: KeywordRanking)
      requires Valid()
      modifies this`keywordRankings
      ensures Valid()
      ensures keywordRankings == Upsert(old(keywordRankings), ranking)
    {
      UpsertReplacesKey(keywordRankings, ranking);
      keywordRankings := Upsert(keywordRankings, ranking);
    }

    /** `fetch_keyword_rankings(keyword)`: the rankings of `keyword` (all of them when none is given), newest first. */
    function FetchKeywordRankings(keyword: Option<string>): (rows: seq<KeywordRanking>)
      reads this
      ensures forall x :: x in rows <==> x in keywordRankings && (Given(keyword) ==> x.keyword == keyword.value)
      ensures multiset(rows) <= multiset(keywordRankings)
      ensures SortedBy(rows, FetchedAt, true)
    {
      var kept := if Given(keyword) then Filter(keywordRankings, (x: KeywordRanking) => x.keyword == keyword.value)
                  else keywordRankings;
      Sort(kept, FetchedAt, true)
    }

    method AddContent(title: string, author: string, publishAt: string, status: string) returns (id: int)
      requires Valid()
      modifies this
      ensures Valid()
      ensures id == old(contentLastId) + 1 && contentLastId == id
      ensures forall x :: x in old(contentSchedule) ==> x.id < id
      ensures contentSchedule == old(contentSchedule) + [ScheduledContent(id, title, author, publishAt, status)]
      ensures keywordRankings == old(keywordRankings)
      ensures trafficReports == old(trafficReports) && reportLastId == old(reportLastId)
    {
      id := contentLastId + 1;
      contentLastId := id;
      contentSchedule := contentSchedule + [ScheduledContent(id, title, author, publishAt, status)];
    }

    method UpdateContentStatus(contentId: int, status: string)
      requires Valid()
      modifies this
      ensures Valid()
      ensures contentSchedule == SetStatus(old(contentSchedule), contentId, status)
      ensures contentLastId == old(contentLastId) && keywordRankings == old(keywordRankings)
      ensures trafficReports == old(trafficReports) && reportLastId == old(reportLastId)
    {
      contentSchedule := SetStatus(contentSchedule, contentId, status);
    }

    /** `fetch_content(status)`: the posts with `status` (all of them when none is given), by `publish_at`. */
    function FetchContent(status: Option<string>): (rows: seq<ScheduledContent>)
      reads this
      ensures forall x :: x in rows <==> x in contentSchedule && (Given(status) ==> x.status == status.value)
      ensures multiset(rows) <= multiset(contentSchedule)
      ensures SortedBy(rows, PublishAt, false)
    {
      var kept := if Given(status) then Filter(contentSchedule, (x: ScheduledContent) => x.status == status.value)
                  else contentSchedule;
      Sort(kept, PublishAt, false)
    }

    /** `fetch_due_content(now_iso)`: every row published at or before `now_iso` and not yet Posted, by `publish_at`. */
    function FetchDueContent(nowIso: string): (rows: seq<ScheduledContent>)
      reads this
      ensures forall x :: x in rows <==> x in contentSchedule && IsDue(x, nowIso)
      ensures forall x :: x in rows ==> x.status != Posted && LexLe(x.publishAt, nowIso)
      ensures rows == [] <==> forall x :: x in contentSchedule ==> !IsDue(x, nowIso)
      ensures multiset(rows) <= multiset(contentSchedule)
      ensures SortedBy(rows, PublishAt, false)
    {
      var due := Filter(contentSchedule, (x: ScheduledContent) => IsDue(x, nowIso));
      Sort(due, PublishAt, false)
    }

    method InsertReport(report: ReportFields) returns (id: int)
      requires Valid()
      modifies this
      ensures Valid()
      ensures id == old(reportLastId) + 1 && reportLastId == id
      ensures forall x :: x in old(trafficReports) ==> x.id < id
      ensures trafficReports == old(trafficReports) + [TrafficReport(id, report)]
      ensures keywordRankings == old(keywordRankings)
      ensures contentSchedule == old(contentSchedule) && contentLastId == old(contentLastId)
    {
      id := reportLastId + 1;
      reportLastId := id;
      trafficReports := trafficReports + [TrafficReport(id, report)];
    }

    /** `fetch_reports()`: every report, latest `end_date` first. */
    function FetchReports(): (rows: seq<TrafficReport>)
      reads this
      ensures multiset(rows) == multiset(trafficReports)
      ensures SortedBy(rows, EndDate, true)
    {
      Sort(trafficReports, EndDate, true)
    }
  }
}
