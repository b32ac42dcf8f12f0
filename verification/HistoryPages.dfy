/** History from the archive, fetched page by page with a (start time, id) cursor and sent in bursts. */
module HistoryPages {
  import Bits
  import opened LittleEndian
  import opened Options
  import opened RingTypes

  datatype Record = Record(id: int, streamId: string, startTime: int, endTime: int, rawData: seq<byte>)

  /** The order of the pages. */
  predicate Precedes(a: Record, b: Record) {
    a.startTime < b.startTime || (a.startTime == b.startTime && a.id < b.id)
  }

  /** The archive's rows, listed by start time and id: ids are positive and no two rows share one, and none is empty. */
  ghost predicate Table(rows: seq<Record>) {
    && (forall i, j :: 0 <= i < j < |rows| ==> Precedes(rows[i], rows[j]))
    && (forall i :: 0 <= i < |rows| ==> rows[i].id > 0 && rows[i].rawData != [])
  }

  function Where(rows: seq<Record>, p: Record -> bool): (r: seq<Record>)
    ensures |r| <= |rows| && forall i :: 0 <= i < |r| ==> p(r[i]) && r[i] in rows
  {
    if rows == [] then [] else Where(rows[..|rows| - 1], p) + if p(rows[|rows| - 1]) then [rows[|rows| - 1]] else []
  }

  function Limit(rows: seq<Record>, n: nat): (r: seq<Record>)
    ensures r <= rows
  {
    if n < |rows| then rows[..n] else rows
  }

  /** What a client asked for: some streams, by patterns the archive understands, within a time range. */
  datatype Query = Query(streams: string -> bool, patterns: nat, startTime: int, endTime: Option<int>)

  predicate Wanted(q: Query, r: Record) {
    q.streams(r.streamId) && q.startTime <= r.startTime && (q.endTime.Some? ==> r.startTime <= q.endTime.value)
  }

  function WantedBy(q: Query): Record -> bool {
    r => Wanted(q, r)
  }

  /** All that the query matches, as one ordered result. */
  function Matching(rows: seq<Record>, q: Query): seq<Record> {
    Where(rows, WantedBy(q))
  }

  /** QueryByTime, rows of equal start time coming in order of their ids; a limit of 0 is none. */
  function QueryByTime(rows: seq<Record>, q: Query, limit: nat): seq<Record> {
    if limit > 0 then Limit(Matching(rows, q), limit) else Matching(rows, q)
  }

  /** QueryByTimePagination: as above, but only rows after the cursor. */
  function QueryByTimePagination(rows: seq<Record>, q: Query, cursorStart: int, cursorId: int, limit: nat): seq<Record> {
    Limit(Where(rows, Both(WantedBy(q), PastCursor(cursorStart, cursorId))), limit)
  }

  function PastCursor(cursorStart: int, cursorId: int): Record -> bool {
    (r: Record) => cursorId > 0 ==> r.startTime > cursorStart || (r.startTime == cursorStart && r.id > cursorId)
  }

  function Both(p: Record -> bool, q: Record -> bool): Record -> bool {
    r => p(r) && q(r)
  }

  // ---------- pages follow one another ----------

  lemma {:induction false} WhereSame(rows: seq<Record>, p: Record -> bool, q: Record -> bool)
    requires forall r :: r in rows ==> p(r) == q(r)
    ensures Where(rows, p) == Where(rows, q)
  {
    if rows != [] { WhereSame(rows[..|rows| - 1], p, q); }
  }

  lemma {:induction false} WhereTwice(rows: seq<Record>, p: Record -> bool, q: Record -> bool)
    ensures Where(Where(rows, p), q) == Where(rows, Both(p, q))
  {
    if rows != [] {
      var front, last := rows[..|rows| - 1], rows[|rows| - 1];
      WhereTwice(front, p, q);
      if p(last) {
        var w := Where(front, p) + [last];
        assert w[..|w| - 1] == Where(front, p) && w == Where(rows, p);
      } else {
        assert Where(rows, p) == Where(front, p);
      }
    }
  }

  lemma {:induction false} WhereKeepsOrder(rows: seq<Record>, p: Record -> bool)
    requires forall i, j :: 0 <= i < j < |rows| ==> Precedes(rows[i], rows[j])
    ensures forall i, j :: 0 <= i < j < |Where(rows, p)| ==> Precedes(Where(rows, p)[i], Where(rows, p)[j])
  {
    if rows != [] {
      WhereKeepsOrder(rows[..|rows| - 1], p);
    }
  }

  /** Of ordered rows, those after the k-th are the rest. */
  lemma {:induction false} WhereAfter(rows: seq<Record>, k: nat, p: Record -> bool)
    requires k <= |rows|
    requires forall i :: 0 <= i < |rows| ==> (p(rows[i]) <==> k <= i)
    ensures Where(rows, p) == rows[k..]
  {
    if k < |rows| {
      WhereAfter(rows[..|rows| - 1], k, p);
    } else if rows != [] {
      WhereAfter(rows[..|rows| - 1], |rows| - 1, p);
    }
  }

  /** The page after the first k matching rows, k > 0, is the next stretch of them. */
  lemma PageFollows(rows: seq<Record>, q: Query, k: nat, limit: nat)
    requires Table(rows) && 0 < k <= |Matching(rows, q)|
    ensures var c := Matching(rows, q)[k - 1];
      QueryByTimePagination(rows, q.(startTime := c.startTime), c.startTime, c.id, limit) == Limit(Matching(rows, q)[k..], limit)
  {
    hide Where;
    var all := Matching(rows, q);
    var c := all[k - 1];
    var after := PastCursor(c.startTime, c.id);
    MatchingGood(rows, q, k - 1);
    WhereKeepsOrder(rows, WantedBy(q));
    WhereAfter(all, k, after);
    WhereTwice(rows, WantedBy(q), after);
    WhereSame(rows, Both(WantedBy(q), after), Both(WantedBy(q.(startTime := c.startTime)), after));
  }

  lemma MatchingGood(rows: seq<Record>, q: Query, i: nat)
    requires Table(rows) && i < |Matching(rows, q)|
    ensures Matching(rows, q)[i].id > 0 && Matching(rows, q)[i].rawData != [] && Wanted(q, Matching(rows, q)[i])
  {
    assert Matching(rows, q)[i] in rows;
  }

  // ---------- where paging stops ----------

  /** How many rows are sent in the end when the queue runs empty after `at` of them, each further page holding up to `limit`:
      no page is asked for once the last row sent starts at the query's end. */
  function StopAt(all: seq<Record>, at: nat, limit: nat, end: int): (n: nat)
    requires limit > 0
    ensures n <= |all|
    decreases |all| - at
  {
    if at >= |all| then |all|
    else if at > 0 && all[at - 1].startTime >= end then at
    else StopAt(all, at + limit, limit, end)
  }

  /** The size of the first batch. */
  function FirstBatch(all: seq<Record>, firstLimit: nat): nat {
    if firstLimit > 0 && firstLimit < |all| then firstLimit else |all|
  }

  /** A page ends after n rows: the first one after `first`, the others `limit` further each. */
  predicate PageEnd(first: nat, limit: nat, n: nat)
    requires limit > 0
  {
    first <= n && (n - first) % limit == 0
  }

  lemma NextPageEnd(first: nat, limit: nat, n: nat)
    requires limit > 0
    ensures PageEnd(first, limit, n) <==> n == first || PageEnd(first + limit, limit, n)
  {
    var d := n - first;
    if d >= limit {
      Bits.QuotientNatural(d, limit);
      Bits.DivUnique(d - limit, limit, d / limit - 1, d % limit);
    } else if d >= 0 {
      Bits.ModSmall(d, limit);
    }
  }

  /** At each page's end short of that of the result, the last row starts before the query's end. */
  ghost predicate PagesEndBefore(all: seq<Record>, first: nat, limit: nat, end: int)
    requires limit > 0 && first > 0
  {
    forall n: nat :: PageEnd(first, limit, n) && n < |all| ==> all[n - 1].startTime < end
  }

  lemma PagesEndStep(all: seq<Record>, first: nat, limit: nat, end: int, next: nat)
    requires limit > 0 && 0 < first < |all| && next == first + limit
    ensures PagesEndBefore(all, first, limit, end) <==> all[first - 1].startTime < end && PagesEndBefore(all, next, limit, end)
  {
    hide PageEnd;
    forall n: nat ensures PageEnd(first, limit, n) <==> n == first || PageEnd(next, limit, n) {
      NextPageEnd(first, limit, n);
    }
    forall n: nat | PageEnd(first, limit, n) ensures n >= first {
      PageEndFrom(first, limit, n);
    }
    assert PageEnd(first, limit, first);
  }

  /** Paging gets to the end of the result exactly when no page's end keeps it from going on. */
  lemma {:induction false} StopsNowhere(all: seq<Record>, first: nat, limit: nat, end: int)
    requires limit > 0 && first > 0
    ensures StopAt(all, first, limit, end) == |all| <==> PagesEndBefore(all, first, limit, end)
    decreases |all| - first
  {
    if first < |all| {
      hide PagesEndBefore;
      StopsNowhere(all, first + limit, limit, end);
      StopStays(all, first, limit, end);
      PagesEndStep(all, first, limit, end, first + limit);
    }
  }

  lemma PageEndFrom(first: nat, limit: nat, n: nat)
    requires limit > 0 && PageEnd(first, limit, n)
    ensures n >= first
  {
  }

  /** One step of paging. */
  lemma StopStays(all: seq<Record>, at: nat, limit: nat, end: int)
    requires limit > 0 && 0 < at < |all|
    ensures all[at - 1].startTime >= end ==> StopAt(all, at, limit, end) == at
    ensures all[at - 1].startTime < end ==> StopAt(all, at, limit, end) == StopAt(all, at + limit, limit, end)
  {
  }

  lemma StopAtEnd(all: seq<Record>, at: nat, limit: nat, end: int)
    requires limit > 0 && at >= |all|
    ensures StopAt(all, at, limit, end) == |all|
  {
  }

  /** All that the query matches is sent, exactly when no limit is set for the first batch or each page short of the end ends
      with a row that starts before the query's end. */
  lemma AllSent(all: seq<Record>, firstLimit: nat, limit: nat, end: int)
    requires limit > 0
    ensures StopAt(all, FirstBatch(all, firstLimit), limit, end) == |all| <==>
            firstLimit == 0 || PagesEndBefore(all, firstLimit, limit, end)
  {
    hide StopAt, PagesEndBefore;
    if firstLimit > 0 {
      StopsNowhere(all, firstLimit, limit, end);
      if firstLimit >= |all| { StopAtEnd(all, firstLimit, limit, end); }
    }
    StopAtEnd(all, |all|, limit, end);
  }

  // ---------- a session ----------

  class SLExtInfo {
    var dbRecords: seq<Record>
    var lastDbStartTime: int
    var lastDbEndTime: int
    var lastDbRecordId: int
    const query: Query

    constructor (query: Query)
      ensures this.query == query && dbRecords == [] && lastDbRecordId == 0
    {
      this.query, dbRecords, lastDbStartTime, lastDbEndTime, lastDbRecordId := query, [], UNSET, UNSET, 0;
    }

    /** When the archive may be asked for more. */
    predicate MayRefetch()
      reads this
    {
      query.endTime.Some? && lastDbStartTime < query.endTime.value && lastDbRecordId > 0 && query.patterns > 0
    }

    /** The query has what paging needs. */
    predicate Paged()
    {
      query.endTime.Some? && query.patterns > 0
    }

    /** How many rows will have been sent in the end. */
    ghost function Heading(rows: seq<Record>, limit: nat, sent: seq<Record>): nat
      requires limit > 0 && query.endTime.Some?
      reads this
    {
      StopAt(Matching(rows, query), |sent| + |dbRecords|, limit, query.endTime.value)
    }

    /** HandleDbQueueExhausted, up to the return to the ring. */
    method HandleDbQueueExhausted(rows: seq<Record>, limit: nat)
      requires dbRecords == []
      modifies this`dbRecords
      ensures dbRecords == if MayRefetch()
                           then QueryByTimePagination(rows, query.(startTime := lastDbStartTime), lastDbStartTime, lastDbRecordId, limit) else []
    {
      if query.endTime.Some? && lastDbStartTime < query.endTime.value && lastDbRecordId > 0 {
        if query.patterns > 0 {
          var nextBatch := QueryByTimePagination(rows, query.(startTime := lastDbStartTime), lastDbStartTime, lastDbRecordId, limit);
          if |nextBatch| > 0 {
            dbRecords := nextBatch;
          }
        }
      }
    }

    /** Sent and queued records are the first matching ones, and the cursor is on the last one sent; an empty queue means
        that there are no more, or that the last start time keeps the archive from being asked. */
    ghost predicate OnCourse(rows: seq<Record>, sent: seq<Record>)
      reads this
    {
      var all := Matching(rows, query);
      && |sent| + |dbRecords| <= |all| && sent + dbRecords == all[..|sent| + |dbRecords|]
      && (sent != [] ==> lastDbStartTime == sent[|sent| - 1].startTime && lastDbRecordId == sent[|sent| - 1].id)
      && (dbRecords == [] && sent != [] ==> |sent| == |all| || !MayRefetch())
    }

    /** One record leaves the queue; when it was the last one, the archive is asked for more. */
    method SendOne(rows: seq<Record>, limit: nat, ghost sent: seq<Record>) returns (record: Record)
      requires Table(rows) && limit > 0 && OnCourse(rows, sent) && dbRecords != []
      modifies this
      ensures OnCourse(rows, sent + [record]) && record.rawData != []
      ensures |sent| < |Matching(rows, query)|
      ensures Paged() ==> Heading(rows, limit, sent + [record]) == old(Heading(rows, limit, sent))
      ensures query.endTime.None? || query.patterns == 0 ==> old(dbRecords) == [record] + dbRecords
    {
      hide Matching, QueryByTimePagination, StopAt;
      ghost var all := Matching(rows, query);
      ghost var queue := dbRecords;
      record := dbRecords[0];
      assert queue == [record] + queue[1..];
      dbRecords := dbRecords[1..];
      lastDbStartTime, lastDbEndTime, lastDbRecordId := record.startTime, record.endTime, record.id;
      ghost var k := |sent| + 1;
      assert (sent + [record]) + dbRecords == sent + queue;
      assert all[k - 1] == (sent + queue)[k - 1] == record;
      MatchingGood(rows, query, k - 1);
      if |dbRecords| == 0 {
        HandleDbQueueExhausted(rows, limit);
        Refilled(rows, limit, k);
      }
    }

    /** An exhausted queue has been refilled with the next page, where the archive could be asked for it. */
    lemma Refilled(rows: seq<Record>, limit: nat, k: nat)
      requires Table(rows) && limit > 0 && 0 < k <= |Matching(rows, query)|
      requires lastDbStartTime == Matching(rows, query)[k - 1].startTime && lastDbRecordId == Matching(rows, query)[k - 1].id
      requires dbRecords == if MayRefetch()
                            then QueryByTimePagination(rows, query.(startTime := lastDbStartTime), lastDbStartTime, lastDbRecordId, limit) else []
      ensures k + |dbRecords| <= |Matching(rows, query)|
      ensures Matching(rows, query)[..k] + dbRecords == Matching(rows, query)[..k + |dbRecords|]
      ensures dbRecords == [] ==> k == |Matching(rows, query)| || !MayRefetch()
      ensures Paged() ==> StopAt(Matching(rows, query), k + |dbRecords|, limit, query.endTime.value)
                          == StopAt(Matching(rows, query), k, limit, query.endTime.value)
    {
      hide Matching, QueryByTimePagination, StopAt;
      var all := Matching(rows, query);
      PageFollows(rows, query, k, limit);
      MatchingGood(rows, query, k - 1);
      assert all[..k] + all[k..] == all;
      if Paged() {
        StopAtEnd(all, |all|, limit, query.endTime.value);
        if k + limit >= |all| { StopAtEnd(all, k + limit, limit, query.endTime.value); }
        if k < |all| { StopStays(all, k, limit, query.endTime.value); }
      }
    }

    /** StreamPackets, archive branch: up to burstLimit records, every send succeeding. */
    method StreamPackets(rows: seq<Record>, limit: nat, burstLimit: nat, ghost sent: seq<Record>) returns (more: seq<Record>)
      requires Table(rows) && limit > 0 && burstLimit > 0 && OnCourse(rows, sent) && dbRecords != []
      modifies this
      ensures OnCourse(rows, sent + more) && more != [] && |sent| < |Matching(rows, query)|
      ensures Paged() ==> Heading(rows, limit, sent + more) == old(Heading(rows, limit, sent))
      ensures query.endTime.None? || query.patterns == 0 ==> more + dbRecords == old(dbRecords)
    {
      hide OnCourse, Heading;
      more := [];
      assert sent + more == sent;
      var burst := 0;
      while burst < burstLimit && |dbRecords| > 0
        invariant OnCourse(rows, sent + more)
        invariant burst == |more| <= burstLimit && (burst == 0 ==> dbRecords != [])
        invariant more != [] ==> |sent| < |Matching(rows, query)|
        invariant Paged() ==> Heading(rows, limit, sent + more) == old(Heading(rows, limit, sent))
        invariant query.endTime.None? || query.patterns == 0 ==> more + dbRecords == old(dbRecords)
      {
        var record := SendOne(rows, limit, sent + more);
        assert sent + more + [record] == sent + (more + [record]);
        more := more + [record];
        burst := burst + 1;
      }
    }

    /** A whole session: first batch, then bursts until the queue stays empty. What is sent is the ordered result of the one
        query, in order and without repetition, up to the first page's end at which a row starts at the query's end, and so
        at least all rows that start before that; without an end time or a stream pattern it is the first batch. */
    method StreamHistory(rows: seq<Record>, firstLimit: nat, limit: nat, burstLimit: nat) returns (sent: seq<Record>)
      requires Table(rows) && limit > 0 && burstLimit > 0 && dbRecords == []
      modifies this
      ensures var all := Matching(rows, query);
        sent == all[..if Paged() then StopAt(all, FirstBatch(all, firstLimit), limit, query.endTime.value) else FirstBatch(all, firstLimit)]
      ensures Paged() ==>
        forall i :: 0 <= i < |Matching(rows, query)| && Matching(rows, query)[i].startTime < query.endTime.value ==> i < |sent|
      ensures AsAsked(rows, query, sent)
      ensures Paged() ==> forall r :: r in rows && query.streams(r.streamId) && query.startTime <= r.startTime < query.endTime.value ==> r in sent
    {
      hide Matching, OnCourse, QueryByTime, StopAt, AsAsked;
      dbRecords := QueryByTime(rows, query, firstLimit);
      ghost var first := dbRecords;
      sent := [];
      Begun(rows, firstLimit, limit);
      while |dbRecords| > 0
        invariant OnCourse(rows, sent) && (sent == [] ==> dbRecords == first)
        invariant Paged() ==> Heading(rows, limit, sent) == StopAt(Matching(rows, query), |first|, limit, query.endTime.value)
        invariant !Paged() ==> sent + dbRecords == first
        decreases |Matching(rows, query)| - |sent|
      {
        var more := StreamPackets(rows, limit, burstLimit, sent);
        sent := sent + more;
      }
      if sent == [] { NoneMatch(rows, query, firstLimit); }
      Finished(rows, limit, sent);
      SentAsAsked(rows, query, sent);
      if query.endTime.Some? { SentComplete(rows, query, sent); }
    }

    lemma Begun(rows: seq<Record>, firstLimit: nat, limit: nat)
      requires dbRecords == QueryByTime(rows, query, firstLimit)
      ensures OnCourse(rows, []) && [] + dbRecords == dbRecords
      ensures dbRecords == Matching(rows, query)[..FirstBatch(Matching(rows, query), firstLimit)]
    {
      hide Matching;
      assert Matching(rows, query)[..|dbRecords|] == dbRecords;
    }

    lemma Finished(rows: seq<Record>, limit: nat, sent: seq<Record>)
      requires Table(rows) && limit > 0 && OnCourse(rows, sent) && dbRecords == [] && (sent == [] ==> Matching(rows, query) == [])
      ensures sent <= Matching(rows, query)
      ensures Paged() ==> |sent| == Heading(rows, limit, sent)
      ensures Paged() ==>
        forall i :: 0 <= i < |Matching(rows, query)| && Matching(rows, query)[i].startTime < query.endTime.value ==> i < |sent|
    {
      hide Matching;
      assert sent + dbRecords == sent;
      if sent != [] { LaterStarts(rows, query, |sent|); }
    }
  }

  /** Once a row has started at the end of the query, so do all after it. */
  lemma LaterStarts(rows: seq<Record>, q: Query, k: nat)
    requires Table(rows) && 0 < k <= |Matching(rows, q)|
    ensures Matching(rows, q)[k - 1].id > 0
    ensures forall i :: k <= i < |Matching(rows, q)| ==> Matching(rows, q)[k - 1].startTime <= Matching(rows, q)[i].startTime
  {
    WhereKeepsOrder(rows, WantedBy(q));
    MatchingGood(rows, q, k - 1);
  }

  /** Only rows of the streams and times asked for, each once, by start time and then by id. */
  ghost predicate AsAsked(rows: seq<Record>, q: Query, sent: seq<Record>) {
    && (forall r :: r in sent ==> r in rows && q.streams(r.streamId) && q.startTime <= r.startTime && (q.endTime.None? || r.startTime <= q.endTime.value))
    && (forall i, j :: 0 <= i < j < |sent| ==>
          sent[i].startTime < sent[j].startTime || (sent[i].startTime == sent[j].startTime && sent[i].id < sent[j].id))
  }

  lemma {:induction false} WhereAll(rows: seq<Record>, p: Record -> bool, r: Record)
    requires r in rows && p(r)
    ensures r in Where(rows, p)
  {
    if r in rows[..|rows| - 1] { WhereAll(rows[..|rows| - 1], p, r); }
  }

  /** The first rows of the result are as asked, and together with the rest of it they are all there are. */
  lemma SentAsAsked(rows: seq<Record>, q: Query, sent: seq<Record>)
    requires Table(rows) && sent <= Matching(rows, q)
    ensures AsAsked(rows, q, sent)
  {
    WhereKeepsOrder(rows, WantedBy(q));
  }

  /** When all rows of the result that start before its end are sent, all rows asked for that start before it are. */
  lemma SentComplete(rows: seq<Record>, q: Query, sent: seq<Record>)
    requires q.endTime.Some? && sent <= Matching(rows, q)
    ensures (forall i :: 0 <= i < |Matching(rows, q)| && Matching(rows, q)[i].startTime < q.endTime.value ==> i < |sent|) ==>
      forall r :: r in rows && q.streams(r.streamId) && q.startTime <= r.startTime < q.endTime.value ==> r in sent
  {
    forall r | r in rows && Wanted(q, r) ensures r in Matching(rows, q) {
      WhereAll(rows, WantedBy(q), r);
    }
  }

  lemma NoneMatch(rows: seq<Record>, q: Query, limit: nat)
    requires QueryByTime(rows, q, limit) == []
    ensures Matching(rows, q) == []
  {
  }

  // ---------- a row that is not sent ----------

  function TwoRows(): seq<Record> {
    [Record(1, "A", 5, 6, [0]), Record(2, "A", 5, 6, [0])]
  }

  function UpToFive(): Query {
    Query((id: string) => id == "A", 1, 0, Some(5))
  }

  lemma BothMatch()
    ensures Table(TwoRows()) && Matching(TwoRows(), UpToFive()) == TwoRows()
    ensures StopAt(TwoRows(), FirstBatch(TwoRows(), 1), 1, 5) == 1
  {
    var rows, p := TwoRows(), WantedBy(UpToFive());
    assert rows[..1] == [rows[0]] && rows[..1][..0] == [];
    assert Where(rows[..1], p) == [rows[0]];
  }

  /** For example: two rows match and both start at the query's end; fetched one at a time, the second is never sent. */
  method RowMissed() returns (sent: seq<Record>)
    ensures Matching(TwoRows(), UpToFive()) == TwoRows() && sent == TwoRows()[..1]
  {
    BothMatch();
    var session := new SLExtInfo(UpToFive());
    sent := session.StreamHistory(TwoRows(), 1, 1, 1);
  }
}
