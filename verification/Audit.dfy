/** The audit feed (backend/app/api/v1/audit.py): one page of events, newest
    first, and the cursor a client follows to read the next page. */
module Audit {
  import opened Domain

  /** `id` is the primary key, in the order the database sorts it. */
  datatype Event = Event(createdAt: int, id: int, objectId: Option<int>)

  datatype Page = Page(items: seq<Event>, nextBefore: Option<int>)

  // ---------------------------------------------------------------------
  // The query
  // ---------------------------------------------------------------------

  predicate Above(a: Event, b: Event) {
    a.createdAt > b.createdAt || (a.createdAt == b.createdAt && a.id > b.id)
  }

  predicate Descending(feed: seq<Event>) {
    forall i, j :: 0 <= i < j < |feed| ==> Above(feed[i], feed[j])
  }

  predicate DistinctIds(table: seq<Event>) {
    forall i, j :: 0 <= i < j < |table| ==> table[i].id != table[j].id
  }

  predicate DistinctTimes(table: seq<Event>) {
    forall i, j :: 0 <= i < j < |table| ==> table[i].createdAt != table[j].createdAt
  }

  /** The two WHERE clauses; an absent one admits every row. */
  predicate Matches(e: Event, scope: Option<int>, before: Option<int>) {
    && (scope.Some? ==> e.objectId == scope)
    && (before.Some? ==> e.createdAt < before.value)
  }

  function Insert(e: Event, feed: seq<Event>): seq<Event> {
    if feed == [] || Above(e, feed[0]) then [e] + feed
    else [feed[0]] + Insert(e, feed[1..])
  }

  /** Every matching row, ordered by (created_at DESC, id DESC). */
  function Feed(table: seq<Event>, scope: Option<int>, before: Option<int>): seq<Event> {
    if table == [] then []
    else
      var e, rest := table[|table| - 1], Feed(table[..|table| - 1], scope, before);
      if Matches(e, scope, before) then Insert(e, rest) else rest
  }

  /** `_page`. The routes demand `limit >= 1`. */
  function PageOf(table: seq<Event>, scope: Option<int>, limit: nat, before: Option<int>): Page
    requires limit >= 1
  {
    var feed := Feed(table, scope, before);
    var items := if |feed| <= limit then feed else feed[..limit];
    Page(items, if |items| == limit then Some(items[limit - 1].createdAt) else None)
  }

  /** A client that follows `next_before`: `tables[k]` is what the k-th fetch
      sees.  The client stops at a page without a cursor, or gives up when
      `tables` is exhausted. */
  function Crawl(tables: seq<seq<Event>>, scope: Option<int>, limit: nat, before: Option<int>): seq<Event>
    requires limit >= 1
  {
    if tables == [] then []
    else
      var page := PageOf(tables[0], scope, limit, before);
      page.items + if page.nextBefore.None? then [] else Crawl(tables[1..], scope, limit, page.nextBefore)
  }

  /** Some page within `tables` carries no cursor, so the client stops there by itself. */
  predicate StopsItself(tables: seq<seq<Event>>, scope: Option<int>, limit: nat, before: Option<int>)
    requires limit >= 1
  {
    && tables != []
    && var page := PageOf(tables[0], scope, limit, before);
       page.nextBefore.None? || StopsItself(tables[1..], scope, limit, page.nextBefore)
  }

  /** The log only grows, and its clock does not run backwards. */
  predicate Extends(earlier: seq<Event>, later: seq<Event>) {
    && earlier <= later
    && forall i, j :: 0 <= i < |earlier| <= j < |later| ==> earlier[i].createdAt <= later[j].createdAt
  }

  predicate Growing(tables: seq<seq<Event>>) {
    forall k :: 0 < k < |tables| ==> Extends(tables[k - 1], tables[k])
  }

  // ---------------------------------------------------------------------
  // The feed is the ordered selection
  // ---------------------------------------------------------------------

  lemma {:induction false} InsertContents(e: Event, feed: seq<Event>)
    ensures multiset(Insert(e, feed)) == multiset(feed) + multiset{e}
  {
    if feed != [] && !Above(e, feed[0]) {
      InsertContents(e, feed[1..]);
      assert feed == [feed[0]] + feed[1..];
    }
  }

  lemma {:induction false} InsertMembers(e: Event, feed: seq<Event>)
    ensures forall x :: x in Insert(e, feed) <==> x == e || x in feed
  {
    if feed != [] && !Above(e, feed[0]) { InsertMembers(e, feed[1..]); }
  }

  lemma {:induction false} InsertDescending(e: Event, feed: seq<Event>)
    requires Descending(feed)
    requires forall i :: 0 <= i < |feed| ==> feed[i].id != e.id
    ensures Descending(Insert(e, feed))
  {
    if feed != [] && !Above(e, feed[0]) {
      var rest := feed[1..];
      InsertDescending(e, rest);
      InsertMembers(e, rest);
      assert forall x :: x in Insert(e, rest) ==> Above(feed[0], x);
    }
  }

  function Selected(table: seq<Event>, scope: Option<int>, before: Option<int>): multiset<Event> {
    if table == [] then multiset{}
    else
      var e, rest := table[|table| - 1], Selected(table[..|table| - 1], scope, before);
      if Matches(e, scope, before) then rest + multiset{e} else rest
  }

  lemma {:induction false} FeedIsSelection(table: seq<Event>, scope: Option<int>, before: Option<int>)
    ensures multiset(Feed(table, scope, before)) == Selected(table, scope, before)
  {
    if table != [] {
      var n := |table| - 1;
      FeedIsSelection(table[..n], scope, before);
      InsertContents(table[n], Feed(table[..n], scope, before));
    }
  }

  lemma {:induction false} FeedContents(table: seq<Event>, scope: Option<int>, before: Option<int>)
    ensures forall e :: e in Feed(table, scope, before) <==> e in table && Matches(e, scope, before)
  {
    if table != [] {
      var n := |table| - 1;
      FeedContents(table[..n], scope, before);
      InsertMembers(table[n], Feed(table[..n], scope, before));
      assert table == table[..n] + [table[n]];
    }
  }

  lemma {:induction false} FeedDescending(table: seq<Event>, scope: Option<int>, before: Option<int>)
    requires DistinctIds(table)
    ensures Descending(Feed(table, scope, before))
  {
    if table != [] {
      var n := |table| - 1;
      var rest := Feed(table[..n], scope, before);
      FeedDescending(table[..n], scope, before);
      FeedContents(table[..n], scope, before);
      forall i | 0 <= i < |rest|
        ensures rest[i].id != table[n].id
      {
        assert rest[i] in table[..n];
      }
      if Matches(table[n], scope, before) {
        InsertDescending(table[n], rest);
      }
    }
  }

  /** A page: events of the object before the cursor, newest first, the newest `limit` of them; a cursor exactly on a
      full page, at its last event. */
  lemma PageExactly(table: seq<Event>, scope: Option<int>, limit: nat, before: Option<int>)
    requires limit >= 1 && DistinctIds(table)
    ensures var page := PageOf(table, scope, limit, before);
      && |page.items| <= limit && Descending(page.items)
      && (forall e :: e in page.items ==>
           e in table && (scope.None? || e.objectId == scope) && (before.None? || e.createdAt < before.value))
      && (forall e :: e in table && e !in page.items
                      && (scope.None? || e.objectId == scope) && (before.None? || e.createdAt < before.value) ==>
           |page.items| == limit && forall i :: 0 <= i < limit ==> Above(page.items[i], e))
      && page.nextBefore == if |page.items| == limit then Some(page.items[limit - 1].createdAt) else None
  {
    var feed, page := Feed(table, scope, before), PageOf(table, scope, limit, before);
    FeedContents(table, scope, before);
    FeedDescending(table, scope, before);
    hide Feed;
    forall e | e in feed && e !in page.items
      ensures |page.items| == limit && forall i :: 0 <= i < limit ==> Above(page.items[i], e)
    {
      var k :| 0 <= k < |feed| && feed[k] == e;
    }
    assert forall e :: e in page.items ==> e in feed;
  }

  // ---------------------------------------------------------------------
  // What the cursor selects
  // ---------------------------------------------------------------------

  function OlderThan(feed: seq<Event>, cursor: int): (r: seq<Event>)
    ensures |r| <= |feed|
    ensures forall e :: e in r <==> e in feed && e.createdAt < cursor
  {
    if feed == [] then []
    else
      var rest := OlderThan(feed[1..], cursor);
      if feed[0].createdAt < cursor then [feed[0]] + rest else rest
  }

  lemma {:induction false} InsertOlder(e: Event, feed: seq<Event>, cursor: int)
    ensures OlderThan(Insert(e, feed), cursor)
         == if e.createdAt < cursor then Insert(e, OlderThan(feed, cursor)) else OlderThan(feed, cursor)
  {
    if feed != [] && !Above(e, feed[0]) {
      InsertOlder(e, feed[1..], cursor);
    }
  }

  /** The database filters first and orders afterwards; cutting the ordered
      feed at the cursor gives the same rows in the same order. */
  lemma {:induction false} CursorCutsFeed(table: seq<Event>, scope: Option<int>, before: Option<int>, cursor: int)
    requires before.Some? ==> cursor <= before.value
    ensures Feed(table, scope, Some(cursor)) == OlderThan(Feed(table, scope, before), cursor)
  {
    if table != [] {
      var n := |table| - 1;
      CursorCutsFeed(table[..n], scope, before, cursor);
      InsertOlder(table[n], Feed(table[..n], scope, before), cursor);
    }
  }

  /** Events logged later do not disturb a page behind an earlier cursor. */
  lemma {:induction false} AppendsAreInvisible(
    earlier: seq<Event>, later: seq<Event>, scope: Option<int>, cursor: int)
    requires earlier <= later
    requires forall j :: |earlier| <= j < |later| ==> cursor <= later[j].createdAt
    ensures Feed(later, scope, Some(cursor)) == Feed(earlier, scope, Some(cursor))
  {
    if |later| == |earlier| {
      assert later == earlier;
    } else {
      AppendsAreInvisible(earlier, later[..|later| - 1], scope, cursor);
    }
  }

  // ---------------------------------------------------------------------
  // A crawl never repeats itself
  // ---------------------------------------------------------------------

  lemma DescendingIsDistinct(feed: seq<Event>)
    requires Descending(feed)
    ensures forall i, j :: 0 <= i < j < |feed| ==> feed[i] != feed[j]
  {
    forall i, j | 0 <= i < j < |feed|
      ensures feed[i] != feed[j]
    {
      assert Above(feed[i], feed[j]);
    }
  }

  lemma PagesJoin(items: seq<Event>, rest: seq<Event>, scope: Option<int>, before: Option<int>, cursor: int)
    requires items != [] && items[|items| - 1].createdAt == cursor
    requires Descending(items) && Descending(rest)
    requires forall e :: e in items ==> Matches(e, scope, before)
    requires forall e :: e in rest ==> Matches(e, scope, Some(cursor))
    ensures Descending(items + rest)
    ensures forall e :: e in items + rest ==> Matches(e, scope, before)
  {
    var last := items[|items| - 1];
    forall i | 0 <= i < |items|
      ensures items[i].createdAt >= cursor
    {
      assert i < |items| - 1 ==> Above(items[i], last);
    }
    assert last in items;
    var all := items + rest;
    forall i, j | 0 <= i < j < |all|
      ensures Above(all[i], all[j])
    {
      assert i >= |items| ==> Above(rest[i - |items|], rest[j - |items|]);
      assert j >= |items| ==> all[j] in rest;
    }
  }

  /** Whatever the log does between two fetches (grow, even in the past, or
      lose rows), the pages of one crawl come out strictly descending; so no
      event is ever returned twice. */
  lemma {:induction false} CrawlDescends(
    tables: seq<seq<Event>>, scope: Option<int>, limit: nat, before: Option<int>)
    requires limit >= 1
    requires forall k :: 0 <= k < |tables| ==> DistinctIds(tables[k])
    ensures Descending(Crawl(tables, scope, limit, before))
    ensures forall e :: e in Crawl(tables, scope, limit, before) ==> Matches(e, scope, before)
    ensures forall i, j :: 0 <= i < j < |Crawl(tables, scope, limit, before)|
              ==> Crawl(tables, scope, limit, before)[i] != Crawl(tables, scope, limit, before)[j]
  {
    if tables != [] {
      FeedDescending(tables[0], scope, before);
      FeedContents(tables[0], scope, before);
      var page := PageOf(tables[0], scope, limit, before);
      if page.nextBefore.Some? {
        CrawlDescends(tables[1..], scope, limit, page.nextBefore);
        var rest := Crawl(tables[1..], scope, limit, page.nextBefore);
        assert page.items[limit - 1] in Feed(tables[0], scope, before);
        PagesJoin(page.items, rest, scope, before, page.nextBefore.value);
      }
    }
    DescendingIsDistinct(Crawl(tables, scope, limit, before));
  }

  // ---------------------------------------------------------------------
  // What a whole crawl returns
  // ---------------------------------------------------------------------

  /** The crawl of a log that stands still, on its ordered feed. */
  function Paged(feed: seq<Event>, limit: nat): seq<Event>
    requires limit >= 1
    decreases |feed|
  {
    if |feed| < limit then feed
    else
      var older := OlderThan(feed, feed[limit - 1].createdAt);
      feed[..limit] + if |older| < |feed| then Paged(older, limit) else []
  }

  lemma {:induction false} OlderIsShorter(feed: seq<Event>, k: nat)
    requires k < |feed|
    ensures |OlderThan(feed, feed[k].createdAt)| < |feed|
  {
    if k > 0 {
      OlderIsShorter(feed[1..], k - 1);
    }
  }

  lemma PagedStep(feed: seq<Event>, limit: nat)
    requires limit >= 1
    ensures Paged(feed, limit)
         == if |feed| < limit then feed
            else feed[..limit] + Paged(OlderThan(feed, feed[limit - 1].createdAt), limit)
  {
    if |feed| >= limit { OlderIsShorter(feed, limit - 1); }
  }

  /** What the fetch behind a full page finds in the log as it then is. */
  lemma NextFetch(earlier: seq<Event>, later: seq<Event>, scope: Option<int>, limit: nat, before: Option<int>)
    requires Extends(earlier, later) && 1 <= limit <= |Feed(earlier, scope, before)|
    ensures var feed := Feed(earlier, scope, before);
      && Feed(later, scope, Some(feed[limit - 1].createdAt)) == OlderThan(feed, feed[limit - 1].createdAt)
      && |OlderThan(feed, feed[limit - 1].createdAt)| < |feed|
  {
    var feed := Feed(earlier, scope, before);
    var last := feed[limit - 1];
    FeedContents(earlier, scope, before);
    assert last in feed;
    hide Feed, OlderThan;
    CursorCutsFeed(earlier, scope, before, last.createdAt);
    OlderIsShorter(feed, limit - 1);
    AppendsAreInvisible(earlier, later, scope, last.createdAt);
  }

  /** A crawl over a growing log terminates within one fetch more than there
      were matching events at the start, and returns what a crawl of the log as
      it stood at the first fetch returns. */
  lemma {:induction false} CrawlSeesFirstFetch(
    tables: seq<seq<Event>>, scope: Option<int>, limit: nat, before: Option<int>)
    requires limit >= 1
    requires Growing(tables)
    requires |tables| > 0 && |tables| > |Feed(tables[0], scope, before)|
    ensures StopsItself(tables, scope, limit, before)
    ensures Crawl(tables, scope, limit, before) == Paged(Feed(tables[0], scope, before), limit)
  {
    hide Feed, OlderThan, Extends, Matches, Paged;
    var feed := Feed(tables[0], scope, before);
    PagedStep(feed, limit);
    if |feed| >= limit {
      var cursor := feed[limit - 1].createdAt;
      NextFetch(tables[0], tables[1], scope, limit, before);
      CrawlSeesFirstFetch(tables[1..], scope, limit, Some(cursor));
      assert PageOf(tables[0], scope, limit, before) == Page(feed[..limit], Some(cursor));
    }
  }

  predicate IsMultiple(i: nat, limit: nat)
    requires limit >= 1
  {
    i % limit == 0
  }

  /** No page ends between two events of the same instant. */
  predicate BoundariesClean(feed: seq<Event>, limit: nat)
    requires limit >= 1
  {
    forall i :: 0 < i < |feed| && IsMultiple(i, limit) ==> feed[i - 1].createdAt > feed[i].createdAt
  }

  lemma {:induction false} OlderIsSuffix(feed: seq<Event>, k: nat, cursor: int)
    requires Descending(feed) && k <= |feed|
    requires forall i :: 0 <= i < k ==> feed[i].createdAt >= cursor
    requires k < |feed| ==> feed[k].createdAt < cursor
    ensures OlderThan(feed, cursor) == feed[k..]
  {
    if feed != [] {
      if k > 0 {
        OlderIsSuffix(feed[1..], k - 1, cursor);
      } else {
        assert |feed| > 1 ==> Above(feed[0], feed[1]);
        OlderIsSuffix(feed[1..], 0, cursor);
        assert feed == [feed[0]] + feed[1..];
      }
    }
  }

  lemma OlderDescends(feed: seq<Event>, cursor: int)
    requires Descending(feed)
    ensures Descending(OlderThan(feed, cursor))
  {
    if feed != [] {
      OlderDescends(feed[1..], cursor);
      var rest := OlderThan(feed[1..], cursor);
      assert forall e :: e in rest ==> e in feed[1..];
    }
  }

  lemma {:induction false} PagedIsNoLonger(feed: seq<Event>, limit: nat)
    requires limit >= 1
    requires Descending(feed)
    ensures |Paged(feed, limit)| <= |feed|
    ensures limit < |feed| && feed[limit - 1].createdAt == feed[limit].createdAt ==> |Paged(feed, limit)| < |feed|
    decreases |feed|
  {
    if |feed| >= limit {
      var cursor := feed[limit - 1].createdAt;
      var older := OlderThan(feed, cursor);
      var k := TieEnd(feed, limit, cursor);
      assert forall i :: 0 <= i < limit - 1 ==> Above(feed[i], feed[limit - 1]);
      OlderIsSuffix(feed, k, cursor);
      OlderDescends(feed, cursor);
      PagedIsNoLonger(older, limit);
    }
  }

  /** The first position from `k` on whose event is older than `cursor`. */
  function TieEnd(feed: seq<Event>, k: nat, cursor: int): (r: nat)
    requires k <= |feed|
    ensures k <= r <= |feed|
    ensures forall i :: k <= i < r ==> feed[i].createdAt >= cursor
    ensures r < |feed| ==> feed[r].createdAt < cursor
    decreases |feed| - k
  {
    if k < |feed| && feed[k].createdAt >= cursor then TieEnd(feed, k + 1, cursor) else k
  }

  lemma MultipleFacts(i: nat, limit: nat)
    requires limit >= 1
    ensures IsMultiple(i + limit, limit) <==> IsMultiple(i, limit)
    ensures IsMultiple(limit, limit)
    ensures 0 < i < limit ==> !IsMultiple(i, limit)
  {
    assert (i + limit) % limit == i % limit by {
      var q, r := i / limit, i % limit;
      assert i + limit == limit * (q + 1) + r;
      RemainderUnique(i + limit, limit, q + 1, r);
    }
    RemainderUnique(limit, limit, 1, 0);
    if i < limit { RemainderUnique(i, limit, 0, i); }
  }

  lemma RemainderUnique(n: int, m: int, q: int, r: int)
    requires m >= 1 && n == m * q + r && 0 <= r < m
    ensures n % m == r
  {
    var d := n / m - q;
    assert m * d == r - n % m;
    assert d >= 1 ==> m * d >= m;
    assert d <= -1 ==> m * (0 - d) >= m;
  }

  lemma ShiftBoundaries(feed: seq<Event>, limit: nat)
    requires 1 <= limit < |feed|
    requires feed[limit - 1].createdAt > feed[limit].createdAt
    ensures BoundariesClean(feed, limit) <==> BoundariesClean(feed[limit..], limit)
  {
    hide IsMultiple;
    var rest := feed[limit..];
    if BoundariesClean(feed, limit) {
      forall i | 0 < i < |rest| && IsMultiple(i, limit)
        ensures rest[i - 1].createdAt > rest[i].createdAt
      {
        MultipleFacts(i, limit);
        assert feed[i + limit - 1].createdAt > feed[i + limit].createdAt;
      }
    }
    if BoundariesClean(rest, limit) {
      forall i | 0 < i < |feed| && IsMultiple(i, limit)
        ensures feed[i - 1].createdAt > feed[i].createdAt
      {
        MultipleFacts(i, limit);
        if i > limit {
          MultipleFacts(i - limit, limit);
          assert rest[i - limit - 1].createdAt > rest[i - limit].createdAt;
        }
      }
    }
  }

  lemma ShortFeedIsClean(feed: seq<Event>, limit: nat)
    requires limit >= 1 && |feed| <= limit
    ensures BoundariesClean(feed, limit)
  {
    forall i | 0 < i < |feed|
      ensures !IsMultiple(i, limit)
    {
      MultipleFacts(i, limit);
    }
  }

  lemma ExactPage(feed: seq<Event>, limit: nat)
    requires limit >= 1 && |feed| == limit && Descending(feed)
    ensures Paged(feed, limit) == feed
  {
    hide OlderThan, Paged;
    assert forall i :: 0 <= i < limit - 1 ==> Above(feed[i], feed[limit - 1]);
    OlderIsSuffix(feed, limit, feed[limit - 1].createdAt);
    PagedStep(feed, limit);
    PagedStep([], limit);
    assert feed == feed[..limit] + [];
  }

  lemma CleanPage(feed: seq<Event>, limit: nat)
    requires 1 <= limit < |feed| && Descending(feed) && feed[limit - 1].createdAt > feed[limit].createdAt
    ensures Paged(feed, limit) == feed[..limit] + Paged(feed[limit..], limit)
    ensures Descending(feed[limit..])
  {
    hide OlderThan, Paged;
    assert forall i :: 0 <= i < limit - 1 ==> Above(feed[i], feed[limit - 1]);
    OlderIsSuffix(feed, limit, feed[limit - 1].createdAt);
    PagedStep(feed, limit);
  }

  lemma {:induction false} PagedExactly(feed: seq<Event>, limit: nat)
    requires limit >= 1
    requires Descending(feed)
    ensures Paged(feed, limit) == feed <==> BoundariesClean(feed, limit)
    decreases |feed|
  {
    hide IsMultiple, Paged;
    if |feed| <= limit {
      ShortFeedIsClean(feed, limit);
      if |feed| < limit { PagedStep(feed, limit); } else { ExactPage(feed, limit); }
    } else {
      assert Above(feed[limit - 1], feed[limit]);
      if feed[limit].createdAt < feed[limit - 1].createdAt {
        CleanPage(feed, limit);
        PagedExactly(feed[limit..], limit);
        ShiftBoundaries(feed, limit);
        hide BoundariesClean, Descending;
        assert feed == feed[..limit] + feed[limit..];
      } else {
        PagedIsNoLonger(feed, limit);
        MultipleFacts(0, limit);
      }
    }
  }

  /** The exact condition.  A crawl returns the feed as it stood at the first
      fetch if and only if no page boundary separates two events with the same
      `created_at`: the cursor carries only the instant, so the rest of a split
      tie is skipped. */
  lemma CrawlCompleteExactly(tables: seq<seq<Event>>, scope: Option<int>, limit: nat)
    requires limit >= 1
    requires Growing(tables)
    requires |tables| > 0 && DistinctIds(tables[0])
    requires |tables| > |Feed(tables[0], scope, None)|
    ensures Crawl(tables, scope, limit, None) == Feed(tables[0], scope, None)
       <==> BoundariesClean(Feed(tables[0], scope, None), limit)
  {
    CrawlSeesFirstFetch(tables, scope, limit, None);
    FeedDescending(tables[0], scope, None);
    PagedExactly(Feed(tables[0], scope, None), limit);
  }

  /** With distinct timestamps every limit will do: the crawl returns each
      event that existed at the first fetch and belongs to the object, and no
      other. */
  lemma DistinctTimesSuffice(tables: seq<seq<Event>>, scope: Option<int>, limit: nat)
    requires limit >= 1
    requires Growing(tables)
    requires |tables| > 0 && DistinctIds(tables[0]) && DistinctTimes(tables[0])
    requires |tables| > |Feed(tables[0], scope, None)|
    ensures Crawl(tables, scope, limit, None) == Feed(tables[0], scope, None)
    ensures forall e :: e in Crawl(tables, scope, limit, None) <==> e in tables[0] && (scope.None? || e.objectId == scope)
  {
    var feed := Feed(tables[0], scope, None);
    FeedDescending(tables[0], scope, None);
    FeedContents(tables[0], scope, None);
    forall i | 0 < i < |feed| && IsMultiple(i, limit)
      ensures feed[i - 1].createdAt > feed[i].createdAt
    {
      assert feed[i - 1] in tables[0] && feed[i] in tables[0];
      assert Above(feed[i - 1], feed[i]);
    }
    CrawlCompleteExactly(tables, scope, limit);
  }

  // ---------------------------------------------------------------------
  // Events that become visible late
  // ---------------------------------------------------------------------

  /** Rows are only added, with any timestamps: a transaction may commit long after it read the clock. */
  predicate OnlyAdded(tables: seq<seq<Event>>) {
    forall k :: 0 < k < |tables| ==> forall e :: e in tables[k - 1] ==> e in tables[k]
  }

  lemma {:induction false} AddedToLast(tables: seq<seq<Event>>, e: Event)
    requires OnlyAdded(tables) && tables != [] && e in tables[0]
    ensures e in tables[|tables| - 1]
    decreases |tables|
  {
    if |tables| > 1 {
      assert e in tables[1];
      AddedToLast(tables[1..], e);
    }
  }

  /** With rows of any age arriving between the pages, a crawl still ends within one fetch more than there are
      matching events at the end. */
  lemma {:induction false} CrawlStops(tables: seq<seq<Event>>, scope: Option<int>, limit: nat, before: Option<int>)
    requires limit >= 1 && OnlyAdded(tables)
    requires |tables| > 0 && |tables| > |Feed(tables[|tables| - 1], scope, before)|
    ensures StopsItself(tables, scope, limit, before)
  {
    hide Feed, OlderThan;
    var page, last := PageOf(tables[0], scope, limit, before), tables[|tables| - 1];
    if page.nextBefore.Some? {
      var feed, e := Feed(last, scope, before), page.items[limit - 1];
      FeedContents(tables[0], scope, before);
      assert e in Feed(tables[0], scope, before);
      AddedToLast(tables, e);
      FeedContents(last, scope, before);
      var i :| 0 <= i < |feed| && feed[i] == e;
      OlderIsShorter(feed, i);
      CursorCutsFeed(last, scope, before, e.createdAt);
      if |tables| > 1 {
        CrawlStops(tables[1..], scope, limit, page.nextBefore);
      }
    }
  }

  /** And with distinct timestamps it returns every event that existed at the first fetch, whatever is logged,
      even in the past, while it runs; by `CrawlDescends` each of them once. */
  lemma {:induction false} LateCommitsLoseNothing(
    tables: seq<seq<Event>>, scope: Option<int>, limit: nat, before: Option<int>, e: Event)
    requires limit >= 1 && OnlyAdded(tables)
    requires forall k :: 0 <= k < |tables| ==> DistinctIds(tables[k]) && DistinctTimes(tables[k])
    requires StopsItself(tables, scope, limit, before)
    requires e in tables[0] && (scope.None? || e.objectId == scope) && (before.None? || e.createdAt < before.value)
    ensures e in Crawl(tables, scope, limit, before)
  {
    hide Feed;
    var feed, page := Feed(tables[0], scope, before), PageOf(tables[0], scope, limit, before);
    FeedContents(tables[0], scope, before);
    FeedDescending(tables[0], scope, before);
    if e !in page.items {
      var i :| 0 <= i < |feed| && feed[i] == e;
      assert i >= limit && page.nextBefore.Some?;
      BelowLast(tables[0], feed, limit - 1, i);
      assert e in tables[1];
      LateCommitsLoseNothing(tables[1..], scope, limit, page.nextBefore, e);
    }
  }

  lemma BelowLast(table: seq<Event>, feed: seq<Event>, i: nat, j: nat)
    requires Descending(feed) && DistinctTimes(table) && i < j < |feed|
    requires forall e :: e in feed ==> e in table
    ensures feed[i].createdAt > feed[j].createdAt
  {
    assert Above(feed[i], feed[j]);
    assert feed[i] in table && feed[j] in table;
  }

  /** Even a split tie never loses an instant altogether. */
  lemma {:induction false} EveryInstantIsSeen(feed: seq<Event>, limit: nat, e: Event)
    requires limit >= 1
    requires Descending(feed) && e in feed
    ensures exists k :: 0 <= k < |Paged(feed, limit)| && Paged(feed, limit)[k].createdAt == e.createdAt
    decreases |feed|
  {
    hide Paged, OlderThan;
    PagedStep(feed, limit);
    var paged := Paged(feed, limit);
    var i :| 0 <= i < |feed| && feed[i] == e;
    if i < limit || |feed| < limit {
      assert paged[i] == e;
    } else {
      var cursor := feed[limit - 1].createdAt;
      assert Above(feed[limit - 1], feed[i]);
      if e.createdAt == cursor {
        assert paged[limit - 1].createdAt == e.createdAt;
      } else {
        OlderIsShorter(feed, limit - 1);
        OlderDescends(feed, cursor);
        var older := OlderThan(feed, cursor);
        EveryInstantIsSeen(older, limit, e);
        var k :| 0 <= k < |Paged(older, limit)| && Paged(older, limit)[k].createdAt == e.createdAt;
        assert paged[limit + k] == Paged(older, limit)[k];
      }
    }
  }

  /** Two events of one instant, one per page: the second is never returned,
      although the log stands still. */
  lemma TieSkippedWitness()
    ensures var t := [Event(7, 1, None), Event(7, 2, None)];
            Growing([t, t, t]) && DistinctIds(t)
            && Crawl([t, t, t], None, 1, None) == [Event(7, 2, None)]
            && Event(7, 1, None) in Feed(t, None, None)
  {
    var a, b := Event(7, 1, None), Event(7, 2, None);
    var t := [a, b];
    assert t[..1] == [a];
    assert Feed([a], None, None) == [a];
    assert Feed(t, None, None) == [b, a];
    assert Feed([a], None, Some(7)) == [];
    assert Feed(t, None, Some(7)) == [];
    assert [t, t, t][1..] == [t, t];
    assert PageOf(t, None, 1, None) == Page([b], Some(7));
    assert Crawl([t, t], None, 1, Some(7)) == [];
  }
}
