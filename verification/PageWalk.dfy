// Whole walks over the pages, and the exact size of each page.
module PageWalk {
  import opened Wrappers
  import opened Text
  import opened DataScopes
  import opened EventTable
  import opened EventClass
  import opened EventOrder
  import opened EventQuery
  import opened Pagination
  import SqlQuery
  import Rfc3339

  // ---------- the size of a page ----------

  // How many rows of the table match a page's query past its cursor.
  ghost function MatchCount(host: Host, rows: seq<Row>, workspace: string, kind: string, q: Query, scope: DataScope,
                            now: int, cursor: Option<Key>): nat {
    if rows == [] then 0
    else
      (if rows[0].workspace == workspace && PageMatches(host, kind, q, scope, now, rows[0]) && Past(cursor, rows[0])
       then 1 else 0) + MatchCount(host, rows[1..], workspace, kind, q, scope, now, cursor)
  }

  lemma {:induction false} WhereCounts(host: Host, rows: seq<Row>, workspace: string, kind: string, q: Query,
                                       scope: DataScope, now: int, cursor: Option<Key>, ps: seq<SqlQuery.Predicate>)
    requires forall row :: All(ps, row) <==> (PageMatches(host, kind, q, scope, now, row) && Past(cursor, row))
    ensures |Where(rows, Some(workspace), ps)| == MatchCount(host, rows, workspace, kind, q, scope, now, cursor)
  {
    hide PageMatches, Past, CellsOf;
    if rows != [] {
      WhereCounts(host, rows[1..], workspace, kind, q, scope, now, cursor, ps);
      assert SelectedRow(rows[0], Some(workspace), ps) <==> (rows[0].workspace == workspace && All(ps, rows[0]));
    }
  }

  // Count is the smaller of the page size and what matches past the cursor; a business page says
  // truncated exactly when a further matching row exists.
  lemma {:induction false} PageSizeIsExact(host: Host, project: Projection, rows: seq<Row>, workspace: string,
                                           kind: string, q: Query, scope: DataScope, now: int, page: QueryResult)
    requires WellBehaved(host, project) && UniqueKeys(rows)
    requires QueryPage(host, project, rows, workspace, kind, q, scope, now) == Success(page)
    ensures QueryCursor(host, q).Success?
    ensures var left := MatchCount(host, rows, TrimSpace(workspace), kind, q, scope, now, QueryCursor(host, q).value);
            page.count == (if left < page.pageSize then left else page.pageSize) &&
            (kind == BUSINESS ==> (page.truncated <==> left > page.pageSize))
  {
    hide PageMatches, Matches, QueryCursor, PlanOf, KeyLess, ClassOf, ItemsOf, ListPredicates, CellsOf;
    var plan, cursor, listed := PageParts(host, project, rows, workspace, kind, q, scope, now, page);
    CursorOfPlan(host, q, plan.query);
    var ps := ListPredicates(host, plan.query, Normalized(scope), cursor);
    forall x
      ensures All(ps, x) <==> (PageMatches(host, kind, q, scope, now, x) && Past(cursor, x))
    {
      ListPredicatesMeaning(host, plan.query, Normalized(scope), cursor, x);
      MatchesOfPlan(host, kind, q, plan.query, scope, now, cursor, x);
    }
    WhereCounts(host, rows, TrimSpace(workspace), kind, q, scope, now, cursor, ps);
    var selected := Where(rows, Some(TrimSpace(workspace)), ps);
    assert listed == Take(SortDescending(selected), ClampedLimit(plan.query.limit));
    forall x | x in listed
      ensures ClassOf(host.markers, x) == kind
    {
      assert x in selected && All(ps, x);
      ListedClass(host, kind, q, scope, now, x);
    }
    ItemsAreTheListing(host, project, listed, plan);
    assert page.count == |ItemKeys(page.items)| == |PageRows(listed, plan)|;
  }

  // ---------- walking ----------

  // The table and the clock at the moment a page is asked for.
  datatype View = View(rows: seq<Row>, now: int)

  function CursorAt(q: Query, pages: seq<QueryResult>, i: nat): string
    requires i <= |pages|
  {
    if i == 0 then q.cursor else pages[i - 1].nextCursor
  }

  // One business query followed from page to page; every page but the last announced a next one.
  ghost predicate Walk(host: Host, project: Projection, workspace: string, q: Query, scope: DataScope,
                       views: seq<View>, pages: seq<QueryResult>) {
    && |views| == |pages|
    && (forall i :: 0 <= i < |views| ==> UniqueKeys(views[i].rows))
    && (forall i :: 0 <= i < |pages| ==>
          QueryPage(host, project, views[i].rows, workspace, BUSINESS, q.(cursor := CursorAt(q, pages, i)), scope,
                    views[i].now) == Success(pages[i]))
    && (forall i :: 0 <= i < |pages| - 1 ==> pages[i].truncated)
  }

  // The keys of all items, page after page.
  function AllKeys(pages: seq<QueryResult>): seq<Key> {
    if pages == [] then [] else AllKeys(pages[..|pages| - 1]) + ItemKeys(pages[|pages| - 1].items)
  }

  // Where the next page starts: after the last item shown so far, or at the caller's own cursor.
  ghost function Start(host: Host, q: Query, pages: seq<QueryResult>): Option<Key> {
    if AllKeys(pages) != [] then Some(AllKeys(pages)[|AllKeys(pages)| - 1])
    else if QueryCursor(host, q).Success? then QueryCursor(host, q).value
    else None
  }

  lemma {:induction false} WalkPrefix(host: Host, project: Projection, workspace: string, q: Query, scope: DataScope,
                                      views: seq<View>, pages: seq<QueryResult>, n: nat)
    requires Walk(host, project, workspace, q, scope, views, pages) && n <= |pages|
    ensures Walk(host, project, workspace, q, scope, views[..n], pages[..n])
    ensures n < |pages| ==> forall i :: 0 <= i < n ==> pages[..n][i].truncated
  {
    hide QueryPage;
    forall i | 0 <= i < n
      ensures QueryPage(host, project, views[..n][i].rows, workspace, BUSINESS,
                        q.(cursor := CursorAt(q, pages[..n], i)), scope, views[..n][i].now) == Success(pages[..n][i])
    {
      assert CursorAt(q, pages[..n], i) == CursorAt(q, pages, i);
    }
  }

  lemma {:induction false} PageMatchesIgnoresCursor(host: Host, kind: string, q: Query, cursor: string,
                                                    scope: DataScope, now: int, row: Row)
    ensures PageMatches(host, kind, q.(cursor := cursor), scope, now, row) <==>
            PageMatches(host, kind, q, scope, now, row)
  {
  }

  lemma {:induction false} PageShowsIgnoresCursor(host: Host, rows: seq<Row>, workspace: string, kind: string,
                                                  q: Query, text: string, scope: DataScope, now: int,
                                                  cursor: Option<Key>, page: QueryResult)
    requires PageShows(host, rows, workspace, kind, q.(cursor := text), scope, now, cursor, page)
    ensures PageShows(host, rows, workspace, kind, q, scope, now, cursor, page)
  {
    hide PageMatches, KeyLess, ItemKeys, Past;
    forall x
      ensures PageMatches(host, kind, q.(cursor := text), scope, now, x) <==> PageMatches(host, kind, q, scope, now, x)
    {
      PageMatchesIgnoresCursor(host, kind, q, text, scope, now, x);
    }
  }

  // A page that announces a next one leaves a cursor to its last item.
  ghost predicate Links(host: Host, page: QueryResult) {
    var keys := ItemKeys(page.items);
    0 < |keys| && host.decodeCursor(page.nextCursor) == Some(keys[|keys| - 1]) && Trimmed(page.nextCursor) &&
    page.nextCursor != ""
  }

  lemma {:induction false} PageOfWalk(host: Host, project: Projection, workspace: string, q: Query, scope: DataScope,
                                      views: seq<View>, pages: seq<QueryResult>, i: nat)
    requires WellBehaved(host, project) && i < |pages|
    requires Walk(host, project, workspace, q, scope, views, pages)
    ensures pages[i].truncated ==> Links(host, pages[i])
    ensures QueryCursor(host, q.(cursor := CursorAt(q, pages, i))).Success?
    ensures PageShows(host, views[i].rows, TrimSpace(workspace), BUSINESS, q, scope, views[i].now,
                      QueryCursor(host, q.(cursor := CursorAt(q, pages, i))).value, pages[i])
  {
    hide QueryPage, QueryCursor, WellBehaved, PageMatches, KeyLess, ItemKeys;
    var text := CursorAt(q, pages, i);
    var asked := q.(cursor := text);
    PageIsNewestMatches(host, project, views[i].rows, workspace, BUSINESS, asked, scope, views[i].now, pages[i]);
    PageShowsIgnoresCursor(host, views[i].rows, TrimSpace(workspace), BUSINESS, q, text, scope, views[i].now,
                           QueryCursor(host, asked).value, pages[i]);
  }

  lemma {:induction false} WalkShape(host: Host, project: Projection, workspace: string, q: Query, scope: DataScope,
                                     views: seq<View>, pages: seq<QueryResult>)
    requires Walk(host, project, workspace, q, scope, views, pages)
    ensures |views| == |pages| && forall i :: 0 <= i < |pages| - 1 ==> pages[i].truncated
    ensures |pages| > 0 ==> CursorAt(q, pages, 0) == q.cursor
    ensures forall i :: 0 < i < |pages| ==> CursorAt(q, pages, i) == pages[i - 1].nextCursor
  {
    hide QueryPage;
  }

  // The last page of a walk, seen from the keys shown before it.
  lemma {:induction false} LastPage(host: Host, project: Projection, workspace: string, q: Query, scope: DataScope,
                                    views: seq<View>, pages: seq<QueryResult>)
    requires WellBehaved(host, project) && |pages| > 0
    requires Walk(host, project, workspace, q, scope, views, pages)
    ensures var n := |pages| - 1;
            PageShows(host, views[n].rows, TrimSpace(workspace), BUSINESS, q, scope, views[n].now,
                      Start(host, q, pages[..n]), pages[n])
  {
    hide QueryPage, PageShows, QueryCursor, WellBehaved, Start, Links, Walk, CursorAt;
    WalkShape(host, project, workspace, q, scope, views, pages);
    var n := |pages| - 1;
    var asked := q.(cursor := CursorAt(q, pages, n));
    PageOfWalk(host, project, workspace, q, scope, views, pages, n);
    if n == 0 {
      assert asked == q;
      StartOfFirst(host, q);
    } else {
      PageOfWalk(host, project, workspace, q, scope, views, pages, n - 1);
      NextCursorIsLastKey(host, q, pages[..n], asked);
    }
  }

  lemma {:induction false} StartOfFirst(host: Host, q: Query)
    requires QueryCursor(host, q).Success?
    ensures QueryCursor(host, q) == Success(Start(host, q, []))
  {
  }

  lemma {:induction false} NextCursorIsLastKey(host: Host, q: Query, pages: seq<QueryResult>, asked: Query)
    requires |pages| > 0 && Links(host, pages[|pages| - 1]) && asked.cursor == pages[|pages| - 1].nextCursor
    ensures QueryCursor(host, asked) == Success(Start(host, q, pages))
  {
    var keys := ItemKeys(pages[|pages| - 1].items);
    var all := AllKeys(pages);
    assert all == AllKeys(pages[..|pages| - 1]) + keys;
    assert all[|all| - 1] == keys[|keys| - 1];
    assert TrimSpace(asked.cursor) == asked.cursor;
  }

  lemma {:induction false} JoinDescending(a: seq<Key>, b: seq<Key>)
    requires Descending(a) && Descending(b)
    requires forall k :: a != [] && k in b ==> KeyLess(k, a[|a| - 1])
    ensures Descending(a + b)
  {
    hide KeyLess;
    forall i, j | 0 <= i < j < |a + b|
      ensures KeyLess((a + b)[j], (a + b)[i])
    {
      if i < |a| <= j {
        assert b[j - |a|] in b;
        if i < |a| - 1 {
          assert KeyLess(a[|a| - 1], a[i]);
          KeyLessTransitive(b[j - |a|], a[|a| - 1], a[i]);
        }
      }
    }
  }

  // The pages of a walk concatenate to one strictly descending sequence, so nothing is shown twice,
  // whatever happened to the table between the pages.
  lemma {:induction false} WalkIsDescending(host: Host, project: Projection, workspace: string, q: Query,
                                            scope: DataScope, views: seq<View>, pages: seq<QueryResult>)
    requires WellBehaved(host, project)
    requires Walk(host, project, workspace, q, scope, views, pages)
    ensures Descending(AllKeys(pages))
  {
    hide QueryPage, PageMatches, KeyLess, ItemKeys;
    if pages != [] {
      var n := |pages| - 1;
      WalkPrefix(host, project, workspace, q, scope, views, pages, n);
      WalkIsDescending(host, project, workspace, q, scope, views[..n], pages[..n]);
      LastPage(host, project, workspace, q, scope, views, pages);
      JoinDescending(AllKeys(pages[..n]), ItemKeys(pages[n].items));
    }
  }

  // Every item shown is a row that matched, past everything shown before, when its page was asked for.
  lemma {:induction false} WalkShowsOnlyMatches(host: Host, project: Projection, workspace: string, q: Query,
                                                scope: DataScope, views: seq<View>, pages: seq<QueryResult>, k: Key)
    requires WellBehaved(host, project)
    requires Walk(host, project, workspace, q, scope, views, pages)
    requires k in AllKeys(pages)
    ensures exists i, x :: 0 <= i < |views| && Awaited(host, workspace, q, scope, views, pages, i, x) && KeyOf(x) == k
  {
    hide QueryPage, PageMatches, KeyLess, ItemKeys, Past, Start;
    var n := |pages| - 1;
    if k in ItemKeys(pages[n].items) {
      LastPage(host, project, workspace, q, scope, views, pages);
      var x :| x in views[n].rows && x.workspace == TrimSpace(workspace) &&
               PageMatches(host, BUSINESS, q, scope, views[n].now, x) && Past(Start(host, q, pages[..n]), x) &&
                 KeyOf(x) == k;
      assert Awaited(host, workspace, q, scope, views, pages, n, x);
    } else {
      WalkPrefix(host, project, workspace, q, scope, views, pages, n);
      WalkShowsOnlyMatches(host, project, workspace, q, scope, views[..n], pages[..n], k);
      var i, x :| 0 <= i < n && Awaited(host, workspace, q, scope, views[..n], pages[..n], i, x) && KeyOf(x) == k;
      assert views[..n][i] == views[i] && pages[..n][..i] == pages[..i];
      assert Awaited(host, workspace, q, scope, views, pages, i, x);
    }
  }

  // The row matches when page i is asked for and lies past everything shown before that page.
  ghost predicate Awaited(host: Host, workspace: string, q: Query, scope: DataScope, views: seq<View>,
                          pages: seq<QueryResult>, i: nat, x: Row)
    requires i < |views|
  {
    && i <= |pages| && x in views[i].rows && x.workspace == TrimSpace(workspace)
    && PageMatches(host, BUSINESS, q, scope, views[i].now, x) && Past(Start(host, q, pages[..i]), x)
  }

  // The row with this key is in the table, and matches, each time a page is asked for.
  ghost predicate Steady(host: Host, workspace: string, q: Query, scope: DataScope, views: seq<View>, k: Key) {
    forall i :: 0 <= i < |views| ==>
      exists x :: x in views[i].rows && x.workspace == workspace && KeyOf(x) == k &&
                  PageMatches(host, BUSINESS, q, scope, views[i].now, x)
  }

  lemma {:induction false} WalkReaches(host: Host, project: Projection, workspace: string, q: Query, scope: DataScope,
                                       views: seq<View>, pages: seq<QueryResult>, k: Key)
    requires WellBehaved(host, project) && |pages| > 0
    requires Walk(host, project, workspace, q, scope, views, pages)
    requires Steady(host, TrimSpace(workspace), q, scope, views, k)
    requires QueryCursor(host, q).Success? && (QueryCursor(host, q).value.Some? ==>
                                               KeyLess(k, QueryCursor(host, q).value.value))
    ensures k in AllKeys(pages) || (pages[|pages| - 1].truncated && forall shown :: shown in AllKeys(pages) ==>
                                    KeyLess(k, shown))
  {
    hide QueryPage, PageMatches, KeyLess, ItemKeys, QueryCursor;
    var n := |pages| - 1;
    WalkPrefix(host, project, workspace, q, scope, views, pages, n);
    LastPage(host, project, workspace, q, scope, views, pages);
    var before, keys := AllKeys(pages[..n]), ItemKeys(pages[n].items);
    if n > 0 {
      assert Steady(host, TrimSpace(workspace), q, scope, views[..n], k);
      WalkReaches(host, project, workspace, q, scope, views[..n], pages[..n], k);
    }
    if k !in before {
      var x :| x in views[n].rows && x.workspace == TrimSpace(workspace) && KeyOf(x) == k &&
               PageMatches(host, BUSINESS, q, scope, views[n].now, x);
      assert Past(Start(host, q, pages[..n]), x) by {
        if before != [] {
          assert before[|before| - 1] in before;
        }
      }
      assert AllKeys(pages) == before + keys;
    }
  }

  // A finished walk has shown every event that was there and matched throughout.
  lemma {:induction false} FinishedWalkIsComplete(host: Host, project: Projection, workspace: string, q: Query,
                                                  scope: DataScope, views: seq<View>, pages: seq<QueryResult>, k: Key)
    requires WellBehaved(host, project) && |pages| > 0 && !pages[|pages| - 1].truncated
    requires Walk(host, project, workspace, q, scope, views, pages)
    requires Steady(host, TrimSpace(workspace), q, scope, views, k)
    requires QueryCursor(host, q).Success? && (QueryCursor(host, q).value.Some? ==>
                                               KeyLess(k, QueryCursor(host, q).value.value))
    ensures k in AllKeys(pages)
  {
    hide QueryPage, PageMatches, KeyLess, QueryCursor, Walk, WellBehaved, Steady;
    WalkReaches(host, project, workspace, q, scope, views, pages, k);
  }

  // ---------- appends and a moving cutoff ----------

  // A lower bound that does not parse, is absent, or is whole-second UTC text.
  ghost predicate PlainBound(createdFrom: string) {
    Rfc3339.Parse(TrimSpace(createdFrom)).None? ||
    exists s :: Rfc3339.Writable(s) && TrimSpace(createdFrom) == Rfc3339.Format(s)
  }

  // As the clock advances the effective lower bound only moves up, as text.
  lemma {:induction false} LowerBoundMovesUp(createdFrom: string, earlier: int, later: int)
    requires PlainBound(createdFrom) && earlier <= later && Rfc3339.Writable(earlier) && Rfc3339.Writable(later)
    ensures AtMost(TrimSpace(EffectiveFrom(createdFrom, earlier)), TrimSpace(EffectiveFrom(createdFrom, later)))
  {
    hide Rfc3339.Format, Rfc3339.Parse, Less;
    Rfc3339.FormatIsTrimmed(earlier);
    Rfc3339.FormatIsTrimmed(later);
    Rfc3339.FormatOrder(earlier, later);
    var parsed := Rfc3339.Parse(TrimSpace(createdFrom));
    if parsed.Some? {
      var s :| Rfc3339.Writable(s) && TrimSpace(createdFrom) == Rfc3339.Format(s);
      Rfc3339.ParseFormat(s);
      Rfc3339.FormatOrder(s, later);
    }
  }

  lemma {:induction false} BoundStillMatches(host: Host, q: Query, scope: DataScope, earlier: int, later: int, row: Row)
    requires PageMatches(host, BUSINESS, q, scope, later, row)
    requires AtMost(TrimSpace(EffectiveFrom(q.createdFrom, earlier - RetentionDays(BUSINESS) * DAY)),
                    TrimSpace(EffectiveFrom(q.createdFrom, later - RetentionDays(BUSINESS) * DAY)))
    ensures PageMatches(host, BUSINESS, q, scope, earlier, row)
  {
    hide EffectiveFrom, FilterMatches, Less, TrimSpace;
    var low := TrimSpace(EffectiveFrom(q.createdFrom, earlier - RetentionDays(BUSINESS) * DAY));
    var high := TrimSpace(EffectiveFrom(q.createdFrom, later - RetentionDays(BUSINESS) * DAY));
    if high == "" {
      NothingBelowBlank(low);
    } else {
      AtMostTransitive(low, high, row.createdAt);
    }
  }

  lemma {:induction false} NothingBelowBlank(s: string)
    ensures AtMost(s, "") ==> s == ""
  {
  }

  lemma {:induction false} PresentFromTheStart(host: Host, workspace: string, q: Query, scope: DataScope,
                                               views: seq<View>, row: Row)
    requires PlainBound(q.createdFrom) && |views| > 0
    requires forall i :: 0 <= i < |views| ==>
               views[0].rows <= views[i].rows && views[i].now <= views[|views| - 1].now &&
               Rfc3339.Writable(views[i].now - RetentionDays(BUSINESS) * DAY)
    requires row in views[0].rows && row.workspace == workspace
    requires PageMatches(host, BUSINESS, q, scope, views[|views| - 1].now, row)
    ensures Steady(host, workspace, q, scope, views, KeyOf(row))
  {
    hide PageMatches, EffectiveFrom, PlainBound, TrimSpace;
    var last := views[|views| - 1].now;
    var r :| 0 <= r < |views[0].rows| && views[0].rows[r] == row;
    forall i | 0 <= i < |views|
      ensures row in views[i].rows && PageMatches(host, BUSINESS, q, scope, views[i].now, row)
    {
      var days := RetentionDays(BUSINESS) * DAY;
      LowerBoundMovesUp(q.createdFrom, views[i].now - days, last - days);
      BoundStillMatches(host, q, scope, views[i].now, last, row);
      assert views[i].rows[r] == row;
    }
  }

  // Events appended between the pages and a retention cutoff moving up lose nothing: a finished walk has
  // shown every matching event of the first page's table that is still inside the last page's cutoff.
  lemma {:induction false} AppendsLoseNothing(host: Host, project: Projection, workspace: string, q: Query,
                                              scope: DataScope, views: seq<View>, pages: seq<QueryResult>, row: Row)
    requires WellBehaved(host, project) && |pages| > 0 && !pages[|pages| - 1].truncated
    requires Walk(host, project, workspace, q, scope, views, pages)
    requires PlainBound(q.createdFrom)
    requires forall i :: 0 <= i < |views| ==>
               views[0].rows <= views[i].rows && views[i].now <= views[|views| - 1].now &&
               Rfc3339.Writable(views[i].now - RetentionDays(BUSINESS) * DAY)
    requires row in views[0].rows && row.workspace == TrimSpace(workspace)
    requires PageMatches(host, BUSINESS, q, scope, views[|views| - 1].now, row)
    requires QueryCursor(host, q).Success? &&
             (QueryCursor(host, q).value.Some? ==> KeyLess(KeyOf(row), QueryCursor(host, q).value.value))
    ensures KeyOf(row) in AllKeys(pages)
  {
    hide QueryPage, PageMatches, KeyLess, QueryCursor, WellBehaved, EffectiveFrom, PlainBound, Walk, Steady;
    WalkShape(host, project, workspace, q, scope, views, pages);
    PresentFromTheStart(host, TrimSpace(workspace), q, scope, views, row);
    FinishedWalkIsComplete(host, project, workspace, q, scope, views, pages, KeyOf(row));
  }

  // ---------- termination ----------

  lemma {:induction false} TruncatedPagesAreFull(host: Host, project: Projection, workspace: string, q: Query,
                                                 scope: DataScope, views: seq<View>, pages: seq<QueryResult>)
    requires WellBehaved(host, project)
    requires Walk(host, project, workspace, q, scope, views, pages)
    requires forall i :: 0 <= i < |pages| ==> pages[i].truncated
    ensures |AllKeys(pages)| == |pages| * PageSize(BUSINESS, q.limit)
  {
    hide QueryPage, WellBehaved, PageSize, ItemKeys;
    if pages != [] {
      var n, size := |pages| - 1, PageSize(BUSINESS, q.limit);
      assert |pages| * size == n * size + size;
      WalkPrefix(host, project, workspace, q, scope, views, pages, n);
      TruncatedPagesAreFull(host, project, workspace, q, scope, views[..n], pages[..n]);
      FullPage(host, project, workspace, q, scope, views, pages);
    }
  }

  lemma {:induction false} FullPage(host: Host, project: Projection, workspace: string, q: Query, scope: DataScope,
                                    views: seq<View>, pages: seq<QueryResult>)
    requires WellBehaved(host, project) && |pages| > 0 && pages[|pages| - 1].truncated
    requires Walk(host, project, workspace, q, scope, views, pages)
    ensures |ItemKeys(pages[|pages| - 1].items)| == PageSize(BUSINESS, q.limit)
  {
    hide PageMatches, KeyLess, QueryCursor, WellBehaved, ListRows, ItemKeys, ItemsOf;
    var n := |pages| - 1;
    LastPage(host, project, workspace, q, scope, views, pages);
    var asked := q.(cursor := CursorAt(q, pages, n));
    var plan, _, _ := PageParts(host, project, views[n].rows, workspace, BUSINESS, asked, scope, views[n].now,
                                pages[n]);
    assert pages[n].pageSize == plan.pageSize;
  }

  // A walk ends: it announces a next page at most (rows of a table) / (page size) times, for any table
  // that has the keys of all rows still awaited when their page is asked for.
  lemma {:induction false} WalkIsBounded(host: Host, project: Projection, workspace: string, q: Query,
                                         scope: DataScope, views: seq<View>, pages: seq<QueryResult>, table: seq<Row>)
    requires WellBehaved(host, project)
    requires Walk(host, project, workspace, q, scope, views, pages)
    requires forall i :: 0 <= i < |pages| ==> pages[i].truncated
    requires forall i, x :: 0 <= i < |views| && Awaited(host, workspace, q, scope, views, pages, i, x) ==>
               exists y :: y in table && KeyOf(y) == KeyOf(x)
    ensures 1 <= PageSize(BUSINESS, q.limit) && |pages| * PageSize(BUSINESS, q.limit) <= |table|
  {
    hide QueryPage, PageMatches, KeyLess, QueryCursor, WellBehaved, Walk, Awaited;
    TruncatedPagesAreFull(host, project, workspace, q, scope, views, pages);
    WalkIsDescending(host, project, workspace, q, scope, views, pages);
    forall k | k in AllKeys(pages)
      ensures exists y :: y in table && KeyOf(y) == k
    {
      WalkShowsOnlyMatches(host, project, workspace, q, scope, views, pages, k);
    }
    DistinctKeysFit(AllKeys(pages), table);
  }

  // A growing log: events appended after the first page that sort above what has been shown by the time
  // a page is asked for add no page. The walk is bounded by the first page's table, however long the log
  // becomes.
  lemma {:induction false} NewerAppendsAddNoPages(host: Host, project: Projection, workspace: string, q: Query,
                                                  scope: DataScope, views: seq<View>, pages: seq<QueryResult>)
    requires WellBehaved(host, project) && |pages| > 0
    requires Walk(host, project, workspace, q, scope, views, pages)
    requires forall i :: 0 <= i < |pages| ==> pages[i].truncated
    requires forall i :: 0 <= i < |views| ==> views[0].rows <= views[i].rows
    requires forall i, r :: 0 <= i < |views| && |views[0].rows| <= r < |views[i].rows| ==>
               i <= |pages| && !Past(Start(host, q, pages[..i]), views[i].rows[r])
    ensures |pages| * PageSize(BUSINESS, q.limit) <= |views[0].rows|
  {
    hide QueryPage, PageMatches, KeyLess, QueryCursor, WellBehaved, Walk, Past, Start;
    WalkShape(host, project, workspace, q, scope, views, pages);
    forall i, x | 0 <= i < |views| && Awaited(host, workspace, q, scope, views, pages, i, x)
      ensures x in views[0].rows
    {
      var r :| 0 <= r < |views[i].rows| && views[i].rows[r] == x;
    }
    WalkIsBounded(host, project, workspace, q, scope, views, pages, views[0].rows);
  }

  // ---------- the measure ----------

  // How many rows of the workspace carry one of these keys.
  function CountKeys(rows: seq<Row>, workspace: string, keys: seq<Key>): nat {
    if rows == [] then 0
    else
      (if rows[0].workspace == workspace && KeyOf(rows[0]) in keys then 1 else 0) +
      CountKeys(rows[1..], workspace, keys)
  }

  lemma {:induction false} CountWithout(rows: seq<Row>, workspace: string, keys: seq<Key>, i: nat)
    requires i < |keys| && Descending(keys)
    requires forall x :: x in rows && x.workspace == workspace ==> KeyOf(x) != keys[i]
    ensures CountKeys(rows, workspace, keys) == CountKeys(rows, workspace, keys[..i] + keys[i + 1..])
  {
    hide KeyLess;
    if rows != [] {
      CountWithout(rows[1..], workspace, keys, i);
      var k := KeyOf(rows[0]);
      if rows[0].workspace == workspace && k in keys {
        var j :| 0 <= j < |keys| && keys[j] == k;
        assert j != i;
        assert (keys[..i] + keys[i + 1..])[if j < i then j else j - 1] == k;
      }
    }
  }

  lemma {:induction false} WithoutDescending(keys: seq<Key>, i: nat)
    requires i < |keys| && Descending(keys)
    ensures Descending(keys[..i] + keys[i + 1..])
    ensures forall k :: k in keys[..i] + keys[i + 1..] ==> k in keys && k != keys[i]
  {
    hide KeyLess;
    var rest := keys[..i] + keys[i + 1..];
    forall a, b | 0 <= a < b < |rest|
      ensures KeyLess(rest[b], rest[a])
    {
      assert rest[a] == keys[if a < i then a else a + 1] && rest[b] == keys[if b < i then b else b + 1];
    }
    forall k | k in rest
      ensures k in keys && k != keys[i]
    {
      var a :| 0 <= a < |rest| && rest[a] == k;
      KeyLessTotal(k, k);
      assert a < i ==> KeyLess(keys[i], keys[a]);
      assert a >= i ==> KeyLess(keys[a + 1], keys[i]);
    }
  }

  // Keys are unique in a workspace, so distinct keys of its rows are carried by as many rows.
  lemma {:induction false} KeysAreCounted(rows: seq<Row>, workspace: string, keys: seq<Key>)
    requires UniqueKeys(rows) && Descending(keys)
    requires forall k :: k in keys ==> exists x :: x in rows && x.workspace == workspace && KeyOf(x) == k
    ensures CountKeys(rows, workspace, keys) == |keys|
  {
    hide KeyLess, KeyOf;
    if rows == [] {
      DistinctKeysFit(keys, rows);
    } else {
      var tail := rows[1..];
      forall i, j | 0 <= i < j < |tail|
        ensures !SameKey(tail[i], tail[j])
      {
        assert !SameKey(rows[i + 1], rows[j + 1]);
      }
      if rows[0].workspace == workspace && KeyOf(rows[0]) in keys {
        var i :| 0 <= i < |keys| && keys[i] == KeyOf(rows[0]);
        var rest := keys[..i] + keys[i + 1..];
        OnlyOnce(rows, workspace);
        WithoutDescending(keys, i);
        CountWithout(tail, workspace, keys, i);
        forall k | k in rest
          ensures exists x :: x in rows && x.workspace == workspace && KeyOf(x) == k
        {
          assert k in keys;
        }
        InTail(rows, workspace, rest);
        KeysAreCounted(tail, workspace, rest);
      } else {
        InTail(rows, workspace, keys);
        KeysAreCounted(tail, workspace, keys);
      }
    }
  }

  lemma {:induction false} InTail(rows: seq<Row>, workspace: string, keys: seq<Key>)
    requires rows != [] && (rows[0].workspace != workspace || KeyOf(rows[0]) !in keys)
    requires forall k :: k in keys ==> exists x :: x in rows && x.workspace == workspace && KeyOf(x) == k
    ensures forall k :: k in keys ==> exists x :: x in rows[1..] && x.workspace == workspace && KeyOf(x) == k
  {
    hide KeyOf;
    forall k | k in keys
      ensures exists x :: x in rows[1..] && x.workspace == workspace && KeyOf(x) == k
    {
      var x :| x in rows && x.workspace == workspace && KeyOf(x) == k;
      assert x in rows[1..];
    }
  }

  lemma {:induction false} OnlyOnce(rows: seq<Row>, workspace: string)
    requires UniqueKeys(rows) && rows != [] && rows[0].workspace == workspace
    ensures forall x :: x in rows[1..] && x.workspace == workspace ==> KeyOf(x) != KeyOf(rows[0])
  {
    forall x | x in rows[1..] && x.workspace == workspace
      ensures KeyOf(x) != KeyOf(rows[0])
    {
      var i :| 0 <= i < |rows[1..]| && rows[1..][i] == x;
      assert !SameKey(rows[0], rows[i + 1]);
    }
  }

  // Rows past one key, and rows between two.
  lemma {:induction false} CountSplits(host: Host, rows: seq<Row>, workspace: string, kind: string, q: Query,
                                       scope: DataScope, now: int, cursor: Option<Key>, next: Key, keys: seq<Key>)
    requires forall x :: x in rows && x.workspace == workspace ==>
               ((PageMatches(host, kind, q, scope, now, x) && Past(cursor, x)) <==>
                ((PageMatches(host, kind, q, scope, now, x) && Past(Some(next), x)) || KeyOf(x) in keys))
    requires forall x :: x in rows && KeyOf(x) in keys ==> !Past(Some(next), x)
    ensures MatchCount(host, rows, workspace, kind, q, scope, now, cursor) ==
            MatchCount(host, rows, workspace, kind, q, scope, now, Some(next)) + CountKeys(rows, workspace, keys)
  {
    hide PageMatches, Past, KeyOf;
    if rows != [] {
      assert forall x :: x in rows[1..] ==> x in rows;
      CountSplits(host, rows[1..], workspace, kind, q, scope, now, cursor, next, keys);
      assert rows[0] in rows;
    }
  }

  lemma {:induction false} NotPastLast(keys: seq<Key>, x: Row)
    requires Descending(keys) && KeyOf(x) in keys
    ensures !Past(Some(keys[|keys| - 1]), x)
  {
    hide KeyLess;
    var last := keys[|keys| - 1];
    var i :| 0 <= i < |keys| && keys[i] == KeyOf(x);
    if KeyLess(KeyOf(x), last) {
      if i < |keys| - 1 {
        KeyLessTransitive(last, KeyOf(x), last);
      }
      KeyLessTotal(last, last);
    }
  }

  lemma {:induction false} SameKeySameRow(rows: seq<Row>, x: Row, y: Row)
    requires UniqueKeys(rows) && x in rows && y in rows && x.workspace == y.workspace && KeyOf(x) == KeyOf(y)
    ensures x == y
  {
    var i :| 0 <= i < |rows| && rows[i] == x;
    var j :| 0 <= j < |rows| && rows[j] == y;
    assert SameKey(x, y) && SameKey(y, x);
    assert !(i < j) && !(j < i);
  }

  // What is past the cursor is on the page or past its last item.
  lemma {:induction false} PageSplits(host: Host, rows: seq<Row>, workspace: string, q: Query, scope: DataScope,
                                      now: int, cursor: Option<Key>, page: QueryResult, x: Row)
    requires UniqueKeys(rows) && PageShows(host, rows, workspace, BUSINESS, q, scope, now, cursor, page) &&
             page.truncated
    requires x in rows && x.workspace == workspace
    ensures var keys := ItemKeys(page.items);
            (PageMatches(host, BUSINESS, q, scope, now, x) && Past(cursor, x)) <==>
            ((PageMatches(host, BUSINESS, q, scope, now, x) && Past(Some(keys[|keys| - 1]), x)) || KeyOf(x) in keys)
  {
    hide PageMatches, KeyLess, ItemKeys;
    var keys := ItemKeys(page.items);
    var next := keys[|keys| - 1];
    assert next in keys;
    if KeyOf(x) in keys {
      var y :| y in rows && y.workspace == workspace && PageMatches(host, BUSINESS, q, scope, now, y) &&
        Past(cursor, y) &&
               KeyOf(y) == KeyOf(x);
      SameKeySameRow(rows, x, y);
    } else if Past(Some(next), x) && cursor.Some? {
      var y :| y in rows && y.workspace == workspace && PageMatches(host, BUSINESS, q, scope, now, y) &&
        Past(cursor, y) &&
               KeyOf(y) == next;
      KeyLessTransitive(KeyOf(x), next, cursor.value);
    }
  }

  // In the query path too, every event shown is at or after the retention cutoff of its page.
  lemma {:induction false} ShownIsRetained(host: Host, kind: string, q: Query, scope: DataScope, now: int, row: Row)
    requires PlainBound(q.createdFrom) && Rfc3339.Writable(now - RetentionDays(kind) * DAY)
    requires PageMatches(host, kind, q, scope, now, row)
    ensures AtMost(Rfc3339.Format(now - RetentionDays(kind) * DAY), row.createdAt)
  {
    hide Rfc3339.Format, Rfc3339.Parse, Less, FilterMatches, Rfc3339.Writable;
    var cutoff := now - RetentionDays(kind) * DAY;
    Rfc3339.FormatIsTrimmed(cutoff);
    Rfc3339.FormatNanoLength(cutoff);
    if EffectiveFrom(q.createdFrom, cutoff) == q.createdFrom {
      var parsed := Rfc3339.Parse(TrimSpace(q.createdFrom));
      if parsed.Some? {
        var s :| Rfc3339.Writable(s) && TrimSpace(q.createdFrom) == Rfc3339.Format(s);
        Rfc3339.ParseFormat(s);
        Rfc3339.FormatOrder(cutoff, s);
        Rfc3339.FormatNanoLength(s);
        if cutoff / Rfc3339.NANOS <= s / Rfc3339.NANOS {
          LessTotal(Rfc3339.Format(cutoff), Rfc3339.Format(s));
          AtMostTransitive(Rfc3339.Format(cutoff), Rfc3339.Format(s), row.createdAt);
        }
      }
    }
  }

  // The measure: what matches past the cursor drops by exactly the page size with every page that
  // announces a next one.
  lemma {:induction false} PageConsumes(host: Host, project: Projection, rows: seq<Row>, workspace: string, q: Query,
                                        scope: DataScope, now: int, page: QueryResult)
    requires WellBehaved(host, project) && UniqueKeys(rows) && page.truncated
    requires QueryPage(host, project, rows, workspace, BUSINESS, q, scope, now) == Success(page)
    ensures QueryCursor(host, q).Success? && host.decodeCursor(page.nextCursor).Some?
    ensures var next := host.decodeCursor(page.nextCursor);
            MatchCount(host, rows, TrimSpace(workspace), BUSINESS, q, scope, now, QueryCursor(host, q).value) ==
            MatchCount(host, rows, TrimSpace(workspace), BUSINESS, q, scope, now, next) + page.pageSize
  {
    hide QueryPage, PageMatches, QueryCursor, WellBehaved, ItemKeys, KeyLess;
    PageIsNewestMatches(host, project, rows, workspace, BUSINESS, q, scope, now, page);
    var cursor, trimmed, keys := QueryCursor(host, q).value, TrimSpace(workspace), ItemKeys(page.items);
    var next := keys[|keys| - 1];
    forall x | x in rows && x.workspace == trimmed
      ensures (PageMatches(host, BUSINESS, q, scope, now, x) && Past(cursor, x)) <==>
              ((PageMatches(host, BUSINESS, q, scope, now, x) && Past(Some(next), x)) || KeyOf(x) in keys)
    {
      PageSplits(host, rows, trimmed, q, scope, now, cursor, page, x);
    }
    forall x | x in rows && KeyOf(x) in keys
      ensures !Past(Some(next), x)
    {
      NotPastLast(keys, x);
    }
    CountSplits(host, rows, trimmed, BUSINESS, q, scope, now, cursor, next, keys);
    KeysAreCounted(rows, trimmed, keys);
  }
}
