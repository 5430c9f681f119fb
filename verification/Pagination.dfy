// Following NextCursor page by page while the event table changes and the retention cutoff moves.
module Pagination {
  import opened Wrappers
  import opened Text
  import opened DataScopes
  import opened EventTable
  import opened EventClass
  import opened EventOrder
  import opened EventQuery
  import ScopeSql
  import Rfc3339

  // ---------- what is taken from the SDKs ----------

  // A cursor is non-blank text without surrounding space that decodes to the key it was made from.
  ghost predicate CodecRoundTrips(host: Host) {
    forall k :: host.decodeCursor(host.encodeCursor(k)) == Some(k) && Trimmed(host.encodeCursor(k)) &&
                host.encodeCursor(k) != ""
  }

  ghost predicate ClassifierAgrees(host: Host) {
    forall row :: host.classify(row) == ClassOf(host.markers, row)
  }

  // Unless it refuses, field projection keeps length, order, ids, times and classes.
  ghost predicate ProjectionKeeps(host: Host, project: Projection) {
    (forall rows :: project(rows).Success? ==> |project(rows).value| == |rows|) &&
    (forall rows, i :: project(rows).Success? && 0 <= i < |project(rows).value| && i < |rows| ==>
       KeyOf(project(rows).value[i]) == KeyOf(rows[i]) &&
       host.classify(project(rows).value[i]) == host.classify(rows[i]))
  }

  ghost predicate WellBehaved(host: Host, project: Projection) {
    CodecRoundTrips(host) && ClassifierAgrees(host) && ProjectionKeeps(host, project)
  }

  // ---------- one page ----------

  function ItemKeys(items: seq<QueryEvent>): (r: seq<Key>)
    ensures |r| == |items|
    ensures forall i :: 0 <= i < |items| ==> r[i] == Key(items[i].createdAt, items[i].id)
  {
    seq(|items|, i requires 0 <= i < |items| => Key(items[i].createdAt, items[i].id))
  }

  lemma {:induction false} ItemKeyIsRowKey(host: Host, row: Row)
    ensures Key(ItemOf(host, row).createdAt, ItemOf(host, row).id) == KeyOf(row)
  {
  }

  lemma {:induction false} ItemsKeepAll(host: Host, rows: seq<Row>, kind: string)
    requires forall i :: 0 <= i < |rows| ==> host.classify(rows[i]) == kind
    ensures ItemKeys(ItemsOf(host, rows, kind)) == Keys(rows)
  {
    hide ItemOf;
    if rows != [] {
      var n := |rows| - 1;
      ItemsKeepAll(host, rows[..n], kind);
      ItemKeyIsRowKey(host, rows[n]);
      assert ItemsOf(host, rows, kind) == ItemsOf(host, rows[..n], kind) + [ItemOf(host, rows[n])];
      assert Keys(rows) == Keys(rows[..n]) + [KeyOf(rows[n])];
    }
  }

  // The rows a page of this kind is about, its cursor left aside.
  ghost predicate PageMatches(host: Host, kind: string, q: Query, scope: DataScope, now: int, row: Row) {
    FilterMatches(host, q.(class_ := kind), scope, row) &&
    FromMatches(EffectiveFrom(q.createdFrom, now - RetentionDays(kind) * DAY), row)
  }

  // The same, field by field.
  lemma {:induction false} PageMatchesInFull(host: Host, kind: string, q: Query, scope: DataScope, now: int, row: Row)
    requires kind in {"business", "governance", "operations"}
    ensures var days := if kind == "business" then 365 else if kind == "governance" then 2555 else 90;
            var cutoff := now - days * 86_400 * 1_000_000_000;
            var given := Rfc3339.Parse(TrimSpace(q.createdFrom));
            var from := TrimSpace(if given.Some? &&
                                  cutoff <= given.value then q.createdFrom else Rfc3339.Format(cutoff));
            PageMatches(host, kind, q, scope, now, row) <==>
            && (TrimSpace(q.objectKey) == "" || row.objectKey == TrimSpace(q.objectKey))
            && (TrimSpace(q.recordID) == "" || row.recordID == TrimSpace(q.recordID))
            && (TrimSpace(q.event) == "" || row.event == TrimSpace(q.event))
            && (TrimSpace(q.actorID) == "" || row.actorID == TrimSpace(q.actorID))
            && (TrimSpace(q.roleKey) == "" || row.roleKey == TrimSpace(q.roleKey))
            && (TrimSpace(q.requestID) == "" ||
                Contains(row.metadata, "\"request_id\":" + host.jsonText(TrimSpace(q.requestID))))
            && (from == "" || AtMost(from, row.createdAt))
            && (TrimSpace(q.createdTo) == "" || AtMost(row.createdAt, TrimSpace(q.createdTo)))
            && ClassOf(host.markers, row) == kind
            && (scope.all || ScopeSql.Lists(scope.subjectIDs, row.actorID) ||
                (row.actorOrg.Some? && ScopeSql.Lists(scope.organizationIDs, row.actorOrg.value)))
  {
    hide TrimSpace, Rfc3339.Parse, Rfc3339.Format, Contains, ClassOf, Less, ScopeSql.Lists;
    KindIsTrimmed(kind);
  }

  ghost predicate Past(cursor: Option<Key>, row: Row) {
    cursor.None? || KeyLess(KeyOf(row), cursor.value)
  }

  // What one page shows, in terms of the table alone.
  ghost predicate PageShows(host: Host, rows: seq<Row>, workspace: string, kind: string, q: Query, scope: DataScope,
                            now: int, cursor: Option<Key>, page: QueryResult) {
    var keys := ItemKeys(page.items);
    && Descending(keys) && page.count == |keys| && page.count <= page.pageSize
    && (forall k :: k in keys ==>
          exists x :: x in rows && x.workspace == workspace && PageMatches(host, kind, q, scope, now, x) &&
                      Past(cursor, x) && KeyOf(x) == k)
    && (forall x ::
          (x in rows && x.workspace == workspace && PageMatches(host, kind, q, scope, now, x) && Past(cursor, x) &&
           KeyOf(x) !in keys) ==>
          |keys| == page.pageSize && forall k :: k in keys ==> KeyLess(KeyOf(x), k))
    && (page.truncated ==> kind == BUSINESS)
    && (page.truncated ==>
          0 < |keys| == page.pageSize && host.decodeCursor(page.nextCursor) == Some(keys[|keys| - 1]) &&
          Trimmed(page.nextCursor) && page.nextCursor != "")
    && (kind == BUSINESS ==>
          (page.truncated <==>
             exists x :: x in rows && x.workspace == workspace && PageMatches(host, kind, q, scope, now, x) &&
                         Past(cursor, x) && KeyOf(x) !in keys))
  }

  // The pieces a successful page is made of.
  lemma {:induction false} PageParts(host: Host, project: Projection, rows: seq<Row>, workspace: string, kind: string,
                                     q: Query, scope: DataScope, now: int, page: QueryResult)
    returns (plan: QueryPlan, cursor: Option<Key>, listed: seq<Row>)
    requires QueryPage(host, project, rows, workspace, kind, q, scope, now) == Success(page)
    ensures PlanOf(host, kind, q, now) == Success(plan) && QueryCursor(host, q) == Success(cursor)
    ensures ListRows(host, rows, Some(TrimSpace(workspace)), plan.query, Normalized(scope)) == Success(listed)
    ensures project(listed).Success? && page == ResultOf(host, project(listed).value, plan)
    ensures kind in {BUSINESS, GOVERNANCE, OPERATIONS} && plan.kind == kind && 1 <= plan.pageSize
    ensures ClampedLimit(plan.query.limit) == plan.pageSize + (if kind == BUSINESS then 1 else 0)
    ensures plan.query == q.(createdFrom := EffectiveFrom(q.createdFrom, now - RetentionDays(kind) * DAY),
                             limit := plan.query.limit, class_ := kind)
  {
    hide ListRows, ResultOf, EffectiveFrom;
    plan := PlanOf(host, kind, q, now).value;
    listed := ListRows(host, rows, Some(TrimSpace(workspace)), plan.query, Normalized(scope)).value;
    PlanBoundsPages(host, kind, q, now);
    assert QueryCursor(host, plan.query) == QueryCursor(host, q);
    assert QueryCursor(host, q).Success? by {
      ListNeedsCursor(host, rows, Some(TrimSpace(workspace)), plan.query, Normalized(scope));
    }
    cursor := QueryCursor(host, q).value;
  }

  lemma {:induction false} ListNeedsCursor(host: Host, rows: seq<Row>, workspace: Option<string>, q: Query,
                                           scope: DataScope)
    ensures ListRows(host, rows, workspace, q, scope).Success? <==> QueryCursor(host, q).Success?
  {
  }

  lemma {:induction false} MatchesOfPlan(host: Host, kind: string, q: Query, planned: Query, scope: DataScope,
                                         now: int, cursor: Option<Key>, row: Row)
    requires planned == q.(createdFrom := EffectiveFrom(q.createdFrom, now - RetentionDays(kind) * DAY),
                           limit := planned.limit, class_ := kind)
    ensures Matches(host, planned, Normalized(scope), cursor, row) <==>
            PageMatches(host, kind, q, scope, now, row) && Past(cursor, row)
  {
    hide ClassMatches, FieldMatches, EffectiveFrom, FromMatches, ToMatches, Contains, RequestIDText, TrimSpace, KeyLess;
    ScopeSql.CoversNormalized(scope, row.actorID, row.actorOrg);
  }

  // With a classifier that agrees and a projection that keeps classes the post-filter drops nothing.
  lemma {:induction false} ItemsAreTheListing(host: Host, project: Projection, listed: seq<Row>, plan: QueryPlan)
    requires WellBehaved(host, project) && 1 <= plan.pageSize && project(listed).Success?
    requires forall x :: x in listed ==> ClassOf(host.markers, x) == plan.kind
    ensures ItemKeys(ResultOf(host, project(listed).value, plan).items) == Keys(PageRows(listed, plan))
    ensures ResultOf(host, project(listed).value, plan).truncated == Truncates(listed, plan)
    ensures Truncates(listed, plan) ==>
              ResultOf(host, project(listed).value,
                       plan).nextCursor == host.encodeCursor(KeyOf(listed[plan.pageSize - 1]))
  {
    hide ClassOf;
    var projected := project(listed).value;
    var shown := PageRows(projected, plan);
    assert |projected| == |listed|;
    forall i | 0 <= i < |shown|
      ensures KeyOf(shown[i]) == KeyOf(listed[i]) && host.classify(shown[i]) == plan.kind
    {
      assert shown[i] == projected[i] && listed[i] in listed;
      assert host.classify(listed[i]) == ClassOf(host.markers, listed[i]);
    }
    ItemsKeepAll(host, shown, plan.kind);
    assert Keys(shown) == Keys(PageRows(listed, plan));
  }

  lemma {:induction false} PrefixKeepsOrder(listed: seq<Row>, n: nat)
    requires Descending(Keys(listed)) && n <= |listed|
    ensures Descending(Keys(listed[..n]))
    ensures forall i, k :: 0 <= k < n <= i < |listed| ==> KeyLess(KeyOf(listed[i]), KeyOf(listed[k]))
  {
    forall i, j | 0 <= i < j < n
      ensures KeyLess(Keys(listed[..n])[j], Keys(listed[..n])[i])
    {
      assert KeyLess(Keys(listed)[j], Keys(listed)[i]);
    }
    forall i, k | 0 <= k < n <= i < |listed|
      ensures KeyLess(KeyOf(listed[i]), KeyOf(listed[k]))
    {
      assert KeyLess(Keys(listed)[i], Keys(listed)[k]);
    }
  }

  // A row missing from the listing leaves the page full and sorts below it.
  lemma {:induction false} PageOfListing(host: Host, listed: seq<Row>, plan: QueryPlan, limit: nat, below: Row)
    requires 1 <= plan.pageSize && limit == plan.pageSize + (if plan.kind == BUSINESS then 1 else 0)
    requires Descending(Keys(listed)) && |listed| <= limit
    requires below !in listed ==> |listed| == limit && forall y :: y in listed ==> KeyLess(KeyOf(below), KeyOf(y))
    ensures var shown := Keys(PageRows(listed, plan));
            && Descending(shown) && |shown| <= plan.pageSize && (Truncates(listed, plan) ==> |shown| == plan.pageSize)
            && (KeyOf(below) !in shown ==>
                  |shown| == plan.pageSize && (forall k :: k in shown ==> KeyLess(KeyOf(below), k)) &&
                  (plan.kind == BUSINESS ==> Truncates(listed, plan)))
  {
    hide KeyLess;
    var page := PageRows(listed, plan);
    PrefixKeepsOrder(listed, |page|);
    assert page == listed[..|page|];
    if KeyOf(below) !in Keys(page) {
      if below in listed {
        var i :| 0 <= i < |listed| && listed[i] == below;
        assert forall j :: 0 <= j < |page| ==> Keys(page)[j] in Keys(page) && Keys(page)[j] == KeyOf(listed[j]);
        assert i >= |page|;
      }
      forall k | k in Keys(page)
        ensures KeyLess(KeyOf(below), k)
      {
        var j :| 0 <= j < |page| && Keys(page)[j] == k;
        assert page[j] == listed[j] && listed[j] in listed;
      }
    }
  }

  // One page, end to end: plan, listing, projection and result together show the newest matching rows
  // past the cursor, and truncation is announced exactly when something is left.
  lemma {:induction false} PageIsNewestMatches(host: Host, project: Projection, rows: seq<Row>, workspace: string,
                                               kind: string, q: Query, scope: DataScope, now: int, page: QueryResult)
    requires WellBehaved(host, project) && UniqueKeys(rows)
    requires QueryPage(host, project, rows, workspace, kind, q, scope, now) == Success(page)
    ensures QueryCursor(host, q).Success?
    ensures PageShows(host, rows, TrimSpace(workspace), kind, q, scope, now, QueryCursor(host, q).value, page)
  {
    hide ResultOf, PageMatches, Matches, ListRows, QueryCursor, PlanOf, KeyLess, ClassOf, ItemsOf;
    var plan, cursor, listed := PageParts(host, project, rows, workspace, kind, q, scope, now, page);
    var trimmed := TrimSpace(workspace);
    CursorOfPlan(host, q, plan.query);
    ListIsNewestMatches(host, rows, trimmed, plan.query, Normalized(scope), cursor);
    forall x
      ensures Matches(host, plan.query, Normalized(scope), cursor, x) <==>
              PageMatches(host, kind, q, scope, now, x) && Past(cursor, x)
    {
      MatchesOfPlan(host, kind, q, plan.query, scope, now, cursor, x);
    }
    forall x | x in listed
      ensures ClassOf(host.markers, x) == kind
    {
      ListedClass(host, kind, q, scope, now, x);
    }
    ItemsAreTheListing(host, project, listed, plan);
    PageFromListing(host, project, rows, trimmed, kind, q, scope, now, plan, cursor, listed, page);
  }

  lemma {:induction false} CursorOfPlan(host: Host, q: Query, planned: Query)
    requires planned.cursor == q.cursor
    ensures QueryCursor(host, planned) == QueryCursor(host, q)
  {
  }

  lemma {:induction false} ListedClass(host: Host, kind: string, q: Query, scope: DataScope, now: int, row: Row)
    requires kind in {BUSINESS, GOVERNANCE, OPERATIONS} && PageMatches(host, kind, q, scope, now, row)
    ensures ClassOf(host.markers, row) == kind
  {
    hide ClassOf, Contains, FieldMatches, ToMatches, FromMatches, EffectiveFrom, RequestIDText, TrimSpace;
    KindIsTrimmed(kind);
    assert ClassMatches(host.markers, q.(class_ := kind).class_, row);
  }

  lemma {:induction false} KindIsTrimmed(kind: string)
    requires kind in {BUSINESS, GOVERNANCE, OPERATIONS}
    ensures TrimSpace(kind) == kind
  {
    assert Trimmed(BUSINESS) && Trimmed(GOVERNANCE) && Trimmed(OPERATIONS);
  }

  lemma {:induction false} PageCounts(host: Host, rows: seq<Row>, plan: QueryPlan)
    ensures var page := ResultOf(host, rows, plan);
            page.count == |ItemKeys(page.items)| && page.pageSize == plan.pageSize
  {
    hide ItemsOf;
  }

  lemma {:induction false} NextIsNotShown(listed: seq<Row>, n: nat, keys: seq<Key>)
    requires Descending(Keys(listed)) && n < |listed| && keys == Keys(listed[..n])
    ensures KeyOf(listed[n]) !in keys
  {
    hide KeyLess;
    PrefixKeepsOrder(listed, n);
    forall i | 0 <= i < |keys|
      ensures keys[i] != KeyOf(listed[n])
    {
      KeyLessTotal(keys[i], keys[i]);
    }
  }

  lemma {:induction false} PageFromListing(host: Host, project: Projection, rows: seq<Row>, workspace: string,
                                           kind: string, q: Query, scope: DataScope, now: int, plan: QueryPlan,
                                           cursor: Option<Key>, listed: seq<Row>, page: QueryResult)
    requires CodecRoundTrips(host) && plan.kind == kind && 1 <= plan.pageSize
    requires var limit := plan.pageSize + (if kind == BUSINESS then 1 else 0);
             && Descending(Keys(listed)) && |listed| <= limit
             && (forall x :: x in rows && x.workspace == workspace && PageMatches(host, kind, q, scope, now, x) &&
                             Past(cursor, x) && x !in listed ==>
                   |listed| == limit && forall y :: y in listed ==> KeyLess(KeyOf(x), KeyOf(y)))
    requires forall x :: x in listed ==>
               x in rows && x.workspace == workspace && PageMatches(host, kind, q, scope, now, x) && Past(cursor, x)
    requires project(listed).Success? && page == ResultOf(host, project(listed).value, plan)
    requires ItemKeys(page.items) == Keys(PageRows(listed, plan)) && page.truncated == Truncates(listed, plan)
    requires Truncates(listed, plan) ==> page.nextCursor == host.encodeCursor(KeyOf(listed[plan.pageSize - 1]))
    ensures PageShows(host, rows, workspace, kind, q, scope, now, cursor, page)
  {
    hide PageMatches, KeyLess, Past, ResultOf, ItemKeys, TrimSpace;
    PageCounts(host, project(listed).value, plan);
    var limit := plan.pageSize + (if kind == BUSINESS then 1 else 0);
    var shown := PageRows(listed, plan);
    var keys := ItemKeys(page.items);
    PrefixKeepsOrder(listed, |shown|);
    assert shown == listed[..|shown|];
    forall k | k in keys
      ensures exists x :: x in rows && x.workspace == workspace && PageMatches(host, kind, q, scope, now, x) &&
                          Past(cursor, x) && KeyOf(x) == k
    {
      var i :| 0 <= i < |keys| && keys[i] == k;
      assert shown[i] in listed && KeyOf(shown[i]) == k;
    }
    forall x | x in rows && x.workspace == workspace && PageMatches(host, kind, q, scope, now, x) && Past(cursor, x)
      ensures KeyOf(x) !in keys ==> |keys| == page.pageSize && forall k :: k in keys ==> KeyLess(KeyOf(x), k)
      ensures kind == BUSINESS && !page.truncated ==> KeyOf(x) in keys
    {
      PageOfListing(host, listed, plan, limit, x);
    }
    if page.truncated {
      var last := KeyOf(listed[plan.pageSize - 1]);
      assert keys[|keys| - 1] == last;
      assert host.decodeCursor(host.encodeCursor(last)) == Some(last);
      var next := listed[plan.pageSize];
      assert next in listed;
      NextIsNotShown(listed, |shown|, keys);
    }
  }
}
