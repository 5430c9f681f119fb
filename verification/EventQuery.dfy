// Planning a page, listing the rows, projecting the result.
module EventQuery {
  import opened Wrappers
  import opened Text
  import opened SqlQuery
  import opened DataScopes
  import opened EventTable
  import opened EventClass
  import opened EventOrder
  import LikePattern
  import ScopeSql
  import EventFacts
  import Rfc3339

  datatype Query = Query(event: string, objectKey: string, recordID: string, actorID: string, roleKey: string,
                         createdFrom: string, createdTo: string, requestID: string, class_: string,
                         cursor: string, limit: int)

  // What the module takes from its SDKs: the class markers and classifier, the cursor codec, JSON
  // encoding of one text, metadata lookup in JSON text, and secret redaction of JSON text.
  datatype Host = Host(markers: Markers, classify: Row -> string,
                       encodeCursor: Key -> string, decodeCursor: string -> Option<Key>,
                       jsonText: string -> string, lookup: (string, string) -> Option<string>,
                       redact: string -> string)

  // ---------- Store.list ----------

  function ClampedLimit(limit: int): nat {
    if limit <= 0 then 100 else if limit > 1000 then 1000 else limit
  }

  // addEqual: a clause only for a value that is not blank.
  function EqualIfGiven(column: Column, value: string): seq<Predicate> {
    if TrimSpace(value) == "" then [] else [Equal(Cell(column), TrimSpace(value))]
  }

  function OptionToSeq<T>(o: Option<T>): seq<T> {
    if o.Some? then [o.value] else []
  }

  function RequestIDText(host: Host, requestID: string): string {
    "\"request_id\":" + host.jsonText(TrimSpace(requestID))
  }

  function CursorPredicate(k: Key): Predicate {
    Or([LessThan(CreatedAt, k.createdAt), And([Equal(Cell(CreatedAt), k.createdAt), LessThan(Id, k.id)])])
  }

  function ListPredicates(host: Host, q: Query, scope: DataScope, cursor: Option<Key>): seq<Predicate> {
    EqualIfGiven(ObjectKey, q.objectKey) + EqualIfGiven(RecordID, q.recordID) + EqualIfGiven(EventName, q.event) +
    EqualIfGiven(ActorID, q.actorID) + EqualIfGiven(RoleKey, q.roleKey) +
    OptionToSeq(ClassPredicate(host.markers, TrimSpace(q.class_))) +
    (if TrimSpace(q.createdFrom) == "" then [] else [GreaterThanOrEqual(CreatedAt, TrimSpace(q.createdFrom))]) +
    (if TrimSpace(q.createdTo) == "" then [] else [LessThanOrEqual(CreatedAt, TrimSpace(q.createdTo))]) +
    (if TrimSpace(q.requestID) == "" then []
     else [Like(Cell(MetadataJSON), "%" + LikePattern.Escaped(RequestIDText(host, q.requestID)) + "%")]) +
    (if cursor.None? then [] else [CursorPredicate(cursor.value)]) +
    OptionToSeq(ScopeSql.EventScopePredicate(scope))
  }

  // None stands for the query across all workspaces.
  predicate SelectedRow(row: Row, workspace: Option<string>, ps: seq<Predicate>) {
    (workspace.None? || row.workspace == workspace.value) && forall p :: p in ps ==> Selects(p, CellsOf(row))
  }

  function Where(rows: seq<Row>, workspace: Option<string>, ps: seq<Predicate>): (r: seq<Row>)
    ensures forall x :: x in r <==> x in rows && SelectedRow(x, workspace, ps)
  {
    if rows == [] then []
    else (if SelectedRow(rows[0], workspace, ps) then [rows[0]] else []) + Where(rows[1..], workspace, ps)
  }

  // The decoded cursor of a query: no cursor, a key, or a malformed one.
  function QueryCursor(host: Host, q: Query): Result<Option<Key>, string> {
    if TrimSpace(q.cursor) == "" then Success(None)
    else
      var k := host.decodeCursor(TrimSpace(q.cursor));
      if k.None? then Failure("decode audit event cursor") else Success(Some(k.value))
  }

  function ListRows(host: Host, rows: seq<Row>, workspace: Option<string>, q: Query,
                    scope: DataScope): Result<seq<Row>, string> {
    var cursor := QueryCursor(host, q);
    if cursor.Failure? then Failure(cursor.error)
    else
      var ps := ListPredicates(host, q, scope, cursor.value);
      Success(Take(SortDescending(Where(rows, workspace, ps)), ClampedLimit(q.limit)))
  }

  // A blank cursor is none; any other is decoded without surrounding white space.
  lemma {:induction false} CursorInFull(host: Host, q: Query)
    ensures var text := TrimSpace(q.cursor);
            QueryCursor(host, q) ==
            if text == "" then Success(None)
            else if host.decodeCursor(text).Some? then Success(host.decodeCursor(text))
            else Failure("decode audit event cursor")
  {
    hide TrimSpace;
  }

  // ---------- what the WHERE clause means ----------

  predicate FieldMatches(wanted: string, actual: string) {
    TrimSpace(wanted) == "" || actual == TrimSpace(wanted)
  }

  ghost predicate ClassMatches(markers: Markers, wanted: string, row: Row) {
    TrimSpace(wanted) in {BUSINESS, GOVERNANCE, OPERATIONS} ==> ClassOf(markers, row) == TrimSpace(wanted)
  }

  predicate FromMatches(createdFrom: string, row: Row) {
    TrimSpace(createdFrom) == "" || AtMost(TrimSpace(createdFrom), row.createdAt)
  }

  predicate ToMatches(createdTo: string, row: Row) {
    TrimSpace(createdTo) == "" || AtMost(row.createdAt, TrimSpace(createdTo))
  }

  // Everything a query asks of a row except its lower time bound and its cursor.
  ghost predicate FilterMatches(host: Host, q: Query, scope: DataScope, row: Row) {
    && FieldMatches(q.objectKey, row.objectKey) && FieldMatches(q.recordID, row.recordID)
    && FieldMatches(q.event, row.event) && FieldMatches(q.actorID, row.actorID) && FieldMatches(q.roleKey, row.roleKey)
    && ClassMatches(host.markers, q.class_, row)
    && ToMatches(q.createdTo, row)
    && (TrimSpace(q.requestID) == "" || Contains(row.metadata, RequestIDText(host, q.requestID)))
    && ScopeSql.Covers(scope, row.actorID, row.actorOrg)
  }

  ghost predicate Matches(host: Host, q: Query, scope: DataScope, cursor: Option<Key>, row: Row) {
    FilterMatches(host, q, scope, row) && FromMatches(q.createdFrom, row) &&
    (cursor.None? || KeyLess(KeyOf(row), cursor.value))
  }

  ghost predicate All(ps: seq<Predicate>, row: Row) {
    forall p :: p in ps ==> Selects(p, CellsOf(row))
  }

  lemma {:induction false} AllAppend(a: seq<Predicate>, b: seq<Predicate>, row: Row)
    ensures All(a + b, row) <==> All(a, row) && All(b, row)
  {
    if All(a + b, row) {
      forall p | p in a || p in b
        ensures Selects(p, CellsOf(row))
      {
        assert p in a + b;
      }
    }
  }

  lemma {:induction false} AllSingle(p: Predicate, row: Row)
    ensures All([p], row) <==> Selects(p, CellsOf(row))
    ensures All([], row)
  {
    assert p in [p];
  }

  lemma {:induction false} EqualMeaning(column: Column, value: string, row: Row)
    requires CellsOf(row)(column).Some?
    ensures All(EqualIfGiven(column, value), row) <==> FieldMatches(value, CellsOf(row)(column).value)
  {
    AllSingle(Equal(Cell(column), TrimSpace(value)), row);
  }

  lemma {:induction false} ClassClauseMeaning(host: Host, wanted: string, row: Row)
    ensures All(OptionToSeq(ClassPredicate(host.markers, TrimSpace(wanted))), row) <==>
            ClassMatches(host.markers, wanted, row)
  {
    var p := ClassPredicate(host.markers, TrimSpace(wanted));
    if TrimSpace(wanted) in {BUSINESS, GOVERNANCE, OPERATIONS} {
      ClassMeaning(host.markers, TrimSpace(wanted), row);
      AllSingle(p.value, row);
    }
  }

  lemma {:induction false} TimeClauseMeaning(createdFrom: string, createdTo: string, row: Row)
    ensures All(if TrimSpace(createdFrom) == "" then [] else [GreaterThanOrEqual(CreatedAt, TrimSpace(createdFrom))],
                row) <==>
            FromMatches(createdFrom, row)
    ensures All(if TrimSpace(createdTo) == "" then [] else [LessThanOrEqual(CreatedAt, TrimSpace(createdTo))], row) <==>
            ToMatches(createdTo, row)
  {
    AllSingle(GreaterThanOrEqual(CreatedAt, TrimSpace(createdFrom)), row);
    AllSingle(LessThanOrEqual(CreatedAt, TrimSpace(createdTo)), row);
  }

  lemma {:induction false} RequestClauseMeaning(host: Host, requestID: string, row: Row)
    ensures All(if TrimSpace(requestID) == "" then []
                else [Like(Cell(MetadataJSON), "%" + LikePattern.Escaped(RequestIDText(host, requestID)) + "%")],
                  row) <==>
            TrimSpace(requestID) == "" || Contains(row.metadata, RequestIDText(host, requestID))
  {
    var text := RequestIDText(host, requestID);
    LikePattern.ContainsPattern(text, row.metadata);
    AllSingle(Like(Cell(MetadataJSON), "%" + LikePattern.Escaped(text) + "%"), row);
  }

  lemma {:induction false} CursorMeaning(k: Key, row: Row)
    ensures Selects(CursorPredicate(k), CellsOf(row)) <==> KeyLess(KeyOf(row), k)
  {
    var sameTime, smallerId := Equal(Cell(CreatedAt), k.createdAt), LessThan(Id, k.id);
    TwoClauses(sameTime, smallerId, CellsOf(row));
    TwoClauses(LessThan(CreatedAt, k.createdAt), And([sameTime, smallerId]), CellsOf(row));
  }

  lemma {:induction false} ScopeClauseMeaning(scope: DataScope, row: Row)
    ensures All(OptionToSeq(ScopeSql.EventScopePredicate(scope)), row) <==>
            ScopeSql.Covers(scope, row.actorID, row.actorOrg)
  {
    ScopeSql.EventScopeMeaning(scope, CellsOf(row));
    var p := ScopeSql.EventScopePredicate(scope);
    if p.Some? {
      AllSingle(p.value, row);
    }
  }

  lemma {:induction false} CursorClauseMeaning(cursor: Option<Key>, row: Row)
    ensures All(if cursor.None? then [] else [CursorPredicate(cursor.value)], row) <==>
            cursor.None? || KeyLess(KeyOf(row), cursor.value)
  {
    if cursor.Some? {
      AllSingle(CursorPredicate(cursor.value), row);
      CursorMeaning(cursor.value, row);
    }
  }

  // The compiled clauses select exactly the rows the query means.
  lemma {:induction false} ListPredicatesMeaning(host: Host, q: Query, scope: DataScope, cursor: Option<Key>, row: Row)
    ensures All(ListPredicates(host, q, scope, cursor), row) <==> Matches(host, q, scope, cursor, row)
  {
    hide CellsOf, EqualIfGiven, FieldMatches, ClassMatches, FromMatches, ToMatches, Contains, RequestIDText, KeyLess,
      CursorPredicate, OptionToSeq, TrimSpace, ScopeSql.Covers, ScopeSql.EventScopePredicate, ClassPredicate, All,
      LikePattern.Escaped;
    assert CellsOf(row)(ObjectKey) == Some(row.objectKey) && CellsOf(row)(RecordID) == Some(row.recordID) &&
           CellsOf(row)(EventName) == Some(row.event) && CellsOf(row)(ActorID) == Some(row.actorID) &&
           CellsOf(row)(RoleKey) == Some(row.roleKey) by { FieldCells(row); }
    var p1 := EqualIfGiven(ObjectKey, q.objectKey);
    var p2 := EqualIfGiven(RecordID, q.recordID);
    var p3 := EqualIfGiven(EventName, q.event);
    var p4 := EqualIfGiven(ActorID, q.actorID);
    var p5 := EqualIfGiven(RoleKey, q.roleKey);
    var p6 := OptionToSeq(ClassPredicate(host.markers, TrimSpace(q.class_)));
    var p7 := if TrimSpace(q.createdFrom) == "" then [] else [GreaterThanOrEqual(CreatedAt, TrimSpace(q.createdFrom))];
    var p8 := if TrimSpace(q.createdTo) == "" then [] else [LessThanOrEqual(CreatedAt, TrimSpace(q.createdTo))];
    var p9 := if TrimSpace(q.requestID) == "" then []
              else [Like(Cell(MetadataJSON), "%" + LikePattern.Escaped(RequestIDText(host, q.requestID)) + "%")];
    var p10 := if cursor.None? then [] else [CursorPredicate(cursor.value)];
    var p11 := OptionToSeq(ScopeSql.EventScopePredicate(scope));
    EqualMeaning(ObjectKey, q.objectKey, row);
    EqualMeaning(RecordID, q.recordID, row);
    EqualMeaning(EventName, q.event, row);
    EqualMeaning(ActorID, q.actorID, row);
    EqualMeaning(RoleKey, q.roleKey, row);
    ClassClauseMeaning(host, q.class_, row);
    TimeClauseMeaning(q.createdFrom, q.createdTo, row);
    RequestClauseMeaning(host, q.requestID, row);
    CursorClauseMeaning(cursor, row);
    ScopeClauseMeaning(scope, row);
    AllAppend(p1, p2, row);
    AllAppend(p1 + p2, p3, row);
    AllAppend(p1 + p2 + p3, p4, row);
    AllAppend(p1 + p2 + p3 + p4, p5, row);
    AllAppend(p1 + p2 + p3 + p4 + p5, p6, row);
    AllAppend(p1 + p2 + p3 + p4 + p5 + p6, p7, row);
    AllAppend(p1 + p2 + p3 + p4 + p5 + p6 + p7, p8, row);
    AllAppend(p1 + p2 + p3 + p4 + p5 + p6 + p7 + p8, p9, row);
    AllAppend(p1 + p2 + p3 + p4 + p5 + p6 + p7 + p8 + p9, p10, row);
    AllAppend(p1 + p2 + p3 + p4 + p5 + p6 + p7 + p8 + p9 + p10, p11, row);
  }

  lemma {:induction false} FieldCells(row: Row)
    ensures CellsOf(row)(ObjectKey) == Some(row.objectKey) && CellsOf(row)(RecordID) == Some(row.recordID)
    ensures CellsOf(row)(EventName) == Some(row.event) && CellsOf(row)(ActorID) == Some(row.actorID)
    ensures CellsOf(row)(RoleKey) == Some(row.roleKey)
  {
  }

  lemma {:induction false} WhereKeysDistinct(rows: seq<Row>, workspace: string, ps: seq<Predicate>)
    requires UniqueKeys(rows)
    ensures DistinctKeys(Where(rows, Some(workspace), ps))
  {
    if rows != [] {
      forall i, j | 0 <= i < j < |rows[1..]|
        ensures !SameKey(rows[1..][i], rows[1..][j])
      {
        assert !SameKey(rows[i + 1], rows[j + 1]);
      }
      WhereKeysDistinct(rows[1..], workspace, ps);
      var rest := Where(rows[1..], Some(workspace), ps);
      if SelectedRow(rows[0], Some(workspace), ps) {
        forall j | 0 <= j < |rest|
          ensures KeyOf(rows[0]) != KeyOf(rest[j])
        {
          assert rest[j] in rest;
          var k :| 0 <= k < |rows[1..]| && rows[1..][k] == rest[j];
          assert !SameKey(rows[0], rows[k + 1]);
        }
      }
    }
  }

  // A workspace listing is the newest part of what matches: in descending order, nothing foreign or
  // unmatched, and a matching row is missing only from a full listing that is newer throughout.
  lemma {:induction false} ListIsNewestMatches(host: Host, rows: seq<Row>, workspace: string, q: Query,
                                               scope: DataScope, cursor: Option<Key>)
    requires UniqueKeys(rows) && QueryCursor(host, q) == Success(cursor)
    ensures var listed := ListRows(host, rows, Some(workspace), q, scope);
            && listed.Success? && |listed.value| <= ClampedLimit(q.limit) && Descending(Keys(listed.value))
            && (forall x :: x in listed.value ==>
                  x in rows && x.workspace == workspace && Matches(host, q, scope, cursor, x))
            && (forall x ::
                  (x in rows && x.workspace == workspace && Matches(host, q, scope, cursor, x) &&
                   x !in listed.value) ==>
                  |listed.value| == ClampedLimit(q.limit) &&
                  forall y :: y in listed.value ==> KeyLess(KeyOf(x), KeyOf(y)))
  {
    hide ListPredicates, Matches, KeyLess;
    var ps := ListPredicates(host, q, scope, cursor);
    var selected := Where(rows, Some(workspace), ps);
    WhereKeysDistinct(rows, workspace, ps);
    TopOfSelection(selected, ClampedLimit(q.limit));
    forall x | x in rows && x.workspace == workspace
      ensures x in selected <==> Matches(host, q, scope, cursor, x)
    {
      ListPredicatesMeaning(host, q, scope, cursor, x);
      assert SelectedRow(x, Some(workspace), ps) <==> All(ps, x);
    }
    forall x | x in selected
      ensures x in rows && x.workspace == workspace
    {
      assert SelectedRow(x, Some(workspace), ps);
    }
  }

  // ---------- PlanQuery ----------

  const BUSINESS_MAX_PAGE_SIZE := 200
  const DAY := 86400 * Rfc3339.NANOS

  datatype QueryPlan = QueryPlan(kind: string, query: Query, pageSize: int, retentionClass: string, retentionDays: int)

  function RetentionDays(kind: string): int {
    if kind == BUSINESS then 365 else if kind == GOVERNANCE then 2555 else 90
  }

  function RetentionClass(kind: string): string {
    if kind == BUSINESS then "business_history"
    else if kind == GOVERNANCE then "tenant_governance"
    else "technical_security"
  }

  // The lower bound actually used: the caller's own when it parses and is inside the retention.
  function EffectiveFrom(createdFrom: string, cutoff: int): string {
    var parsed := Rfc3339.Parse(TrimSpace(createdFrom));
    if parsed.None? || parsed.value < cutoff then Rfc3339.Format(cutoff) else createdFrom
  }

  function PageSize(kind: string, limit: int): int {
    var capped := if kind == BUSINESS && limit > BUSINESS_MAX_PAGE_SIZE then BUSINESS_MAX_PAGE_SIZE else limit;
    if capped <= 0 || capped > 1000 then 200 else capped
  }

  function PlanOf(host: Host, kind: string, q: Query, now: int): Result<QueryPlan, string> {
    if kind !in {BUSINESS, GOVERNANCE, OPERATIONS} then Failure("unsupported audit event class")
    else if kind == BUSINESS && q.cursor != "" && host.decodeCursor(q.cursor).None? then Failure("audit cursor invalid")
    else
      var size := PageSize(kind, q.limit);
      var planned := q.(createdFrom := EffectiveFrom(q.createdFrom, now - RetentionDays(kind) * DAY),
                        limit := if kind == BUSINESS then size + 1 else size, class_ := kind);
      Success(QueryPlan(kind, planned, size, RetentionClass(kind), RetentionDays(kind)))
  }

  method PlanQuery(host: Host, kind: string, input: Query, now: int) returns (r: Result<QueryPlan, string>)
    ensures r == PlanOf(host, kind, input, now)
  {
    hide Rfc3339.Parse, Rfc3339.Format, TrimSpace;
    var query := input;
    var days, retention := 0, "";
    if kind == BUSINESS {
      days, retention := 365, "business_history";
      if query.limit > BUSINESS_MAX_PAGE_SIZE {
        query := query.(limit := BUSINESS_MAX_PAGE_SIZE);
      }
      if query.cursor != "" {
        var k := host.decodeCursor(query.cursor);
        if k.None? {
          return Failure("audit cursor invalid");
        }
      }
    } else if kind == GOVERNANCE {
      days, retention := 2555, "tenant_governance";
    } else if kind == OPERATIONS {
      days, retention := 90, "technical_security";
    } else {
      return Failure("unsupported audit event class");
    }
    var cutoff := now - days * DAY;
    var current := Rfc3339.Parse(TrimSpace(query.createdFrom));
    if current.None? || current.value < cutoff {
      query := query.(createdFrom := Rfc3339.Format(cutoff));
    }
    if query.limit <= 0 || query.limit > 1000 {
      query := query.(limit := 200);
    }
    var pageSize := query.limit;
    if kind == BUSINESS {
      query := query.(limit := pageSize + 1);
    }
    query := query.(class_ := kind);
    return Success(QueryPlan(kind, query, pageSize, retention, days));
  }

  // For every limit: 1 to 200 (business) or 1 to 1000 (others) rows a page, and the store's own clamp
  // takes away neither the page nor the lookahead row.
  lemma {:induction false} PlanBoundsPages(host: Host, kind: string, q: Query, now: int)
    requires PlanOf(host, kind, q, now).Success?
    ensures var plan := PlanOf(host, kind, q, now).value;
            && 1 <= plan.pageSize <= (if kind == BUSINESS then 200 else 1000)
            && (1 <= q.limit <= plan.pageSize ==> plan.pageSize == q.limit)
            && ClampedLimit(plan.query.limit) == plan.pageSize + (if kind == BUSINESS then 1 else 0)
  {
  }

  // A plan, field by field.
  lemma {:induction false} PlanInFull(host: Host, kind: string, q: Query, now: int)
    ensures var r := PlanOf(host, kind, q, now);
            var day := 86_400 * 1_000_000_000;
            var days := if kind == "business" then 365 else if kind == "governance" then 2555 else 90;
            && (r.Success? <==> kind == "governance" || kind == "operations" ||
                                (kind == "business" && (q.cursor == "" || host.decodeCursor(q.cursor).Some?)))
            && (r.Success? ==>
                  var plan := r.value;
                  && plan.kind == kind && plan.retentionDays == days
                  && plan.retentionClass == (if kind == "business" then "business_history"
                                             else if kind == "governance" then "tenant_governance"
                                             else "technical_security")
                  && plan.pageSize == (if q.limit <= 0 then 200
                                       else if kind == "business" && q.limit > 200 then 200
                                       else if q.limit > 1000 then 200
                                       else q.limit)
                  && plan.query.limit == plan.pageSize + (if kind == "business" then 1 else 0)
                  && plan.query.class_ == kind
                  && (plan.query.event, plan.query.objectKey, plan.query.recordID, plan.query.actorID,
                      plan.query.roleKey) ==
                     (q.event, q.objectKey, q.recordID, q.actorID, q.roleKey)
                  && (plan.query.createdTo, plan.query.requestID, plan.query.cursor) ==
                     (q.createdTo, q.requestID, q.cursor)
                  && var given := Rfc3339.Parse(TrimSpace(q.createdFrom));
                     plan.query.createdFrom ==
                     if given.Some? && now - days * day <= given.value then q.createdFrom
                     else Rfc3339.Format(now - days * day))
  {
    hide Rfc3339.Parse, Rfc3339.Format, TrimSpace;
  }

  // ---------- ProjectQuery ----------

  datatype QueryEvent = QueryEvent(id: string, event: string, objectKey: string, recordID: string, actorID: string,
                                   roleKey: string, requestID: string, result: string, reason: string, summary: string,
                                   createdAt: string, metadata: string, before: string, after: string)

  datatype QueryResult = QueryResult(items: seq<QueryEvent>, count: int, pageSize: int, truncated: bool,
                                     nextCursor: string, retentionClass: string, retentionDays: int)

  function ItemOf(host: Host, row: Row): QueryEvent {
    var metadata := host.redact(row.metadata);
    var facts := (key: string) => host.lookup(metadata, key);
    QueryEvent(row.id, row.event, row.objectKey, row.recordID, row.actorID, row.roleKey, EventFacts.RequestIDOf(facts),
               EventFacts.ResultOf(row.event, facts), EventFacts.ReasonOf(facts), row.summary, row.createdAt,
               metadata, host.redact(row.before), host.redact(row.after))
  }

  function ItemsOf(host: Host, rows: seq<Row>, kind: string): seq<QueryEvent> {
    if rows == [] then []
    else
      var last := rows[|rows| - 1];
      ItemsOf(host, rows[..|rows| - 1], kind) + if host.classify(last) == kind then [ItemOf(host, last)] else []
  }

  predicate Truncates(rows: seq<Row>, plan: QueryPlan) {
    plan.kind == BUSINESS && |rows| > plan.pageSize
  }

  function PageRows(rows: seq<Row>, plan: QueryPlan): seq<Row> {
    if Truncates(rows, plan) then Take(rows, plan.pageSize) else rows
  }

  function ResultOf(host: Host, rows: seq<Row>, plan: QueryPlan): QueryResult {
    var page := PageRows(rows, plan);
    var items := ItemsOf(host, page, plan.kind);
    var next := if Truncates(rows, plan) && |page| > 0 then host.encodeCursor(KeyOf(page[|page| - 1])) else "";
    QueryResult(items, |items|, plan.pageSize, Truncates(rows, plan), next, plan.retentionClass, plan.retentionDays)
  }

  method ProjectQuery(host: Host, input: seq<Row>, plan: QueryPlan) returns (r: QueryResult)
    requires 0 <= plan.pageSize
    ensures r == ResultOf(host, input, plan)
  {
    var events := input;
    var truncated := plan.kind == BUSINESS && |events| > plan.pageSize;
    if truncated {
      events := events[..plan.pageSize];
    }
    var next := "";
    if truncated && |events| > 0 {
      next := host.encodeCursor(KeyOf(events[|events| - 1]));
    }
    var items := [];
    for i := 0 to |events|
      invariant items == ItemsOf(host, events[..i], plan.kind)
    {
      assert events[..i + 1][..i] == events[..i];
      if host.classify(events[i]) != plan.kind {
        continue;
      }
      var metadata := host.redact(events[i].metadata);
      var facts := (key: string) => host.lookup(metadata, key);
      var result := EventFacts.ExportEventResult(events[i].event, facts);
      var reason := EventFacts.ExportEventReason(facts);
      var item := QueryEvent(events[i].id, events[i].event, events[i].objectKey, events[i].recordID, events[i].actorID,
                             events[i].roleKey, EventFacts.RequestIDOf(facts), result, reason, events[i].summary,
                             events[i].createdAt, metadata, host.redact(events[i].before),
                               host.redact(events[i].after));
      items := items + [item];
    }
    assert events[..|events|] == events;
    return QueryResult(items, |items|, plan.pageSize, truncated, next, plan.retentionClass, plan.retentionDays);
  }

  // ---------- one page, end to end ----------

  // The host's field projection of listed events, which may refuse.
  type Projection = seq<Row> -> Result<seq<Row>, string>

  function QueryPage(host: Host, project: Projection, rows: seq<Row>, workspace: string, kind: string, q: Query,
                     scope: DataScope, now: int): Result<QueryResult, string> {
    var plan :- PlanOf(host, kind, q, now);
    if TrimSpace(workspace) == "" then Failure("audit query workspace is required")
    else
      var events :- ListRows(host, rows, Some(TrimSpace(workspace)), plan.query, Normalized(scope));
      var projected :- project(events);
      Success(ResultOf(host, projected, plan))
  }

  lemma {:induction false} ItemHasRow(host: Host, rows: seq<Row>, kind: string, item: QueryEvent)
    requires item in ItemsOf(host, rows, kind)
    ensures exists x :: x in rows && host.classify(x) == kind && item == ItemOf(host, x)
  {
    hide ItemOf;
    var n := |rows| - 1;
    if item in ItemsOf(host, rows[..n], kind) {
      ItemHasRow(host, rows[..n], kind, item);
    } else {
      assert rows[n] in rows;
    }
  }

  lemma {:induction false} PageRowsAreRows(rows: seq<Row>, plan: QueryPlan)
    ensures forall x :: x in PageRows(rows, plan) ==> x in rows
  {
  }

  lemma {:induction false} ListedAreRows(host: Host, rows: seq<Row>, workspace: string, q: Query, scope: DataScope)
    requires ListRows(host, rows, Some(workspace), q, scope).Success?
    ensures forall x :: x in ListRows(host, rows, Some(workspace), q, scope).value ==>
              x in rows && x.workspace == workspace
  {
    hide ListPredicates, QueryCursor;
    var ps := ListPredicates(host, q, scope, QueryCursor(host, q).value);
    var selected := Where(rows, Some(workspace), ps);
    hide SelectedRow;
    forall x | x in ListRows(host, rows, Some(workspace), q, scope).value
      ensures x in rows && x.workspace == workspace
    {
      assert x in SortDescending(selected) && x in selected;
      OfWorkspace(x, workspace, ps);
    }
  }

  lemma {:induction false} OfWorkspace(row: Row, workspace: string, ps: seq<Predicate>)
    requires SelectedRow(row, Some(workspace), ps)
    ensures row.workspace == workspace
  {
  }

  // What a shown item holds, column by column: it is a projected event of the page's class from the workspace's
  // listing; metadata, before and after are redacted, and what is read out of the metadata is read after that.
  lemma {:induction false} ItemColumns(host: Host, project: Projection, rows: seq<Row>, workspace: string, kind: string,
                                       q: Query, scope: DataScope, now: int, page: QueryResult, item: QueryEvent)
    requires QueryPage(host, project, rows, workspace, kind, q, scope, now) == Success(page) && item in page.items
    ensures exists listed, x ::
              && (forall y :: y in listed ==> y in rows && y.workspace == TrimSpace(workspace))
              && project(listed).Success? && x in project(listed).value && host.classify(x) == kind
              && item.id == x.id && item.event == x.event && item.objectKey == x.objectKey
              && item.recordID == x.recordID && item.actorID == x.actorID && item.roleKey == x.roleKey
              && item.summary == x.summary && item.createdAt == x.createdAt
              && item.metadata == host.redact(x.metadata) && item.before == host.redact(x.before)
              && item.after == host.redact(x.after)
              && var facts := (key: string) => host.lookup(host.redact(x.metadata), key);
              && item.requestID == (if facts("request_id").Some? then TrimSpace(facts("request_id").value) else "")
              && item.result == EventFacts.ResultOf(x.event, facts) && item.reason == EventFacts.ReasonOf(facts)
  {
    hide ListRows, PlanOf, EventFacts.ResultOf, EventFacts.ReasonOf, TrimSpace, ItemsOf,
      PageRows;
    var plan := PlanOf(host, kind, q, now).value;
    var listed := ListRows(host, rows, Some(TrimSpace(workspace)), plan.query, Normalized(scope)).value;
    var projected := project(listed).value;
    PlannedKind(host, kind, q, now);
    ListedAreRows(host, rows, TrimSpace(workspace), plan.query, Normalized(scope));
    ItemHasRow(host, PageRows(projected, plan), kind, item);
    PageRowsAreRows(projected, plan);
  }

  // The rest of a page: its count is that of its items, and size and retention are the plan's.
  lemma {:induction false} PageInFull(host: Host, project: Projection, rows: seq<Row>, workspace: string, kind: string,
                                      q: Query, scope: DataScope, now: int, page: QueryResult)
    requires QueryPage(host, project, rows, workspace, kind, q, scope, now) == Success(page)
    ensures TrimSpace(workspace) != "" && PlanOf(host, kind, q, now).Success?
    ensures var plan := PlanOf(host, kind, q, now).value;
            && page.count == |page.items| && page.pageSize == plan.pageSize
            && page.retentionClass == plan.retentionClass && page.retentionDays == plan.retentionDays
            && (!page.truncated ==> page.nextCursor == "") && (kind != "business" ==> !page.truncated)
  {
    hide ListRows, TrimSpace, ItemsOf;
  }

  lemma {:induction false} PlannedKind(host: Host, kind: string, q: Query, now: int)
    requires PlanOf(host, kind, q, now).Success?
    ensures PlanOf(host, kind, q, now).value.kind == kind
  {
  }

  // When redacting twice is redacting once, everything shown of metadata, before and after is fully redacted.
  lemma {:induction false} ShownIsRedacted(host: Host, project: Projection, rows: seq<Row>, workspace: string,
                                           kind: string, q: Query, scope: DataScope, now: int, page: QueryResult,
                                           item: QueryEvent)
    requires QueryPage(host, project, rows, workspace, kind, q, scope, now) == Success(page) && item in page.items
    requires forall s :: host.redact(host.redact(s)) == host.redact(s)
    ensures host.redact(item.metadata) == item.metadata && host.redact(item.before) == item.before &&
            host.redact(item.after) == item.after
  {
    hide QueryPage, EventFacts.ResultOf, EventFacts.ReasonOf, EventFacts.RequestIDOf, TrimSpace;
    ItemColumns(host, project, rows, workspace, kind, q, scope, now, page, item);
  }
}
