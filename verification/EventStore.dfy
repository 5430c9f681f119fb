// The event store: its methods change the table in place and are proved against the statement functions.
module EventStore {
  import opened Wrappers
  import opened Text
  import opened DataScopes
  import opened EventTable
  import opened Erasure
  import opened EventOrder
  import SqlQuery
  import EventClass
  import EventQuery
  import ScopeSql
  import LikePattern
  import EventRuns

  const WORKSPACE_REQUIRED := "audit query workspace is required"
  const IDENTITY_REQUIRED := "audit subject identity is required"
  const RESOURCE_REQUIRED := "audit subject resource scope is required"

  class Store {
    var rows: seq<Row>

    constructor ()
      ensures rows == []
    {
      rows := [];
    }

    // AppendPrepared: an insert, and on failure a comparison with the stored row. The faults are what the
    // database makes of the insert and of the lookup.
    method AppendPrepared(event: Event, fault: Fault, lookup: Fault) returns (ok: bool)
      modifies this
      ensures var first := EventRuns.AppendStep(old(rows), event, EventRuns.Inserting, fault);
              var second := EventRuns.AppendStep(first.0, event, first.1, lookup);
              rows == second.0 && second.1 == EventRuns.Finished(ok)
      ensures UniqueKeys(old(rows)) ==> UniqueKeys(rows)
      ensures old(rows) <= rows <= old(rows) + [Row(event.workspace, event.id, event.event, event.objectKey,
                                                    event.recordID, event.actorID, Some(TrimSpace(event.actorOrgID)),
                                                    event.roleKey, event.summary, event.metadata, event.before,
                                                    event.after, event.createdAt)]
      ensures TrimSpace(event.workspace) == "" ==> !ok && rows == old(rows)
      ensures fault.Refused? ==> rows == old(rows)
      ensures ok ==> fault.Runs? || lookup.Runs?
      ensures ok ==> exists row :: row in rows && row.workspace == event.workspace && row.id == event.id &&
                       row.event == event.event && row.objectKey == event.objectKey &&
                       row.recordID == event.recordID && row.actorID == event.actorID &&
                       (row.actorOrg == Some(TrimSpace(event.actorOrgID)) ||
                        (row.actorOrg == None && TrimSpace(event.actorOrgID) == "")) &&
                       row.roleKey == event.roleKey && row.summary == event.summary &&
                       row.metadata == event.metadata && row.before == event.before && row.after == event.after
      ensures forall row :: UniqueKeys(old(rows)) && row in old(rows) &&
                            row.workspace == event.workspace && row.id == event.id ==>
                rows == old(rows) &&
                ((row.event != event.event || row.objectKey != event.objectKey || row.recordID != event.recordID ||
                  row.actorID != event.actorID ||
                  (row.actorOrg.Some? && row.actorOrg.value != TrimSpace(event.actorOrgID)) ||
                  (row.actorOrg.None? && TrimSpace(event.actorOrgID) != "") || row.roleKey != event.roleKey ||
                  row.summary != event.summary || row.metadata != event.metadata || row.before != event.before ||
                  row.after != event.after) ==> !ok)
    {
      hide TrimSpace;
      if TrimSpace(event.workspace) == "" {
        return false;
      }
      var row := ToRow(event);
      if UniqueKeys(rows) {
        EventRuns.StoredKeyDecides(rows, event);
      }
      var inserted := TryInsert(rows, row);
      var acknowledged := fault.Runs? && inserted.Some?;
      if !fault.Refused? && inserted.Some? {
        EventRuns.LastIndex(rows, row);
        rows := inserted.value;
      }
      if !acknowledged {
        var stored := IndexOf(rows, event.workspace, event.id);
        ok := lookup.Runs? && stored.Some? && PayloadEqual(rows[stored.value], row);
        return;
      }
      return true;
    }

    method PreviewSubject(workspace: string, identity: string) returns (references: nat)
      ensures references == CountHits(rows, workspace, ByActor(identity))
      ensures references == |set i: nat | i < |rows| && rows[i].workspace == workspace && rows[i].actorID == identity|
    {
      CountIsCardinality(rows, workspace, ByActor(identity));
      assert HitIndexes(rows, workspace, ByActor(identity)) ==
             (set i: nat | i < |rows| && rows[i].workspace == workspace && rows[i].actorID == identity);
      references := CountHits(rows, workspace, ByActor(identity));
    }

    // One transaction: a redacting update per clause, then the anonymising update.
    method EraseSubjectResources(hash: string -> string, workspaceText: string, identityText: string,
                                 resources: seq<Resource>)
      returns (r: Result<nat, string>)
      modifies this
      ensures var workspace, identity := TrimSpace(workspaceText), TrimSpace(identityText);
              if workspace == "" || identity == "" then r == Failure(IDENTITY_REQUIRED) && rows == old(rows)
              else if !CompleteResources(resources) then r == Failure(RESOURCE_REQUIRED) && rows == old(rows)
              else rows == Erased(old(rows), workspace, identity, Alias(hash, workspace, identity), resources) &&
                   r == Success(SumOfHits(old(rows), workspace, Targets(identity, resources)))
      ensures TrimSpace(workspaceText) == "" || TrimSpace(identityText) == "" ||
              (exists x :: x in resources && (TrimSpace(x.objectKey) == "" || TrimSpace(x.recordID) == "")) <==>
              r.Failure?
      ensures r.Failure? ==>
                rows == old(rows) &&
                r.error == if TrimSpace(workspaceText) == "" || TrimSpace(identityText) == ""
                           then "audit subject identity is required"
                           else "audit subject resource scope is required"
      ensures |rows| == |old(rows)|
      ensures r.Success? ==>
                var workspace, identity := TrimSpace(workspaceText), TrimSpace(identityText);
                var sum := hash(workspace + "\0" + identity);
                |sum| >= 24 ==>
                  forall i :: 0 <= i < |rows| ==>
                    ErasedRow(old(rows)[i], rows[i], workspace, identity, "erased-" + sum[..24], resources)
    {
      hide TrimSpace, CountHits, RedactWhere, AnonymizeWhere, Alias, Targets, ErasedRow;
      var workspace, identity := TrimSpace(workspaceText), TrimSpace(identityText);
      if workspace == "" || identity == "" {
        return Failure(IDENTITY_REQUIRED);
      }
      var clauses := SubjectClauses(identity, resources);
      if clauses.None? {
        return Failure(RESOURCE_REQUIRED);
      }
      var predicates := clauses.value;
      var alias := Alias(hash, workspace, identity);
      var working, changed := rows, 0;
      for i := 0 to |predicates|
        invariant working == RedactAll(rows, workspace, predicates[..i])
        invariant changed == SumOfHits(rows, workspace, predicates[..i])
        invariant rows == old(rows)
      {
        assert predicates[..i + 1][..i] == predicates[..i];
        RedactAllIsUnion(rows, workspace, predicates[..i]);
        CountSurvivesRedaction(rows, working, workspace, predicates[i]);
        changed := changed + CountHits(working, workspace, predicates[i]);
        working := RedactWhere(working, workspace, predicates[i]);
      }
      assert predicates[..|predicates|] == predicates;
      rows := AnonymizeWhere(working, workspace, identity, alias);
      assert rows == Erased(old(rows), workspace, identity, alias, resources);
      AliasText(hash, workspace, identity);
      ErasedColumns(old(rows), workspace, identity, alias, resources);
      return Success(changed);
    }

    // The clauses of the redacting updates; none if a resource is incomplete.
    method SubjectClauses(identity: string, resources: seq<Resource>) returns (r: Option<seq<Target>>)
      ensures r == if CompleteResources(resources) then Some(Targets(identity, resources)) else None
    {
      hide TrimSpace;
      var predicates := [ByActor(identity)];
      for i := 0 to |resources|
        invariant predicates == Targets(identity, resources[..i])
        invariant CompleteResources(resources[..i])
      {
        assert resources[..i + 1][..i] == resources[..i] && resources[..i + 1] == resources[..i] + [resources[i]];
        if TrimSpace(resources[i].objectKey) == "" || TrimSpace(resources[i].recordID) == "" {
          assert resources[i] in resources;
          return None;
        }
        predicates := predicates + [ByRecord(resources[i].objectKey, resources[i].recordID)];
      }
      assert resources[..|resources|] == resources;
      return Some(predicates);
    }

    method EraseSubject(hash: string -> string, workspace: string, identity: string) returns (r: Result<nat, string>)
      modifies this
      ensures if TrimSpace(workspace) == "" || TrimSpace(identity) == "" then r.Failure? && rows == old(rows)
              else rows == Erased(old(rows), TrimSpace(workspace), TrimSpace(identity),
                                  Alias(hash, TrimSpace(workspace), TrimSpace(identity)), []) &&
                   r == Success(CountHits(old(rows), TrimSpace(workspace), ByActor(TrimSpace(identity))))
    {
      hide TrimSpace, ErasedRow, Alias, CountHits, Erased;
      r := EraseSubjectResources(hash, workspace, identity, []);
      assert Targets(TrimSpace(identity), [])[..0] == [];
    }

    method AddEqual(predicates: seq<SqlQuery.Predicate>, column: SqlQuery.Column, text: string)
      returns (r: seq<SqlQuery.Predicate>)
      ensures r == predicates + EventQuery.EqualIfGiven(column, text)
    {
      r := predicates;
      var value := TrimSpace(text);
      if value != "" {
        r := r + [SqlQuery.Equal(SqlQuery.Cell(column), value)];
      }
    }

    // The clauses of a listing, one after the other.
    method FieldClauses(q: EventQuery.Query) returns (predicates: seq<SqlQuery.Predicate>)
      ensures predicates == EventQuery.EqualIfGiven(SqlQuery.ObjectKey, q.objectKey) +
                            EventQuery.EqualIfGiven(SqlQuery.RecordID, q.recordID) +
                            EventQuery.EqualIfGiven(SqlQuery.EventName,
                                                    q.event) + EventQuery.EqualIfGiven(SqlQuery.ActorID, q.actorID) +
                            EventQuery.EqualIfGiven(SqlQuery.RoleKey, q.roleKey)
    {
      hide EventQuery.EqualIfGiven;
      predicates := AddEqual([], SqlQuery.ObjectKey, q.objectKey);
      predicates := AddEqual(predicates, SqlQuery.RecordID, q.recordID);
      predicates := AddEqual(predicates, SqlQuery.EventName, q.event);
      predicates := AddEqual(predicates, SqlQuery.ActorID, q.actorID);
      predicates := AddEqual(predicates, SqlQuery.RoleKey, q.roleKey);
    }

    // The WHERE clauses of a listing, or the error of a cursor that does not decode.
    method ListClauses(host: EventQuery.Host, q: EventQuery.Query, scope: DataScope)
      returns (r: Result<seq<SqlQuery.Predicate>, string>)
      ensures var cursor := EventQuery.QueryCursor(host, q);
              r == if cursor.Failure? then Failure(cursor.error)
                   else Success(EventQuery.ListPredicates(host, q, scope, cursor.value))
    {
      hide EventQuery.EqualIfGiven, EventClass.ClassPredicate, ScopeSql.EventScopePredicate, LikePattern.Escaped,
        TrimSpace,
        EventQuery.CursorPredicate, EventQuery.RequestIDText;
      var predicates := FieldClauses(q);
      ghost var p5 := predicates;
      var classClause := EventClass.ClassPredicate(host.markers, TrimSpace(q.class_));
      if classClause.Some? {
        predicates := predicates + [classClause.value];
      }
      ghost var p6 := predicates;
      assert p6 == p5 + EventQuery.OptionToSeq(classClause);
      var from, to := TrimSpace(q.createdFrom), TrimSpace(q.createdTo);
      if from != "" {
        predicates := predicates + [SqlQuery.GreaterThanOrEqual(SqlQuery.CreatedAt, from)];
      }
      ghost var p7 := predicates;
      assert p7 == p6 + (if from == "" then [] else [SqlQuery.GreaterThanOrEqual(SqlQuery.CreatedAt, from)]);
      if to != "" {
        predicates := predicates + [SqlQuery.LessThanOrEqual(SqlQuery.CreatedAt, to)];
      }
      ghost var p8 := predicates;
      assert p8 == p7 + (if to == "" then [] else [SqlQuery.LessThanOrEqual(SqlQuery.CreatedAt, to)]);
      var wanted := EventQuery.RequestIDText(host, q.requestID);
      if TrimSpace(q.requestID) != "" {
        var escaped := LikePattern.EscapeSQLLike(wanted);
        predicates := predicates + [SqlQuery.Like(SqlQuery.Cell(SqlQuery.MetadataJSON), "%" + escaped + "%")];
      }
      ghost var p9 := predicates;
      assert p9 == p8 + (if TrimSpace(q.requestID) == "" then []
                         else [SqlQuery.Like(SqlQuery.Cell(SqlQuery.MetadataJSON),
                                             "%" + LikePattern.Escaped(wanted) + "%")]);
      ghost var start := EventQuery.QueryCursor(host, q);
      if TrimSpace(q.cursor) != "" {
        var cursor := host.decodeCursor(TrimSpace(q.cursor));
        if cursor.None? {
          return Failure("decode audit event cursor");
        }
        predicates := predicates + [EventQuery.CursorPredicate(cursor.value)];
      }
      ghost var p10 := predicates;
      assert p10 == p9 + (if start.value.None? then [] else [EventQuery.CursorPredicate(start.value.value)]);
      var scopeClause := ScopeSql.EventScopePredicate(scope);
      if scopeClause.Some? {
        predicates := predicates + [scopeClause.value];
      }
      assert predicates == p10 + EventQuery.OptionToSeq(scopeClause);
      return Success(predicates);
    }

    method ListWithinDataScope(host: EventQuery.Host, workspace: string, q: EventQuery.Query, scope: DataScope)
      returns (r: Result<seq<Row>, string>)
      ensures r == if TrimSpace(workspace) == "" then Failure(WORKSPACE_REQUIRED)
                   else EventQuery.ListRows(host, rows, Some(TrimSpace(workspace)), q, Normalized(scope))
      ensures r.Success? ==>
                |r.value| <= (if q.limit <= 0 then 100 else if q.limit > 1000 then 1000 else q.limit) &&
                forall x :: x in r.value ==> x in rows && x.workspace == TrimSpace(workspace)
      ensures r.Success? && UniqueKeys(rows) ==> Descending(Keys(r.value))
    {
      hide EventQuery.ListPredicates, TrimSpace;
      if TrimSpace(workspace) == "" {
        return Failure(WORKSPACE_REQUIRED);
      }
      var limit := q.limit;
      if limit <= 0 {
        limit := 100;
      }
      if limit > 1000 {
        limit := 1000;
      }
      var normal := NormalizeDataScope(scope);
      var predicates := ListClauses(host, q, normal);
      if predicates.Failure? {
        return Failure(predicates.error);
      }
      EventQuery.ListedAreRows(host, rows, TrimSpace(workspace), q, normal);
      if UniqueKeys(rows) {
        var cursor := EventQuery.QueryCursor(host, q);
        EventQuery.ListIsNewestMatches(host, rows, TrimSpace(workspace), q, normal, cursor.value);
      }
      return Success(Take(SortDescending(EventQuery.Where(rows, Some(TrimSpace(workspace)), predicates.value)), limit));
    }

    // The query use case: plan, list, project the fields, build the page.
    method QueryEvents(host: EventQuery.Host, project: EventQuery.Projection, workspace: string, kind: string,
                       q: EventQuery.Query, scope: DataScope,
                       now: int) returns (r: Result<EventQuery.QueryResult, string>)
      ensures r == EventQuery.QueryPage(host, project, rows, workspace, kind, q, scope, now)
      ensures forall item :: r.Success? && item in r.value.items ==>
                exists listed, x ::
                  && (forall y :: y in listed ==> y in rows && y.workspace == TrimSpace(workspace))
                  && project(listed).Success? && x in project(listed).value && host.classify(x) == kind
                  && item.id == x.id && item.event == x.event && item.objectKey == x.objectKey
                  && item.recordID == x.recordID && item.actorID == x.actorID && item.roleKey == x.roleKey
                  && item.summary == x.summary && item.createdAt == x.createdAt
                  && item.metadata == host.redact(x.metadata) && item.before == host.redact(x.before)
                  && item.after == host.redact(x.after)
    {
      hide EventQuery.ListRows, EventQuery.PlanOf, EventQuery.ResultOf, TrimSpace;
      var plan := EventQuery.PlanQuery(host, kind, q, now);
      if plan.Failure? {
        return Failure(plan.error);
      }
      var events := ListWithinDataScope(host, workspace, plan.value.query, scope);
      if events.Failure? {
        return Failure(events.error);
      }
      EventQuery.PlanBoundsPages(host, kind, q, now);
      var projected := project(events.value);
      if projected.Failure? {
        return Failure(projected.error);
      }
      var page := EventQuery.ProjectQuery(host, projected.value, plan.value);
      forall item | item in page.items {
        EventQuery.ItemColumns(host, project, rows, workspace, kind, q, scope, now, page, item);
      }
      return Success(page);
    }
  }
}
