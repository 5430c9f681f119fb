// Compiling a data scope to a WHERE clause, for the event table and for the artifact table.
module ScopeSql {
  import opened Wrappers
  import opened Text
  import opened DataScopes
  import opened SqlQuery

  // None means that no range clause is added.
  function EventScopePredicate(scope: DataScope): Option<Predicate> {
    var normal := Normalized(scope);
    if normal.all then None
    else
      var subjects := if |normal.subjectIDs| > 0 then [In(ActorID, normal.subjectIDs)] else [];
      var organizations := if |normal.organizationIDs| > 0 then [In(ActorOrgID, normal.organizationIDs)] else [];
      var branches := subjects + organizations;
      if |branches| == 0 then Some(AlwaysFalse)
      else if |branches| == 1 then Some(branches[0])
      else Some(Or(branches))
  }

  function ArtifactScopePredicate(scope: DataScope): Option<Predicate> {
    var normal := Normalized(scope);
    if normal.all then None
    else if |normal.subjectIDs| == 0 then Some(AlwaysFalse)
    else Some(In(RequesterUserID, normal.subjectIDs))
  }

  // v is one of the scope's values once white space is removed.
  ghost predicate Lists(values: seq<string>, v: string) {
    v != "" && exists i :: 0 <= i < |values| && TrimSpace(values[i]) == v
  }

  // The allow union a scope stands for.
  ghost predicate Covers(scope: DataScope, actor: string, organization: Option<string>) {
    scope.all || Lists(scope.subjectIDs, actor) ||
    (organization.Some? && Lists(scope.organizationIDs, organization.value))
  }

  lemma {:induction false} EventScopeMeaning(scope: DataScope, cells: Cells)
    requires cells(ActorID).Some?
    ensures var p := EventScopePredicate(scope);
            (p.None? || Selects(p.value, cells)) <==> Covers(scope, cells(ActorID).value, cells(ActorOrgID))
  {
    hide TrimSpace, NormalizedValues;
    if !scope.all {
      var subjects, organizations := NormalizedValues(scope.subjectIDs), NormalizedValues(scope.organizationIDs);
      var byActor, byOrg := In(ActorID, subjects), In(ActorOrgID, organizations);
      NormalizedMembers(scope.subjectIDs, cells(ActorID).value);
      if cells(ActorOrgID).Some? {
        NormalizedMembers(scope.organizationIDs, cells(ActorOrgID).value);
      }
      TwoClauses(byActor, byOrg, cells);
      assert Selects(byActor, cells) <==> Lists(scope.subjectIDs, cells(ActorID).value);
      assert Selects(byOrg, cells) <==>
             (cells(ActorOrgID).Some? && Lists(scope.organizationIDs, cells(ActorOrgID).value));
      assert [byActor] + [byOrg] == [byActor, byOrg] && [byActor] + [] == [byActor] && [] + [byOrg] == [byOrg];
    }
  }

  // Artifacts have no organisation column: organisation scopes select nothing there.
  lemma {:induction false} ArtifactScopeMeaning(scope: DataScope, cells: Cells)
    requires cells(RequesterUserID).Some?
    ensures var p := ArtifactScopePredicate(scope);
            (p.None? || Selects(p.value, cells)) <==>
            scope.all || Lists(scope.subjectIDs, cells(RequesterUserID).value)
  {
    if !scope.all {
      NormalizedMembers(scope.subjectIDs, cells(RequesterUserID).value);
    }
  }

  // The order of the listed values does not matter to what a scope covers.
  lemma {:induction false} CoversNormalized(scope: DataScope, actor: string, organization: Option<string>)
    ensures Covers(Normalized(scope), actor, organization) <==> Covers(scope, actor, organization)
  {
    if !scope.all {
      ListsNormalized(scope.subjectIDs, actor);
      if organization.Some? {
        ListsNormalized(scope.organizationIDs, organization.value);
      }
    }
  }

  lemma {:induction false} ListsNormalized(values: seq<string>, v: string)
    ensures Lists(NormalizedValues(values), v) <==> Lists(values, v)
  {
    NormalizedMembers(values, v);
    NormalizedMembers(NormalizedValues(values), v);
    NormalizedValuesIdempotent(values);
  }

  // An owner's scope covers exactly what the owner acted on, and nothing for a blank owner.
  lemma {:induction false} OwnerScopeCovers(subjectID: string, actor: string, organization: Option<string>)
    ensures Covers(OwnerDataScope(subjectID), actor, organization) <==> actor != "" && actor == TrimSpace(subjectID)
    ensures Lists(OwnerDataScope(subjectID).subjectIDs, actor) <==> actor != "" && actor == TrimSpace(subjectID)
  {
    hide TrimSpace;
    var owner := DataScope(false, [TrimSpace(subjectID)], []);
    CoversNormalized(owner, actor, organization);
    ListsNormalized(owner.subjectIDs, actor);
    assert owner.subjectIDs[0] == TrimSpace(subjectID) && TrimSpace(TrimSpace(subjectID)) == TrimSpace(subjectID);
  }
}
