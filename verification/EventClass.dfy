// The three event classes: the store's WHERE clauses and what they mean.
module EventClass {
  import opened Wrappers
  import opened Text
  import opened SqlQuery
  import opened EventTable
  import LikePattern

  const BUSINESS := "business"
  const GOVERNANCE := "governance"
  const OPERATIONS := "operations"

  // The contract's class markers, lists of words.
  datatype Markers = Markers(operations: seq<string>, governance: seq<string>)

  function CellsOf(row: Row): Cells {
    (c: Column) => match c
      case Id => Some(row.id)
      case EventName => Some(row.event)
      case ObjectKey => Some(row.objectKey)
      case RecordID => Some(row.recordID)
      case ActorID => Some(row.actorID)
      case ActorOrgID => row.actorOrg
      case RoleKey => Some(row.roleKey)
      case MetadataJSON => Some(row.metadata)
      case CreatedAt => Some(row.createdAt)
      case RequesterUserID => None
  }

  const EVENT_TEXT := Lower(Coalesce(Cell(EventName), ""))
  const CLASS_TEXT := Lower(Concat(Concat(Coalesce(Cell(EventName), ""), Literal(" ")), Coalesce(Cell(ObjectKey), "")))

  function ContainsPredicate(e: Expression, text: string): Predicate {
    Like(e, "%" + LikePattern.Escaped(text) + "%")
  }

  function PrefixPredicate(e: Expression, text: string): Predicate {
    Like(e, LikePattern.Escaped(text) + "%")
  }

  function MarkerPredicates(markers: seq<string>): (ps: seq<Predicate>)
    ensures |ps| == |markers|
    ensures forall i :: 0 <= i < |markers| ==> ps[i] == ContainsPredicate(CLASS_TEXT, ToLower(markers[i]))
  {
    seq(|markers|, i requires 0 <= i < |markers| => ContainsPredicate(CLASS_TEXT, ToLower(markers[i])))
  }

  function MarkerPredicate(markers: seq<string>): Predicate {
    if markers == [] then AlwaysFalse else Or(MarkerPredicates(markers))
  }

  method AuditClassMarkerPredicate(markers: seq<string>) returns (p: Predicate)
    ensures p == MarkerPredicate(markers)
  {
    var predicates := [];
    for i := 0 to |markers|
      invariant predicates == MarkerPredicates(markers)[..i]
    {
      var escaped := LikePattern.EscapeSQLLike(ToLower(markers[i]));
      predicates := predicates + [Like(CLASS_TEXT, "%" + escaped + "%")];
    }
    if |predicates| == 0 {
      return AlwaysFalse;
    }
    assert predicates == MarkerPredicates(markers);
    return Or(predicates);
  }

  function OperationsPredicate(markers: Markers): Predicate {
    Or([
      Equal(EVENT_TEXT, "auth"),
      PrefixPredicate(EVENT_TEXT, "auth_"),
      PrefixPredicate(EVENT_TEXT, "auth."),
      PrefixPredicate(EVENT_TEXT, "authentication_"),
      PrefixPredicate(EVENT_TEXT, "authentication."),
      Equal(EVENT_TEXT, "audit_export_conflict"),
      MarkerPredicate(markers.operations)])
  }

  // The clause a query for one class adds; other class values add none.
  function ClassPredicate(markers: Markers, kind: string): Option<Predicate> {
    if kind == OPERATIONS then Some(OperationsPredicate(markers))
    else if kind == GOVERNANCE then
      Some(And([Not(OperationsPredicate(markers)), MarkerPredicate(markers.governance)]))
    else if kind == BUSINESS then
      Some(And([Not(OperationsPredicate(markers)), Not(MarkerPredicate(markers.governance))]))
    else None
  }

  // ---------- meaning ----------

  ghost predicate HasMarker(markers: seq<string>, row: Row) {
    exists m :: m in markers && Contains(ToLower(row.event + " " + row.objectKey), ToLower(m))
  }

  ghost predicate IsOperations(markers: Markers, row: Row) {
    var event := ToLower(row.event);
    event == "auth" || event == "audit_export_conflict" ||
    HasPrefix(event, "auth_") || HasPrefix(event, "auth.") ||
    HasPrefix(event, "authentication_") || HasPrefix(event, "authentication.") ||
    HasMarker(markers.operations, row)
  }

  // Operations win over governance; everything else is business.
  ghost function ClassOf(markers: Markers, row: Row): string {
    if IsOperations(markers, row) then OPERATIONS
    else if HasMarker(markers.governance, row) then GOVERNANCE
    else BUSINESS
  }

  lemma {:induction false} ClassTexts(row: Row)
    ensures Evaluate(EVENT_TEXT, CellsOf(row)) == Some(ToLower(row.event))
    ensures Evaluate(CLASS_TEXT, CellsOf(row)) == Some(ToLower(row.event + " " + row.objectKey))
  {
  }

  lemma {:induction false} LikeMeaning(e: Expression, text: string, cells: Cells, v: string)
    requires Evaluate(e, cells) == Some(v)
    ensures Selects(ContainsPredicate(e, text), cells) <==> Contains(v, text)
    ensures Selects(PrefixPredicate(e, text), cells) <==> HasPrefix(v, text)
  {
    LikePattern.ContainsPattern(text, v);
    LikePattern.PrefixPattern(text, v);
  }

  lemma {:induction false} MarkerMeaning(markers: seq<string>, row: Row)
    ensures Selects(MarkerPredicate(markers), CellsOf(row)) <==> HasMarker(markers, row)
  {
    hide CellsOf, ContainsPredicate, Contains, ToLower;
    var text := ToLower(row.event + " " + row.objectKey);
    ClassTexts(row);
    if markers != [] {
      var ps := MarkerPredicates(markers);
      forall i | 0 <= i < |markers|
        ensures Selects(ps[i], CellsOf(row)) <==> Contains(text, ToLower(markers[i]))
      {
        LikeMeaning(CLASS_TEXT, ToLower(markers[i]), CellsOf(row), text);
      }
      if m :| m in markers && Contains(text, ToLower(m)) {
        var i :| 0 <= i < |markers| && markers[i] == m;
        assert ps[i] in ps;
      }
      if p :| p in ps && Selects(p, CellsOf(row)) {
        var i :| 0 <= i < |ps| && ps[i] == p;
        assert markers[i] in markers;
      }
    }
  }

  lemma {:induction false} OrOfSeven(ps: seq<Predicate>, cells: Cells)
    requires |ps| == 7
    ensures Selects(Or(ps), cells) <==>
            (Selects(ps[0], cells) || Selects(ps[1], cells) || Selects(ps[2], cells) || Selects(ps[3], cells) ||
             Selects(ps[4], cells) || Selects(ps[5], cells) || Selects(ps[6], cells))
  {
    forall i | 0 <= i < 7
      ensures ps[i] in ps
    {
    }
    if p :| p in ps && Selects(p, cells) {
      var i :| 0 <= i < 7 && ps[i] == p;
    }
  }

  lemma {:induction false} OperationsMeaning(markers: Markers, row: Row)
    ensures Selects(OperationsPredicate(markers), CellsOf(row)) <==> IsOperations(markers, row)
  {
    hide CellsOf, PrefixPredicate, ContainsPredicate, HasPrefix, MarkerPredicate, HasMarker, ToLower;
    var event := ToLower(row.event);
    var cells := CellsOf(row);
    ClassTexts(row);
    LikeMeaning(EVENT_TEXT, "auth_", cells, event);
    LikeMeaning(EVENT_TEXT, "auth.", cells, event);
    LikeMeaning(EVENT_TEXT, "authentication_", cells, event);
    LikeMeaning(EVENT_TEXT, "authentication.", cells, event);
    MarkerMeaning(markers.operations, row);
    OrOfSeven(OperationsPredicate(markers).ps, cells);
  }

  // A class clause selects exactly the rows of its class.
  lemma {:induction false} ClassMeaning(markers: Markers, kind: string, row: Row)
    requires kind in {BUSINESS, GOVERNANCE, OPERATIONS}
    ensures ClassPredicate(markers, kind).Some?
    ensures Selects(ClassPredicate(markers, kind).value, CellsOf(row)) <==> ClassOf(markers, row) == kind
  {
    hide CellsOf;
    OperationsMeaning(markers, row);
    MarkerMeaning(markers.governance, row);
    hide IsOperations, HasMarker, OperationsPredicate, MarkerPredicate;
    var cells := CellsOf(row);
    var notOperations, governance := Not(OperationsPredicate(markers)), MarkerPredicate(markers.governance);
    TwoClauses(notOperations, governance, cells);
    TwoClauses(notOperations, Not(governance), cells);
  }

  // The class clause of this kind, and no other, selects the row.
  ghost predicate OnlyIn(markers: Markers, kind: string, row: Row) {
    forall other :: other in {BUSINESS, GOVERNANCE, OPERATIONS} ==>
      ClassPredicate(markers, other).Some? &&
      (Selects(ClassPredicate(markers, other).value, CellsOf(row)) <==> other == kind)
  }

  // For arbitrary marker lists every event is selected by exactly one class clause.
  lemma {:induction false} ClassesPartition(markers: Markers, row: Row)
    ensures OnlyIn(markers, BUSINESS, row) || OnlyIn(markers, GOVERNANCE, row) || OnlyIn(markers, OPERATIONS, row)
  {
    hide ClassPredicate, CellsOf, IsOperations, HasMarker;
    forall kind | kind in {BUSINESS, GOVERNANCE, OPERATIONS}
      ensures ClassPredicate(markers, kind).Some?
      ensures Selects(ClassPredicate(markers, kind).value, CellsOf(row)) <==> ClassOf(markers, row) == kind
    {
      ClassMeaning(markers, kind, row);
    }
    assert OnlyIn(markers, ClassOf(markers, row), row);
  }
}
