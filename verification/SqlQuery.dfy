// The predicates the stores hand to the SQL builder, with their standard meaning.
// A comparison with NULL selects no row; the stores negate only operands that are never NULL.
module SqlQuery {
  import opened Wrappers
  import opened Text
  import LikePattern

  datatype Column = Id | EventName | ObjectKey | RecordID | ActorID | ActorOrgID | RoleKey | MetadataJSON | CreatedAt
                  | RequesterUserID

  datatype Expression =
    | Cell(column: Column)
    | Literal(text: string)
    | Coalesce(inner: Expression, fallback: string)
    | Concat(left: Expression, right: Expression)
    | Lower(inner: Expression)

  datatype Predicate =
    | AlwaysFalse
    | Equal(e: Expression, value: string)
    | LessThan(column: Column, value: string)
    | LessThanOrEqual(column: Column, value: string)
    | GreaterThanOrEqual(column: Column, value: string)
    | In(column: Column, values: seq<string>)
    | Like(e: Expression, pattern: string)
    | Not(p: Predicate)
    | And(ps: seq<Predicate>)
    | Or(ps: seq<Predicate>)

  // A row as a WHERE clause sees it: None is NULL.
  type Cells = Column -> Option<string>

  function Evaluate(e: Expression, cells: Cells): Option<string> {
    match e
    case Cell(column) => cells(column)
    case Literal(text) => Some(text)
    case Coalesce(inner, fallback) =>
      var v := Evaluate(inner, cells);
      if v.Some? then v else Some(fallback)
    case Concat(left, right) =>
      var a, b := Evaluate(left, cells), Evaluate(right, cells);
      if a.Some? && b.Some? then Some(a.value + b.value) else None
    case Lower(inner) =>
      var v := Evaluate(inner, cells);
      if v.Some? then Some(ToLower(v.value)) else None
  }

  predicate Selects(p: Predicate, cells: Cells) {
    match p
    case AlwaysFalse => false
    case Equal(e, value) => Evaluate(e, cells) == Some(value)
    case LessThan(column, value) => cells(column).Some? && Less(cells(column).value, value)
    case LessThanOrEqual(column, value) => cells(column).Some? && AtMost(cells(column).value, value)
    case GreaterThanOrEqual(column, value) => cells(column).Some? && AtMost(value, cells(column).value)
    case In(column, values) => cells(column).Some? && cells(column).value in values
    case Like(e, pattern) => Evaluate(e, cells).Some? && LikePattern.Matches(pattern, Evaluate(e, cells).value)
    case Not(inner) => !Selects(inner, cells)
    case And(ps) => forall q :: q in ps ==> Selects(q, cells)
    case Or(ps) => exists q :: q in ps && Selects(q, cells)
  }

  lemma {:induction false} TwoClauses(p: Predicate, q: Predicate, cells: Cells)
    ensures Selects(Or([p, q]), cells) <==> Selects(p, cells) || Selects(q, cells)
    ensures Selects(And([p, q]), cells) <==> Selects(p, cells) && Selects(q, cells)
  {
    assert p in [p, q] && q in [p, q];
  }
}
