// Subject erasure as a whole: the update loop, its union form, and how two erasures compose.
module Erasure {
  import opened Wrappers
  import opened Text
  import opened EventTable

  datatype Resource = Resource(objectKey: string, recordID: string)

  predicate CompleteResources(resources: seq<Resource>) {
    forall r :: r in resources ==> TrimSpace(r.objectKey) != "" && TrimSpace(r.recordID) != ""
  }

  // The WHERE clauses of the loop, in the order the loop runs them.
  function Targets(identity: string, resources: seq<Resource>): seq<Target> {
    if resources == [] then [ByActor(identity)]
    else
      var last := resources[|resources| - 1];
      Targets(identity, resources[..|resources| - 1]) + [ByRecord(last.objectKey, last.recordID)]
  }

  function RedactAll(rows: seq<Row>, workspace: string, targets: seq<Target>): seq<Row> {
    if targets == [] then rows
    else RedactWhere(RedactAll(rows, workspace, targets[..|targets| - 1]), workspace, targets[|targets| - 1])
  }

  // The table after the transaction.
  function Erased(rows: seq<Row>, workspace: string, identity: string, alias: string,
                  resources: seq<Resource>): seq<Row> {
    AnonymizeWhere(RedactAll(rows, workspace, Targets(identity, resources)), workspace, identity, alias)
  }

  // The reference form: one pass over the rows with the union of the clauses.
  predicate InUnion(row: Row, workspace: string, identity: string, resources: seq<Resource>) {
    row.workspace == workspace &&
    (row.actorID == identity ||
     exists r :: r in resources && row.objectKey == r.objectKey && row.recordID == r.recordID)
  }

  function EraseRow(row: Row, workspace: string, identity: string, alias: string, resources: seq<Resource>): Row {
    var content := if InUnion(row, workspace, identity, resources) then Redact(row) else row;
    if Hits(ByActor(identity), workspace, row) then Anonymize(content, alias) else content
  }

  lemma {:induction false} TargetsAreUnion(row: Row, workspace: string, identity: string, resources: seq<Resource>)
    ensures (exists t :: t in Targets(identity, resources) && Hits(t, workspace, row)) <==>
            InUnion(row, workspace, identity, resources)
  {
    if resources == [] {
      assert ByActor(identity) in Targets(identity, resources);
    } else {
      var n := |resources| - 1;
      var last := ByRecord(resources[n].objectKey, resources[n].recordID);
      TargetsAreUnion(row, workspace, identity, resources[..n]);
      assert forall r :: r in resources <==> r in resources[..n] || r == resources[n] by {
        assert resources == resources[..n] + [resources[n]];
      }
      assert Hits(last, workspace, row) <==>
             (row.workspace == workspace && row.objectKey == last.objectKey && row.recordID == last.recordID);
      assert forall t :: t in Targets(identity, resources) <==> t in Targets(identity, resources[..n]) || t == last;
    }
  }

  lemma {:induction false} RedactAllIsUnion(rows: seq<Row>, workspace: string, targets: seq<Target>)
    ensures |RedactAll(rows, workspace, targets)| == |rows|
    ensures forall i :: 0 <= i < |rows| ==>
              (RedactAll(rows, workspace, targets)[i] ==
               if exists t :: t in targets && Hits(t, workspace, rows[i]) then Redact(rows[i]) else rows[i])
  {
    if targets != [] {
      var n := |targets| - 1;
      RedactAllIsUnion(rows, workspace, targets[..n]);
      assert targets == targets[..n] + [targets[n]];
      assert forall t :: t in targets <==> t in targets[..n] || t == targets[n];
    }
  }

  // The loop of overlapping updates is one update on the union of its predicates.
  lemma {:induction false} UpdateLoopIsOneUpdate(rows: seq<Row>, workspace: string, identity: string, alias: string,
                                                 resources: seq<Resource>)
    ensures |Erased(rows, workspace, identity, alias, resources)| == |rows|
    ensures forall i :: 0 <= i < |rows| ==>
              Erased(rows, workspace, identity, alias, resources)[i] ==
                EraseRow(rows[i], workspace, identity, alias, resources)
  {
    RedactAllIsUnion(rows, workspace, Targets(identity, resources));
    forall i | 0 <= i < |rows|
      ensures Erased(rows, workspace, identity, alias, resources)[i] ==
              EraseRow(rows[i], workspace, identity, alias, resources)
    {
      TargetsAreUnion(rows[i], workspace, identity, resources);
    }
  }

  // Which resources are declared matters, not their order or repetition.
  lemma {:induction false} ResourceOrderIsIrrelevant(rows: seq<Row>, workspace: string, identity: string,
                                                     alias: string, resources: seq<Resource>, others: seq<Resource>)
    requires forall r :: r in resources <==> r in others
    ensures Erased(rows, workspace, identity, alias, resources) == Erased(rows, workspace, identity, alias, others)
  {
    UpdateLoopIsOneUpdate(rows, workspace, identity, alias, resources);
    UpdateLoopIsOneUpdate(rows, workspace, identity, alias, others);
  }

  // Identity, record and time of every event survive; rows outside the union or the workspace are untouched.
  lemma {:induction false} ErasureConserves(rows: seq<Row>, workspace: string, identity: string, alias: string,
                                            resources: seq<Resource>)
    ensures var erased := Erased(rows, workspace, identity, alias, resources);
            |erased| == |rows| && forall i :: 0 <= i < |rows| ==>
              SameKey(erased[i], rows[i]) && erased[i].event == rows[i].event &&
                erased[i].objectKey == rows[i].objectKey &&
              erased[i].recordID == rows[i].recordID && erased[i].createdAt == rows[i].createdAt &&
              (InUnion(rows[i], workspace, identity, resources) ==> Redacted(erased[i])) &&
              (!InUnion(rows[i], workspace, identity, resources) ==> erased[i] == rows[i])
  {
    UpdateLoopIsOneUpdate(rows, workspace, identity, alias, resources);
  }

  // An erasure column by column: rows of the subject or of a declared record lose summary, metadata, before
  // and after, rows of the subject also actor, organisation and role, and nothing else changes.
  predicate ErasedRow(row: Row, erased: Row, workspace: string, identity: string, alias: string,
                      resources: seq<Resource>) {
    var mine := row.workspace == workspace && row.actorID == identity;
    var declared := row.workspace == workspace &&
                    exists r :: r in resources && row.objectKey == r.objectKey && row.recordID == r.recordID;
    && erased.workspace == row.workspace && erased.id == row.id && erased.event == row.event
    && erased.objectKey == row.objectKey && erased.recordID == row.recordID && erased.createdAt == row.createdAt
    && (erased.summary, erased.metadata, erased.before, erased.after) ==
       (if mine || declared then ("[erased]", "{}", "null", "null")
        else (row.summary, row.metadata, row.before, row.after))
    && (erased.actorID, erased.actorOrg, erased.roleKey) ==
       (if mine then (alias, None, "") else (row.actorID, row.actorOrg, row.roleKey))
  }

  lemma {:induction false} ErasedColumns(rows: seq<Row>, workspace: string, identity: string, alias: string,
                                         resources: seq<Resource>)
    ensures var erased := Erased(rows, workspace, identity, alias, resources);
            |erased| == |rows| &&
            forall i :: 0 <= i < |rows| ==> ErasedRow(rows[i], erased[i], workspace, identity, alias, resources)
  {
    UpdateLoopIsOneUpdate(rows, workspace, identity, alias, resources);
    hide Erased;
    forall i | 0 <= i < |rows|
      ensures ErasedRow(rows[i], Erased(rows, workspace, identity, alias, resources)[i], workspace, identity, alias,
                        resources)
    {
    }
  }

  ghost predicate ActorAbsent(rows: seq<Row>, workspace: string, identity: string) {
    forall i :: 0 <= i < |rows| ==> !Hits(ByActor(identity), workspace, rows[i])
  }

  // The identity disappears from the workspace unless its alias is the identity itself.
  lemma {:induction false} ActorDisappears(rows: seq<Row>, workspace: string, identity: string, alias: string,
                                           resources: seq<Resource>)
    ensures ActorAbsent(Erased(rows, workspace, identity, alias, resources), workspace, identity) <==>
            alias != identity || ActorAbsent(rows, workspace, identity)
  {
    var erased := Erased(rows, workspace, identity, alias, resources);
    UpdateLoopIsOneUpdate(rows, workspace, identity, alias, resources);
    if alias == identity {
      forall i | 0 <= i < |rows|
        ensures Hits(ByActor(identity), workspace, erased[i]) <==> Hits(ByActor(identity), workspace, rows[i])
      {
      }
    }
  }

  // Erasing again changes nothing.
  lemma {:induction false} ErasureIsIdempotent(rows: seq<Row>, workspace: string, identity: string, alias: string,
                                               resources: seq<Resource>)
    ensures var once := Erased(rows, workspace, identity, alias, resources);
            Erased(once, workspace, identity, alias, resources) == once
  {
    var once := Erased(rows, workspace, identity, alias, resources);
    UpdateLoopIsOneUpdate(rows, workspace, identity, alias, resources);
    UpdateLoopIsOneUpdate(once, workspace, identity, alias, resources);
  }

  // ---------- the reported count ----------

  function SumOfHits(rows: seq<Row>, workspace: string, targets: seq<Target>): nat {
    if targets == [] then 0
    else SumOfHits(rows, workspace, targets[..|targets| - 1]) + CountHits(rows, workspace, targets[|targets| - 1])
  }

  function UnionSize(rows: seq<Row>, workspace: string, targets: seq<Target>): nat {
    if rows == [] then 0
    else
      var last := rows[|rows| - 1];
      UnionSize(rows[..|rows| - 1], workspace, targets) +
      if exists t :: t in targets && Hits(t, workspace, last) then 1 else 0
  }

  lemma {:induction false} CountSurvivesRedaction(rows: seq<Row>, redacted: seq<Row>, workspace: string, t: Target)
    requires |redacted| == |rows|
    requires forall i :: 0 <= i < |rows| ==> redacted[i] == rows[i] || redacted[i] == Redact(rows[i])
    ensures CountHits(redacted, workspace, t) == CountHits(rows, workspace, t)
  {
    SameHits(rows, redacted, workspace, t);
  }

  lemma {:induction false} UnionGrowsByHits(rows: seq<Row>, workspace: string, targets: seq<Target>, t: Target)
    ensures UnionSize(rows, workspace, targets + [t]) <=
            UnionSize(rows, workspace, targets) + CountHits(rows, workspace, t)
  {
    if rows != [] {
      var last := rows[|rows| - 1];
      UnionGrowsByHits(rows[..|rows| - 1], workspace, targets, t);
      assert forall u :: u in targets + [t] <==> u in targets || u == t;
    }
  }

  lemma {:induction false} NothingHit(rows: seq<Row>, workspace: string)
    ensures UnionSize(rows, workspace, []) == 0
  {
    if rows != [] {
      NothingHit(rows[..|rows| - 1], workspace);
    }
  }

  // The per-clause sum counts overlaps again, so it is at least the number of rows concerned.
  lemma {:induction false} SumCoversUnion(rows: seq<Row>, workspace: string, targets: seq<Target>)
    ensures UnionSize(rows, workspace, targets) <= SumOfHits(rows, workspace, targets)
  {
    if targets == [] {
      NothingHit(rows, workspace);
    } else {
      var n := |targets| - 1;
      SumCoversUnion(rows, workspace, targets[..n]);
      UnionGrowsByHits(rows, workspace, targets[..n], targets[n]);
      assert targets == targets[..n] + [targets[n]];
    }
  }

  // ---------- two subjects ----------

  // The aliases do not send one subject's rows into the other erasure.
  predicate Independent(a: string, aliasA: string, b: string, aliasB: string) {
    a == b || ((aliasA == b ==> aliasB == b) && (aliasB == a ==> aliasA == a))
  }

  lemma {:induction false} RowErasuresCommute(row: Row, workspace: string, a: string, aliasA: string,
                                              forA: seq<Resource>, b: string, aliasB: string, forB: seq<Resource>)
    requires a == b ==> aliasA == aliasB
    requires Independent(a, aliasA, b, aliasB)
    ensures EraseRow(EraseRow(row, workspace, a, aliasA, forA), workspace, b, aliasB, forB) ==
            EraseRow(EraseRow(row, workspace, b, aliasB, forB), workspace, a, aliasA, forA)
  {
  }

  // Two erasures in one workspace commute for overlapping resource lists.
  lemma {:induction false} ErasuresCommute(rows: seq<Row>, workspace: string, a: string, aliasA: string,
                                           forA: seq<Resource>, b: string, aliasB: string, forB: seq<Resource>)
    requires a == b ==> aliasA == aliasB
    requires Independent(a, aliasA, b, aliasB)
    ensures Erased(Erased(rows, workspace, a, aliasA, forA), workspace, b, aliasB, forB) ==
            Erased(Erased(rows, workspace, b, aliasB, forB), workspace, a, aliasA, forA)
  {
    var afterA := Erased(rows, workspace, a, aliasA, forA);
    var afterB := Erased(rows, workspace, b, aliasB, forB);
    UpdateLoopIsOneUpdate(rows, workspace, a, aliasA, forA);
    UpdateLoopIsOneUpdate(rows, workspace, b, aliasB, forB);
    UpdateLoopIsOneUpdate(afterA, workspace, b, aliasB, forB);
    UpdateLoopIsOneUpdate(afterB, workspace, a, aliasA, forA);
    forall i | 0 <= i < |rows|
      ensures Erased(afterA, workspace, b, aliasB, forB)[i] == Erased(afterB, workspace, a, aliasA, forA)[i]
    {
      RowErasuresCommute(rows[i], workspace, a, aliasA, forA, b, aliasB, forB);
    }
  }

  ghost predicate CommuteEverywhere(workspace: string, a: string, aliasA: string, b: string, aliasB: string) {
    forall rows, forA, forB ::
      Erased(Erased(rows, workspace, a, aliasA, forA), workspace, b, aliasB, forB) ==
      Erased(Erased(rows, workspace, b, aliasB, forB), workspace, a, aliasA, forA)
  }

  // The condition is exact: without it some table tells the two orders apart.
  lemma {:induction false} ErasuresCommuteExactly(workspace: string, a: string, aliasA: string, b: string,
                                                  aliasB: string)
    requires a == b ==> aliasA == aliasB
    ensures CommuteEverywhere(workspace, a, aliasA, b, aliasB) <==> Independent(a, aliasA, b, aliasB)
  {
    if Independent(a, aliasA, b, aliasB) {
      forall rows, forA, forB
        ensures Erased(Erased(rows, workspace, a, aliasA, forA), workspace, b, aliasB, forB) ==
                Erased(Erased(rows, workspace, b, aliasB, forB), workspace, a, aliasA, forA)
      {
        ErasuresCommute(rows, workspace, a, aliasA, forA, b, aliasB, forB);
      }
    } else {
      var actor := if aliasA == b && aliasB != b then a else b;
      var rows := [Row(workspace, "", "", "", "", actor, None, "", "", "", "", "", "")];
      var afterA := Erased(rows, workspace, a, aliasA, []);
      var afterB := Erased(rows, workspace, b, aliasB, []);
      UpdateLoopIsOneUpdate(rows, workspace, a, aliasA, []);
      UpdateLoopIsOneUpdate(rows, workspace, b, aliasB, []);
      UpdateLoopIsOneUpdate(afterA, workspace, b, aliasB, []);
      UpdateLoopIsOneUpdate(afterB, workspace, a, aliasA, []);
      assert Erased(afterA, workspace, b, aliasB, [])[0].actorID != Erased(afterB, workspace, a, aliasA, [])[0].actorID;
    }
  }

  // A count is the number of rows hit.
  lemma {:induction false} CountIsCardinality(rows: seq<Row>, workspace: string, t: Target)
    ensures CountHits(rows, workspace, t) == |HitIndexes(rows, workspace, t)|
  {
    hide Hits;
    if rows != [] {
      var n := |rows| - 1;
      CountIsCardinality(rows[..n], workspace, t);
      var init := HitIndexes(rows[..n], workspace, t);
      assert HitIndexes(rows, workspace, t) == if Hits(t, workspace, rows[n]) then init + {n} else init;
    }
  }

  function HitIndexes(rows: seq<Row>, workspace: string, t: Target): (r: set<nat>)
    ensures forall i: nat :: i in r <==> i < |rows| && Hits(t, workspace, rows[i])
  {
    set i: nat | i < |rows| && Hits(t, workspace, rows[i])
  }

  // ---------- the preview ----------

  // The preview of an erasure counts what the erasure then reports, and counts nothing afterwards unless
  // the alias is the identity itself.
  lemma {:induction false} PreviewAnnouncesErasure(rows: seq<Row>, workspace: string, identity: string, alias: string)
    ensures CountHits(rows, workspace, ByActor(identity)) == SumOfHits(rows, workspace, Targets(identity, []))
    ensures var left := CountHits(Erased(rows, workspace, identity, alias, []), workspace, ByActor(identity));
            left == if alias == identity then CountHits(rows, workspace, ByActor(identity)) else 0
  {
    var target := ByActor(identity);
    assert Targets(identity, [])[..0] == [];
    UpdateLoopIsOneUpdate(rows, workspace, identity, alias, []);
    if alias == identity {
      SameHits(rows, Erased(rows, workspace, identity, alias, []), workspace, target);
    } else {
      ActorDisappears(rows, workspace, identity, alias, []);
      NoHits(Erased(rows, workspace, identity, alias, []), workspace, target);
    }
  }

  lemma {:induction false} SameHits(rows: seq<Row>, others: seq<Row>, workspace: string, t: Target)
    requires |others| == |rows|
    requires forall i :: 0 <= i < |rows| ==> (Hits(t, workspace, others[i]) <==> Hits(t, workspace, rows[i]))
    ensures CountHits(others, workspace, t) == CountHits(rows, workspace, t)
  {
    hide Hits;
    if rows != [] {
      var n := |rows| - 1;
      SameHits(rows[..n], others[..n], workspace, t);
    }
  }

  lemma {:induction false} NoHits(rows: seq<Row>, workspace: string, t: Target)
    requires forall i :: 0 <= i < |rows| ==> !Hits(t, workspace, rows[i])
    ensures CountHits(rows, workspace, t) == 0
  {
    hide Hits;
    if rows != [] {
      NoHits(rows[..|rows| - 1], workspace, t);
    }
  }

  // Only the erasure trims its arguments: the preview of the same texts counts the same rows on every
  // table exactly when both are trimmed.
  lemma {:induction false} PreviewNeedsTrimmedTexts(workspace: string, identity: string)
    ensures (forall rows :: CountHits(rows, workspace, ByActor(identity)) ==
                            CountHits(rows, TrimSpace(workspace), ByActor(TrimSpace(identity)))) <==>
            Trimmed(workspace) && Trimmed(identity)
  {
    var row := Row(workspace, "", "", "", "", identity, None, "", "", "", "", "", "");
    assert [row][..0] == [];
    assert CountHits([row], workspace, ByActor(identity)) == 1;
    if !Trimmed(workspace) || !Trimmed(identity) {
      assert CountHits([row], TrimSpace(workspace), ByActor(TrimSpace(identity))) == 0;
    }
  }
}
