// Erasure in the middle of other processes: what one UPDATE per step still guarantees.
module ErasureRuns {
  import opened Wrappers
  import opened Text
  import opened EventTable
  import opened Erasure
  import opened EventRuns

  function Redactions(targets: seq<Target>): (r: seq<Statement>)
    ensures |r| == |targets|
    ensures forall i :: 0 <= i < |targets| ==> r[i] == RedactRows(targets[i])
  {
    seq(|targets|, i requires 0 <= i < |targets| => RedactRows(targets[i]))
  }

  // The updates of one erasure, in order.
  function ErasureStatements(identity: string, alias: string, resources: seq<Resource>): seq<Statement> {
    Redactions(Targets(identity, resources)) + [AnonymizeRows(identity, alias)]
  }

  function RunAll(statements: seq<Statement>, workspace: string, rows: seq<Row>): seq<Row> {
    if statements == [] then rows
    else Run(statements[|statements| - 1], workspace, RunAll(statements[..|statements| - 1], workspace, rows))
  }

  lemma {:induction false} RunRedactions(targets: seq<Target>, workspace: string, rows: seq<Row>)
    ensures RunAll(Redactions(targets), workspace, rows) == RedactAll(rows, workspace, targets)
  {
    if targets != [] {
      var n := |targets| - 1;
      assert Redactions(targets)[..n] == Redactions(targets[..n]);
      RunRedactions(targets[..n], workspace, rows);
    }
  }

  // Run with no step in between, the statements are the erasure.
  lemma {:induction false} UninterruptedErasure(workspace: string, identity: string, alias: string,
                                                resources: seq<Resource>, rows: seq<Row>)
    ensures RunAll(ErasureStatements(identity, alias, resources), workspace, rows) ==
            Erased(rows, workspace, identity, alias, resources)
  {
    var statements := ErasureStatements(identity, alias, resources);
    assert statements[..|statements| - 1] == Redactions(Targets(identity, resources));
    RunRedactions(Targets(identity, resources), workspace, rows);
  }

  lemma {:induction false} ActorTargetFirst(identity: string, resources: seq<Resource>)
    ensures Targets(identity, resources)[0] == ByActor(identity)
    ensures forall r :: r in resources ==> ByRecord(r.objectKey, r.recordID) in Targets(identity, resources)
  {
    if resources != [] {
      ActorTargetFirst(identity, resources[..|resources| - 1]);
      assert resources == resources[..|resources| - 1] + [resources[|resources| - 1]];
    }
  }

  // No process but pid anonymises this identity in this workspace.
  ghost predicate OnlyEraserOf(w: World, pid: nat, workspace: string, identity: string) {
    forall q, s ::
      (0 <= q < |w.procs| && q != pid && w.procs[q].Eraser? && w.procs[q].workspace == workspace &&
       s in w.procs[q].pending && s.AnonymizeRows?) ==> s.identity != identity
  }

  // While an erasure is under way a row it must reach is either still waiting for it or erased.
  ghost predicate WaitingOrErased(w: World, pid: nat, workspace: string, first: seq<Statement>, t: Target, i: nat)
    requires pid < |w.procs| && i < |w.rows|
  {
    && w.procs[pid].Eraser? && w.procs[pid].workspace == workspace && w.rows[i].workspace == workspace
    && (Redacted(w.rows[i]) ||
        (Hits(t, workspace, w.rows[i]) && RedactRows(t) in w.procs[pid].pending &&
         (t.ByActor? ==> w.procs[pid].pending == first)))
  }

  lemma {:induction false} StepWaitingOrErased(w: World, step: Step, pid: nat, workspace: string,
                                               first: seq<Statement>, t: Target, i: nat)
    requires pid < |w.procs| && i < |w.rows| && WaitingOrErased(w, pid, workspace, first, t, i)
    requires t.ByActor? ==> first != [] && first[0] == RedactRows(t) && OnlyEraserOf(w, pid, workspace, t.identity)
    ensures |w.rows| <= |Apply(w, step).rows|
    ensures WaitingOrErased(Apply(w, step), pid, workspace, first, t, i)
  {
    hide AppendStep, ToRow;
    if step.pid < |w.procs| && w.procs[step.pid].Appender? {
      AppendKeepsRows(w.rows, w.procs[step.pid].event, w.procs[step.pid].phase, step.fault);
    }
    if step.pid < |w.procs| && w.procs[step.pid].Eraser? && w.procs[step.pid].pending != [] {
      var s, rest := w.procs[step.pid].pending[0], w.procs[step.pid].pending[1..];
      assert w.procs[step.pid].pending == [s] + rest;
      assert s in w.procs[step.pid].pending;
    }
  }

  // Steps only shorten what an eraser has still to do.
  lemma {:induction false} StepOnlyEraserOf(w: World, step: Step, pid: nat, workspace: string, identity: string)
    requires OnlyEraserOf(w, pid, workspace, identity)
    ensures OnlyEraserOf(Apply(w, step), pid, workspace, identity)
  {
    hide AppendStep, Run;
    var next := Apply(w, step);
    forall q, u | 0 <= q < |next.procs| && q != pid && next.procs[q].Eraser? && next.procs[q].workspace == workspace &&
                  u in next.procs[q].pending && u.AnonymizeRows?
      ensures u.identity != identity
    {
      assert u in w.procs[q].pending;
    }
  }

  // Every row an erasure targets when it starts is erased when it is done, whatever runs in between.
  lemma {:induction false} ErasureReachesPresentRows(w: World, schedule: seq<Step>, pid: nat, workspace: string,
                                                     identity: string, alias: string, resources: seq<Resource>,
                                                     i: nat)
    requires pid < |w.procs| && w.procs[pid] == Eraser(workspace, ErasureStatements(identity, alias, resources))
    requires i < |w.rows| && InUnion(w.rows[i], workspace, identity, resources)
    requires w.rows[i].actorID == identity ==> OnlyEraserOf(w, pid, workspace, identity)
    requires var end := Execute(w, schedule).procs[pid]; end.Eraser? && end.pending == []
    ensures Redacted(Execute(w, schedule).rows[i])
  {
    var first := ErasureStatements(identity, alias, resources);
    ActorTargetFirst(identity, resources);
    var t := ByActor(identity);
    if w.rows[i].actorID != identity {
      var r :| r in resources && w.rows[i].objectKey == r.objectKey && w.rows[i].recordID == r.recordID;
      t := ByRecord(r.objectKey, r.recordID);
    }
    assert t in Targets(identity, resources);
    var k :| 0 <= k < |Targets(identity, resources)| && Targets(identity, resources)[k] == t;
    assert first[k] == RedactRows(t);
    RunWaitingOrErased(w, schedule, pid, workspace, first, t, i);
  }

  lemma {:induction false} RunWaitingOrErased(w: World, schedule: seq<Step>, pid: nat, workspace: string,
                                              first: seq<Statement>, t: Target, i: nat)
    requires pid < |w.procs| && i < |w.rows| && WaitingOrErased(w, pid, workspace, first, t, i)
    requires t.ByActor? ==> first != [] && first[0] == RedactRows(t) && OnlyEraserOf(w, pid, workspace, t.identity)
    ensures WaitingOrErased(Execute(w, schedule), pid, workspace, first, t, i)
    ensures t.ByActor? ==> OnlyEraserOf(Execute(w, schedule), pid, workspace, t.identity)
  {
    if schedule != [] {
      var n := |schedule| - 1;
      RunWaitingOrErased(w, schedule[..n], pid, workspace, first, t, i);
      StepWaitingOrErased(Execute(w, schedule[..n]), schedule[n], pid, workspace, first, t, i);
      if t.ByActor? {
        StepOnlyEraserOf(Execute(w, schedule[..n]), schedule[n], pid, workspace, t.identity);
      }
    }
  }

  // The row must be there from the start: one appended after the redacting update and before the
  // anonymising one keeps its content although its actor is replaced.
  lemma {:induction false} LateAppendKeepsContent(event: Event, alias: string)
    requires TrimSpace(event.workspace) != "" && alias != event.actorID && !Redacted(ToRow(event))
    ensures var w := World([], [Eraser(event.workspace, ErasureStatements(event.actorID, alias, [])),
                                Appender(event, Inserting)]);
            var end := Execute(w, [Step(0, Runs), Step(1, Runs), Step(0, Runs)]);
            end.procs[0] == Eraser(event.workspace, []) && end.procs[1] == Appender(event, Finished(true)) &&
            end.rows == [Anonymize(ToRow(event), alias)] && !Redacted(end.rows[0])
  {
    var statements := ErasureStatements(event.actorID, alias, []);
    assert statements == [RedactRows(ByActor(event.actorID)), AnonymizeRows(event.actorID, alias)];
    var a, b := Step(0, Runs), Step(1, Runs);
    var w0 := World([], [Eraser(event.workspace, statements), Appender(event, Inserting)]);
    var w1 := Apply(w0, a);
    assert w1 == World([], [Eraser(event.workspace, statements[1..]), Appender(event, Inserting)]);
    var w2 := Apply(w1, b);
    assert w2 == World([ToRow(event)], [Eraser(event.workspace, statements[1..]), Appender(event, Finished(true))]);
    var w3 := Apply(w2, a);
    assert Execute(w0, []) == w0;
    assert [a][..0] == [] && [a, b][..1] == [a] && [a, b, a][..2] == [a, b];
    assert Execute(w0, [a]) == w1;
    assert Execute(w0, [a, b]) == w2;
    assert Execute(w0, [a, b, a]) == w3;
    assert statements[1..][1..] == [];
    assert w3.rows == [Anonymize(ToRow(event), alias)];
  }
}
