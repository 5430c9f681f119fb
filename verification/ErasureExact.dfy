// Exactly which rows a run leaves redacted, and when interleaved erasures agree with sequential ones.
module ErasureExact {
  import opened Wrappers
  import opened Text
  import opened EventTable
  import opened Erasure
  import opened EventRuns
  import opened ErasureRuns

  // ---------- which rows are redacted ----------

  // The step runs a redacting update that hits the row, which is there.
  ghost predicate StepHits(w: World, step: Step, i: nat) {
    && step.pid < |w.procs| && w.procs[step.pid].Eraser? && w.procs[step.pid].pending != []
    && w.procs[step.pid].pending[0].RedactRows? && i < |w.rows|
    && Hits(w.procs[step.pid].pending[0].target, w.procs[step.pid].workspace, w.rows[i])
  }

  ghost predicate HitAt(w: World, schedule: seq<Step>, m: nat, i: nat) {
    m < |schedule| && StepHits(Execute(w, schedule[..m]), schedule[m], i)
  }

  // Row i as it was when it came into the table.
  ghost function Arrival(w: World, schedule: seq<Step>, i: nat): Row
    requires i < |Execute(w, schedule).rows|
  {
    if schedule == [] then w.rows[i]
    else
      var init := schedule[..|schedule| - 1];
      if i < |Execute(w, init).rows| then Arrival(w, init, i) else Execute(w, schedule).rows[i]
  }

  lemma {:induction false} StepRedacted(w: World, step: Step, i: nat)
    requires i < |w.rows|
    ensures i < |Apply(w, step).rows|
    ensures Redacted(Apply(w, step).rows[i]) <==> Redacted(w.rows[i]) || StepHits(w, step, i)
  {
    hide AppendStep, ToRow;
    if step.pid < |w.procs| && w.procs[step.pid].Appender? {
      AppendKeepsRows(w.rows, w.procs[step.pid].event, w.procs[step.pid].phase, step.fault);
    }
  }

  // Whatever runs in whatever order: a row is redacted exactly when it came so, or was there and hit when
  // some redacting update ran.
  lemma {:induction false} RedactedExactly(w: World, schedule: seq<Step>, i: nat)
    requires i < |Execute(w, schedule).rows|
    ensures Redacted(Execute(w, schedule).rows[i]) <==>
            Redacted(Arrival(w, schedule, i)) || exists m :: HitAt(w, schedule, m, i)
  {
    hide Apply, Redacted, StepHits;
    if schedule != [] {
      var n := |schedule| - 1;
      var init := schedule[..n];
      var before := Execute(w, init);
      assert forall m :: 0 <= m <= n ==> init[..m] == schedule[..m];
      assert HitAt(w, schedule, n, i) <==> StepHits(before, schedule[n], i);
      if i < |before.rows| {
        RedactedExactly(w, init, i);
        StepRedacted(before, schedule[n], i);
        assert forall m :: 0 <= m < n ==> (HitAt(w, init, m, i) <==> HitAt(w, schedule, m, i));
      } else {
        forall m | HitAt(w, schedule, m, i)
          ensures false
        {
          LateRow(w, schedule, m, i);
        }
      }
    } else {
      assert forall m :: !HitAt(w, schedule, m, i);
    }
  }

  // A row not yet there before the last step was never hit.
  lemma {:induction false} LateRow(w: World, schedule: seq<Step>, m: nat, i: nat)
    requires schedule != [] && |Execute(w, schedule[..|schedule| - 1]).rows| <= i
    ensures !HitAt(w, schedule, m, i)
  {
    hide Apply, Execute, Hits;
    var init := schedule[..|schedule| - 1];
    if m < |schedule| {
      assert init[..m] == schedule[..m] && init == schedule[..m] + init[m..];
      ExecuteAppend(w, schedule[..m], init[m..]);
    }
  }

  // ---------- one erasure among appends ----------

  // The erasure is the only one.
  ghost predicate OnlyErasure(w: World, pid: nat) {
    pid < |w.procs| && w.procs[pid].Eraser? && forall q :: 0 <= q < |w.procs| && q != pid ==> w.procs[q].Appender?
  }

  // A clause of the erasure runs at step m.
  ghost predicate ClauseRuns(w: World, schedule: seq<Step>, m: nat, pid: nat, t: Target) {
    m < |schedule| && schedule[m].pid == pid && pid < |w.procs| &&
    var p := Execute(w, schedule[..m]).procs[pid];
    p.Eraser? && p.pending != [] && p.pending[0] == RedactRows(t)
  }

  // Redacting updates, then the anonymising one.
  ghost predicate Pending(statements: seq<Statement>) {
    statements != [] ==>
      statements[|statements| - 1].AnonymizeRows? && forall k :: 0 <= k < |statements| - 1 ==> statements[k].RedactRows?
  }

  // Rows keep the record they came with, and their actor as long as the erasure is not through.
  ghost predicate AsArrived(w: World, schedule: seq<Step>, pid: nat)
    requires pid < |w.procs|
  {
    var end := Execute(w, schedule);
    forall i :: 0 <= i < |end.rows| ==>
      var arrived := Arrival(w, schedule, i);
      && SameRecord(end.rows[i], arrived)
      && (end.procs[pid].Eraser? && end.procs[pid].pending != [] ==> end.rows[i].actorID == arrived.actorID)
  }

  predicate SameRecord(a: Row, b: Row) {
    a.workspace == b.workspace && a.objectKey == b.objectKey && a.recordID == b.recordID
  }

  lemma {:induction false} StepOfOnlyErasure(w: World, step: Step, pid: nat)
    requires OnlyErasure(w, pid) && Pending(w.procs[pid].pending)
    ensures OnlyErasure(Apply(w, step), pid) && Pending(Apply(w, step).procs[pid].pending)
    ensures Apply(w, step).procs[pid].workspace == w.procs[pid].workspace
    ensures |w.rows| <= |Apply(w, step).rows|
    ensures forall i :: 0 <= i < |w.rows| ==>
              SameRecord(Apply(w, step).rows[i], w.rows[i]) &&
              (Apply(w, step).procs[pid].pending != [] ==> Apply(w, step).rows[i].actorID == w.rows[i].actorID)
  {
    hide AppendStep, ToRow;
    if step.pid < |w.procs| && w.procs[step.pid].Appender? {
      AppendKeepsRows(w.rows, w.procs[step.pid].event, w.procs[step.pid].phase, step.fault);
    }
  }

  lemma {:induction false} RunOfOnlyErasure(w: World, schedule: seq<Step>, pid: nat)
    requires OnlyErasure(w, pid) && Pending(w.procs[pid].pending)
    ensures OnlyErasure(Execute(w, schedule), pid) && Pending(Execute(w, schedule).procs[pid].pending)
    ensures Execute(w, schedule).procs[pid].workspace == w.procs[pid].workspace
    ensures AsArrived(w, schedule, pid)
  {
    hide Apply, Pending;
    if schedule != [] {
      var n := |schedule| - 1;
      var before := Execute(w, schedule[..n]);
      RunOfOnlyErasure(w, schedule[..n], pid);
      StepOfOnlyErasure(before, schedule[n], pid);
      if before.procs[pid].pending == [] {
        DoneStaysDone(before, schedule[n], pid);
      }
    }
  }

  lemma {:induction false} DoneStaysDone(w: World, step: Step, pid: nat)
    requires pid < |w.procs| && w.procs[pid].Eraser? && w.procs[pid].pending == []
    ensures Apply(w, step).procs[pid] == w.procs[pid]
  {
    hide AppendStep, Run;
  }

  lemma {:induction false} ArrivalPrefix(w: World, schedule: seq<Step>, m: nat, i: nat)
    requires m <= |schedule| && i < |Execute(w, schedule[..m]).rows|
    ensures i < |Execute(w, schedule).rows| && Arrival(w, schedule, i) == Arrival(w, schedule[..m], i)
  {
    hide Apply;
    if m == |schedule| {
      assert schedule[..m] == schedule;
    } else {
      var n := |schedule| - 1;
      assert schedule[..n][..m] == schedule[..m];
      ArrivalPrefix(w, schedule[..n], m, i);
      assert schedule == schedule[..n] + [schedule[n]];
      ExecuteAppend(w, schedule[..n], [schedule[n]]);
    }
  }

  // Row i is in the table when the clause runs at step m, and the clause is about the row as it came.
  ghost predicate Caught(w: World, schedule: seq<Step>, m: nat, pid: nat, t: Target, i: nat)
    requires i < |Execute(w, schedule).rows| && pid < |w.procs| && w.procs[pid].Eraser?
  {
    && ClauseRuns(w, schedule, m, pid, t) && i < |Execute(w, schedule[..m]).rows|
    && Hits(t, w.procs[pid].workspace, Arrival(w, schedule, i))
  }

  lemma {:induction false} HitIsCaught(w: World, schedule: seq<Step>, m: nat, pid: nat, i: nat)
    requires OnlyErasure(w, pid) && Pending(w.procs[pid].pending) && i < |Execute(w, schedule).rows|
    ensures HitAt(w, schedule, m, i) <==> exists t :: Caught(w, schedule, m, pid, t, i)
  {
    hide Apply, Execute, Pending, Arrival;
    if m < |schedule| {
      var init := schedule[..m];
      var before := Execute(w, init);
      RunOfOnlyErasure(w, init, pid);
      if i < |before.rows| {
        ArrivalPrefix(w, schedule, m, i);
        assert SameRecord(before.rows[i], Arrival(w, init, i));
        if schedule[m].pid == pid && before.procs[pid].pending != [] && before.procs[pid].pending[0].RedactRows? {
          var t := before.procs[pid].pending[0].target;
          assert before.procs[pid].pending[0] == RedactRows(t);
          assert ClauseRuns(w, schedule, m, pid, t);
          assert Caught(w, schedule, m, pid, t, i) <==> HitAt(w, schedule, m, i);
        }
      }
    }
  }

  // An erasure among any appends, in any interleaving: a row is redacted exactly when it came so, or one
  // of the erasure's clauses, about its record or the actor it came with, ran after it came.
  lemma {:induction false} ErasureReachesExactly(w: World, schedule: seq<Step>, pid: nat, identity: string,
                                                 alias: string, resources: seq<Resource>, i: nat)
    requires OnlyErasure(w, pid) && w.procs[pid].pending == ErasureStatements(identity, alias, resources)
    requires i < |Execute(w, schedule).rows|
    ensures Redacted(Execute(w, schedule).rows[i]) <==>
            Redacted(Arrival(w, schedule, i)) || exists m, t :: Caught(w, schedule, m, pid, t, i)
  {
    hide Execute, Apply, Arrival, Redacted, Caught, HitAt;
    RedactedExactly(w, schedule, i);
    if m :| HitAt(w, schedule, m, i) {
      HitIsCaught(w, schedule, m, pid, i);
    }
    if m, t :| Caught(w, schedule, m, pid, t, i) {
      HitIsCaught(w, schedule, m, pid, i);
    }
  }

  // When the erasure is through, each of its clauses has run, and no other.
  lemma {:induction false} ClausesRan(w: World, schedule: seq<Step>, pid: nat, t: Target)
    requires pid < |w.procs| && w.procs[pid].Eraser?
    ensures Execute(w, schedule).procs[pid].Eraser?
    ensures RedactRows(t) in w.procs[pid].pending <==>
            RedactRows(t) in Execute(w, schedule).procs[pid].pending || exists m :: ClauseRuns(w, schedule, m, pid, t)
  {
    hide AppendStep, Run;
    if schedule == [] {
      assert forall m :: !ClauseRuns(w, schedule, m, pid, t);
    } else {
      var n := |schedule| - 1;
      var init := schedule[..n];
      var before := Execute(w, init);
      ClausesRan(w, init, pid, t);
      assert forall m :: 0 <= m <= n ==> init[..m] == schedule[..m];
      assert forall m :: 0 <= m < n ==> (ClauseRuns(w, init, m, pid, t) <==> ClauseRuns(w, schedule, m, pid, t));
      var pending := before.procs[pid].pending;
      assert ClauseRuns(w, schedule, n, pid, t) <==>
             schedule[n].pid == pid && pending != [] && pending[0] == RedactRows(t);
      assert pending != [] ==> pending == [pending[0]] + pending[1..];
    }
  }

  // ---------- two erasures of one identity ----------

  // A second erasure of the same identity can miss a row that is there when it starts: the first, between
  // whose updates the row came, has meanwhile replaced the row's actor.
  lemma {:induction false} SecondErasureMisses(event: Event, alias: string)
    requires TrimSpace(event.workspace) != "" && alias != event.actorID && !Redacted(ToRow(event))
    ensures var eraser := Eraser(event.workspace, ErasureStatements(event.actorID, alias, []));
            var w := World([], [eraser, eraser, Appender(event, Inserting)]);
            var a, b, c := Step(0, Runs), Step(1, Runs), Step(2, Runs);
            var middle, end := Execute(w, [a, c]), Execute(w, [a, c, a, b, b]);
            middle.rows == [ToRow(event)] && middle.procs[1] == eraser &&
            end.procs[0] == Eraser(event.workspace, []) && end.procs[1] == Eraser(event.workspace, []) &&
            end.rows == [Anonymize(ToRow(event), alias)] && !Redacted(end.rows[0])
  {
    var statements := ErasureStatements(event.actorID, alias, []);
    assert statements == [RedactRows(ByActor(event.actorID)), AnonymizeRows(event.actorID, alias)];
    assert statements[1..] == [AnonymizeRows(event.actorID, alias)] && statements[1..][1..] == [];
    var a, b, c := Step(0, Runs), Step(1, Runs), Step(2, Runs);
    var first, second := Eraser(event.workspace, statements), Eraser(event.workspace, statements[1..]);
    var done, row := Eraser(event.workspace, []), ToRow(event);
    var w0 := World([], [first, first, Appender(event, Inserting)]);
    var w1 := World([], [second, first, Appender(event, Inserting)]);
    var w2 := World([row], [second, first, Appender(event, Finished(true))]);
    var w3 := World([Anonymize(row, alias)], [done, first, Appender(event, Finished(true))]);
    var w4 := World([Anonymize(row, alias)], [done, second, Appender(event, Finished(true))]);
    var w5 := World([Anonymize(row, alias)], [done, done, Appender(event, Finished(true))]);
    assert Apply(w0, a) == w1;
    assert Apply(w1, c) == w2;
    assert Apply(w2, a).rows == w3.rows && Apply(w2, a) == w3;
    assert Apply(w3, b).rows == w4.rows && Apply(w3, b) == w4;
    assert Apply(w4, b).rows == w5.rows && Apply(w4, b) == w5;
    FiveSteps(w0, a, c, a, b, b);
  }

  lemma {:induction false} FiveSteps(w: World, a: Step, b: Step, c: Step, d: Step, e: Step)
    ensures Execute(w, [a, b]) == Apply(Apply(w, a), b)
    ensures Execute(w, [a, b, c, d, e]) == Apply(Apply(Apply(Apply(Apply(w, a), b), c), d), e)
  {
    hide Apply;
    assert [a][..0] == [] && [a, b][..1] == [a] && [a, b, c][..2] == [a, b];
    assert [a, b, c, d][..3] == [a, b, c] && [a, b, c, d, e][..4] == [a, b, c, d];
    assert Execute(w, []) == w;
    assert Execute(w, [a]) == Apply(w, a);
    assert Execute(w, [a, b, c]) == Apply(Apply(Apply(w, a), b), c);
    assert Execute(w, [a, b, c, d]) == Apply(Apply(Apply(Apply(w, a), b), c), d);
  }

  // ---------- two erasures, update by update ----------

  // Two updates of different erasures of one workspace that may run in either order.
  predicate Apart(s: Statement, t: Statement) {
    match s
    case RedactRows(a) =>
      (match t
       case RedactRows(_) => true
       case AnonymizeRows(identity, alias) => a.ByActor? ==> a.identity != identity && a.identity != alias)
    case AnonymizeRows(identity, alias) =>
      (match t
       case RedactRows(b) => b.ByActor? ==> b.identity != identity && b.identity != alias
       case AnonymizeRows(other, otherAlias) => identity != other && identity != otherAlias && alias != other)
  }

  lemma {:induction false} ApartCommute(s: Statement, t: Statement, workspace: string, rows: seq<Row>)
    requires Apart(s, t)
    ensures Run(s, workspace, Run(t, workspace, rows)) == Run(t, workspace, Run(s, workspace, rows))
  {
    var a, b := Run(s, workspace, Run(t, workspace, rows)), Run(t, workspace, Run(s, workspace, rows));
    assert |a| == |b| == |rows|;
    forall i | 0 <= i < |rows|
      ensures a[i] == b[i]
    {
    }
  }

  lemma {:induction false} RunPast(s: Statement, statements: seq<Statement>, workspace: string, rows: seq<Row>)
    requires forall k :: 0 <= k < |statements| ==> Apart(s, statements[k])
    ensures Run(s, workspace, RunAll(statements, workspace, rows)) ==
            RunAll(statements, workspace, Run(s, workspace, rows))
  {
    hide Run, Apart;
    if statements != [] {
      var n := |statements| - 1;
      RunPast(s, statements[..n], workspace, rows);
      ApartCommute(s, statements[n], workspace, RunAll(statements[..n], workspace, rows));
    }
  }

  // Different identities, neither of which is the other's alias.
  predicate Strangers(a: string, aliasA: string, b: string, aliasB: string) {
    a != b && aliasA != b && aliasB != a
  }

  lemma {:induction false} StrangersAreApart(a: string, aliasA: string, forA: seq<Resource>, b: string,
                                             aliasB: string, forB: seq<Resource>, j: nat, k: nat)
    requires Strangers(a, aliasA, b, aliasB)
    requires j < |ErasureStatements(a, aliasA, forA)| && k < |ErasureStatements(b, aliasB, forB)|
    ensures Apart(ErasureStatements(a, aliasA, forA)[j], ErasureStatements(b, aliasB, forB)[k])
  {
    if j < |Targets(a, forA)| {
      ActorTargetsAre(a, forA, j);
    }
    if k < |Targets(b, forB)| {
      ActorTargetsAre(b, forB, k);
    }
  }

  lemma {:induction false} ActorTargetsAre(identity: string, resources: seq<Resource>, k: nat)
    requires k < |Targets(identity, resources)|
    ensures var t := Targets(identity, resources)[k]; t.ByActor? ==> t.identity == identity
  {
    if resources != [] && k < |Targets(identity, resources)| - 1 {
      ActorTargetsAre(identity, resources[..|resources| - 1], k);
    }
  }

  // After any schedule of two erasures: so many updates of each have run, and the table is as if those of
  // the first had run before those of the second.
  ghost predicate Sequential(w: World, workspace: string, first: seq<Statement>, second: seq<Statement>,
                             rows: seq<Row>, m: nat, n: nat) {
    && m <= |first| && n <= |second| && w.procs == [Eraser(workspace, first[m..]), Eraser(workspace, second[n..])]
    && w.rows == RunAll(second[..n], workspace, RunAll(first[..m], workspace, rows))
  }

  lemma {:induction false} StepSequential(w: World, step: Step, workspace: string, first: seq<Statement>,
                                          second: seq<Statement>, rows: seq<Row>, m: nat, n: nat)
    returns (m2: nat, n2: nat)
    requires Sequential(w, workspace, first, second, rows, m, n)
    requires forall j, k :: 0 <= j < |first| && 0 <= k < |second| ==> Apart(first[j], second[k])
    ensures Sequential(Apply(w, step), workspace, first, second, rows, m2, n2)
  {
    hide Run, Apart;
    m2, n2 := m, n;
    var next := Apply(w, step);
    if step.pid == 0 && m < |first| {
      m2 := m + 1;
      RunPast(first[m], second[..n], workspace, RunAll(first[..m], workspace, rows));
      assert first[..m2][..m] == first[..m];
      assert next.procs == [Eraser(workspace, first[m2..]), w.procs[1]];
    } else if step.pid == 1 && n < |second| {
      n2 := n + 1;
      assert second[..n2][..n] == second[..n];
      assert next.procs == [w.procs[0], Eraser(workspace, second[n2..])];
    }
  }

  lemma {:induction false} RunSequential(w: World, schedule: seq<Step>, workspace: string, first: seq<Statement>,
                                         second: seq<Statement>)
    returns (m: nat, n: nat)
    requires w.procs == [Eraser(workspace, first), Eraser(workspace, second)]
    requires forall j, k :: 0 <= j < |first| && 0 <= k < |second| ==> Apart(first[j], second[k])
    ensures Sequential(Execute(w, schedule), workspace, first, second, w.rows, m, n)
  {
    hide Apply, Apart;
    if schedule == [] {
      m, n := 0, 0;
      assert first[0..] == first && second[0..] == second && first[..0] == [] && second[..0] == [];
    } else {
      var last := |schedule| - 1;
      m, n := RunSequential(w, schedule[..last], workspace, first, second);
      m, n := StepSequential(Execute(w, schedule[..last]), schedule[last], workspace, first, second, w.rows, m, n);
    }
  }

  // Two erasures of strangers interleaved update by update, in any order, end in the table of one after
  // the other.
  lemma {:induction false} InterleavedIsSequential(w: World, schedule: seq<Step>, workspace: string, a: string,
                                                   aliasA: string, forA: seq<Resource>, b: string, aliasB: string,
                                                   forB: seq<Resource>)
    requires Strangers(a, aliasA, b, aliasB)
    requires w.procs == [Eraser(workspace, ErasureStatements(a, aliasA, forA)),
                         Eraser(workspace, ErasureStatements(b, aliasB, forB))]
    requires Execute(w, schedule).procs == [Eraser(workspace, []), Eraser(workspace, [])]
    ensures Execute(w, schedule).rows == Erased(Erased(w.rows, workspace, a, aliasA, forA), workspace, b, aliasB, forB)
  {
    hide Execute, Apart, RunAll, Erased, ErasureStatements, Strangers;
    var first, second := ErasureStatements(a, aliasA, forA), ErasureStatements(b, aliasB, forB);
    forall j, k | 0 <= j < |first| && 0 <= k < |second|
      ensures Apart(first[j], second[k])
    {
      StrangersAreApart(a, aliasA, forA, b, aliasB, forB, j, k);
    }
    var m, n := RunSequential(w, schedule, workspace, first, second);
    assert |first[m..]| == 0 && |second[n..]| == 0;
    assert first[..m] == first && second[..n] == second;
    UninterruptedErasure(workspace, a, aliasA, forA, w.rows);
    UninterruptedErasure(workspace, b, aliasB, forB, RunAll(first, workspace, w.rows));
  }
}
