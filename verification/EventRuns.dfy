// Every run of concurrent appends and erasures over the event table. Each database statement is one
// atomic step; an erasure takes one step per UPDATE, so appends may land between its updates.
module EventRuns {
  import opened Wrappers
  import opened Text
  import opened EventTable

  datatype AppendPhase = Inserting | LookingUp | Finished(ok: bool)
  datatype Statement = RedactRows(target: Target) | AnonymizeRows(identity: string, alias: string)

  datatype Process =
    | Appender(event: Event, phase: AppendPhase)
    | Eraser(workspace: string, pending: seq<Statement>)

  datatype World = World(rows: seq<Row>, procs: seq<Process>)
  datatype Step = Step(pid: nat, fault: Fault)

  function Run(s: Statement, workspace: string, rows: seq<Row>): seq<Row> {
    match s
    case RedactRows(t) => RedactWhere(rows, workspace, t)
    case AnonymizeRows(identity, alias) => AnonymizeWhere(rows, workspace, identity, alias)
  }

  // The INSERT of AppendPrepared, then the lookup that decides a refused one.
  function AppendStep(rows: seq<Row>, event: Event, phase: AppendPhase, fault: Fault): (seq<Row>, AppendPhase) {
    match phase
    case Inserting =>
      if TrimSpace(event.workspace) == "" then (rows, Finished(false))
      else
        var inserted := TryInsert(rows, ToRow(event));
        if fault.Refused? || inserted.None? then (rows, LookingUp)
        else if fault.AckLost? then (inserted.value, LookingUp)
        else (inserted.value, Finished(true))
    case LookingUp => (rows, Finished(fault.Runs? && Recorded(rows, ToRow(event))))
    case Finished(_) => (rows, phase)
  }

  function Apply(w: World, step: Step): World {
    if step.pid >= |w.procs| then w
    else match w.procs[step.pid]
      case Appender(event, phase) =>
        var next := AppendStep(w.rows, event, phase, step.fault);
        World(next.0, w.procs[step.pid := Appender(event, next.1)])
      case Eraser(workspace, pending) =>
        if pending == [] then w
        else World(Run(pending[0], workspace, w.rows), w.procs[step.pid := Eraser(workspace, pending[1..])])
  }

  // The world after a schedule.
  function Execute(w: World, schedule: seq<Step>): (r: World)
    ensures |r.procs| == |w.procs| && |w.rows| <= |r.rows|
  {
    if schedule == [] then w else Apply(Execute(w, schedule[..|schedule| - 1]), schedule[|schedule| - 1])
  }

  lemma {:induction false} ExecuteAppend(w: World, first: seq<Step>, second: seq<Step>)
    ensures Execute(w, first + second) == Execute(Execute(w, first), second)
  {
    if second == [] {
      assert first + second == first;
    } else {
      var n := |second| - 1;
      assert (first + second)[..|first + second| - 1] == first + second[..n];
      ExecuteAppend(w, first, second[..n]);
    }
  }

  // ---------- what no run changes ----------

  // A row's identity, record and time; its content stays or is erased; nothing erased comes back.
  predicate Evolves(a: Row, b: Row) {
    && SameKey(a, b) && a.event == b.event && a.objectKey == b.objectKey && a.recordID == b.recordID
    && a.createdAt == b.createdAt
    && ((b.summary == a.summary && b.metadata == a.metadata && b.before == a.before && b.after == a.after) ||
        Redacted(b))
  }

  ghost predicate TableEvolves(a: seq<Row>, b: seq<Row>) {
    |a| <= |b| && forall i :: 0 <= i < |a| ==> Evolves(a[i], b[i])
  }

  lemma {:induction false} TableEvolvesTransitive(a: seq<Row>, b: seq<Row>, c: seq<Row>)
    requires TableEvolves(a, b) && TableEvolves(b, c)
    ensures TableEvolves(a, c)
  {
    forall i | 0 <= i < |a|
      ensures Evolves(a[i], c[i])
    {
      assert Evolves(a[i], b[i]) && Evolves(b[i], c[i]);
    }
  }

  // An append leaves every stored row as it is and adds at most its own.
  lemma {:induction false} AppendKeepsRows(rows: seq<Row>, event: Event, phase: AppendPhase, fault: Fault)
    ensures var next := AppendStep(rows, event, phase, fault).0;
            next == rows || (next == rows + [ToRow(event)] && IndexOf(rows, event.workspace, event.id).None?)
  {
  }

  lemma {:induction false} StepEvolves(w: World, step: Step)
    requires UniqueKeys(w.rows)
    ensures TableEvolves(w.rows, Apply(w, step).rows) && UniqueKeys(Apply(w, step).rows)
  {
    if step.pid < |w.procs| && w.procs[step.pid].Appender? {
      AppendKeepsRows(w.rows, w.procs[step.pid].event, w.procs[step.pid].phase, step.fault);
    }
  }

  // The set of (workspace, id) keys only grows, keys stay unique, and no step of any process rewrites
  // an event's identity, record or creation time, or brings erased content back.
  lemma {:induction false} RunEvolves(w: World, schedule: seq<Step>)
    requires UniqueKeys(w.rows)
    ensures TableEvolves(w.rows, Execute(w, schedule).rows) && UniqueKeys(Execute(w, schedule).rows)
  {
    if schedule != [] {
      var n := |schedule| - 1;
      RunEvolves(w, schedule[..n]);
      var before := Execute(w, schedule[..n]);
      StepEvolves(before, schedule[n]);
      TableEvolvesTransitive(w.rows, before.rows, Execute(w, schedule).rows);
    }
  }

  // ---------- what a successful append means ----------

  predicate Succeeded(p: Process) {
    p.Appender? && p.phase == Finished(true)
  }

  lemma {:induction false} LastIndex(rows: seq<Row>, row: Row)
    requires IndexOf(rows, row.workspace, row.id).None?
    ensures Recorded(rows + [row], row)
  {
    assert IndexOf(rows + [row], row.workspace, row.id) == Some(|rows|);
  }

  lemma {:induction false} StepSuccess(w: World, step: Step, pid: nat)
    requires pid < |w.procs| && !Succeeded(w.procs[pid])
    requires Succeeded(Apply(w, step).procs[pid])
    ensures Recorded(Apply(w, step).rows, ToRow(Apply(w, step).procs[pid].event))
  {
    var event := w.procs[pid].event;
    if w.procs[pid].phase.Inserting? {
      LastIndex(w.rows, ToRow(event));
    }
  }

  lemma {:induction false} ProcessesPersist(w: World, schedule: seq<Step>, pid: nat)
    requires pid < |w.procs|
    ensures w.procs[pid].Appender? ==> Execute(w, schedule).procs[pid].Appender? &&
                                       Execute(w, schedule).procs[pid].event == w.procs[pid].event
    ensures w.procs[pid].Eraser? ==> Execute(w, schedule).procs[pid].Eraser? &&
                                     Execute(w, schedule).procs[pid].workspace == w.procs[pid].workspace
  {
    if schedule != [] {
      ProcessesPersist(w, schedule[..|schedule| - 1], pid);
    }
  }

  // An append that reports success saw, at its insert or at its lookup, a row of its key with its payload.
  lemma {:induction false} SuccessSawThePayload(w: World, schedule: seq<Step>, pid: nat)
    requires pid < |w.procs| && !Succeeded(w.procs[pid])
    requires Succeeded(Execute(w, schedule).procs[pid])
    ensures w.procs[pid].Appender?
    ensures exists k, row :: 0 < k <= |schedule| && schedule[k - 1].pid == pid &&
                             row in Execute(w, schedule[..k]).rows && Carries(row, w.procs[pid].event)
  {
    hide Carries;
    ProcessesPersist(w, schedule, pid);
    var k := SuccessAt(w, schedule, pid);
    RecordedIsCarried(Execute(w, schedule[..k]).rows, w.procs[pid].event);
  }

  lemma {:induction false} SuccessAt(w: World, schedule: seq<Step>, pid: nat) returns (k: nat)
    requires pid < |w.procs| && !Succeeded(w.procs[pid])
    requires Succeeded(Execute(w, schedule).procs[pid])
    ensures w.procs[pid].Appender?
    ensures 0 < k <= |schedule| && schedule[k - 1].pid == pid &&
            Recorded(Execute(w, schedule[..k]).rows, ToRow(w.procs[pid].event))
  {
    ProcessesPersist(w, schedule, pid);
    var n := |schedule| - 1;
    var before := Execute(w, schedule[..n]);
    ProcessesPersist(w, schedule[..n], pid);
    if Succeeded(before.procs[pid]) {
      k := SuccessAt(w, schedule[..n], pid);
      assert schedule[..n][..k] == schedule[..k] && schedule[k - 1].pid == pid;
    } else {
      StepSuccess(before, schedule[n], pid);
      k := |schedule|;
      assert schedule[..k] == schedule;
    }
  }

  lemma {:induction false} UniqueIndex(rows: seq<Row>, i: nat)
    requires UniqueKeys(rows) && i < |rows|
    ensures IndexOf(rows, rows[i].workspace, rows[i].id) == Some(i)
  {
    var n := |rows| - 1;
    if i < n {
      assert !SameKey(rows[i], rows[n]);
      UniqueIndex(rows[..n], i);
    }
  }

  lemma {:induction false} RecordedAt(rows: seq<Row>, i: nat, row: Row)
    requires UniqueKeys(rows) && i < |rows| && SameKey(rows[i], row)
    ensures Recorded(rows, row) <==> PayloadEqual(rows[i], row)
  {
    UniqueIndex(rows, i);
  }

  // A table that has the event's key: the insert is refused, and the comparison is with that row.
  lemma {:induction false} StoredKeyDecides(rows: seq<Row>, event: Event)
    requires UniqueKeys(rows)
    ensures forall row :: row in rows && row.workspace == event.workspace && row.id == event.id ==>
              TryInsert(rows, ToRow(event)).None? && (Recorded(rows, ToRow(event)) <==> PayloadEqual(row, ToRow(event)))
  {
    forall row | row in rows && row.workspace == event.workspace && row.id == event.id
      ensures TryInsert(rows, ToRow(event)).None?
      ensures Recorded(rows, ToRow(event)) <==> PayloadEqual(row, ToRow(event))
    {
      var i :| 0 <= i < |rows| && rows[i] == row;
      UniqueIndex(rows, i);
    }
  }

  // Content once erased cannot confirm an append of anything else.
  lemma {:induction false} ErasedNeverConfirms(w: World, schedule: seq<Step>, i: nat, row: Row)
    requires UniqueKeys(w.rows) && i < |w.rows| && Redacted(w.rows[i]) && SameKey(w.rows[i], row) && !Redacted(row)
    ensures !Recorded(Execute(w, schedule).rows, row)
    ensures Redacted(Execute(w, schedule).rows[i])
  {
    RunEvolves(w, schedule);
    var rows := Execute(w, schedule).rows;
    assert Evolves(w.rows[i], rows[i]);
    RecordedAt(rows, i, row);
  }

  // Appending an erased event again never reports success, in any run: its content is gone for good.
  lemma {:induction false} ErasedEventIsNotRestored(w: World, schedule: seq<Step>, pid: nat, i: nat)
    requires UniqueKeys(w.rows) && i < |w.rows| && Redacted(w.rows[i])
    requires pid < |w.procs| && w.procs[pid].Appender? && !Succeeded(w.procs[pid])
    requires SameKey(w.rows[i], ToRow(w.procs[pid].event)) && !Redacted(ToRow(w.procs[pid].event))
    ensures !Succeeded(Execute(w, schedule).procs[pid])
    ensures Redacted(Execute(w, schedule).rows[i])
  {
    var event := ToRow(w.procs[pid].event);
    ErasedNeverConfirms(w, schedule, i, event);
    if Succeeded(Execute(w, schedule).procs[pid]) {
      var k := SuccessAt(w, schedule, pid);
      ErasedNeverConfirms(w, schedule[..k], i, event);
    }
  }
}
