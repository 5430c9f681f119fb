// What concurrent CreateOrGetExport calls agree on.
module CreateRuns {
  import opened Wrappers
  import opened Text
  import opened ExportTable
  import opened ExportSteps
  import opened ExportProtocol

  // The artifact is in the table, downloads aside.
  ghost predicate Stored(rows: seq<Artifact>, a: Artifact) {
    exists j :: 0 <= j < |rows| && Core(rows[j]) == Core(a)
  }

  // Every row is its writer's request under the store's id.
  ghost predicate Provenance(s: Setting, w: World) {
    |w.writers| == |w.rows| && forall j :: 0 <= j < |w.rows| ==>
      w.writers[j] < |w.procs| && w.procs[w.writers[j]].Creator? &&
      Core(w.rows[j]) == Core(Stamped(s.host, w.procs[w.writers[j]].request))
  }

  // What a finished creator may have been told.
  ghost predicate Justified(s: Setting, w: World, p: nat)
    requires p < |w.procs| && w.procs[p].Creator? && |w.writers| == |w.rows|
  {
    var request := w.procs[p].request;
    match w.procs[p].create
    case CreateDone(Created(a)) =>
      a == Stamped(s.host, request) && exists j :: 0 <= j < |w.rows| && w.writers[j] == p && Core(w.rows[j]) == Core(a)
    case CreateDone(Replayed(a)) =>
      SameIdentity(a, request) && SameExportRequest(a, request) && Stored(w.rows, a)
    case CreateDone(Conflict) =>
      exists j :: 0 <= j < |w.rows| && SameIdentity(w.rows[j], request) && !SameExportRequest(w.rows[j], request)
    case _ => true
  }

  ghost predicate CreatorsJustified(s: Setting, w: World) {
    |w.writers| == |w.rows| && forall p :: 0 <= p < |w.procs| && w.procs[p].Creator? ==> Justified(s, w, p)
  }

  lemma {:induction false} CoreKeeps(a: Artifact, b: Artifact)
    requires Core(a) == Core(b)
    ensures SameIdentity(a, b) && a.id == b.id && a.scopeHash == b.scopeHash &&
            a.authorizationHash == b.authorizationHash
    ensures a.tokenHash == b.tokenHash && a.content == b.content && a.expiresAt == b.expiresAt
    ensures a.contentHash == b.contentHash && a.filters == b.filters
  {
    assert Core(a).id == a.id && Core(b).id == b.id;
    assert Core(a).workspace == a.workspace && Core(b).workspace == b.workspace;
    assert Core(a).requester == a.requester && Core(b).requester == b.requester;
    assert Core(a).idempotencyKey == a.idempotencyKey && Core(b).idempotencyKey == b.idempotencyKey;
    assert Core(a).scopeHash == a.scopeHash && Core(b).scopeHash == b.scopeHash;
    assert Core(a).authorizationHash == a.authorizationHash && Core(b).authorizationHash == b.authorizationHash;
    assert Core(a).tokenHash == a.tokenHash && Core(b).tokenHash == b.tokenHash;
    assert Core(a).content == a.content && Core(b).content == b.content;
    assert Core(a).expiresAt == a.expiresAt && Core(b).expiresAt == b.expiresAt;
    assert Core(a).contentHash == a.contentHash && Core(b).contentHash == b.contentHash;
    assert Core(a).filters == a.filters && Core(b).filters == b.filters;
  }

  lemma {:induction false} StepProcesses(s: Setting, w: World, step: Step)
    ensures var next := Apply(s, w, step);
            && (forall p :: 0 <= p < |w.procs| && p != step.pid ==> next.procs[p] == w.procs[p])
            && (forall p :: 0 <= p < |w.procs| && w.procs[p].Creator? ==>
                  next.procs[p].Creator? && next.procs[p].request == w.procs[p].request)
            && (forall p :: 0 <= p < |w.procs| && w.procs[p].Downloader? ==>
                  next.procs[p].Downloader? && next.procs[p].ask == w.procs[p].ask)
            && (step.pid < |w.procs| && w.procs[step.pid].Creator? ==>
                  next.procs[step.pid].create ==
                    CreateStep(s.host, w.rows, w.procs[step.pid].request, w.procs[step.pid].create, step.fault).1)
  {
    hide CreateStep, LookupStep, CountStep, UpdateStep;
  }

  lemma {:induction false} StepProvenance(s: Setting, w: World, step: Step)
    requires Provenance(s, w)
    ensures Provenance(s, Apply(s, w, step))
  {
    hide Apply, Stamped;
    var c := StepRows(s, w, step);
    StepProcesses(s, w, step);
    if c.Marked? {
      assert Core(Downloaded(w.rows[c.index], c.at)) == Core(w.rows[c.index]);
    }
  }

  // The facts about earlier outcomes survive rows being added and marked.
  lemma {:induction false} OutcomesSurvive(s: Setting, w: World, step: Step, p: nat)
    requires TableOk(w) && RequestsOk(w) && p < |w.procs| && w.procs[p].Creator? && Justified(s, w, p)
    requires Apply(s, w, step).procs[p] == w.procs[p]
    ensures |Apply(s, w, step).writers| == |Apply(s, w, step).rows|
    ensures Justified(s, Apply(s, w, step), p)
  {
    hide Apply, Stamped, UniqueArtifacts, Clash, Consistent;
    var next := Apply(s, w, step);
    StepTable(s, w, step);
    var c := StepRows(s, w, step);
    forall j | 0 <= j < |w.rows|
      ensures Core(next.rows[j]) == Core(w.rows[j]) && next.writers[j] == w.writers[j]
      ensures SameIdentity(next.rows[j], w.rows[j]) && SameExportRequest(next.rows[j], w.rows[j])
    {
      assert RowDevelops(w.rows[j], next.rows[j]);
      CoreKeeps(next.rows[j], w.rows[j]);
    }
  }

  lemma {:induction false} SettleJustified(s: Setting, w: World, p: nat, before: World, i: nat)
    requires p < |w.procs| && w.procs[p].Creator? && |w.writers| == |w.rows| && w.rows == before.rows
    requires i < |w.rows| && SameIdentity(w.rows[i], w.procs[p].request)
    requires w.procs[p].create == CreateDone(Settle(w.rows[i], w.procs[p].request))
    ensures Justified(s, w, p)
  {
    assert Core(w.rows[i]) == Core(w.rows[i]);
  }

  lemma {:induction false} StepJustified(s: Setting, w: World, step: Step)
    requires TableOk(w) && RequestsOk(w) && CreatorsJustified(s, w)
    requires step.pid < |w.procs| && w.procs[step.pid].Creator?
    ensures |Apply(s, w, step).writers| == |Apply(s, w, step).rows|
    ensures Apply(s, w, step).procs[step.pid].Creator? && Justified(s, Apply(s, w, step), step.pid)
  {
    hide Stamped, UniqueArtifacts, FindByIdempotency, TryInsert, ValidExport, Consistent;
    var next := Apply(s, w, step);
    var request := w.procs[step.pid].request;
    StepTable(s, w, step);
    assert FreshRequest(request);
    match w.procs[step.pid].create {
      case Reading =>
        var found := FindByIdempotency(w.rows, request);
        if next.procs[step.pid].create.CreateDone? && found.Some? && next.procs[step.pid].create.outcome != Failed {
          SettleJustified(s, next, step.pid, w, found.value);
        }
      case Inserting =>
        if next.procs[step.pid].create.CreateDone? {
          var n := |w.rows|;
          assert next.rows[n] == Stamped(s.host, request) && next.writers[n] == step.pid;
        }
      case Rereading =>
        var found := FindByIdempotency(w.rows, request);
        if found.Some? && next.procs[step.pid].create.outcome != Failed {
          SettleJustified(s, next, step.pid, w, found.value);
        }
      case CreateDone(_) =>
        assert next.rows == w.rows;
        OutcomesSurvive(s, w, step, step.pid);
    }
  }

  lemma {:induction false} RunCreators(s: Setting, w: World, schedule: seq<Step>)
    requires Start(w)
    ensures var end := Execute(s, w, schedule);
            TableOk(end) && RequestsOk(end) && Provenance(s, end) && CreatorsJustified(s, end)
  {
    hide Apply, TableOk, RequestsOk, Provenance, Justified;
    if schedule == [] {
      StartIsJustified(s, w);
    } else {
      var n := |schedule| - 1;
      var step := schedule[n];
      RunCreators(s, w, schedule[..n]);
      var before := Execute(s, w, schedule[..n]);
      var end := Apply(s, before, step);
      FreshIsNew(before);
      StepTable(s, before, step);
      StepRequests(s, before, step);
      StepProvenance(s, before, step);
      StepProcesses(s, before, step);
      ProvenanceLengths(s, end);
      forall p | 0 <= p < |end.procs| && end.procs[p].Creator?
        ensures Justified(s, end, p)
      {
        if p == step.pid {
          StepJustified(s, before, step);
        } else {
          OutcomesSurvive(s, before, step, p);
        }
      }
    }
  }

  lemma {:induction false} ProvenanceLengths(s: Setting, w: World)
    requires Provenance(s, w)
    ensures |w.writers| == |w.rows|
  {
  }

  lemma {:induction false} StartIsJustified(s: Setting, w: World)
    requires Start(w)
    ensures TableOk(w) && RequestsOk(w) && Provenance(s, w) && CreatorsJustified(s, w)
  {
  }

  // ---------- the main results ----------

  // The artifact a creator was handed, if it succeeded.
  function Handed(p: Process): Option<Artifact> {
    if p.Creator? && p.create.CreateDone? && (p.create.outcome.Created? || p.create.outcome.Replayed?)
    then Some(p.create.outcome.artifact) else None
  }

  predicate WasCreated(p: Process) {
    p.Creator? && p.create.CreateDone? && p.create.outcome.Created?
  }

  lemma {:induction false} HandedIsStored(s: Setting, w: World, p: nat) returns (j: nat)
    requires TableOk(w) && CreatorsJustified(s, w) && p < |w.procs| && Handed(w.procs[p]).Some?
    ensures j < |w.rows| && Core(w.rows[j]) == Core(Handed(w.procs[p]).value)
    ensures SameIdentity(w.rows[j], w.procs[p].request) && SameExportRequest(w.rows[j], w.procs[p].request)
    ensures WasCreated(w.procs[p]) ==> w.writers[j] == p
  {
    hide UniqueArtifacts, Consistent, StoreID;
    var a := Handed(w.procs[p]).value;
    assert Justified(s, w, p);
    if WasCreated(w.procs[p]) {
      j :| 0 <= j < |w.rows| && w.writers[j] == p && Core(w.rows[j]) == Core(a);
    } else {
      j :| 0 <= j < |w.rows| && Core(w.rows[j]) == Core(a);
    }
    CoreKeeps(w.rows[j], a);
  }

  // In every interleaving there is at most one artifact per (workspace, requester, idempotency key).
  lemma {:induction false} OneArtifactPerKey(s: Setting, w: World, schedule: seq<Step>, i: nat, j: nat)
    requires Begin(w)
    requires var rows := Execute(s, w, schedule).rows; i < |rows| && j < |rows| && SameIdentity(rows[i], rows[j])
    ensures i == j
  {
    RunTable(s, w, schedule);
    var rows := Execute(s, w, schedule).rows;
    ClashingRowsAreOne(rows, i, j);
  }

  // Of the callers with one key at most one is told that it created the artifact, and all successful
  // ones are handed the same artifact, which is the one in the table.
  lemma {:induction false} CallersAgree(s: Setting, w: World, schedule: seq<Step>, p: nat, q: nat)
    requires Start(w) && p < |w.procs| && q < |w.procs|
    requires var procs := Execute(s, w, schedule).procs;
             Handed(procs[p]).Some? && Handed(procs[q]).Some? && SameIdentity(procs[p].request, procs[q].request)
    ensures var end := Execute(s, w, schedule);
            && Core(Handed(end.procs[p]).value) == Core(Handed(end.procs[q]).value)
            && Stored(end.rows, Handed(end.procs[p]).value)
            && (WasCreated(end.procs[p]) && WasCreated(end.procs[q]) ==> p == q)
  {
    hide Execute, Justified, Core;
    RunCreators(s, w, schedule);
    var end := Execute(s, w, schedule);
    var j := HandedIsStored(s, end, p);
    var k := HandedIsStored(s, end, q);
    assert SameIdentity(end.rows[j], end.rows[k]);
    OneArtifactPerKey(s, w, schedule, j, k);
  }

  // A caller is only ever handed an artifact of its own key, with its own scope and authorization
  // fingerprints; one whose fingerprints differ from the stored artifact's is never handed it.
  lemma {:induction false} OnlyOwnArtifact(s: Setting, w: World, schedule: seq<Step>, p: nat, j: nat)
    requires Start(w) && p < |w.procs|
    requires var end := Execute(s, w, schedule);
             end.procs[p].Creator? && j < |end.rows| && SameIdentity(end.rows[j], end.procs[p].request)
    ensures var end := Execute(s, w, schedule);
            var request, handed := end.procs[p].request, Handed(end.procs[p]);
            && (handed.Some? ==> SameIdentity(handed.value, request) && SameExportRequest(handed.value, request) &&
                                 Core(handed.value) == Core(end.rows[j]))
            && (!SameExportRequest(end.rows[j], request) && end.procs[p].create.CreateDone? ==>
                  end.procs[p].create.outcome == Conflict || end.procs[p].create.outcome == Failed)
            && (end.procs[p].create == CreateDone(Conflict) ==> !SameExportRequest(end.rows[j], request))
  {
    hide Execute, Core, UniqueArtifacts;
    RunCreators(s, w, schedule);
    var end := Execute(s, w, schedule);
    var request := end.procs[p].request;
    if Handed(end.procs[p]).Some? {
      var k := HandedIsStored(s, end, p);
      CoreKeeps(end.rows[k], Handed(end.procs[p]).value);
      OneArtifactPerKey(s, w, schedule, j, k);
    }
    if end.procs[p].create == CreateDone(Conflict) {
      assert Justified(s, end, p);
      var k :| 0 <= k < |end.rows| && SameIdentity(end.rows[k], request) && !SameExportRequest(end.rows[k], request);
      OneArtifactPerKey(s, w, schedule, j, k);
    }
  }

  // ---------- convergence ----------

  // Different keys have different ids and token hashes, and every request is complete.
  ghost predicate KeysSeparate(s: Setting, w: World) {
    forall p, q :: 0 <= p < |w.procs| && 0 <= q < |w.procs| && w.procs[p].Creator? && w.procs[q].Creator? ==>
      ValidExport(w.procs[p].request) &&
      (Clash(Stamped(s.host, w.procs[p].request), Stamped(s.host, w.procs[q].request)) ==>
         SameIdentity(w.procs[p].request, w.procs[q].request))
  }

  // No creator has failed, and one that must read again will find its key.
  ghost predicate NoFailure(w: World) {
    forall p :: 0 <= p < |w.procs| && w.procs[p].Creator? ==>
      w.procs[p].create != CreateDone(Failed) &&
      (w.procs[p].create == Rereading ==> exists j :: 0 <= j < |w.rows| && SameIdentity(w.rows[j], w.procs[p].request))
  }

  lemma {:induction false} RequestsStay(s: Setting, w: World, step: Step)
    requires KeysSeparate(s, w)
    ensures KeysSeparate(s, Apply(s, w, step))
  {
    hide Apply, Stamped, Clash, ValidExport;
    StepProcesses(s, w, step);
    var next := Apply(s, w, step);
    forall p | 0 <= p < |next.procs| && next.procs[p].Creator?
      ensures w.procs[p].Creator? && next.procs[p].request == w.procs[p].request
    {
    }
  }

  lemma {:induction false} ClashIsSameKey(s: Setting, w: World, pid: nat, i: nat)
    requires Provenance(s, w) && KeysSeparate(s, w) && pid < |w.procs| && w.procs[pid].Creator? && i < |w.rows|
    requires Clash(w.rows[i], Stamped(s.host, w.procs[pid].request))
    ensures SameIdentity(w.rows[i], w.procs[pid].request)
  {
    hide StoreID;
    var mine, other := Stamped(s.host, w.procs[pid].request), Stamped(s.host, w.procs[w.writers[i]].request);
    CoreKeeps(w.rows[i], other);
    assert Clash(other, mine);
  }

  lemma {:induction false} StepNoFailure(s: Setting, w: World, step: Step)
    requires TableOk(w) && RequestsOk(w) && Provenance(s, w) && KeysSeparate(s, w) && NoFailure(w) && step.fault.Runs?
    ensures NoFailure(Apply(s, w, step))
  {
    hide Apply, Stamped, Clash, ValidExport, UniqueArtifacts, Consistent, KeysSeparate, Provenance,
      FindByIdempotency, TryInsert;
    var next := Apply(s, w, step);
    StepTable(s, w, step);
    StepProcesses(s, w, step);
    forall j | 0 <= j < |w.rows|
      ensures SameIdentity(next.rows[j], w.rows[j])
    {
      assert RowDevelops(w.rows[j], next.rows[j]);
      CoreKeeps(next.rows[j], w.rows[j]);
    }
    forall p | 0 <= p < |next.procs| && next.procs[p].Creator?
      ensures next.procs[p].create != CreateDone(Failed)
      ensures next.procs[p].create == Rereading ==>
                exists j :: 0 <= j < |next.rows| && SameIdentity(next.rows[j], next.procs[p].request)
    {
      if p == step.pid {
        StepperKeepsGoing(s, w, step);
      } else {
        assert next.procs[p] == w.procs[p];
      }
    }
  }

  lemma {:induction false} StepperKeepsGoing(s: Setting, w: World, step: Step)
    requires RequestsOk(w) && Provenance(s, w) && KeysSeparate(s, w) && NoFailure(w) && step.fault.Runs?
    requires step.pid < |w.procs| && w.procs[step.pid].Creator?
    ensures var phase := CreateStep(s.host, w.rows, w.procs[step.pid].request, w.procs[step.pid].create, step.fault).1;
            phase != CreateDone(Failed) &&
            (phase == Rereading ==> exists j :: 0 <= j < |w.rows| && SameIdentity(w.rows[j], w.procs[step.pid].request))
  {
    hide Stamped, Clash, ValidExport, FindByIdempotency, TryInsert;
    var request := w.procs[step.pid].request;
    assert ValidExport(request);
    assert FreshRequest(request);
    if w.procs[step.pid].create == Inserting && TryInsert(w.rows, Stamped(s.host, request)).None? {
      var i :| 0 <= i < |w.rows| && Clash(w.rows[i], Stamped(s.host, request));
      ClashIsSameKey(s, w, step.pid, i);
    }
  }

  // With a database that runs every statement, callers racing for one key all converge: none fails, so
  // each one that is done was handed the artifact or told of a conflict.
  lemma {:induction false} CallersConverge(s: Setting, w: World, schedule: seq<Step>)
    requires Start(w) && KeysSeparate(s, w)
    requires forall i :: 0 <= i < |schedule| ==> schedule[i].fault.Runs?
    ensures NoFailure(Execute(s, w, schedule)) && KeysSeparate(s, Execute(s, w, schedule))
  {
    hide Apply, KeysSeparate, Provenance, TableOk, RequestsOk, CreatorsJustified;
    if schedule != [] {
      var n := |schedule| - 1;
      CallersConverge(s, w, schedule[..n]);
      RunCreators(s, w, schedule[..n]);
      StepNoFailure(s, Execute(s, w, schedule[..n]), schedule[n]);
      RequestsStay(s, Execute(s, w, schedule[..n]), schedule[n]);
    }
  }

  // ---------- the trimmed workspace ----------

  // The store trims the workspace when it looks a key up and not when it inserts, so the results above
  // need requests with a trimmed workspace, as the service builds them: a request whose workspace
  // carries white space is handed the artifact of another workspace as soon as that one exists.
  lemma {:induction false} UntrimmedWorkspaceMeetsForeignArtifact(h: Host, rows: seq<Artifact>, request: Artifact,
                                                                  i: nat)
    requires !Trimmed(request.workspace) && ValidExport(request) && UniqueArtifacts(rows) && i < |rows|
    requires SameIdentity(rows[i], request.(workspace := TrimSpace(request.workspace))) &&
             SameExportRequest(rows[i], request)
    ensures CreateStep(h, rows, request, Reading, Runs) == (rows, CreateDone(Replayed(rows[i])))
    ensures rows[i].workspace != request.workspace
  {
    var found := FindByIdempotency(rows, request).value;
    ClashingRowsAreOne(rows, found, i);
  }

  predicate InOwnWorkspace(phase: CreatePhase, request: Artifact) {
    (phase.CreateDone? && (phase.outcome.Created? || phase.outcome.Replayed?)) ==>
      phase.outcome.artifact.workspace == request.workspace
  }

  ghost predicate StaysInWorkspace(h: Host, request: Artifact) {
    forall rows, phase: CreatePhase, fault :: UniqueArtifacts(rows) && !phase.CreateDone? ==>
      InOwnWorkspace(CreateStep(h, rows, request, phase, fault).1, request)
  }

  // The condition is exact: a request stays in its own workspace, whatever the table, precisely when
  // its workspace is trimmed.
  lemma {:induction false} OwnWorkspaceExactly(h: Host, request: Artifact)
    requires ValidExport(request)
    ensures StaysInWorkspace(h, request) <==> Trimmed(request.workspace)
  {
    hide ValidExport, StoreID;
    if Trimmed(request.workspace) {
      forall rows, phase: CreatePhase, fault | UniqueArtifacts(rows) && !phase.CreateDone?
        ensures InOwnWorkspace(CreateStep(h, rows, request, phase, fault).1, request)
      {
      }
    } else {
      var foreign := request.(workspace := TrimSpace(request.workspace));
      UntrimmedWorkspaceMeetsForeignArtifact(h, [foreign], request, 0);
      assert !InOwnWorkspace(CreateStep(h, [foreign], request, Reading, Runs).1, request);
    }
  }
}
