// Every interleaving of any number of artifact creations and downloads over one table, statement by
// statement, with statements that fail and statements whose success is not reported.
module ExportProtocol {
  import opened Wrappers
  import opened Text
  import opened DataScopes
  import opened ExportTable
  import opened ExportSteps
  import Rfc3339

  datatype Process =
    | Creator(request: Artifact, create: CreatePhase)
    | Downloader(ask: DownloadRequest, download: DownloadPhase)

  // An audit_export_downloaded event and the process that appended it.
  datatype Evidence = Evidence(pid: nat, workspace: string, artifactID: string)

  // writers[j] is the process whose insert made rows[j]; log is the evidence in order of appending.
  datatype World = World(rows: seq<Artifact>, writers: seq<nat>, procs: seq<Process>, log: seq<Evidence>)

  // One statement of one process: what the database makes of it, the clock, and the authorizer's answer.
  datatype Step = Step(pid: nat, fault: Fault, now: int, authorized: bool)

  datatype Setting = Setting(host: Host, key: string)

  function ApplyCreate(s: Setting, w: World, step: Step): World
    requires step.pid < |w.procs| && w.procs[step.pid].Creator?
  {
    var request := w.procs[step.pid].request;
    var (rows, phase) := CreateStep(s.host, w.rows, request, w.procs[step.pid].create, step.fault);
    World(rows, if |rows| > |w.rows| then w.writers + [step.pid] else w.writers,
          w.procs[step.pid := Creator(request, phase)], w.log)
  }

  function ApplyDownload(s: Setting, w: World, step: Step): World
    requires step.pid < |w.procs| && w.procs[step.pid].Downloader?
  {
    var ask := w.procs[step.pid].ask;
    match w.procs[step.pid].download
    case LookingUp =>
      w.(procs := w.procs[step.pid := Downloader(ask, LookupStep(s.host, s.key, w.rows, ask, step.fault, step.now,
                                                                 step.authorized))])
    case Counting(a) =>
      w.(procs := w.procs[step.pid := Downloader(ask, CountStep(w.rows, ask, a, step.fault))])
    case Updating(a) =>
      var (rows, phase) := UpdateStep(w.rows, ask, a, step.fault, step.now);
      w.(rows := rows, procs := w.procs[step.pid := Downloader(ask, phase)])
    case Appending(a) =>
      var evidence := Evidence(step.pid, a.workspace, a.id);
      w.(procs := w.procs[step.pid := Downloader(ask, if step.fault.Runs? then Delivered(a,
                                                                                         true) else EvidenceFailed(a))],
         log := if step.fault.Refused? then w.log else w.log + [evidence])
    case _ => w
  }

  function Apply(s: Setting, w: World, step: Step): (r: World)
    ensures |r.procs| == |w.procs|
  {
    if step.pid >= |w.procs| then w
    else if w.procs[step.pid].Creator? then ApplyCreate(s, w, step)
    else ApplyDownload(s, w, step)
  }

  // The world after a schedule.
  function Execute(s: Setting, w: World, schedule: seq<Step>): (r: World)
    ensures |r.procs| == |w.procs|
  {
    if schedule == [] then w else Apply(s, Execute(s, w, schedule[..|schedule| - 1]), schedule[|schedule| - 1])
  }

  lemma {:induction false} ExecuteAppend(s: Setting, w: World, first: seq<Step>, second: seq<Step>)
    ensures Execute(s, w, first + second) == Execute(s, Execute(s, w, first), second)
  {
    if second == [] {
      assert first + second == first;
    } else {
      var n := |second| - 1;
      assert (first + second)[..|first + second| - 1] == first + second[..n];
      ExecuteAppend(s, w, first, second[..n]);
    }
  }

  // An artifact that has not been downloaded.
  predicate NewRequest(a: Artifact) {
    a.status == "prepared" && a.downloadCount == 0
  }

  // An artifact as the service hands it to the store: its workspace trimmed, too.
  predicate FreshRequest(a: Artifact) {
    NewRequest(a) && Trimmed(a.workspace)
  }

  // The start of a run: an empty table and any number of callers that have not begun.
  predicate Begin(w: World) {
    w.rows == [] && w.writers == [] && w.log == [] &&
    forall p :: 0 <= p < |w.procs| ==>
      match w.procs[p]
      case Creator(request, create) => create == Reading && NewRequest(request)
      case Downloader(_, download) => download == LookingUp
  }

  // One where every request is the service's.
  predicate Start(w: World) {
    Begin(w) && forall p :: 0 <= p < |w.procs| && w.procs[p].Creator? ==> FreshRequest(w.procs[p].request)
  }

  // ---------- how rows develop ----------

  predicate RowDevelops(a: Artifact, b: Artifact) {
    Core(b) == Core(a) && (b == a || (a.downloadCount == 0 && b.downloadCount == 1 && b.status == "downloaded"))
  }

  // Rows are only added, and an added row only ever records one download.
  ghost predicate RowsDevelop(a: seq<Artifact>, b: seq<Artifact>) {
    |a| <= |b| && forall j :: 0 <= j < |a| ==> RowDevelops(a[j], b[j])
  }

  predicate Consistent(a: Artifact) {
    (a.downloadCount == 0 && a.status == "prepared") || (a.downloadCount == 1 && a.status == "downloaded")
  }

  ghost predicate TableOk(w: World) {
    |w.writers| == |w.rows| && UniqueArtifacts(w.rows) && forall j :: 0 <= j < |w.rows| ==> Consistent(w.rows[j])
  }

  ghost predicate RequestsNew(w: World) {
    forall p :: 0 <= p < |w.procs| && w.procs[p].Creator? ==> NewRequest(w.procs[p].request)
  }

  ghost predicate RequestsOk(w: World) {
    forall p :: 0 <= p < |w.procs| && w.procs[p].Creator? ==> FreshRequest(w.procs[p].request)
  }

  lemma {:induction false} FreshIsNew(w: World)
    requires RequestsOk(w)
    ensures RequestsNew(w)
  {
  }

  lemma {:induction false} MarkedRow(rows: seq<Artifact>, workspace: string, id: string, requester: string,
                                     scope: DataScope, at: string)
    returns (i: nat)
    requires TryMarkDownloaded(rows, workspace, id, requester, scope, at).Some?
    ensures i < |rows| && rows[i].workspace == TrimSpace(workspace) && rows[i].id == TrimSpace(id)
    ensures rows[i].downloadCount == 0
    ensures TryMarkDownloaded(rows, workspace, id, requester, scope, at).value == rows[i := Downloaded(rows[i], at)]
  {
    i := FindForDownload(rows, workspace, id, requester, scope).value;
  }

  // What one step can do to the rows: nothing, add the stepping creator's artifact, or mark one row.
  datatype RowChange = Unchanged | Added | Marked(index: nat, at: string)

  ghost predicate Explains(s: Setting, w: World, step: Step, next: World, c: RowChange) {
    match c
    case Unchanged => next.rows == w.rows && next.writers == w.writers
    case Added =>
      && step.pid < |w.procs| && w.procs[step.pid].Creator? && w.procs[step.pid].create == Inserting
      && TryInsert(w.rows, Stamped(s.host, w.procs[step.pid].request)) == Some(next.rows)
      && next.writers == w.writers + [step.pid]
    case Marked(i, at) =>
      && step.pid < |w.procs| && w.procs[step.pid].Downloader? && w.procs[step.pid].download.Updating?
      && i < |w.rows| && w.rows[i].downloadCount == 0 && next.writers == w.writers
      && w.rows[i].workspace == TrimSpace(w.procs[step.pid].download.artifact.workspace)
      && w.rows[i].id == TrimSpace(w.procs[step.pid].download.artifact.id)
      && next.rows == w.rows[i := Downloaded(w.rows[i], at)]
      && |next.procs| == |w.procs| && next.procs == w.procs[step.pid := next.procs[step.pid]]
      && (next.procs[step.pid] == Downloader(w.procs[step.pid].ask, Appending(w.procs[step.pid].download.artifact)) ||
          next.procs[step.pid] == Downloader(w.procs[step.pid].ask, CommitUnknown(w.procs[step.pid].download.artifact)))
  }

  lemma {:induction false} CreateRows(s: Setting, w: World, step: Step) returns (c: RowChange)
    requires step.pid < |w.procs| && w.procs[step.pid].Creator?
    ensures Explains(s, w, step, ApplyCreate(s, w, step), c)
  {
    hide Settle, Stamped, FindByIdempotency, ValidExport;
    var request := w.procs[step.pid].request;
    var inserted := TryInsert(w.rows, Stamped(s.host, request));
    if w.procs[step.pid].create == Inserting && inserted.Some? && !step.fault.Refused? {
      c := Added;
    } else {
      c := Unchanged;
    }
  }

  lemma {:induction false} DownloadRows(s: Setting, w: World, step: Step) returns (c: RowChange)
    requires step.pid < |w.procs| && w.procs[step.pid].Downloader?
    ensures Explains(s, w, step, ApplyDownload(s, w, step), c)
  {
    hide LookupStep, CountStep, TryMarkDownloaded, Downloaded, Rfc3339.FormatNano, TrimSpace;
    c := Unchanged;
    if w.procs[step.pid].download.Updating? && !step.fault.Refused? {
      var ask, a := w.procs[step.pid].ask, w.procs[step.pid].download.artifact;
      var at := Rfc3339.FormatNano(step.now);
      if TryMarkDownloaded(w.rows, a.workspace, a.id, ask.principal.userID, ask.scope, at).Some? {
        var i := MarkedRow(w.rows, a.workspace, a.id, ask.principal.userID, ask.scope, at);
        c := Marked(i, at);
      }
    }
  }

  lemma {:induction false} StepRows(s: Setting, w: World, step: Step) returns (c: RowChange)
    ensures Explains(s, w, step, Apply(s, w, step), c)
  {
    hide ApplyCreate, ApplyDownload;
    c := Unchanged;
    if step.pid < |w.procs| {
      if w.procs[step.pid].Creator? {
        c := CreateRows(s, w, step);
      } else {
        c := DownloadRows(s, w, step);
      }
    }
  }

  lemma {:induction false} StepTable(s: Setting, w: World, step: Step)
    requires TableOk(w) && RequestsNew(w)
    ensures TableOk(Apply(s, w, step)) && RowsDevelop(w.rows, Apply(s, w, step).rows)
  {
    hide Apply;
    var next := Apply(s, w, step);
    var c := StepRows(s, w, step);
    match c {
      case Unchanged =>
      case Added =>
        assert NewRequest(w.procs[step.pid].request);
      case Marked(i, at) =>
        forall j, k | 0 <= j < k < |next.rows|
          ensures !Clash(next.rows[j], next.rows[k])
        {
          assert !Clash(w.rows[j], w.rows[k]);
        }
    }
  }

  lemma {:induction false} StepRequests(s: Setting, w: World, step: Step)
    ensures RequestsNew(w) ==> RequestsNew(Apply(s, w, step))
    ensures RequestsOk(w) ==> RequestsOk(Apply(s, w, step))
  {
    hide LookupStep, CountStep, UpdateStep, CreateStep;
  }

  lemma {:induction false} DevelopTransitive(a: seq<Artifact>, b: seq<Artifact>, c: seq<Artifact>)
    requires RowsDevelop(a, b) && RowsDevelop(b, c)
    ensures RowsDevelop(a, c)
  {
    forall j | 0 <= j < |a|
      ensures RowDevelops(a[j], c[j])
    {
      assert RowDevelops(a[j], b[j]) && RowDevelops(b[j], c[j]);
    }
  }

  lemma {:induction false} RunTable(s: Setting, w: World, schedule: seq<Step>)
    requires TableOk(w) && RequestsNew(w)
    ensures TableOk(Execute(s, w, schedule)) && RequestsNew(Execute(s, w, schedule))
    ensures RequestsOk(w) ==> RequestsOk(Execute(s, w, schedule))
    ensures RowsDevelop(w.rows, Execute(s, w, schedule).rows)
  {
    hide Apply, UniqueArtifacts, RequestsOk, RequestsNew, TableOk;
    if schedule != [] {
      var n := |schedule| - 1;
      RunTable(s, w, schedule[..n]);
      var before := Execute(s, w, schedule[..n]);
      StepTable(s, before, schedule[n]);
      StepRequests(s, before, schedule[n]);
      DevelopTransitive(w.rows, before.rows, Execute(s, w, schedule).rows);
    }
  }

  // Whatever the interleaving: the two unique indexes and the primary key hold, the count is 0 or 1 and
  // the status is "downloaded" exactly when it is 1, and from any point of a run to any later one no
  // other field of any artifact changes and a recorded download stays recorded.
  lemma {:induction false} ArtifactsNeverChangeOtherwise(s: Setting, w: World, early: seq<Step>, late: seq<Step>)
    requires Begin(w)
    ensures var mid, end := Execute(s, w, early), Execute(s, w, early + late);
            UniqueArtifacts(end.rows) && RowsDevelop(mid.rows, end.rows) &&
            forall j :: 0 <= j < |end.rows| ==> Consistent(end.rows[j])
  {
    RunTable(s, w, early);
    ExecuteAppend(s, w, early, late);
    RunTable(s, Execute(s, w, early), late);
  }
}
