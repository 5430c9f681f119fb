// What concurrent downloads can do and see.
module DownloadRuns {
  import opened Wrappers
  import opened Text
  import opened Authorization
  import opened ExportTable
  import opened ExportSteps
  import opened ExportProtocol
  import opened CreateRuns
  import Rfc3339

  // The artifact a download has found and checked.
  function Held(p: Process): Option<Artifact> {
    if p.Creator? then None
    else match p.download
      case LookingUp => None
      case Refusal(_) => None
      case Counting(a) => Some(a)
      case Updating(a) => Some(a)
      case Appending(a) => Some(a)
      case Delivered(a, _) => Some(a)
      case EvidenceFailed(a) => Some(a)
      case CommitUnknown(a) => Some(a)
  }

  // The process has recorded the first download of its artifact.
  predicate Won(p: Process) {
    p.Downloader? && (p.download.Appending? || p.download.EvidenceFailed? || p.download.CommitUnknown? ||
                      (p.download.Delivered? && p.download.first))
  }

  predicate Concerns(p: Process, row: Artifact) {
    Held(p).Some? && row.workspace == TrimSpace(Held(p).value.workspace) && row.id == TrimSpace(Held(p).value.id)
  }

  predicate WonRow(p: Process, row: Artifact) {
    Won(p) && Concerns(p, row)
  }

  // ---------- what a download holds ----------

  // The lookup's checks let the download through at some instant.
  ghost predicate Admitted(s: Setting, ask: DownloadRequest, a: Artifact) {
    exists now :: DownloadCheck(s.host, s.key, TrimSpace(ask.token), ask.principal, a, now, true).None?
  }

  ghost predicate HolderOk(s: Setting, rows: seq<Artifact>, p: Process) {
    Held(p).Some? ==> Stored(rows, Held(p).value) && Admitted(s, p.ask, Held(p).value)
  }

  ghost predicate HoldersOk(s: Setting, w: World) {
    forall p :: 0 <= p < |w.procs| ==> HolderOk(s, w.rows, w.procs[p])
  }

  lemma {:induction false} LookupAdmits(s: Setting, rows: seq<Artifact>, ask: DownloadRequest, fault: Fault, now: int,
                                        authorized: bool)
    ensures HolderOk(s, rows, Downloader(ask, LookupStep(s.host, s.key, rows, ask, fault, now, authorized)))
  {
    hide Visible, Rfc3339.Parse, TokenOf, Fingerprint, FilterHash, TextHash, FindByToken, TrimSpace;
    var phase := LookupStep(s.host, s.key, rows, ask, fault, now, authorized);
    if phase.Counting? {
      assert Core(phase.artifact) == Core(phase.artifact);
      assert DownloadCheck(s.host, s.key, TrimSpace(ask.token), ask.principal, phase.artifact, now, true).None?;
    }
  }

  lemma {:induction false} StoredSurvives(rows: seq<Artifact>, next: seq<Artifact>, a: Artifact)
    requires RowsDevelop(rows, next) && Stored(rows, a)
    ensures Stored(next, a)
  {
    hide Core;
    var j :| 0 <= j < |rows| && Core(rows[j]) == Core(a);
    assert RowDevelops(rows[j], next[j]);
  }

  // A download step keeps the artifact it holds, or finds one.
  lemma {:induction false} StepHeld(s: Setting, w: World, step: Step)
    requires step.pid < |w.procs| && w.procs[step.pid].Downloader?
    ensures var p, q := w.procs[step.pid], Apply(s, w, step).procs[step.pid];
            && q.Downloader? && q.ask == p.ask
            && (p.download.LookingUp? ==>
                  q.download == LookupStep(s.host, s.key, w.rows, p.ask, step.fault, step.now, step.authorized))
            && (!p.download.LookingUp? ==> Held(q).None? || Held(q) == Held(p))
  {
    hide LookupStep, FindForDownload, TryMarkDownloaded, Rfc3339.FormatNano, TrimSpace;
  }

  lemma {:induction false} StepHolders(s: Setting, w: World, step: Step)
    requires TableOk(w) && RequestsOk(w) && HoldersOk(s, w)
    ensures HoldersOk(s, Apply(s, w, step))
  {
    hide Apply, Stored, Admitted, LookupStep, UniqueArtifacts;
    var next := Apply(s, w, step);
    StepTable(s, w, step);
    StepProcesses(s, w, step);
    forall p | 0 <= p < |next.procs|
      ensures HolderOk(s, next.rows, next.procs[p])
    {
      assert HolderOk(s, w.rows, w.procs[p]);
      if p == step.pid && w.procs[p].Downloader? {
        StepHeld(s, w, step);
        if w.procs[p].download.LookingUp? {
          LookupAdmits(s, w.rows, w.procs[p].ask, step.fault, step.now, step.authorized);
        }
      }
      if Held(next.procs[p]).Some? && Stored(w.rows, Held(next.procs[p]).value) {
        StoredSurvives(w.rows, next.rows, Held(next.procs[p]).value);
      }
    }
  }

  // ---------- who recorded a download ----------

  // A row counts one download exactly when some process won it, and no two processes won one row.
  ghost predicate RowWon(procs: seq<Process>, row: Artifact) {
    && (row.downloadCount == 1 <==> exists p :: 0 <= p < |procs| && WonRow(procs[p], row))
    && (forall p, q :: 0 <= p < |procs| && 0 <= q < |procs| && WonRow(procs[p], row) && WonRow(procs[q], row) ==>
        p == q)
  }

  ghost predicate WinnersOk(w: World) {
    && (forall j :: 0 <= j < |w.rows| ==> RowWon(w.procs, w.rows[j]))
    && (forall p :: 0 <= p < |w.procs| && Won(w.procs[p]) ==>
          exists j :: 0 <= j < |w.rows| && WonRow(w.procs[p], w.rows[j]))
  }

  // Only a marking update makes a winner; what is won stays won.
  lemma {:induction false} StepWon(s: Setting, w: World, step: Step, c: RowChange)
    requires step.pid < |w.procs| && Explains(s, w, step, Apply(s, w, step), c)
    ensures var p, q := w.procs[step.pid], Apply(s, w, step).procs[step.pid];
            (Won(p) ==> Won(q) && Held(q) == Held(p)) && (Won(q) && !Won(p) ==> c.Marked? && Held(q) == Held(p))
  {
    hide LookupStep, FindForDownload, Rfc3339.FormatNano, TrimSpace, CreateStep, Downloaded;
    var p := w.procs[step.pid];
    if p.Downloader? && p.download.Updating? && c.Unchanged? {
      UpdateWins(w.rows, p.ask, p.download.artifact, step.fault, step.now);
    }
    if p.Downloader? && p.download.LookingUp? {
      LookupNeverWins(s, w.rows, p.ask, step.fault, step.now, step.authorized);
    }
  }

  lemma {:induction false} LookupNeverWins(s: Setting, rows: seq<Artifact>, ask: DownloadRequest, fault: Fault,
                                           now: int, authorized: bool)
    ensures !Won(Downloader(ask, LookupStep(s.host, s.key, rows, ask, fault, now, authorized)))
  {
    hide DownloadCheck, FindByToken, TextHash, TrimSpace;
  }

  // An update that changes no row ends in a refusal.
  lemma {:induction false} UpdateWins(rows: seq<Artifact>, ask: DownloadRequest, a: Artifact, fault: Fault, now: int)
    ensures var (next, phase) := UpdateStep(rows, ask, a, fault, now);
            next == rows ==> phase == Refusal(PERSISTENCE_FAILED)
  {
    hide FindForDownload, Rfc3339.FormatNano, TrimSpace;
    var marked := TryMarkDownloaded(rows, a.workspace, a.id, ask.principal.userID, ask.scope, Rfc3339.FormatNano(now));
    if marked.Some? {
      var i := MarkedRow(rows, a.workspace, a.id, ask.principal.userID, ask.scope, Rfc3339.FormatNano(now));
      assert marked.value[i].downloadCount == 1;
    }
  }

  lemma {:induction false} WonElsewhere(w: World, next: World, pid: nat, row: Artifact, other: Artifact)
    requires |next.procs| == |w.procs| && (pid < |w.procs| ==> next.procs == w.procs[pid := next.procs[pid]])
    requires pid >= |w.procs| ==> next.procs == w.procs
    requires RowWon(w.procs, row) && row.workspace == other.workspace && row.id == other.id
    requires other.downloadCount == row.downloadCount
    requires pid < |w.procs| ==> (WonRow(next.procs[pid], row) <==> WonRow(w.procs[pid], row))
    ensures RowWon(next.procs, other)
  {
    forall p | 0 <= p < |w.procs|
      ensures WonRow(next.procs[p], other) <==> WonRow(w.procs[p], row)
    {
      assert WonRow(next.procs[p], other) <==> WonRow(next.procs[p], row);
    }
  }

  lemma {:induction false} StepWinners(s: Setting, w: World, step: Step)
    requires TableOk(w) && RequestsOk(w) && WinnersOk(w) && HoldersOk(s, w)
    ensures WinnersOk(Apply(s, w, step))
  {
    hide Apply, UniqueArtifacts, HolderOk, RowWon, Clash, Downloaded, StoreID, TrimSpace;
    var next := Apply(s, w, step);
    var c := StepRows(s, w, step);
    StepTable(s, w, step);
    StepProcesses(s, w, step);
    if step.pid < |w.procs| {
      StepWon(s, w, step, c);
    }
    match c {
      case Unchanged => WinnersUnchanged(s, w, step, next);
      case Added =>
        assert FreshRequest(w.procs[step.pid].request);
        WinnersAdded(s, w, step, next, Stamped(s.host, w.procs[step.pid].request));
      case Marked(i, at) => WinnersMarked(s, w, step, next, i, at);
    }
  }

  ghost predicate StepKeeps(w: World, pid: nat, next: World, marks: bool) {
    && |next.procs| == |w.procs| && (forall p :: 0 <= p < |w.procs| && p != pid ==> next.procs[p] == w.procs[p])
    && (pid < |w.procs| ==>
          (Won(w.procs[pid]) ==> Won(next.procs[pid]) && Held(next.procs[pid]) == Held(w.procs[pid])) &&
          (Won(next.procs[pid]) && !Won(w.procs[pid]) ==> marks && Held(next.procs[pid]) == Held(w.procs[pid])))
  }

  lemma {:induction false} WinnersUnchanged(s: Setting, w: World, step: Step, next: World)
    requires WinnersOk(w) && StepKeeps(w, step.pid, next, false) && next.rows == w.rows
    ensures WinnersOk(next)
  {
    hide Won, RowWon;
    forall j | 0 <= j < |next.rows|
      ensures RowWon(next.procs, next.rows[j])
    {
      WonElsewhere(w, next, step.pid, w.rows[j], next.rows[j]);
    }
    forall p | 0 <= p < |next.procs| && Won(next.procs[p])
      ensures exists j :: 0 <= j < |next.rows| && WonRow(next.procs[p], next.rows[j])
    {
      assert Won(w.procs[p]);
      var j :| 0 <= j < |w.rows| && WonRow(w.procs[p], w.rows[j]);
      assert WonRow(next.procs[p], next.rows[j]);
    }
  }

  // A new row has been won by no one: its key is not that of any row in the table.
  lemma {:induction false} WinnersAdded(s: Setting, w: World, step: Step, next: World, row: Artifact)
    requires WinnersOk(w) && StepKeeps(w, step.pid, next, false) && UniqueArtifacts(next.rows)
    requires next.rows == w.rows + [row] && row.downloadCount == 0
    ensures WinnersOk(next)
  {
    hide Won;
    var n := |w.rows|;
    var kept := World(w.rows, next.writers, next.procs, next.log);
    WinnersUnchanged(s, w, step, kept);
    forall p | 0 <= p < |next.procs|
      ensures !WonRow(next.procs[p], row)
    {
      if Won(next.procs[p]) {
        var k :| 0 <= k < n && WonRow(kept.procs[p], kept.rows[k]);
        assert next.rows[k] == kept.rows[k] && !Clash(next.rows[k], next.rows[n]);
        assert next.rows[k].workspace != row.workspace || next.rows[k].id != row.id;
      }
    }
    forall j | 0 <= j < |next.rows|
      ensures RowWon(next.procs, next.rows[j])
    {
      if j < n {
        assert RowWon(kept.procs, kept.rows[j]);
      }
    }
    forall p | 0 <= p < |next.procs| && Won(next.procs[p])
      ensures exists j :: 0 <= j < |next.rows| && WonRow(next.procs[p], next.rows[j])
    {
      var j :| 0 <= j < n && WonRow(kept.procs[p], kept.rows[j]);
      assert WonRow(next.procs[p], next.rows[j]);
    }
  }

  // The marking step turns one unwon row into a row won by the stepping process.
  lemma {:induction false} WinnersMarked(s: Setting, w: World, step: Step, next: World, i: nat, at: string)
    requires WinnersOk(w) && UniqueArtifacts(w.rows) && StepKeeps(w, step.pid, next, true) && step.pid < |w.procs|
    requires i < |w.rows| && w.rows[i].downloadCount == 0 && next.rows == w.rows[i := Downloaded(w.rows[i], at)]
    requires !Won(w.procs[step.pid]) && Won(next.procs[step.pid]) && Concerns(w.procs[step.pid], w.rows[i])
    ensures WinnersOk(next)
  {
    hide Won;
    var pid := step.pid;
    assert RowWon(w.procs, w.rows[i]);
    assert WonRow(next.procs[pid], next.rows[i]);
    forall j | 0 <= j < |next.rows|
      ensures RowWon(next.procs, next.rows[j])
    {
      assert RowWon(w.procs, w.rows[j]);
      if j == i {
        forall p | 0 <= p < |next.procs| && p != pid
          ensures !WonRow(next.procs[p], next.rows[i])
        {
          assert !WonRow(w.procs[p], w.rows[i]);
        }
      } else {
        assert !Clash(w.rows[i], w.rows[j]) && !Clash(w.rows[j], w.rows[i]) by {
          assert i < j ==> !Clash(w.rows[i], w.rows[j]);
          assert j < i ==> !Clash(w.rows[j], w.rows[i]);
        }
        WonElsewhere(w, next, pid, w.rows[j], next.rows[j]);
      }
    }
    forall p | 0 <= p < |next.procs| && Won(next.procs[p])
      ensures exists j :: 0 <= j < |next.rows| && WonRow(next.procs[p], next.rows[j])
    {
      if p != pid {
        var j :| 0 <= j < |w.rows| && WonRow(w.procs[p], w.rows[j]);
        assert WonRow(next.procs[p], next.rows[j]);
      }
    }
  }

  // ---------- the evidence ----------

  // Each entry was appended by a winner that is past appending, for the artifact it won.
  ghost predicate EntryOk(procs: seq<Process>, e: Evidence) {
    e.pid < |procs| && Won(procs[e.pid]) && !procs[e.pid].download.Appending? &&
    e.workspace == Held(procs[e.pid]).value.workspace && e.artifactID == Held(procs[e.pid]).value.id
  }

  predicate FirstDelivery(p: Process) {
    p.Downloader? && p.download.Delivered? && p.download.first
  }

  ghost predicate LogOk(w: World) {
    && (forall k :: 0 <= k < |w.log| ==> EntryOk(w.procs, w.log[k]))
    && (forall k, l :: 0 <= k < l < |w.log| ==> w.log[k].pid != w.log[l].pid)
    && (forall p :: 0 <= p < |w.procs| && FirstDelivery(w.procs[p]) ==>
          exists k :: 0 <= k < |w.log| && w.log[k].pid == p)
  }

  // Only an appending process writes evidence, once, and only it becomes a first delivery.
  lemma {:induction false} StepLog(s: Setting, w: World, step: Step)
    ensures var next := Apply(s, w, step);
            var appending := step.pid < |w.procs| && w.procs[step.pid].Downloader? &&
              w.procs[step.pid].download.Appending?;
            && (!appending ==> next.log == w.log)
            && (appending ==>
                  var a := w.procs[step.pid].download.artifact;
                  (next.log == w.log || next.log == w.log + [Evidence(step.pid, a.workspace, a.id)]) &&
                  next.procs[step.pid].Downloader? && !next.procs[step.pid].download.Appending? &&
                  (next.procs[step.pid].download == Delivered(a, true) ==>
                   next.log == w.log + [Evidence(step.pid, a.workspace, a.id)]))
            && (step.pid < |w.procs| && w.procs[step.pid].Downloader? && Won(w.procs[step.pid]) && !appending ==>
                  next.procs[step.pid] == w.procs[step.pid])
  {
    hide LookupStep, CountStep, UpdateStep, CreateStep;
  }

  lemma {:induction false} FirstDeliveryFromAppending(s: Setting, w: World, step: Step)
    requires step.pid < |w.procs|
    requires var q := Apply(s, w, step).procs[step.pid]; q.Downloader? && q.download.Delivered? && q.download.first
    ensures w.procs[step.pid].Downloader?
    ensures w.procs[step.pid].download.Appending? || w.procs[step.pid] == Apply(s, w, step).procs[step.pid]
  {
    hide FindForDownload, FindByToken, TryMarkDownloaded, DownloadCheck, CreateStep, Rfc3339.FormatNano, TextHash,
      TrimSpace;
  }

  lemma {:induction false} StepLogOk(s: Setting, w: World, step: Step)
    requires LogOk(w)
    ensures LogOk(Apply(s, w, step))
  {
    hide Apply, Explains;
    var next := Apply(s, w, step);
    var c := StepRows(s, w, step);
    StepProcesses(s, w, step);
    StepLog(s, w, step);
    if step.pid < |w.procs| {
      StepWon(s, w, step, c);
    }
    forall k | 0 <= k < |w.log|
      ensures EntryOk(next.procs, w.log[k])
    {
      assert EntryOk(w.procs, w.log[k]);
    }
    if |next.log| > |w.log| {
      assert EntryOk(next.procs, next.log[|w.log|]);
      forall k | 0 <= k < |w.log|
        ensures w.log[k].pid != step.pid
      {
        assert EntryOk(w.procs, w.log[k]);
      }
    }
    forall p | 0 <= p < |next.procs| && FirstDelivery(next.procs[p])
      ensures exists k :: 0 <= k < |next.log| && next.log[k].pid == p
    {
      if p == step.pid {
        FirstDeliveryFromAppending(s, w, step);
      }
      if p == step.pid && w.procs[p].download.Appending? {
        assert next.log[|w.log|].pid == p;
      } else {
        var k :| 0 <= k < |w.log| && w.log[k].pid == p;
        assert next.log[k].pid == p;
      }
    }
  }

  // ---------- the main results ----------

  ghost predicate DownloadsOk(s: Setting, w: World) {
    TableOk(w) && RequestsOk(w) && HoldersOk(s, w) && WinnersOk(w) && LogOk(w)
  }

  lemma {:induction false} RunDownloads(s: Setting, w: World, schedule: seq<Step>)
    requires Start(w)
    ensures DownloadsOk(s, Execute(s, w, schedule))
  {
    hide Apply, TableOk, RequestsOk, HoldersOk, WinnersOk, LogOk;
    if schedule == [] {
      StartIsOk(s, w);
    } else {
      var n := |schedule| - 1;
      RunDownloads(s, w, schedule[..n]);
      var before := Execute(s, w, schedule[..n]);
      FreshIsNew(before);
      StepTable(s, before, schedule[n]);
      StepRequests(s, before, schedule[n]);
      StepHolders(s, before, schedule[n]);
      StepWinners(s, before, schedule[n]);
      StepLogOk(s, before, schedule[n]);
    }
  }

  lemma {:induction false} StartIsOk(s: Setting, w: World)
    requires Start(w)
    ensures DownloadsOk(s, w)
  {
    StartIsJustified(s, w);
  }

  predicate SameArtifact(a: Artifact, b: Artifact) {
    a.workspace == b.workspace && a.id == b.id
  }

  // In every interleaving at most one process records the first download of an artifact.
  lemma {:induction false} OneFirstDownload(s: Setting, w: World, schedule: seq<Step>, p: nat, q: nat)
    requires Start(w) && p < |w.procs| && q < |w.procs|
    requires var procs := Execute(s, w, schedule).procs;
             Won(procs[p]) && Won(procs[q]) && SameArtifact(Held(procs[p]).value, Held(procs[q]).value)
    ensures p == q
  {
    hide Execute, TableOk, RequestsOk, HoldersOk, LogOk, Won;
    RunDownloads(s, w, schedule);
    var end := Execute(s, w, schedule);
    var j :| 0 <= j < |end.rows| && WonRow(end.procs[p], end.rows[j]);
    assert RowWon(end.procs, end.rows[j]) && WonRow(end.procs[q], end.rows[j]);
  }

  // A row counts one download exactly when one process recorded it.
  lemma {:induction false} CountIsTheWinner(s: Setting, w: World, schedule: seq<Step>, j: nat)
    requires Start(w) && j < |Execute(s, w, schedule).rows|
    ensures RowWon(Execute(s, w, schedule).procs, Execute(s, w, schedule).rows[j])
  {
    hide Execute, TableOk, RequestsOk, HoldersOk, LogOk;
    RunDownloads(s, w, schedule);
  }

  // At most one audit_export_downloaded event per artifact.
  lemma {:induction false} OneEvidencePerArtifact(s: Setting, w: World, schedule: seq<Step>, k: nat, l: nat)
    requires Start(w)
    requires var log := Execute(s, w, schedule).log;
             k < |log| && l < |log| && log[k].workspace == log[l].workspace && log[k].artifactID == log[l].artifactID
    ensures k == l
  {
    hide Execute, TableOk, RequestsOk, HoldersOk, WinnersOk, Won;
    RunDownloads(s, w, schedule);
    var end := Execute(s, w, schedule);
    assert EntryOk(end.procs, end.log[k]) && EntryOk(end.procs, end.log[l]);
    OneFirstDownload(s, w, schedule, end.log[k].pid, end.log[l].pid);
  }

  // And exactly one once a download is recorded, when its process is past appending, its commit was
  // acknowledged and its append did not fail.
  lemma {:induction false} EvidenceForRecordedDownload(s: Setting, w: World, schedule: seq<Step>, j: nat)
    requires Start(w)
    requires var end := Execute(s, w, schedule);
             j < |end.rows| && end.rows[j].downloadCount == 1 &&
             forall p :: 0 <= p < |end.procs| && WonRow(end.procs[p], end.rows[j]) ==>
               !end.procs[p].download.Appending? && !end.procs[p].download.EvidenceFailed? &&
                 !end.procs[p].download.CommitUnknown?
    ensures var end := Execute(s, w, schedule);
            exists k :: 0 <= k < |end.log| &&
                        TrimSpace(end.log[k].workspace) == end.rows[j].workspace &&
                          TrimSpace(end.log[k].artifactID) == end.rows[j].id
  {
    hide Execute, TableOk, RequestsOk, HoldersOk, TrimSpace;
    RunDownloads(s, w, schedule);
    var end := Execute(s, w, schedule);
    assert RowWon(end.procs, end.rows[j]);
    var p :| 0 <= p < |end.procs| && WonRow(end.procs[p], end.rows[j]);
    assert end.procs[p].download.Delivered? && end.procs[p].download.first;
    var k :| 0 <= k < |end.log| && end.log[k].pid == p;
    assert EntryOk(end.procs, end.log[k]);
  }

  // Whoever is handed content is handed that of a stored artifact whose token it presented, whose
  // requester and authority it is, and whose content and filters match their hashes.
  lemma {:induction false} DeliveredToItsRequester(s: Setting, w: World, schedule: seq<Step>, p: nat)
    requires Start(w) && p < |w.procs|
    requires var end := Execute(s, w, schedule).procs[p]; end.Downloader? && end.download.Delivered?
    ensures var end := Execute(s, w, schedule);
            var a, ask := end.procs[p].download.artifact, end.procs[p].ask;
            && Stored(end.rows, a) && TrimSpace(ask.token) == TokenOf(s.host, s.key, a)
            && a.requester == TrimSpace(ask.principal.userID) && a.workspace == TrimSpace(ask.principal.workspaceID)
            && Fingerprint(s.host.sha, s.host.jsonClaims, ask.principal) == a.authorizationHash
            && s.host.sha(a.content) == a.contentHash && FilterHash(s.host, a.filters) == a.scopeHash
  {
    hide Execute, TableOk, RequestsOk, WinnersOk, LogOk, TrimSpace, TokenOf, Fingerprint, FilterHash, Rfc3339.Parse,
      Stored;
    RunDownloads(s, w, schedule);
    var end := Execute(s, w, schedule);
    assert HolderOk(s, end.rows, end.procs[p]);
    var a, ask := end.procs[p].download.artifact, end.procs[p].ask;
    var now :| DownloadCheck(s.host, s.key, TrimSpace(ask.token), ask.principal, a, now, true).None?;
  }

  // The loser of the race for the conditional update is refused and changes nothing.
  lemma {:induction false} LoserChangesNothing(s: Setting, w: World, step: Step, i: nat)
    requires step.pid < |w.procs| && w.procs[step.pid].Downloader? && w.procs[step.pid].download.Updating?
    requires UniqueArtifacts(w.rows) && i < |w.rows| && w.rows[i].downloadCount != 0
    requires Concerns(w.procs[step.pid], w.rows[i])
    ensures var next := Apply(s, w, step);
            next.rows == w.rows && next.log == w.log &&
            next.procs[step.pid] == Downloader(w.procs[step.pid].ask, Refusal(PERSISTENCE_FAILED))
  {
    hide Rfc3339.FormatNano, TrimSpace, Visible;
    var ask, a := w.procs[step.pid].ask, w.procs[step.pid].download.artifact;
    var found := FindForDownload(w.rows, a.workspace, a.id, ask.principal.userID, ask.scope);
    if found.Some? {
      ClashingRowsAreOne(w.rows, found.value, i);
    }
  }
}
