// Redeeming an export while any number of other callers run: what decides whether its content arrives.
module Redemption {
  import opened Wrappers
  import opened Text
  import opened Authorization
  import opened ExportTable
  import opened ExportSteps
  import opened ExportProtocol
  import opened CreateRuns
  import opened DownloadRuns
  import opened ExportPrepare
  import opened ExportLifecycle
  import Rfc3339

  // The positions of one process's own steps in a schedule.
  function Turns(schedule: seq<Step>, q: nat): (r: seq<nat>)
    ensures forall i :: 0 <= i < |r| ==> r[i] < |schedule| && schedule[r[i]].pid == q
    ensures forall i, j :: 0 <= i < j < |r| ==> r[i] < r[j]
  {
    if schedule == [] then []
    else
      var n := |schedule| - 1;
      Turns(schedule[..n], q) + if schedule[n].pid == q then [n] else []
  }

  // The process's own statements run; those of others may fail or lose their acknowledgement.
  predicate OwnStepsRun(schedule: seq<Step>, q: nat) {
    forall i :: 0 <= i < |schedule| && schedule[i].pid == q ==> schedule[i].fault.Runs?
  }

  // A download of the artifact is recorded in the table.
  ghost predicate DownloadRecorded(rows: seq<Artifact>, a: Artifact) {
    exists j :: 0 <= j < |rows| && Core(rows[j]) == Core(a) && rows[j].downloadCount == 1
  }

  // A download of the artifact was recorded when the process took its k-th own step.
  ghost predicate RecordedAt(s: Setting, w: World, schedule: seq<Step>, q: nat, k: nat, a: Artifact) {
    k < |Turns(schedule, q)| && DownloadRecorded(Execute(s, w, schedule[..Turns(schedule, q)[k]]).rows, a)
  }

  // Between its count read, the first own step after its lookup, and its update, the second, another
  // process recorded a download.
  ghost predicate LostRace(s: Setting, w: World, schedule: seq<Step>, q: nat, a: Artifact) {
    !RecordedAt(s, w, schedule, q, 0, a) && RecordedAt(s, w, schedule, q, 1, a)
  }

  function PhaseAfter(a: Artifact, turns: nat, counted: bool, beaten: bool): DownloadPhase {
    if turns == 0 then Counting(a)
    else if counted then Delivered(a, false)
    else if turns == 1 then Updating(a)
    else if beaten then Refusal(PERSISTENCE_FAILED)
    else if turns == 2 then Appending(a)
    else Delivered(a, true)
  }

  // ---------- one own step ----------

  // The artifact is stored, and this caller may see it.
  ghost predicate InReach(s: Setting, rows: seq<Artifact>, ask: DownloadRequest, a: Artifact) {
    && Stored(rows, a) && Entitled(s.host, ask.principal, ask.scope, a)
    && Trimmed(a.workspace) && Trimmed(a.id) && a.workspace != "" && a.id != ""
  }

  lemma {:induction false} RowOf(s: Setting, rows: seq<Artifact>, ask: DownloadRequest, a: Artifact) returns (j: nat)
    requires UniqueArtifacts(rows) && InReach(s, rows, ask, a)
    ensures j < |rows| && Core(rows[j]) == Core(a)
    ensures FindForDownload(rows, a.workspace, a.id, ask.principal.userID, ask.scope) == Some(j)
    ensures DownloadRecorded(rows, a) <==> rows[j].downloadCount == 1
  {
    hide Core, Entitled, TrimSpace, Trimmed, UniqueArtifacts;
    j :| 0 <= j < |rows| && Core(rows[j]) == Core(a);
    CoreKeeps(rows[j], a);
    EntitledToRow(s.host, ask.principal, ask.scope, a, rows[j]);
    DownloadFinds(s.host, rows, j, ask, a);
    if DownloadRecorded(rows, a) {
      var k :| 0 <= k < |rows| && Core(rows[k]) == Core(a) && rows[k].downloadCount == 1;
      CoreKeeps(rows[k], a);
      ClashingRowsAreOne(rows, j, k);
    }
  }

  lemma {:induction false} OwnStep(s: Setting, rows: seq<Artifact>, ask: DownloadRequest, a: Artifact, now: int)
    requires UniqueArtifacts(rows) && InReach(s, rows, ask, a)
    requires forall j :: 0 <= j < |rows| ==> Consistent(rows[j])
    ensures CountStep(rows, ask, a, Runs) == if DownloadRecorded(rows, a) then Delivered(a, false) else Updating(a)
    ensures UpdateStep(rows, ask, a, Runs, now).1 ==
            if DownloadRecorded(rows, a) then Refusal(PERSISTENCE_FAILED) else Appending(a)
  {
    hide DownloadRecorded, InReach, FindForDownload, Downloaded, UniqueArtifacts, Rfc3339.FormatNano, TrimSpace, Core;
    var j := RowOf(s, rows, ask, a);
    ReachIsNamed(s, rows, ask, a);
    assert Consistent(rows[j]);
  }

  lemma {:induction false} ReachIsNamed(s: Setting, rows: seq<Artifact>, ask: DownloadRequest, a: Artifact)
    requires InReach(s, rows, ask, a)
    ensures TrimSpace(a.workspace) != "" && TrimSpace(a.id) != ""
  {
    hide TrimSpace, Entitled, Stored;
  }

  lemma {:induction false} ReachSurvives(s: Setting, rows: seq<Artifact>, next: seq<Artifact>, ask: DownloadRequest,
                                         a: Artifact)
    requires InReach(s, rows, ask, a) && RowsDevelop(rows, next)
    ensures InReach(s, next, ask, a)
  {
    hide Stored, Entitled, Trimmed, RowsDevelop;
    StoredSurvives(rows, next, a);
  }

  // ---------- the whole download ----------

  // Where a download that has passed its lookup stands after any schedule of any callers.
  lemma {:induction false} DownloadOutcome(s: Setting, w: World, schedule: seq<Step>, q: nat, a: Artifact)
    requires TableOk(w) && RequestsOk(w) && q < |w.procs| && w.procs[q].Downloader?
    requires w.procs[q].download == Counting(a) && InReach(s, w.rows, w.procs[q].ask, a) && OwnStepsRun(schedule, q)
    ensures Execute(s, w, schedule).procs[q] ==
            Downloader(w.procs[q].ask, PhaseAfter(a, |Turns(schedule, q)|, RecordedAt(s, w, schedule, q, 0, a),
                                                  RecordedAt(s, w, schedule, q, 1, a)))
  {
    hide Apply, TableOk, RequestsOk, RequestsNew, InReach, DownloadRecorded, RecordedAt, PhaseAfter, RowsDevelop;
    if schedule == [] {
      NoTurnsYet(s, w, q, a);
    } else {
      var n := |schedule| - 1;
      var init, step := schedule[..n], schedule[n];
      DownloadOutcome(s, w, init, q, a);
      EarlierTurns(s, w, schedule, q, 0, a);
      EarlierTurns(s, w, schedule, q, 1, a);
      NotYetSeen(s, w, init, q, 0, a);
      NotYetSeen(s, w, init, q, 1, a);
      var before := Execute(s, w, init);
      if step.pid == q {
        FreshIsNew(w);
        RunTable(s, w, init);
        ReachSurvives(s, w.rows, before.rows, w.procs[q].ask, a);
        OwnTurn(s, before, step, a, |Turns(init, q)|, RecordedAt(s, w, init, q, 0, a), RecordedAt(s, w, init, q, 1, a));
      } else {
        StepProcesses(s, before, step);
      }
    }
  }

  lemma {:induction false} NoTurnsYet(s: Setting, w: World, q: nat, a: Artifact)
    ensures Turns([], q) == [] && !RecordedAt(s, w, [], q, 0, a) && !RecordedAt(s, w, [], q, 1, a)
    ensures PhaseAfter(a, 0, false, false) == Counting(a)
  {
  }

  // One more own step: the first two see whether a download is recorded.
  lemma {:induction false} OwnTurn(s: Setting, w: World, step: Step, a: Artifact, turns: nat, counted: bool,
                                   beaten: bool)
    requires TableOk(w) && step.pid < |w.procs| && w.procs[step.pid].Downloader? && step.fault.Runs?
    requires InReach(s, w.rows, w.procs[step.pid].ask, a)
    requires w.procs[step.pid].download == PhaseAfter(a, turns, counted, beaten)
    requires (turns == 0 ==> !counted) && (turns <= 1 ==> !beaten)
    ensures var recorded := DownloadRecorded(w.rows, a);
            Apply(s, w, step).procs[step.pid] ==
            Downloader(w.procs[step.pid].ask, PhaseAfter(a, turns + 1, if turns == 0 then recorded else counted,
                                                         if turns == 1 then recorded else beaten))
  {
    hide Apply, InReach, DownloadRecorded, CountStep, UpdateStep, LookupStep, UniqueArtifacts, Consistent;
    DownloadStep(s, w, step);
    TableParts(w);
    OwnStep(s, w.rows, w.procs[step.pid].ask, a, step.now);
  }

  lemma {:induction false} TableParts(w: World)
    requires TableOk(w)
    ensures UniqueArtifacts(w.rows) && forall j :: 0 <= j < |w.rows| ==> Consistent(w.rows[j])
  {
  }

  lemma {:induction false} NotYetSeen(s: Setting, w: World, schedule: seq<Step>, q: nat, k: nat, a: Artifact)
    ensures k >= |Turns(schedule, q)| ==> !RecordedAt(s, w, schedule, q, k, a)
  {
    hide Execute, DownloadRecorded;
  }

  // A later step does not change what earlier own steps saw.
  lemma {:induction false} EarlierTurns(s: Setting, w: World, schedule: seq<Step>, q: nat, k: nat, a: Artifact)
    requires schedule != []
    ensures var n := |schedule| - 1;
            var turns := |Turns(schedule[..n], q)|;
            && (k < turns ==> (RecordedAt(s, w, schedule, q, k, a) <==> RecordedAt(s, w, schedule[..n], q, k, a)))
            && (k == turns && schedule[n].pid == q ==>
                  (RecordedAt(s, w, schedule, q, k, a) <==> DownloadRecorded(Execute(s, w, schedule[..n]).rows, a)))
            && (k >= |Turns(schedule, q)| ==> !RecordedAt(s, w, schedule, q, k, a))
  {
    hide Execute, DownloadRecorded;
    var n := |schedule| - 1;
    if k < |Turns(schedule[..n], q)| {
      var m := Turns(schedule[..n], q)[k];
      assert Turns(schedule, q)[k] == m && schedule[..n][..m] == schedule[..m];
    }
  }

  // ---------- the round trip ----------

  // The export round trip, in a run of any length with any number of other callers, before the download
  // and during it: whoever holds the token of an artifact created at t is told that it has expired if its
  // lookup comes at t plus 15 minutes or later; otherwise it receives exactly the stored content, unless
  // another process records a download between its count read and its update.
  lemma {:induction false} ExportRoundTrip(s: Setting, w: World, early: seq<Step>, late: seq<Step>, lookup: Step,
                                           rest: seq<Step>, p: nat, q: nat, a: Artifact, t: int)
    requires Start(w) && AllMinted(s, w) && GivesDigests(s.host) && |s.key| >= 16 && p < |w.procs| && q < |w.procs|
    requires Handed(Execute(s, w, early).procs[p]) == Some(a)
    requires Rfc3339.Writable(t) && a.createdAt == Rfc3339.FormatNano(t)
    requires var caller := Execute(s, w, early + late).procs[q];
             caller.Downloader? && caller.download == LookingUp &&
               TrimSpace(caller.ask.token) == TokenOf(s.host, s.key, a) &&
             Entitled(s.host, caller.ask.principal, caller.ask.scope, a)
    requires lookup.pid == q && lookup.fault.Runs? && lookup.authorized
    requires OwnStepsRun(rest, q) && |Turns(rest, q)| >= 3
    ensures var found := Execute(s, w, early + late + [lookup]);
            var end := Execute(s, w, early + late + [lookup] + rest).procs[q];
            end.Downloader? &&
            if t + EXPORT_TTL <= lookup.now then end.download == Refusal(EXPIRED)
            else if LostRace(s, found, rest, q, a) then end.download == Refusal(PERSISTENCE_FAILED)
            else end.download.Delivered? && end.download.artifact.content == a.content &&
                 end.download.artifact.filename == a.filename
  {
    hide Execute, Apply, Minted, Core, TableOk, RequestsOk, Justified, Provenance, Entitled, TokenOf, TrimSpace,
      GivesDigests,
      Rfc3339.FormatNano, UniqueArtifacts, Redeemable, Start, AllMinted, LookupStep, InReach, RecordedAt;
    ExecuteAppend(s, w, early + late, [lookup]);
    ExecuteAppend(s, w, early + late + [lookup], rest);
    var asked := Execute(s, w, early + late);
    var found := Execute(s, w, early + late + [lookup]);
    OneStep(s, asked, lookup);
    DownloadStep(s, asked, lookup);
    var j, row := HandedRow(s, w, early, late, p, a);
    var ask := asked.procs[q].ask;
    EntitledToRow(s.host, ask.principal, ask.scope, a, row);
    LookupOfRow(s, w, early + late, j, row, a, t, ask, lookup.now);
    if lookup.now < t + EXPORT_TTL {
      RunCreators(s, w, early + late + [lookup]);
      DownloadOutcome(s, found, rest, q, row);
      SameRace(s, found, rest, q, a, row);
    } else {
      RefusalStays(s, found, rest, q);
    }
  }

  // The row of an artifact handed out earlier in a run.
  lemma {:induction false} HandedRow(s: Setting, w: World, early: seq<Step>, late: seq<Step>, p: nat, a: Artifact)
    returns (j: nat, row: Artifact)
    requires Start(w) && p < |w.procs| && Handed(Execute(s, w, early).procs[p]) == Some(a)
    ensures j < |Execute(s, w, early + late).rows| && row == Execute(s, w, early + late).rows[j] && Core(row) == Core(a)
    ensures UniqueArtifacts(Execute(s, w, early + late).rows) && Consistent(row)
  {
    hide Execute, Apply, Core, TableOk, Justified, UniqueArtifacts, Provenance;
    RunCreators(s, w, early);
    j := HandedIsStored(s, Execute(s, w, early), p);
    ArtifactsNeverChangeOtherwise(s, w, early, late);
    row := Execute(s, w, early + late).rows[j];
    assert RowDevelops(Execute(s, w, early).rows[j], row);
  }

  lemma {:induction false} OneStep(s: Setting, w: World, step: Step)
    ensures Execute(s, w, [step]) == Apply(s, w, step)
  {
    hide Apply;
    assert [step][..0] == [] && Execute(s, w, []) == w;
  }

  lemma {:induction false} RefusalStays(s: Setting, w: World, schedule: seq<Step>, q: nat)
    requires q < |w.procs| && w.procs[q].Downloader? && w.procs[q].download.Refusal?
    ensures Execute(s, w, schedule).procs[q] == w.procs[q]
  {
    hide Apply;
    if schedule != [] {
      var n := |schedule| - 1;
      RefusalStays(s, w, schedule[..n], q);
      StepProcesses(s, Execute(s, w, schedule[..n]), schedule[n]);
      if schedule[n].pid == q {
        RefusedStep(s, Execute(s, w, schedule[..n]), schedule[n]);
      }
    }
  }

  lemma {:induction false} RefusedStep(s: Setting, w: World, step: Step)
    requires step.pid < |w.procs| && w.procs[step.pid].Downloader? && w.procs[step.pid].download.Refusal?
    ensures Apply(s, w, step) == w
  {
  }

  lemma {:induction false} SameRace(s: Setting, w: World, schedule: seq<Step>, q: nat, a: Artifact, b: Artifact)
    requires Core(a) == Core(b)
    ensures RecordedAt(s, w, schedule, q, 0, a) <==> RecordedAt(s, w, schedule, q, 0, b)
    ensures RecordedAt(s, w, schedule, q, 1, a) <==> RecordedAt(s, w, schedule, q, 1, b)
    ensures LostRace(s, w, schedule, q, a) <==> LostRace(s, w, schedule, q, b)
    ensures a.content == b.content && a.filename == b.filename
  {
    hide Execute;
    CoreKeeps(a, b);
    assert Core(a).filename == a.filename && Core(b).filename == b.filename;
  }

  // The lookup of a stored artifact's token: the clock decides, and what is found is in reach.
  lemma {:induction false} LookupOfRow(s: Setting, w: World, schedule: seq<Step>, j: nat, row: Artifact, a: Artifact,
                                       t: int, ask: DownloadRequest, now: int)
    requires Start(w) && AllMinted(s, w) && GivesDigests(s.host) && |s.key| >= 16
    requires j < |Execute(s, w, schedule).rows| && row == Execute(s, w, schedule).rows[j] && Core(row) == Core(a)
    requires UniqueArtifacts(Execute(s, w, schedule).rows)
    requires Rfc3339.Writable(t) && a.createdAt == Rfc3339.FormatNano(t)
    requires TrimSpace(ask.token) == TokenOf(s.host, s.key, a) && Entitled(s.host, ask.principal, ask.scope, row)
    ensures LookupStep(s.host, s.key, Execute(s, w, schedule).rows, ask, Runs, now, true) ==
            if now < t + EXPORT_TTL then Counting(row) else Refusal(EXPIRED)
    ensures InReach(s, Execute(s, w, schedule).rows, ask, row)
  {
    hide Execute, Minted, Entitled, TokenOf, TrimSpace, GivesDigests, Rfc3339.FormatNano, UniqueArtifacts, Start,
      AllMinted,
      LookupStep, Trimmed, Intact;
    var principal, u, minted := RowsStayMinted(s, w, schedule, j);
    MintedIsRedeemable(s.host, s.key, principal, u, minted, row);
    MintedCreation(s.host, s.key, principal, u, minted, row);
    assert Core(row).createdAt == row.createdAt && Core(a).createdAt == a.createdAt;
    OneCreation(t, u);
    CoreKeeps(row, a);
    SameTokenOf(s.host, s.key, row, a);
    LookupIsTheClock(s.host, s.key, Execute(s, w, schedule).rows, j, ask, principal, t, now);
    assert Stored(Execute(s, w, schedule).rows, row);
  }

  // A race is lost to another process, which keeps that win.
  lemma {:induction false} RaceIsLostToAnother(s: Setting, w: World, early: seq<Step>, schedule: seq<Step>, q: nat,
                                               a: Artifact)
    requires Start(w) && q < |w.procs|
    requires var found := Execute(s, w, early);
             found.procs[q].Downloader? && found.procs[q].download == Counting(a) && OwnStepsRun(schedule, q) &&
             InReach(s, found.rows, found.procs[q].ask, a) && LostRace(s, found, schedule, q, a)
    ensures var m := Turns(schedule, q)[1];
            var before := Execute(s, w, early + schedule[..m]);
            exists p, j :: 0 <= p < |before.procs| && p != q && 0 <= j < |before.rows| &&
                           Core(before.rows[j]) == Core(a) && WonRow(before.procs[p], before.rows[j])
  {
    hide Execute, Apply, TableOk, RequestsOk, InReach, Core, WonRow, Provenance, CreatorsJustified, HoldersOk,
      WinnersOk, LogOk;
    var m := Turns(schedule, q)[1];
    var found, init := Execute(s, w, early), schedule[..m];
    var before := Execute(s, w, early + init);
    ExecuteAppend(s, w, early, init);
    RunCreators(s, w, early);
    TurnsBefore(schedule, q);
    assert init[..Turns(schedule, q)[0]] == schedule[..Turns(schedule, q)[0]];
    DownloadOutcome(s, found, init, q, a);
    var j :| 0 <= j < |before.rows| && Core(before.rows[j]) == Core(a) && before.rows[j].downloadCount == 1;
    CountIsTheWinner(s, w, early + init, j);
    var p :| 0 <= p < |before.procs| && WonRow(before.procs[p], before.rows[j]);
    UpdatingHasNotWon(before.procs[q], before.rows[j]);
  }

  // With no step between its count read and its update there is no race to lose.
  lemma {:induction false} AdjacentStepsWin(s: Setting, w: World, schedule: seq<Step>, q: nat, a: Artifact)
    requires TableOk(w) && RequestsOk(w) && q < |w.procs| && w.procs[q].Downloader?
    requires w.procs[q].download == Counting(a) && InReach(s, w.rows, w.procs[q].ask, a) && OwnStepsRun(schedule, q)
    requires |Turns(schedule, q)| >= 2 && Turns(schedule, q)[1] == Turns(schedule, q)[0] + 1
    ensures !LostRace(s, w, schedule, q, a)
  {
    hide Apply, TableOk, RequestsOk, InReach, DownloadRecorded;
    var i := Turns(schedule, q)[0];
    TurnsBefore(schedule, q);
    FirstTurn(schedule, q);
    var init := schedule[..i];
    DownloadOutcome(s, w, init, q, a);
    var before := Execute(s, w, init);
    DownloadStep(s, before, schedule[i]);
    assert schedule[..i + 1][..i] == init;
    assert Execute(s, w, schedule[..i + 1]) == Apply(s, before, schedule[i]);
  }

  lemma {:induction false} FirstTurn(schedule: seq<Step>, q: nat)
    requires |Turns(schedule, q)| >= 1
    ensures Turns(schedule[..Turns(schedule, q)[0]], q) == []
  {
    var n := |schedule| - 1;
    var m := Turns(schedule, q)[0];
    if |Turns(schedule[..n], q)| >= 1 {
      FirstTurn(schedule[..n], q);
      assert schedule[..n][..m] == schedule[..m];
    }
  }

  lemma {:induction false} UpdatingHasNotWon(p: Process, row: Artifact)
    requires p.Downloader? && p.download.Updating?
    ensures !WonRow(p, row)
  {
  }

  // Up to the second own step there is one.
  lemma {:induction false} TurnsBefore(schedule: seq<Step>, q: nat)
    requires |Turns(schedule, q)| >= 2
    ensures Turns(schedule[..Turns(schedule, q)[1]], q) == [Turns(schedule, q)[0]]
  {
    var n := |schedule| - 1;
    var m := Turns(schedule, q)[1];
    if |Turns(schedule[..n], q)| >= 2 {
      TurnsBefore(schedule[..n], q);
      assert schedule[..n][..m] == schedule[..m];
    }
  }

  // ---------- a lost race ----------

  // The race is real: of two callers presenting one valid token before it expires, the second can be
  // refused although no statement, authorizer or append fails.
  lemma {:induction false} SecondDownloaderIsRefused(s: Setting, p: ExportPrincipal, t: int, a: Artifact,
                                                     ask: DownloadRequest, now: int)
    requires GivesDigests(s.host) && |s.key| >= 16 && Minted(s.host, s.key, p, t, a) && Timely(t) && ValidExport(a)
    requires TrimSpace(ask.token) == TokenOf(s.host, s.key, a) && Entitled(s.host, ask.principal, ask.scope, a)
    requires now < t + EXPORT_TTL
    ensures var w := World([], [], [Creator(a, Reading), Downloader(ask, LookingUp), Downloader(ask, LookingUp)], []);
            var create, one, two := Step(0, Runs, now, true), Step(1, Runs, now, true), Step(2, Runs, now, true);
            var end := Execute(s, w, [create, create] + [one, two] + [one, two, one, two]);
            Start(w) && end.procs[1] == Downloader(ask, Appending(a)) &&
            end.procs[2] == Downloader(ask, Refusal(PERSISTENCE_FAILED))
  {
    hide Execute, Apply, Minted, Entitled, TokenOf, TrimSpace, GivesDigests, InReach, Rfc3339.FormatNano, TableOk,
      RequestsOk,
      ValidExport, Provenance, CreatorsJustified, Trimmed, Stamped;
    var w := World([], [], [Creator(a, Reading), Downloader(ask, LookingUp), Downloader(ask, LookingUp)], []);
    var create, one, two := Step(0, Runs, now, true), Step(1, Runs, now, true), Step(2, Runs, now, true);
    MintedIsFresh(s.host, s.key, p, t, a);
    ExecuteAppend(s, w, [create, create], [one, two]);
    ExecuteAppend(s, w, [create, create] + [one, two], [one, two, one, two]);
    RunCreators(s, w, [create, create] + [one, two]);
    CreatedAlone(s, w, a, create);
    BothFind(s, Execute(s, w, [create, create]), p, t, a, ask, one, two);
    NoneRecorded(a);
    TwoRace(s, Execute(s, w, [create, create] + [one, two]), a, ask, one, two);
  }

  lemma {:induction false} MintedIsFresh(h: Host, key: string, p: ExportPrincipal, t: int, a: Artifact)
    requires Minted(h, key, p, t, a)
    ensures FreshRequest(a) && a.downloadCount == 0 && Stamped(h, a) == a
  {
    hide Minted, Trimmed, Rfc3339.FormatNano, Intact, TrimSpace, Stamped, StoreID, Fingerprint;
    MintedIsIntact(h, key, p, t, a);
    ServiceAndStoreAgree(h, key, p, t, a);
  }

  lemma {:induction false} NoneRecorded(a: Artifact)
    requires a.downloadCount == 0
    ensures !DownloadRecorded([a], a)
  {
  }

  lemma {:induction false} CreatedAlone(s: Setting, w: World, a: Artifact, create: Step)
    requires w.rows == [] && |w.procs| > 0 && w.procs[0] == Creator(a, Reading) && create.pid == 0 && create.fault.Runs?
    requires ValidExport(a) && Stamped(s.host, a) == a
    ensures var end := Execute(s, w, [create, create]);
            end.rows == [a] && end.log == w.log && forall q :: 0 < q < |w.procs| ==> end.procs[q] == w.procs[q]
  {
    hide Apply, ValidExport, Stamped;
    assert [create][..0] == [] && [create, create][..1] == [create];
    assert Execute(s, w, []) == w;
    var w1 := Apply(s, w, create);
    assert Execute(s, w, [create]) == w1;
    CreatorStep(s, w, create);
    CreatorStep(s, w1, create);
    StepProcesses(s, w, create);
    StepProcesses(s, w1, create);
    StepKeepsLog(s, w, create);
    StepKeepsLog(s, w1, create);
  }

  lemma {:induction false} BothFind(s: Setting, w: World, p: ExportPrincipal, t: int, a: Artifact,
                                    ask: DownloadRequest, one: Step, two: Step)
    requires GivesDigests(s.host) && |s.key| >= 16 && Minted(s.host, s.key, p, t, a) && Timely(t) && w.rows == [a]
    requires TrimSpace(ask.token) == TokenOf(s.host, s.key, a) && Entitled(s.host, ask.principal, ask.scope, a)
    requires |w.procs| == 3 && w.procs[1] == Downloader(ask, LookingUp) && w.procs[2] == Downloader(ask, LookingUp)
    requires one.pid == 1 && two.pid == 2 && one.fault.Runs? && two.fault.Runs? && one.authorized && two.authorized
    requires one.now < t + EXPORT_TTL && two.now < t + EXPORT_TTL
    ensures var end := Execute(s, w, [one, two]);
            end.rows == [a] && end.log == w.log &&
            end.procs[1] == Downloader(ask, Counting(a)) && end.procs[2] == Downloader(ask, Counting(a))
    ensures InReach(s, [a], ask, a)
  {
    hide Apply, Minted, Entitled, TokenOf, TrimSpace, GivesDigests, Rfc3339.FormatNano, LookupStep, Trimmed, Intact;
    assert [one][..0] == [] && [one, two][..1] == [one];
    assert Execute(s, w, []) == w;
    var w1 := Apply(s, w, one);
    assert Execute(s, w, [one]) == w1;
    MintedIsRedeemable(s.host, s.key, p, t, a, a);
    LookupIsTheClock(s.host, s.key, [a], 0, ask, p, t, one.now);
    LookupIsTheClock(s.host, s.key, [a], 0, ask, p, t, two.now);
    DownloadStep(s, w, one);
    StepProcesses(s, w, one);
    DownloadStep(s, w1, two);
    StepProcesses(s, w1, two);
    StepKeepsLog(s, w, one);
    StepKeepsLog(s, w1, two);
    assert [a][0] == a && Stored([a], a);
  }

  lemma {:induction false} UpdateRecords(s: Setting, rows: seq<Artifact>, ask: DownloadRequest, a: Artifact, now: int)
    requires UniqueArtifacts(rows) && InReach(s, rows, ask, a) && !DownloadRecorded(rows, a)
    requires forall j :: 0 <= j < |rows| ==> Consistent(rows[j])
    ensures DownloadRecorded(UpdateStep(rows, ask, a, Runs, now).0, a)
  {
    hide InReach, FindForDownload, UniqueArtifacts, Rfc3339.FormatNano, TrimSpace, DownloadRecorded;
    var j := RowOf(s, rows, ask, a);
    assert Consistent(rows[j]);
    var next := UpdateStep(rows, ask, a, Runs, now).0;
    assert Core(next[j]) == Core(rows[j]) && next[j].downloadCount == 1;
    RecordedBy(next, a, j);
  }

  lemma {:induction false} RecordedBy(rows: seq<Artifact>, a: Artifact, j: nat)
    requires j < |rows| && Core(rows[j]) == Core(a) && rows[j].downloadCount == 1
    ensures DownloadRecorded(rows, a)
  {
  }

  // Both read the count at zero, then both update.
  lemma {:induction false} TwoRace(s: Setting, w: World, a: Artifact, ask: DownloadRequest, one: Step, two: Step)
    requires TableOk(w) && RequestsOk(w) && InReach(s, w.rows, ask, a) && !DownloadRecorded(w.rows, a)
    requires |w.procs| == 3 && w.procs[1] == Downloader(ask, Counting(a)) && w.procs[2] == Downloader(ask, Counting(a))
    requires one.pid == 1 && two.pid == 2 && one.fault.Runs? && two.fault.Runs?
    ensures var end := Execute(s, w, [one, two, one, two]);
            end.procs[1] == Downloader(ask, Appending(a)) &&
              end.procs[2] == Downloader(ask, Refusal(PERSISTENCE_FAILED))
  {
    hide Apply, InReach, DownloadRecorded, TableOk, RequestsOk, CountStep, UpdateStep, LookupStep;
    FourSteps(s, w, one, two, one, two);
    var w1 := Apply(s, w, one);
    var w2 := Apply(s, w1, two);
    var w3 := Apply(s, w2, one);
    TableParts(w);
    OwnStep(s, w.rows, ask, a, one.now);
    UpdateRecords(s, w.rows, ask, a, one.now);
    DownloadStep(s, w, one);
    StepProcesses(s, w, one);
    DownloadStep(s, w1, two);
    StepProcesses(s, w1, two);
    DownloadStep(s, w2, one);
    StepProcesses(s, w2, one);
    FreshIsNew(w);
    StepTable(s, w, one);
    StepRequests(s, w, one);
    FreshIsNew(w1);
    StepTable(s, w1, two);
    StepRequests(s, w1, two);
    FreshIsNew(w2);
    StepTable(s, w2, one);
    TableParts(w3);
    ReachSurvives(s, w2.rows, w3.rows, ask, a);
    OwnStep(s, w3.rows, ask, a, two.now);
    DownloadStep(s, w3, two);
    StepProcesses(s, w3, two);
  }

  // ---------- the evidence ----------

  ghost predicate EvidenceFor(log: seq<Evidence>, row: Artifact) {
    exists k :: 0 <= k < |log| && TrimSpace(log[k].workspace) == row.workspace && TrimSpace(log[k].artifactID) == row.id
  }

  // This step runs the append of a process that recorded the row's download.
  ghost predicate AppendsFor(w: World, step: Step, row: Artifact) {
    && step.pid < |w.procs| && w.procs[step.pid].Downloader? && w.procs[step.pid].download.Appending?
    && Concerns(w.procs[step.pid], row) && !step.fault.Refused?
  }

  ghost predicate AppendRan(s: Setting, w: World, schedule: seq<Step>, row: Artifact) {
    exists m :: 0 <= m < |schedule| && AppendsFor(Execute(s, w, schedule[..m]), schedule[m], row)
  }

  lemma {:induction false} StepEvidence(s: Setting, w: World, step: Step, row: Artifact)
    ensures EvidenceFor(Apply(s, w, step).log, row) <==> EvidenceFor(w.log, row) || AppendsFor(w, step, row)
  {
    hide LookupStep, CountStep, UpdateStep, CreateStep, TrimSpace;
    var next := Apply(s, w, step);
    forall k | 0 <= k < |w.log|
      ensures next.log[k] == w.log[k]
    {
    }
    if AppendsFor(w, step, row) {
      assert next.log[|w.log|] == Evidence(step.pid, w.procs[step.pid].download.artifact.workspace,
                                           w.procs[step.pid].download.artifact.id);
    }
  }

  // An artifact has its download event exactly when the append of a process that recorded its download ran.
  lemma {:induction false} EvidenceIsTheAppend(s: Setting, w: World, schedule: seq<Step>, row: Artifact)
    requires w.log == []
    ensures EvidenceFor(Execute(s, w, schedule).log, row) <==> AppendRan(s, w, schedule, row)
  {
    hide Apply, AppendRan, AppendsFor, EvidenceFor;
    if schedule == [] {
      NoEvidence(s, w, row);
    } else {
      var n := |schedule| - 1;
      EvidenceIsTheAppend(s, w, schedule[..n], row);
      StepEvidence(s, Execute(s, w, schedule[..n]), schedule[n], row);
      LastAppend(s, w, schedule, row);
    }
  }

  lemma {:induction false} LastAppend(s: Setting, w: World, schedule: seq<Step>, row: Artifact)
    requires schedule != []
    ensures var n := |schedule| - 1;
            AppendRan(s, w, schedule, row) <==>
            AppendRan(s, w, schedule[..n], row) || AppendsFor(Execute(s, w, schedule[..n]), schedule[n], row)
  {
    hide Execute, AppendsFor;
    var n := |schedule| - 1;
    var init := schedule[..n];
    if m :| 0 <= m < n && AppendsFor(Execute(s, w, init[..m]), init[m], row) {
      assert init[..m] == schedule[..m];
    }
    if m :| 0 <= m < |schedule| && AppendsFor(Execute(s, w, schedule[..m]), schedule[m], row) {
      if m < n {
        assert init[..m] == schedule[..m] && init[m] == schedule[m];
      }
    }
  }

  lemma {:induction false} NoEvidence(s: Setting, w: World, row: Artifact)
    ensures !EvidenceFor([], row) && !AppendRan(s, w, [], row)
  {
  }

  // Content can be delivered without any evidence: the first download's append fails, and the second
  // download finds the count at one.
  lemma {:induction false} DeliveredWithoutEvidence(s: Setting, p: ExportPrincipal, t: int, a: Artifact,
                                                    ask: DownloadRequest, now: int)
    requires GivesDigests(s.host) && |s.key| >= 16 && Minted(s.host, s.key, p, t, a) && Timely(t) && ValidExport(a)
    requires TrimSpace(ask.token) == TokenOf(s.host, s.key, a) && Entitled(s.host, ask.principal, ask.scope, a)
    requires now < t + EXPORT_TTL
    ensures var w := World([], [], [Creator(a, Reading), Downloader(ask, LookingUp), Downloader(ask, LookingUp)], []);
            var create, one, two := Step(0, Runs, now, true), Step(1, Runs, now, true), Step(2, Runs, now, true);
            var end := Execute(s, w, [create, create] + [one, two] + [one, one, one.(fault := Refused), two]);
            Start(w) && end.procs[2] == Downloader(ask, Delivered(a, false)) && end.log == []
  {
    hide Execute, Apply, Minted, Entitled, TokenOf, TrimSpace, GivesDigests, InReach, Rfc3339.FormatNano, TableOk,
      RequestsOk,
      ValidExport, Provenance, CreatorsJustified, Trimmed, Stamped;
    var w := World([], [], [Creator(a, Reading), Downloader(ask, LookingUp), Downloader(ask, LookingUp)], []);
    var create, one, two := Step(0, Runs, now, true), Step(1, Runs, now, true), Step(2, Runs, now, true);
    MintedIsFresh(s.host, s.key, p, t, a);
    ExecuteAppend(s, w, [create, create], [one, two]);
    var found := Execute(s, w, [create, create] + [one, two]);
    ExecuteAppend(s, w, [create, create] + [one, two], [one, one, one.(fault := Refused), two]);
    RunCreators(s, w, [create, create] + [one, two]);
    CreatedAlone(s, w, a, create);
    BothFind(s, Execute(s, w, [create, create]), p, t, a, ask, one, two);
    NoneRecorded(a);
    LostAppend(s, found, a, ask, one, one.(fault := Refused), two);
  }

  lemma {:induction false} StepKeepsLog(s: Setting, w: World, step: Step)
    requires step.pid < |w.procs| && w.procs[step.pid].Downloader? ==>
               !w.procs[step.pid].download.Appending? || step.fault.Refused?
    ensures Apply(s, w, step).log == w.log
    ensures step.pid < |w.procs| && w.procs[step.pid].Downloader? && w.procs[step.pid].download.Appending? ==>
              Apply(s, w, step).rows == w.rows
  {
    hide LookupStep, CountStep, UpdateStep, CreateStep;
  }

  lemma {:induction false} LostAppend(s: Setting, w: World, a: Artifact, ask: DownloadRequest, one: Step, lost: Step,
                                      two: Step)
    requires TableOk(w) && RequestsOk(w) && InReach(s, w.rows, ask, a) && !DownloadRecorded(w.rows, a)
    requires |w.procs| == 3 && w.procs[1] == Downloader(ask, Counting(a)) && w.procs[2] == Downloader(ask, Counting(a))
    requires one.pid == 1 && lost.pid == 1 && two.pid == 2 && one.fault.Runs? && lost.fault.Refused? && two.fault.Runs?
    ensures var end := Execute(s, w, [one, one, lost, two]);
            end.procs[2] == Downloader(ask, Delivered(a, false)) && end.log == w.log
  {
    hide Apply, InReach, DownloadRecorded, TableOk, RequestsOk, CountStep, UpdateStep, LookupStep;
    FourSteps(s, w, one, one, lost, two);
    var w1 := Apply(s, w, one);
    var w2 := Apply(s, w1, one);
    var w3 := Apply(s, w2, lost);
    TableParts(w);
    OwnStep(s, w.rows, ask, a, one.now);
    UpdateRecords(s, w.rows, ask, a, one.now);
    DownloadStep(s, w, one);
    StepProcesses(s, w, one);
    DownloadStep(s, w1, one);
    StepProcesses(s, w1, one);
    StepProcesses(s, w2, lost);
    FreshIsNew(w);
    StepTable(s, w, one);
    StepRequests(s, w, one);
    FreshIsNew(w1);
    StepTable(s, w1, one);
    TableParts(w2);
    ReachSurvives(s, w1.rows, w2.rows, ask, a);
    OwnStep(s, w2.rows, ask, a, two.now);
    StepKeepsLog(s, w, one);
    StepKeepsLog(s, w1, one);
    StepKeepsLog(s, w2, lost);
    StepKeepsLog(s, w3, two);
    DownloadStep(s, w3, two);
  }
}
