// The two protocols on the artifact table, one database statement at a time: creating or getting an
// artifact, and downloading one.
module ExportSteps {
  import opened Wrappers
  import opened Text
  import opened DataScopes
  import opened Authorization
  import opened ExportTable
  import Rfc3339

  // ---------- CreateOrGetExport: read, insert, re-read ----------

  datatype CreateOutcome = Created(artifact: Artifact) | Replayed(artifact: Artifact) | Conflict | Failed

  datatype CreatePhase = Reading | Inserting | Rereading | CreateDone(outcome: CreateOutcome)

  // What a row found under the idempotency key means for the request.
  function Settle(found: Artifact, request: Artifact): CreateOutcome {
    if SameExportRequest(found, request) then Replayed(found) else Conflict
  }

  function Stamped(h: Host, request: Artifact): Artifact {
    request.(id := StoreID(h, request))
  }

  function CreateStep(h: Host, rows: seq<Artifact>, request: Artifact, phase: CreatePhase,
                      fault: Fault): (seq<Artifact>, CreatePhase) {
    match phase
    case Reading =>
      if !ValidExport(request) || !fault.Runs? then (rows, CreateDone(Failed))
      else
        var found := FindByIdempotency(rows, request);
        (rows, if found.Some? then CreateDone(Settle(rows[found.value], request)) else Inserting)
    case Inserting =>
      var inserted := TryInsert(rows, Stamped(h, request));
      if fault.Refused? || inserted.None? then (rows, Rereading)
      else if fault.AckLost? then (inserted.value, Rereading)
      else (inserted.value, CreateDone(Created(Stamped(h, request))))
    case Rereading =>
      var found := FindByIdempotency(rows, request);
      if fault.Runs? && found.Some? then (rows, CreateDone(Settle(rows[found.value], request)))
      else (rows, CreateDone(Failed))
    case CreateDone(_) => (rows, phase)
  }

  // What a call meets on its way: how the database takes its three statements, and what other callers
  // make of the table before the insert and before the second read.
  datatype Surroundings = Surroundings(read: Fault, early: seq<Artifact> -> seq<Artifact>, insert: Fault,
                                       late: seq<Artifact> -> seq<Artifact>, reread: Fault)

  function Alone(): Surroundings {
    Surroundings(Runs, rows => rows, Runs, rows => rows, Runs)
  }

  // The other callers respect the unique keys.
  ghost predicate KeepUnique(around: Surroundings) {
    forall rows :: UniqueArtifacts(rows) ==> UniqueArtifacts(around.early(rows)) && UniqueArtifacts(around.late(rows))
  }

  lemma {:induction false} AloneKeepsUnique()
    ensures KeepUnique(Alone())
  {
  }

  // One call in given surroundings: the three steps in order.
  function CreateAmid(h: Host, rows: seq<Artifact>, around: Surroundings, request: Artifact)
    : (seq<Artifact>, CreateOutcome)
  {
    var p1 := CreateStep(h, rows, request, Reading, around.read).1;
    if p1.CreateDone? then (rows, p1.outcome)
    else
      var (rows2, p2) := CreateStep(h, around.early(rows), request, p1, around.insert);
      if p2.CreateDone? then (rows2, p2.outcome)
      else
        var (rows3, p3) := CreateStep(h, around.late(rows2), request, p2, around.reread);
        (rows3, if p3.CreateDone? then p3.outcome else Failed)
  }

  // ---------- downloadExport: look up and check, read the count, update, append evidence ----------

  datatype DownloadRequest = DownloadRequest(token: string, principal: ExportPrincipal, scope: DataScope)

  datatype DownloadPhase =
    | LookingUp
    | Counting(artifact: Artifact)
    | Updating(artifact: Artifact)
    | Appending(artifact: Artifact)
    | Delivered(artifact: Artifact, first: bool)
    | EvidenceFailed(artifact: Artifact)
    | CommitUnknown(artifact: Artifact)
    | Refusal(error: string)

  const UNAVAILABLE := "export_unavailable"
  const NOT_FOUND := "export_download_not_found"
  const PERSISTENCE_FAILED := "export_persistence_failed"
  const REQUESTER_MISMATCH := "export_requester_mismatch"
  const EXPIRED := "export_download_expired"
  const SCOPE_CHANGED := "export_scope_changed"
  const NOT_AUTHORIZED := "authorizer refused"
  const INTEGRITY_FAILED := "export_integrity_failed"

  // The checks between lookup and download, in the service's order; None lets the download through.
  function DownloadCheck(h: Host, key: string, token: string, p: ExportPrincipal, a: Artifact, now: int,
                         authorized: bool): Option<string> {
    var expires := Rfc3339.Parse(a.expiresAt);
    if token != TokenOf(h, key, a) then Some(NOT_FOUND)
    else if a.requester != TrimSpace(p.userID) || a.workspace != TrimSpace(p.workspaceID) then Some(REQUESTER_MISMATCH)
    else if expires.None? || now >= expires.value then Some(EXPIRED)
    else if Fingerprint(h.sha, h.jsonClaims, p) != a.authorizationHash then Some(SCOPE_CHANGED)
    else if !authorized then Some(NOT_AUTHORIZED)
    else if h.sha(a.content) != a.contentHash || FilterHash(h, a.filters) != a.scopeHash then Some(INTEGRITY_FAILED)
    else None
  }

  predicate TokenLengthPasses(token: string) {
    80 <= |token| <= 160
  }

  function LookupStep(h: Host, key: string, rows: seq<Artifact>, r: DownloadRequest, fault: Fault, now: int,
                      authorized: bool): (phase: DownloadPhase)
    ensures phase.Counting? || phase.Refusal?
  {
    var token := TrimSpace(r.token);
    if |key| < 16 then Refusal(UNAVAILABLE)
    else if !TokenLengthPasses(token) then Refusal(NOT_FOUND)
    else if !fault.Runs? then Refusal(PERSISTENCE_FAILED)
    else
      var found := FindByToken(rows, r.principal.workspaceID, TextHash(h, token), r.principal.userID, r.scope);
      if found.None? then Refusal(NOT_FOUND)
      else
        var a := rows[found.value];
        var refused := DownloadCheck(h, key, token, r.principal, a, now, authorized);
        if refused.Some? then Refusal(refused.value) else Counting(a)
  }

  // The count read opens the transaction; a count other than zero ends it.
  function CountStep(rows: seq<Artifact>, r: DownloadRequest, a: Artifact, fault: Fault): (phase: DownloadPhase)
    ensures phase == Updating(a) || phase == Delivered(a, false) || phase.Refusal?
  {
    if TrimSpace(a.workspace) == "" || TrimSpace(a.id) == "" || !fault.Runs? then Refusal(PERSISTENCE_FAILED)
    else
      var found := FindForDownload(rows, a.workspace, a.id, r.principal.userID, r.scope);
      if found.None? then Refusal(PERSISTENCE_FAILED)
      else if rows[found.value].downloadCount != 0 then Delivered(a, false)
      else Updating(a)
  }

  // The conditional update and its commit.
  function UpdateStep(rows: seq<Artifact>, r: DownloadRequest, a: Artifact, fault: Fault,
                      now: int): (next: (seq<Artifact>, DownloadPhase))
    ensures next.1 == Appending(a) || next.1 == CommitUnknown(a) || next.1.Refusal?
    ensures fault.Runs? ==> !next.1.CommitUnknown?
  {
    var marked := TryMarkDownloaded(rows, a.workspace, a.id, r.principal.userID, r.scope, Rfc3339.FormatNano(now));
    if fault.Refused? || marked.None? then (rows, Refusal(PERSISTENCE_FAILED))
    else if fault.AckLost? then (marked.value, CommitUnknown(a))
    else (marked.value, Appending(a))
  }

  // A statement that does not run ends a download in a refusal, and an update that does not leaves the table;
  // one whose acknowledgement is lost has run, but its process does not go on.
  lemma {:induction false} FaultsEndDownloads(h: Host, key: string, rows: seq<Artifact>, r: DownloadRequest,
                                              a: Artifact, fault: Fault, now: int, authorized: bool)
    ensures !fault.Runs? ==> LookupStep(h, key, rows, r, fault, now, authorized).Refusal?
    ensures !fault.Runs? ==> CountStep(rows, r, a, fault) == Refusal("export_persistence_failed")
    ensures fault.Refused? ==> UpdateStep(rows, r, a, fault, now) == (rows, Refusal("export_persistence_failed"))
    ensures fault.AckLost? ==>
              var (after, phase) := UpdateStep(rows, r, a, fault, now);
              after == UpdateStep(rows, r, a, Runs, now).0 &&
              (phase == CommitUnknown(a) || (phase == Refusal("export_persistence_failed") && after == rows))
  {
    hide TrimSpace, FindForDownload, Rfc3339.FormatNano, FindByToken, TextHash;
  }

  // What a creation makes of a statement that does not run or is not acknowledged.
  lemma {:induction false} FaultsInCreation(h: Host, rows: seq<Artifact>, request: Artifact, fault: Fault)
    ensures !fault.Runs? ==> CreateStep(h, rows, request, Reading, fault) == (rows, CreateDone(Failed))
    ensures !fault.Runs? ==> CreateStep(h, rows, request, Rereading, fault) == (rows, CreateDone(Failed))
    ensures fault.Refused? ==> CreateStep(h, rows, request, Inserting, fault) == (rows, Rereading)
    ensures fault.AckLost? ==>
              CreateStep(h, rows, request, Inserting, fault) ==
              (CreateStep(h, rows, request, Inserting, Runs).0, Rereading)
  {
    hide ValidExport, StoreID, FindByIdempotency;
  }
}
