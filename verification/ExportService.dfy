// The artifact store and the export service as objects: each call without interference from others is
// proved to be the protocol's steps run one after the other.
module ExportService {
  import opened Wrappers
  import opened Text
  import opened DataScopes
  import opened ExportFilters
  import opened Authorization
  import opened ExportTable
  import opened ExportSteps
  import opened ExportPrepare
  import opened ExportLifecycle
  import ScopeSql
  import EventTable
  import EventQuery
  import EventStore
  import Csv
  import Rfc3339

  class ArtifactStore {
    var rows: seq<Artifact>

    constructor ()
      ensures rows == []
    {
      rows := [];
    }

    // Read by key; insert; on a refused insert read again, each in the given surroundings.
    method CreateOrGetExport(h: Host, input: Artifact, around: Surroundings) returns (outcome: CreateOutcome)
      modifies this
      ensures (rows, outcome) == CreateAmid(h, old(rows), around, input)
      ensures UniqueArtifacts(old(rows)) && KeepUnique(around) ==> UniqueArtifacts(rows)
      ensures (TrimSpace(input.workspace) == "" || TrimSpace(input.requester) == "" ||
               TrimSpace(input.idempotencyKey) == "" || TrimSpace(input.scopeHash) == "" ||
               TrimSpace(input.authorizationHash) == "" || TrimSpace(input.tokenHash) == "" ||
               TrimSpace(input.contentHash) == "" || TrimSpace(input.auditIdentity) == "" ||
               input.rowCount < 1 || |input.content| == 0) ==> outcome == Failed && rows == old(rows)
      ensures outcome.Created? ==>
                var identity := input.workspace + "\0" + input.requester + "\0audit_events\0" + input.idempotencyKey;
                var digest := h.sha(identity);
                rows == around.early(old(rows)) + [outcome.artifact] &&
                (|digest| >= 32 ==> outcome.artifact == input.(id := "audexp_" + digest[..32]))
      ensures outcome.Replayed? ==>
                var a := outcome.artifact;
                a in rows && a.workspace == TrimSpace(input.workspace) && a.requester == input.requester &&
                a.idempotencyKey == input.idempotencyKey && a.scopeHash == input.scopeHash &&
                a.authorizationHash == input.authorizationHash
      ensures outcome.Conflict? ==>
                exists a :: a in rows && a.workspace == TrimSpace(input.workspace) && a.requester == input.requester &&
                            a.idempotencyKey == input.idempotencyKey &&
                            (a.scopeHash != input.scopeHash || a.authorizationHash != input.authorizationHash)
    {
      hide TrimSpace;
      if !ValidExport(input) || !around.read.Runs? {
        return Failed;
      }
      var current := FindByIdempotency(rows, input);
      if current.Some? {
        if !SameExportRequest(rows[current.value], input) {
          return Conflict;
        }
        return Replayed(rows[current.value]);
      }
      rows := around.early(rows);
      var artifact := input.(id := StoreID(h, input));
      var inserted := ExportTable.TryInsert(rows, artifact);
      if !around.insert.Refused? && inserted.Some? {
        InsertKeepsUnique(rows, artifact);
        rows := inserted.value;
        if around.insert.Runs? {
          return Created(artifact);
        }
      }
      rows := around.late(rows);
      current := FindByIdempotency(rows, input);
      if around.reread.Runs? && current.Some? {
        if SameExportRequest(rows[current.value], input) {
          return Replayed(rows[current.value]);
        }
        return Conflict;
      }
      return Failed;
    }

    method ExportByTokenHashWithinDataScope(workspace: string, tokenHash: string, requester: string, scope: DataScope)
      returns (found: Option<Artifact>)
      ensures var i := FindByToken(rows, workspace, tokenHash, requester, scope);
              found == if i.None? then None else Some(rows[i.value])
      ensures UniqueArtifacts(rows) ==> forall a ::
                a in rows && a.workspace == TrimSpace(workspace) && a.tokenHash == TrimSpace(tokenHash) ==>
                found == if (TrimSpace(requester) == "" || a.requester == TrimSpace(requester)) &&
                            (scope.all || ScopeSql.Lists(scope.subjectIDs, a.requester))
                         then Some(a) else None
      ensures found.Some? ==> found.value in rows && found.value.workspace == TrimSpace(workspace) &&
                              found.value.tokenHash == TrimSpace(tokenHash) &&
                              (TrimSpace(requester) == "" || found.value.requester == TrimSpace(requester)) &&
                              (scope.all || ScopeSql.Lists(scope.subjectIDs, found.value.requester))
    {
      hide Visible, TrimSpace, ScopeSql.Lists;
      forall a: Artifact
        ensures Visible(a, requester, scope) <==>
                (TrimSpace(requester) == "" || a.requester == TrimSpace(requester)) &&
                (scope.all || ScopeSql.Lists(scope.subjectIDs, a.requester))
      {
        VisibleInFull(a, requester, scope);
      }
      var i := FindByToken(rows, workspace, tokenHash, requester, scope);
      found := if i.None? then None else Some(rows[i.value]);
    }

    // One transaction: read the count, and if it is zero set it to one. Success(true) is the first download.
    method RecordExportDownloadWithinDataScope(workspace: string, id: string, requester: string, at: string,
                                               scope: DataScope)
      returns (first: Result<bool, string>)
      modifies this
      ensures var i := FindForDownload(old(rows), workspace, id, requester, scope);
              if TrimSpace(workspace) == "" || TrimSpace(id) == "" || i.None?
              then first.Failure? && rows == old(rows)
              else if old(rows)[i.value].downloadCount != 0 then first == Success(false) && rows == old(rows)
              else first == Success(true) && rows == old(rows)[i.value := Downloaded(old(rows)[i.value], at)]
      ensures first.Success? ==>
                exists i :: 0 <= i < |old(rows)| &&
                  var a := old(rows)[i];
                  && a.workspace == TrimSpace(workspace) && a.id == TrimSpace(id) && a.workspace != "" && a.id != ""
                  && (TrimSpace(requester) == "" || a.requester == TrimSpace(requester))
                  && (scope.all || ScopeSql.Lists(scope.subjectIDs, a.requester))
                  && first.value == (a.downloadCount == 0)
                  && rows == if a.downloadCount != 0 then old(rows)
                             else old(rows)[i := a.(downloadCount := 1, status := "downloaded",
                                                    lastDownloadedAt := TrimSpace(at))]
      ensures first.Failure? ==> rows == old(rows)
      ensures first.Failure? && TrimSpace(workspace) != "" && TrimSpace(id) != "" ==>
                forall a :: a in rows && a.workspace == TrimSpace(workspace) && a.id == TrimSpace(id) ==>
                  !((TrimSpace(requester) == "" || a.requester == TrimSpace(requester)) &&
                    (scope.all || ScopeSql.Lists(scope.subjectIDs, a.requester)))
    {
      hide Visible, TrimSpace, ScopeSql.Lists;
      forall a: Artifact
        ensures Visible(a, requester, scope) <==>
                (TrimSpace(requester) == "" || a.requester == TrimSpace(requester)) &&
                (scope.all || ScopeSql.Lists(scope.subjectIDs, a.requester))
      {
        VisibleInFull(a, requester, scope);
      }
      if TrimSpace(workspace) == "" || TrimSpace(id) == "" {
        return Failure("audit export artifact identity is required");
      }
      var i := FindForDownload(rows, workspace, id, requester, scope);
      if i.None? {
        return Failure("audit export artifact not found");
      }
      if rows[i.value].downloadCount != 0 {
        return Success(false);
      }
      var marked := TryMarkDownloaded(rows, workspace, id, requester, scope, at);
      if marked.None? {
        return Failure("audit export artifact changed during scoped update");
      }
      rows := marked.value;
      return Success(true);
    }
  }

  lemma {:induction false} InsertKeepsUnique(rows: seq<Artifact>, a: Artifact)
    ensures UniqueArtifacts(rows) && ExportTable.TryInsert(rows, a).Some? ==> UniqueArtifacts(rows + [a])
  {
  }

  // An audit event of the export lifecycle that the appender accepted.
  datatype Lifecycle = PreparedEvent(artifactID: string, replayed: bool) | ConflictEvent(artifactID: string)
                     | DownloadedEvent(artifactID: string)

  // What a preparation leaves in the audit log: nothing, the conflict, or the preparation.
  function PrepareEvents(h: Host, key: string, eh: EventQuery.Host, events: seq<EventTable.Row>, rows: seq<Artifact>,
                         c: PrepareCall, evidence: bool): seq<Lifecycle> {
    var artifact := PrepareArtifact(h, key, eh, events, c);
    if artifact.Failure? || !evidence then []
    else match RunCreate(h, rows, artifact.value).1
      case Conflict => [ConflictEvent(artifact.value.id)]
      case Failed => []
      case Created(stored) => if Answer(h, key, stored, true).Success? then [PreparedEvent(stored.id, false)] else []
      case Replayed(stored) => if Answer(h, key, stored, true).Success? then [PreparedEvent(stored.id, true)] else []
  }

  // How a download without interference can end, what its caller is told and what it leaves in the log.
  predicate Ended(phase: DownloadPhase) {
    phase.Delivered? || phase.EvidenceFailed? || phase.Refusal?
  }

  function Reply(phase: DownloadPhase): Result<(string, string), string> {
    match phase
    case Delivered(a, _) => Success((a.content, a.filename))
    case Refusal(error) => Failure(error)
    case _ => Failure(AUDIT_FAILED)
  }

  function DownloadEvents(phase: DownloadPhase): seq<Lifecycle> {
    if phase.Delivered? && phase.first then [DownloadedEvent(phase.artifact.id)] else []
  }

  class Service {
    const events: EventStore.Store
    const store: ArtifactStore
    var exportTokenKey: string
    var lifecycle: seq<Lifecycle>

    constructor (events: EventStore.Store, store: ArtifactStore)
      ensures this.events == events && this.store == store && exportTokenKey == "" && lifecycle == []
    {
      this.events, this.store := events, store;
      exportTokenKey, lifecycle := "", [];
    }

    method ConfigureExport(key: string)
      modifies this
      ensures exportTokenKey == key && lifecycle == old(lifecycle)
    {
      exportTokenKey := key;
    }

    // The audit append that ends a call; evidence says whether the appender accepts it.
    method AppendExportAudit(event: Lifecycle, evidence: bool) returns (ok: bool)
      modifies this`lifecycle
      ensures ok == evidence
      ensures lifecycle == if evidence then old(lifecycle) + [event] else old(lifecycle)
    {
      if evidence {
        lifecycle := lifecycle + [event];
      }
      ok := evidence;
    }

    method MintArtifact(h: Host, filters: ExportFilter, rows: seq<seq<string>>, idempotencyKey: string,
                        p: ExportPrincipal, now: int)
      returns (a: Artifact)
      requires forall r :: r in rows ==> |r| > 0
      ensures a == Mint(h, exportTokenKey, filters, rows, idempotencyKey, p, now)
    {
      hide Csv.ExportText, TrimSpace, Rfc3339.FormatNano, Rfc3339.FormatCompact, ArtifactID, Token, FilterHash,
        TextHash, Fingerprint;
      var content := Csv.EncodeExportCSV(rows);
      var scopeHash := FilterHash(h, filters);
      var expiresAt := Rfc3339.FormatNano(now + EXPORT_TTL);
      var id := ArtifactID(h, p.workspaceID, p.userID, idempotencyKey);
      var token := Token(h, exportTokenKey, id, scopeHash, expiresAt);
      return Artifact(id, TrimSpace(p.workspaceID), TrimSpace(p.userID), p.roleKey, idempotencyKey, filters, scopeHash,
        Fingerprint(h.sha, h.jsonClaims, p), TextHash(h, token), "audit-events-" + Rfc3339.FormatCompact(now) + ".csv",
        h.sha(content), |rows|, content, "audit_events:" + id + ":sha256:" + scopeHash, "prepared",
        Rfc3339.FormatNano(now), expiresAt, 0, "");
    }

    method MakeArtifact(h: Host, eh: EventQuery.Host, c: PrepareCall) returns (r: Result<Artifact, string>)
      ensures r == PrepareArtifact(h, exportTokenKey, eh, events.rows, c)
    {
      hide NormalizeOf, EventQuery.ListRows, ExportRows, TrimSpace, Mint;
      if |exportTokenKey| < 16 {
        return Failure(UNAVAILABLE);
      }
      var idempotencyKey := TrimSpace(c.idempotencyKey);
      if idempotencyKey == "" {
        return Failure(KEY_REQUIRED);
      }
      var normalized := NormalizeExportFilters(c.request, c.now);
      if normalized.Failure? {
        return Failure(normalized.error);
      }
      var filters := normalized.value;
      if !c.authorized {
        return Failure(NOT_AUTHORIZED);
      }
      var listed := events.ListWithinDataScope(eh, c.principal.workspaceID, ListingQuery(filters), c.scope);
      if listed.Failure? {
        return Failure(listed.error);
      }
      var rows := CollectRows(eh, filters, listed.value);
      if |rows| == 0 {
        return Failure(NO_RESULTS);
      }
      var artifact := MintArtifact(h, filters, rows, idempotencyKey, c.principal, c.now);
      return Success(artifact);
    }

    method PrepareExport(h: Host, eh: EventQuery.Host, c: PrepareCall, evidence: bool)
      returns (r: Result<Prepared, string>)
      modifies store, this`lifecycle
      ensures (store.rows, r) == Prepare(h, exportTokenKey, eh, events.rows, old(store.rows), c, evidence)
      ensures UniqueArtifacts(old(store.rows)) ==> UniqueArtifacts(store.rows)
      ensures lifecycle ==
              old(lifecycle) + PrepareEvents(h, exportTokenKey, eh, events.rows, old(store.rows), c, evidence)
    {
      hide PrepareArtifact, CreateAmid, TokenOf, TextHash, TrimSpace, PreparedOf, UniqueArtifacts, Alone;
      AloneKeepsUnique();
      var made := MakeArtifact(h, eh, c);
      if made.Failure? {
        return Failure(made.error);
      }
      var outcome := store.CreateOrGetExport(h, made.value, Alone());
      if outcome.Conflict? {
        var ok := AppendExportAudit(ConflictEvent(made.value.id), evidence);
        return Failure(if ok then KEY_CONFLICT else AUDIT_FAILED);
      }
      if outcome.Failed? {
        return Failure(PERSISTENCE_FAILED);
      }
      var stored := outcome.artifact;
      var token := TokenOf(h, exportTokenKey, stored);
      if TextHash(h, token) != stored.tokenHash {
        return Failure(INTEGRITY_FAILED);
      }
      var ok := AppendExportAudit(PreparedEvent(stored.id, outcome.Replayed?), evidence);
      if !ok {
        return Failure(AUDIT_FAILED);
      }
      return Success(PreparedOf(stored, token));
    }

    method DownloadExport(h: Host, ask: DownloadRequest, now: int, later: int, authorized: bool, evidence: bool)
      returns (r: Result<(string, string), string>)
      modifies store, this`lifecycle
      ensures var (rows, phase) := RunDownload(h, exportTokenKey, old(store.rows), ask, now, later, authorized,
                                               evidence);
              store.rows == rows && Ended(phase) && r == Reply(phase) &&
                lifecycle == old(lifecycle) + DownloadEvents(phase)
    {
      hide LookupStep, FinishDownload, UniqueArtifacts;
      var found := LookUpExport(h, ask, now, authorized);
      if found.Refusal? {
        return Failure(found.error);
      }
      r := Deliver(ask, found.artifact, later, evidence);
    }

    // Everything up to the point where the download is recorded.
    method LookUpExport(h: Host, ask: DownloadRequest, now: int, authorized: bool) returns (phase: DownloadPhase)
      ensures phase == LookupStep(h, exportTokenKey, store.rows, ask, Runs, now, authorized)
    {
      hide TrimSpace, FindByToken, TextHash, DownloadCheck, UniqueArtifacts;
      if |exportTokenKey| < 16 {
        return Refusal(UNAVAILABLE);
      }
      var token := TrimSpace(ask.token);
      if |token| < 80 || |token| > 160 {
        return Refusal(NOT_FOUND);
      }
      var found := store.ExportByTokenHashWithinDataScope(ask.principal.workspaceID, TextHash(h, token),
                                                          ask.principal.userID, ask.scope);
      if found.None? {
        return Refusal(NOT_FOUND);
      }
      var refused := CheckDownload(h, token, ask.principal, found.value, now, authorized);
      if refused.Some? {
        return Refusal(refused.value);
      }
      return Counting(found.value);
    }

    // Record the download and, if it is the first, append its evidence.
    method Deliver(ask: DownloadRequest, a: Artifact, later: int, evidence: bool)
      returns (r: Result<(string, string), string>)
      modifies store, this`lifecycle
      ensures var (rows, phase) := FinishDownload(old(store.rows), ask, a, later, evidence);
              store.rows == rows && Ended(phase) && r == Reply(phase) &&
                lifecycle == old(lifecycle) + DownloadEvents(phase)
    {
      hide TrimSpace, FindForDownload, Rfc3339.FormatNano, Downloaded, UniqueArtifacts, Visible;
      var first := store.RecordExportDownloadWithinDataScope(a.workspace, a.id, ask.principal.userID,
                                                             Rfc3339.FormatNano(later), ask.scope);
      if first.Failure? {
        return Failure(PERSISTENCE_FAILED);
      }
      if first.value {
        var ok := AppendExportAudit(DownloadedEvent(a.id), evidence);
        if !ok {
          return Failure(AUDIT_FAILED);
        }
      }
      return Success((a.content, a.filename));
    }

    // The checks between lookup and download.
    method CheckDownload(h: Host, token: string, p: ExportPrincipal, a: Artifact, now: int, authorized: bool)
      returns (refused: Option<string>)
      ensures refused == DownloadCheck(h, exportTokenKey, token, p, a, now, authorized)
      ensures refused.None? <==>
              && token == TokenOf(h, exportTokenKey, a) && authorized
              && a.requester == TrimSpace(p.userID) && a.workspace == TrimSpace(p.workspaceID)
              && (exists expiry :: Rfc3339.Parse(a.expiresAt) == Some(expiry) && now < expiry)
              && Fingerprint(h.sha, h.jsonClaims, p) == a.authorizationHash
              && h.sha(a.content) == a.contentHash && FilterHash(h, a.filters) == a.scopeHash
    {
      hide TrimSpace, TokenOf, Fingerprint, FilterHash, Rfc3339.Parse;
      if token != TokenOf(h, exportTokenKey, a) {
        return Some(NOT_FOUND);
      }
      if a.requester != TrimSpace(p.userID) || a.workspace != TrimSpace(p.workspaceID) {
        return Some(REQUESTER_MISMATCH);
      }
      var expires := Rfc3339.Parse(a.expiresAt);
      if expires.None? || !(now < expires.value) {
        return Some(EXPIRED);
      }
      if Fingerprint(h.sha, h.jsonClaims, p) != a.authorizationHash {
        return Some(SCOPE_CHANGED);
      }
      if !authorized {
        return Some(NOT_AUTHORIZED);
      }
      if h.sha(a.content) != a.contentHash || FilterHash(h, a.filters) != a.scopeHash {
        return Some(INTEGRITY_FAILED);
      }
      return None;
    }
  }

  // CreateOrGetExport on its own: what each outcome leaves and hands out.
  lemma {:induction false} CreateInFull(h: Host, rows: seq<Artifact>, request: Artifact)
    ensures var (after, outcome) := RunCreate(h, rows, request);
            && (outcome.Created? ==> outcome.artifact == request.(id := StoreID(h, request)) &&
                                     after == rows + [outcome.artifact])
            && (!outcome.Created? ==> after == rows)
            && (outcome.Replayed? ==>
                  var a := outcome.artifact;
                  a in rows && a.workspace == TrimSpace(request.workspace) && a.requester == request.requester &&
                  a.idempotencyKey == request.idempotencyKey && a.scopeHash == request.scopeHash &&
                  a.authorizationHash == request.authorizationHash)
            && (outcome.Conflict? ==>
                  exists a :: a in rows && a.workspace == TrimSpace(request.workspace) &&
                              a.requester == request.requester && a.idempotencyKey == request.idempotencyKey &&
                              (a.scopeHash != request.scopeHash || a.authorizationHash != request.authorizationHash))
  {
    hide ValidExport, StoreID, TrimSpace, Clash;
  }

  // What a preparation that succeeds has done: a is the stored artifact, new or replayed; one event is logged,
  // and the answer is a's columns with the token rebuilt from them.
  ghost predicate Prepares(h: Host, key: string, rows: seq<Artifact>, c: PrepareCall, after: seq<Artifact>,
                           answer: Prepared, logged: seq<Lifecycle>, a: Artifact, replayed: bool) {
    var payload := a.id + "." + a.expiresAt;
    && a in after && after == (if replayed then rows else rows + [a]) && logged == [PreparedEvent(a.id, replayed)]
    && a.workspace == TrimSpace(c.principal.workspaceID) && a.requester == TrimSpace(c.principal.userID)
    && a.idempotencyKey == TrimSpace(c.idempotencyKey) && NormalizeOf(c.request, c.now).Success?
    && a.scopeHash == h.sha(h.jsonFilter(NormalizeOf(c.request, c.now).value))
    && a.authorizationHash == Fingerprint(h.sha, h.jsonClaims, c.principal)
    && answer.downloadToken == payload + "." + h.mac(key, payload + "\0" + a.scopeHash)
    && a.tokenHash == h.sha(h.jsonText(answer.downloadToken))
    && answer.id == a.id && answer.filename == a.filename && answer.contentHash == a.contentHash
    && answer.rowCount == a.rowCount && answer.auditIdentity == a.auditIdentity && answer.scopeHash == a.scopeHash
    && answer.filters == a.filters && answer.expiresAt == a.expiresAt
  }

  // The key is taken by an artifact with other filters or another fingerprint.
  ghost predicate KeyTaken(h: Host, rows: seq<Artifact>, c: PrepareCall) {
    exists a :: a in rows && a.workspace == TrimSpace(c.principal.workspaceID) &&
                a.requester == TrimSpace(c.principal.userID) && a.idempotencyKey == TrimSpace(c.idempotencyKey) &&
                NormalizeOf(c.request, c.now).Success? &&
                (a.scopeHash != h.sha(h.jsonFilter(NormalizeOf(c.request, c.now).value)) ||
                 a.authorizationHash != Fingerprint(h.sha, h.jsonClaims, c.principal))
  }

  lemma {:induction false} StoredInFull(h: Host, key: string, eh: EventQuery.Host, events: seq<EventTable.Row>,
                                        rows: seq<Artifact>, c: PrepareCall, evidence: bool)
    requires PrepareArtifact(h, key, eh, events, c).Success?
    ensures var (after, r) := Prepare(h, key, eh, events, rows, c, evidence);
            var logged := PrepareEvents(h, key, eh, events, rows, c, evidence);
            && (r.Success? ==> evidence &&
                               exists a, replayed :: Prepares(h, key, rows, c, after, r.value, logged, a, replayed))
            && (r.Failure? && logged != [] ==>
                  r.error == "idempotency_key_conflict" && after == rows && KeyTaken(h, rows, c) &&
                  logged == [ConflictEvent(PrepareArtifact(h, key, eh, events, c).value.id)])
            && (!evidence ==> logged == [] && r.Failure?)
  {
    hide PrepareArtifact, NormalizeOf, TrimSpace, Fingerprint, RunCreate, Prepares, Answer;
    var made := PrepareArtifact(h, key, eh, events, c).value;
    MadeInFull(h, key, eh, events, c);
    CreateInFull(h, rows, made);
    var (after, outcome) := RunCreate(h, rows, made);
    AnswerInFull(h, key, if outcome.Created? || outcome.Replayed? then outcome.artifact else made, evidence);
    var r := Prepare(h, key, eh, events, rows, c, evidence).1;
    var logged := PrepareEvents(h, key, eh, events, rows, c, evidence);
    if r.Success? {
      AnswerInFull(h, key, outcome.artifact, true);
      PreparesFrom(h, key, rows, c, made, after, outcome, r.value);
      assert Prepares(h, key, rows, c, after, r.value, logged, outcome.artifact, outcome.Replayed?);
    }
  }

  lemma {:induction false} MadeInFull(h: Host, key: string, eh: EventQuery.Host, events: seq<EventTable.Row>,
                                      c: PrepareCall)
    requires PrepareArtifact(h, key, eh, events, c).Success?
    ensures var made := PrepareArtifact(h, key, eh, events, c).value;
            && made.workspace == TrimSpace(c.principal.workspaceID) && made.requester == TrimSpace(c.principal.userID)
            && made.idempotencyKey == TrimSpace(c.idempotencyKey) && NormalizeOf(c.request, c.now).Success?
            && made.scopeHash == h.sha(h.jsonFilter(NormalizeOf(c.request, c.now).value))
            && made.authorizationHash == Fingerprint(h.sha, h.jsonClaims, c.principal)
            && var exported := RowsFor(eh, events, NormalizeOf(c.request, c.now).value, c.principal, c.scope);
               exported.Success? && exported.value != [] && made.rowCount == |exported.value| &&
               made.content == Csv.ExportText(exported.value)
  {
    hide NormalizeOf, RowsFor, TrimSpace, Fingerprint, Mint, Csv.ExportText;
    var filters := NormalizeOf(c.request, c.now).value;
    var exported := RowsFor(eh, events, filters, c.principal, c.scope).value;
    MintInFull(h, key, filters, exported, TrimSpace(c.idempotencyKey), c.principal, c.now);
  }

  lemma {:induction false} AnswerInFull(h: Host, key: string, a: Artifact, evidence: bool)
    ensures var answer := Answer(h, key, a, evidence);
            var token := TokenOf(h, key, a);
            && (answer.Success? <==> evidence && h.sha(h.jsonText(token)) == a.tokenHash)
            && (answer.Success? ==> answer.value == PreparedOf(a, token))
            && (answer.Failure? ==>
                  answer.error == if h.sha(h.jsonText(token)) != a.tokenHash then "export_integrity_failed"
                                  else "export_audit_failed")
            && (Answer(h, key, a, true).Success? && !evidence ==> answer.Failure?)
  {
    hide Token;
  }

  lemma {:induction false} PreparesFrom(h: Host, key: string, rows: seq<Artifact>, c: PrepareCall, made: Artifact,
                                        after: seq<Artifact>, outcome: CreateOutcome, answer: Prepared)
    requires made.workspace == TrimSpace(c.principal.workspaceID) && made.requester == TrimSpace(c.principal.userID)
    requires made.idempotencyKey == TrimSpace(c.idempotencyKey) && NormalizeOf(c.request, c.now).Success?
    requires made.scopeHash == h.sha(h.jsonFilter(NormalizeOf(c.request, c.now).value))
    requires made.authorizationHash == Fingerprint(h.sha, h.jsonClaims, c.principal)
    requires (after, outcome) == RunCreate(h, rows, made) && (outcome.Created? || outcome.Replayed?)
    requires answer == PreparedOf(outcome.artifact, TokenOf(h, key, outcome.artifact))
    requires outcome.artifact.tokenHash == h.sha(h.jsonText(answer.downloadToken))
    ensures Prepares(h, key, rows, c, after, answer, [PreparedEvent(outcome.artifact.id, outcome.Replayed?)],
                     outcome.artifact, outcome.Replayed?)
  {
    hide RunCreate, NormalizeOf, Fingerprint, StoreID;
    CreateInFull(h, rows, made);
    assert TrimSpace(made.workspace) == made.workspace;
  }

  // A preparation in full: when it is refused, what it leaves in table and log, and what it answers.
  lemma {:induction false} PrepareInFull(h: Host, key: string, eh: EventQuery.Host, events: seq<EventTable.Row>,
                                         rows: seq<Artifact>, c: PrepareCall, evidence: bool)
    ensures var (after, r) := Prepare(h, key, eh, events, rows, c, evidence);
            var logged := PrepareEvents(h, key, eh, events, rows, c, evidence);
            var filters := NormalizeOf(c.request, c.now);
            && (|key| < 16 ==> r == Failure("export_unavailable"))
            && (|key| >= 16 && TrimSpace(c.idempotencyKey) == "" ==> r == Failure("idempotency_key_required"))
            && (|key| >= 16 && TrimSpace(c.idempotencyKey) != "" && filters.Failure? ==> r == Failure(filters.error))
            && (|key| < 16 || TrimSpace(c.idempotencyKey) == "" || filters.Failure? || !c.authorized ==>
                  r.Failure? && after == rows && logged == [])
            && (|key| >= 16 && TrimSpace(c.idempotencyKey) != "" && filters.Success? && c.authorized ==>
                  var exported := RowsFor(eh, events, filters.value, c.principal, c.scope);
                  (exported.Failure? ==> (after, r, logged) == (rows, Failure(exported.error), [])) &&
                  (exported == Success([]) ==> (after, r, logged) == (rows, Failure("export_no_results"), [])))
            && (r.Success? ==> evidence &&
                               exists a, replayed :: Prepares(h, key, rows, c, after, r.value, logged, a, replayed))
            && (r.Failure? && logged != [] ==>
                  r.error == "idempotency_key_conflict" && after == rows && KeyTaken(h, rows, c) &&
                  exists id :: logged == [ConflictEvent(id)])
            && (!evidence ==> logged == [] && r.Failure?)
  {
    hide NormalizeOf, RowsFor, TrimSpace, RunCreate, Mint, Prepares, KeyTaken, Answer;
    if PrepareArtifact(h, key, eh, events, c).Success? {
      StoredInFull(h, key, eh, events, rows, c, evidence);
    }
  }

  // What a download that delivers has established: a is the stored artifact whose token was presented, by its
  // requester, under a scope that covers it, before its expiry, with its authority and the authorizer's consent.
  ghost predicate Delivers(h: Host, key: string, rows: seq<Artifact>, ask: DownloadRequest, now: int, a: Artifact) {
    var payload := a.id + "." + a.expiresAt;
    && a in rows && 16 <= |key| && 80 <= |TrimSpace(ask.token)| <= 160
    && TrimSpace(ask.token) == payload + "." + h.mac(key, payload + "\0" + a.scopeHash)
    && a.tokenHash == TrimSpace(h.sha(h.jsonText(TrimSpace(ask.token))))
    && a.requester == TrimSpace(ask.principal.userID) && a.workspace == TrimSpace(ask.principal.workspaceID)
    && (ask.scope.all || ScopeSql.Lists(ask.scope.subjectIDs, a.requester))
    && (exists expiry :: Rfc3339.Parse(a.expiresAt) == Some(expiry) && now < expiry)
    && a.authorizationHash == Fingerprint(h.sha, h.jsonClaims, ask.principal)
    && a.contentHash == h.sha(a.content) && a.scopeHash == h.sha(h.jsonFilter(a.filters))
  }

  // What is left of it: the first download marks its row, dated, and is logged; a later one leaves everything.
  ghost predicate Leaves(rows: seq<Artifact>, after: seq<Artifact>, logged: seq<Lifecycle>, later: int, a: Artifact) {
    exists j :: 0 <= j < |rows| && rows[j].workspace == TrimSpace(a.workspace) && rows[j].id == TrimSpace(a.id) &&
      if rows[j].downloadCount != 0 then after == rows && logged == []
      else logged == [DownloadedEvent(a.id)] &&
           after == rows[j := rows[j].(downloadCount := 1, status := "downloaded",
                                       lastDownloadedAt := TrimSpace(Rfc3339.FormatNano(later)))]
  }

  lemma {:induction false} LookupInFull(h: Host, key: string, rows: seq<Artifact>, ask: DownloadRequest, now: int,
                                        authorized: bool)
    ensures var phase := LookupStep(h, key, rows, ask, Runs, now, authorized);
            && (phase.Counting? ==> authorized && Delivers(h, key, rows, ask, now, phase.artifact))
            && (forall a :: UniqueArtifacts(rows) && authorized && Delivers(h, key, rows, ask, now, a) ==>
                  phase == Counting(a))
            && (|key| < 16 ==> phase == Refusal("export_unavailable"))
            && (|key| >= 16 && !(80 <= |TrimSpace(ask.token)| <= 160) ==> phase == Refusal("export_download_not_found"))
  {
    hide TrimSpace, Rfc3339.Parse, Fingerprint, Visible, ScopeSql.Lists;
    var phase := LookupStep(h, key, rows, ask, Runs, now, authorized);
    if phase.Counting? {
      VisibleInFull(phase.artifact, ask.principal.userID, ask.scope);
    }
    forall a | UniqueArtifacts(rows) && authorized && Delivers(h, key, rows, ask, now, a)
      ensures phase == Counting(a)
    {
      LookupAccepts(h, key, rows, ask, now, a);
    }
  }

  lemma {:induction false} LookupAccepts(h: Host, key: string, rows: seq<Artifact>, ask: DownloadRequest, now: int,
                                         a: Artifact)
    requires UniqueArtifacts(rows) && Delivers(h, key, rows, ask, now, a)
    ensures LookupStep(h, key, rows, ask, Runs, now, true) == Counting(a)
  {
    hide TrimSpace, Rfc3339.Parse, Fingerprint, Visible, ScopeSql.Lists, UniqueArtifacts;
    VisibleInFull(a, ask.principal.userID, ask.scope);
    var i :| 0 <= i < |rows| && rows[i] == a;
    var found := FindByToken(rows, ask.principal.workspaceID, TextHash(h, TrimSpace(ask.token)), ask.principal.userID,
                             ask.scope);
    if found.Some? {
      ClashingRowsAreOne(rows, i, found.value);
    }
  }

  // A download in full: its reply is the content and the file name of the artifact it has established.
  lemma {:induction false} DownloadInFull(h: Host, key: string, rows: seq<Artifact>, ask: DownloadRequest, now: int,
                                          later: int, authorized: bool, evidence: bool)
    ensures var (after, phase) := RunDownload(h, key, rows, ask, now, later, authorized, evidence);
            var reply := Reply(phase);
            && (reply.Success? ==>
                  authorized && exists a :: Delivers(h, key, rows, ask, now, a) &&
                                            Leaves(rows, after, DownloadEvents(phase), later, a) &&
                                            reply.value == (a.content, a.filename))
            && (reply.Failure? ==> DownloadEvents(phase) == [] && (after == rows || !evidence))
            && (|key| < 16 ==> reply == Failure("export_unavailable"))
            && (|key| >= 16 && !(80 <= |TrimSpace(ask.token)| <= 160) ==> reply == Failure("export_download_not_found"))
  {
    hide TrimSpace, LookupStep, FindForDownload, Visible, Delivers, Rfc3339.FormatNano;
    LookupInFull(h, key, rows, ask, now, authorized);
  }
}
