// The export lifecycle end to end: token, replay of a preparation, and download.
module ExportLifecycle {
  import opened Wrappers
  import opened Text
  import opened DataScopes
  import opened ExportFilters
  import opened Authorization
  import opened ExportTable
  import opened ExportSteps
  import opened ExportProtocol
  import opened CreateRuns
  import opened ExportPrepare
  import opened EventTable
  import EventQuery
  import ScopeSql
  import Rfc3339

  // ---------- tokens ----------

  // A minted token is 125 to 135 characters without surrounding space, inside the download's gate.
  lemma {:induction false} MintedTokenPassesGate(h: Host, key: string, p: ExportPrincipal, t: int, a: Artifact)
    requires Minted(h, key, p, t, a) && GivesDigests(h) && Rfc3339.Writable(t + EXPORT_TTL)
    ensures |a.id| == 39 && 125 <= |TokenOf(h, key, a)| <= 135
    ensures TokenLengthPasses(TokenOf(h, key, a)) && TrimSpace(TokenOf(h, key, a)) == TokenOf(h, key, a)
  {
    hide Rfc3339.FormatNano, StoreID, Minted, TrimSpace, IsDigest, TokenOf;
    ServiceAndStoreAgree(h, key, p, t, a);
    MintedIsIntact(h, key, p, t, a);
    Rfc3339.FormatNanoLength(t + EXPORT_TTL);
    IDShape(h, a);
    TokenShape(h, key, a);
  }

  lemma {:induction false} TokenShape(h: Host, key: string, a: Artifact)
    requires GivesDigests(h) && a.id != "" && !IsSpace(a.id[0])
    ensures |TokenOf(h, key, a)| == |a.id| + |a.expiresAt| + 66
    ensures TrimSpace(TokenOf(h, key, a)) == TokenOf(h, key, a)
  {
    hide TrimSpace, IsDigest;
    var payload := a.id + "." + a.expiresAt;
    var mac := h.mac(key, payload + "\0" + a.scopeHash);
    assert IsDigest(mac);
    DigestEnds(mac);
    var token := TokenOf(h, key, a);
    assert token == payload + "." + mac;
    assert token[0] == a.id[0] && token[|token| - 1] == mac[63];
    assert Trimmed(token);
  }

  lemma {:induction false} IDShape(h: Host, a: Artifact)
    requires GivesDigests(h)
    ensures |StoreID(h, a)| == 39 && StoreID(h, a)[0] == 'a' && TrimSpace(StoreID(h, a)) == StoreID(h, a)
  {
    var digest := h.sha(a.workspace + "\0" + a.requester + "\0audit_events\0" + a.idempotencyKey);
    assert IsDigest(digest);
    var id := StoreID(h, a);
    assert id == "audexp_" + digest[..32];
    assert id[38] == digest[31] && HexChar(digest[31]);
    assert Trimmed(id);
  }

  lemma {:induction false} DigestEnds(s: string)
    requires IsDigest(s)
    ensures |s| == 64 && !IsSpace(s[63])
  {
    assert HexChar(s[63]);
  }

  // ---------- replaying a preparation ----------

  // A request for a key that is in the table is settled by the first read; the table stays as it is.
  lemma {:induction false} CreateFindsKey(h: Host, rows: seq<Artifact>, request: Artifact, j: nat)
    requires UniqueArtifacts(rows) && j < |rows| && SameIdentity(rows[j], request) && Trimmed(request.workspace) &&
             ValidExport(request)
    ensures RunCreate(h, rows, request) == (rows, Settle(rows[j], request))
  {
    hide ValidExport, ExportTable.TryInsert, StoreID;
    var found := FindByIdempotency(rows, request);
    assert found.Some?;
    ClashingRowsAreOne(rows, found.value, j);
  }

  // Where a creation without interference ends: its outcome's artifact is in the table under its key.
  lemma {:induction false} CreateStores(h: Host, rows: seq<Artifact>, request: Artifact) returns (j: nat)
    requires UniqueArtifacts(rows) && Trimmed(request.workspace) && ValidExport(request)
    requires var outcome := RunCreate(h, rows, request).1; outcome.Created? || outcome.Replayed?
    ensures var (after, outcome) := RunCreate(h, rows, request);
            j < |after| && after[j] == outcome.artifact && UniqueArtifacts(after) && rows <= after &&
            SameIdentity(after[j], request) && SameExportRequest(after[j], request)
  {
    hide ValidExport, StoreID;
    var found := FindByIdempotency(rows, request);
    if found.Some? {
      j := found.value;
    } else {
      j := |rows|;
    }
  }

  lemma {:induction false} AnswerIgnoresDownloads(h: Host, key: string, a: Artifact, b: Artifact, evidence: bool)
    requires Core(a) == Core(b)
    ensures Answer(h, key, a, evidence) == Answer(h, key, b, evidence)
  {
    CoreKeeps(a, b);
    assert Core(a).filename == a.filename && Core(b).filename == b.filename;
    assert Core(a).rowCount == a.rowCount && Core(b).rowCount == b.rowCount;
    assert Core(a).auditIdentity == a.auditIdentity && Core(b).auditIdentity == b.auditIdentity;
  }

  // Two calls for one key, user and workspace with equal normalised filters and equal fingerprints.
  ghost predicate SameCall(h: Host, c: PrepareCall, d: PrepareCall) {
    && SameKeyOf(c, d)
    && NormalizeOf(c.request, c.now) == NormalizeOf(d.request, d.now)
    && Fingerprint(h.sha, h.jsonClaims, c.principal) == Fingerprint(h.sha, h.jsonClaims, d.principal)
  }

  lemma {:induction false} SameCallSameRequest(h: Host, key: string, eh: EventQuery.Host, events: seq<Row>,
                                               later: seq<Row>, c: PrepareCall, d: PrepareCall)
    requires SameCall(h, c, d)
    requires PrepareArtifact(h, key, eh, events, c).Success? && PrepareArtifact(h, key, eh, later, d).Success?
    ensures var a, b := PrepareArtifact(h, key, eh, events, c).value, PrepareArtifact(h, key, eh, later, d).value;
            SameIdentity(a, b) && SameExportRequest(a, b)
  {
    hide NormalizeOf, RowsFor, Fingerprint, TrimSpace, FilterHash, ArtifactID, Token, TextHash, Rfc3339.FormatNano,
      Rfc3339.FormatCompact;
  }

  // A second preparation of the same call answers exactly as the first did: same id, file name, content
  // hash, row count, token and expiry, and it leaves the table alone. It does so whenever its own listing
  // still finds a row to export; otherwise it reports that there is none.
  lemma {:induction false} PrepareReplays(h: Host, key: string, eh: EventQuery.Host, events: seq<Row>,
                                          later: seq<Row>, rows: seq<Artifact>, current: seq<Artifact>,
                                          c: PrepareCall, d: PrepareCall)
    requires GivesDigests(h) && UniqueArtifacts(rows) && UniqueArtifacts(current) && SameCall(h, c, d) && d.authorized
    requires Prepare(h, key, eh, events, rows, c, true).1.Success?
    requires RowsDevelop(Prepare(h, key, eh, events, rows, c, true).0, current)
    ensures NormalizeOf(d.request, d.now).Success?
    ensures var exported := RowsFor(eh, later, NormalizeOf(d.request, d.now).value, d.principal, d.scope);
            Prepare(h, key, eh, later, current, d, true) ==
            (current, if exported.Failure? then Failure(exported.error)
                   else if exported.value == [] then Failure(NO_RESULTS)
                   else Prepare(h, key, eh, events, rows, c, true).1)
  {
    hide NormalizeOf, RowsFor, Fingerprint, TrimSpace, Trimmed, RunCreate, Mint, Minted, Intact, ValidExport,
      RowsDevelop, GivesDigests,
      IsDigest, UniqueArtifacts, Answer, SameIdentity, SameExportRequest, Rfc3339.FormatNano;
    var a := PrepareArtifact(h, key, eh, events, c).value;
    assert NormalizeOf(c.request, c.now).Success?;
    var again := PrepareArtifact(h, key, eh, later, d);
    if again.Success? {
      SameCallSameRequest(h, key, eh, events, later, c, d);
      PrepareMints(h, key, eh, events, c);
      PrepareMints(h, key, eh, later, d);
      MintedIsIntact(h, key, c.principal, c.now, a);
      MintedIsIntact(h, key, d.principal, d.now, again.value);
      MintedIsComplete(h, key, c.principal, c.now, a);
      MintedIsComplete(h, key, d.principal, d.now, again.value);
      if TrimSpace(c.principal.userID) == "" {
        InvalidIsRefused(h, rows, a);
      }
      ReplayFromTable(h, key, rows, current, a, again.value);
    }
  }

  lemma {:induction false} InvalidIsRefused(h: Host, rows: seq<Artifact>, a: Artifact)
    requires !ValidExport(a)
    ensures RunCreate(h, rows, a) == (rows, Failed)
  {
  }

  lemma {:induction false} ReplayFromTable(h: Host, key: string, rows: seq<Artifact>, current: seq<Artifact>,
                                           a: Artifact, again: Artifact)
    requires UniqueArtifacts(rows) && UniqueArtifacts(current) && ValidExport(a) && ValidExport(again)
    requires Trimmed(a.workspace) && SameIdentity(a, again) && SameExportRequest(a, again)
    requires var outcome := RunCreate(h, rows, a).1; outcome.Created? || outcome.Replayed?
    requires RowsDevelop(RunCreate(h, rows, a).0, current)
    ensures var stored := RunCreate(h, rows, a).1.artifact;
            var (after, outcome) := RunCreate(h, current, again);
            after == current && outcome.Replayed? &&
            forall evidence :: Answer(h, key, outcome.artifact, evidence) == Answer(h, key, stored, evidence)
  {
    hide ValidExport, RunCreate, UniqueArtifacts, Answer, Core;
    var j := CreateStores(h, rows, a);
    var stored := RunCreate(h, rows, a).1.artifact;
    assert RowDevelops(RunCreate(h, rows, a).0[j], current[j]);
    CoreKeeps(current[j], stored);
    CreateFindsKey(h, current, again, j);
    forall evidence
      ensures Answer(h, key, current[j], evidence) == Answer(h, key, stored, evidence)
    {
      AnswerIgnoresDownloads(h, key, current[j], stored, evidence);
    }
  }

  // The same key with other filters or another fingerprint is a conflict: the second caller gets no
  // artifact, and the table stays as it is.
  lemma {:induction false} PrepareConflicts(h: Host, key: string, eh: EventQuery.Host, events: seq<Row>,
                                            later: seq<Row>, rows: seq<Artifact>, current: seq<Artifact>,
                                            c: PrepareCall, d: PrepareCall, evidence: bool)
    requires GivesDigests(h) && UniqueArtifacts(rows) && UniqueArtifacts(current)
    requires SameKeyOf(c, d) && PrepareArtifact(h, key, eh, later, d).Success?
    requires Prepare(h, key, eh, events, rows, c, true).1.Success?
    requires RowsDevelop(Prepare(h, key, eh, events, rows, c, true).0, current)
    requires var first, second := NormalizeOf(c.request, c.now).value, NormalizeOf(d.request, d.now).value;
             FilterHash(h, first) != FilterHash(h, second) ||
             Fingerprint(h.sha, h.jsonClaims, c.principal) != Fingerprint(h.sha, h.jsonClaims, d.principal)
    ensures Prepare(h, key, eh, later, current, d, evidence) ==
            (current, Failure(if evidence then KEY_CONFLICT else AUDIT_FAILED))
  {
    hide NormalizeOf, RowsFor, Fingerprint, FilterHash, TrimSpace, Trimmed, RunCreate, Minted, Intact, ValidExport,
      RowsDevelop,
      GivesDigests, IsDigest, UniqueArtifacts, Answer, ArtifactID, Token, TextHash, Rfc3339.FormatNano,
        Rfc3339.FormatCompact,
      Csv.ExportText;
    var a, again := PrepareArtifact(h, key, eh, events, c).value, PrepareArtifact(h, key, eh, later, d).value;
    PrepareMints(h, key, eh, events, c);
    PrepareMints(h, key, eh, later, d);
    MintedIsIntact(h, key, c.principal, c.now, a);
    MintedIsComplete(h, key, c.principal, c.now, a);
    MintedIsComplete(h, key, d.principal, d.now, again);
    if TrimSpace(c.principal.userID) == "" {
      InvalidIsRefused(h, rows, a);
    }
    ConflictFromTable(h, rows, current, a, again);
  }

  // Two calls under one key of one user in one workspace.
  predicate SameKeyOf(c: PrepareCall, d: PrepareCall) {
    && TrimSpace(c.principal.workspaceID) == TrimSpace(d.principal.workspaceID)
    && TrimSpace(c.principal.userID) == TrimSpace(d.principal.userID)
    && TrimSpace(c.idempotencyKey) == TrimSpace(d.idempotencyKey)
  }

  lemma {:induction false} ConflictFromTable(h: Host, rows: seq<Artifact>, current: seq<Artifact>, a: Artifact,
                                             again: Artifact)
    requires UniqueArtifacts(rows) && UniqueArtifacts(current) && ValidExport(a) && ValidExport(again)
    requires Trimmed(a.workspace) && SameIdentity(a, again) && !SameExportRequest(a, again)
    requires var outcome := RunCreate(h, rows, a).1; outcome.Created? || outcome.Replayed?
    requires RowsDevelop(RunCreate(h, rows, a).0, current)
    ensures RunCreate(h, current, again) == (current, Conflict)
  {
    hide ValidExport, RunCreate, UniqueArtifacts, Core;
    var j := CreateStores(h, rows, a);
    assert RowDevelops(RunCreate(h, rows, a).0[j], current[j]);
    CoreKeeps(current[j], RunCreate(h, rows, a).0[j]);
    CreateFindsKey(h, current, again, j);
  }

  // ---------- integrity never fails ----------

  // Every creator carries an artifact minted with the setting's key.
  ghost predicate AllMinted(s: Setting, w: World) {
    forall p :: 0 <= p < |w.procs| && w.procs[p].Creator? ==>
      exists principal, t :: Timely(t) && Minted(s.host, s.key, principal, t, w.procs[p].request)
  }

  // An instant whose artifact can be dated in RFC 3339, creation and expiry.
  predicate Timely(t: int) {
    Rfc3339.Writable(t) && Rfc3339.Writable(t + EXPORT_TTL)
  }

  lemma {:induction false} MintedStays(s: Setting, w: World, schedule: seq<Step>)
    requires AllMinted(s, w)
    ensures AllMinted(s, Execute(s, w, schedule))
  {
    hide Apply, Minted;
    if schedule != [] {
      var n := |schedule| - 1;
      MintedStays(s, w, schedule[..n]);
      StepProcesses(s, Execute(s, w, schedule[..n]), schedule[n]);
      CreatorsStay(s, Execute(s, w, schedule[..n]), schedule[n]);
    }
  }

  lemma {:induction false} CreatorsStay(s: Setting, w: World, step: Step)
    ensures forall p :: 0 <= p < |w.procs| ==> (Apply(s, w, step).procs[p].Creator? <==> w.procs[p].Creator?)
  {
    hide CreateStep, LookupStep, CountStep, UpdateStep;
  }

  // In every interleaving every stored row is, downloads aside, an artifact minted with the key.
  lemma {:induction false} RowsStayMinted(s: Setting, w: World, schedule: seq<Step>, j: nat)
    returns (principal: ExportPrincipal, t: int, a: Artifact)
    requires Start(w) && AllMinted(s, w) && j < |Execute(s, w, schedule).rows|
    ensures Timely(t) && Minted(s.host, s.key, principal, t, a) && Core(Execute(s, w, schedule).rows[j]) == Core(a)
  {
    hide Execute, Minted, Justified, Core, TableOk;
    RunCreators(s, w, schedule);
    MintedStays(s, w, schedule);
    var end := Execute(s, w, schedule);
    var writer := end.writers[j];
    a := end.procs[writer].request;
    principal, t :| Timely(t) && Minted(s.host, s.key, principal, t, a);
    ServiceAndStoreAgree(s.host, s.key, principal, t, a);
  }

  // So the token check that ends a preparation, and the integrity checks of a download, never fail.
  lemma {:induction false} IntegrityNeverFails(s: Setting, w: World, schedule: seq<Step>, j: nat)
    requires Start(w) && AllMinted(s, w) && j < |Execute(s, w, schedule).rows|
    ensures Intact(s.host, s.key, Execute(s, w, schedule).rows[j])
  {
    hide Execute, Minted;
    var principal, t, a := RowsStayMinted(s, w, schedule, j);
    MintedIsIntact(s.host, s.key, principal, t, a);
    CoreKeeps(Execute(s, w, schedule).rows[j], a);
  }

  // ---------- download ----------

  // A download with no other process in between and no storage failure: now is the clock of the checks,
  // later the clock that dates the download; evidence says whether the append for a first one succeeds.
  function RunDownload(h: Host, key: string, rows: seq<Artifact>, ask: DownloadRequest, now: int, later: int,
                       authorized: bool, evidence: bool): (seq<Artifact>, DownloadPhase) {
    var p1 := LookupStep(h, key, rows, ask, Runs, now, authorized);
    if p1.Counting? then FinishDownload(rows, ask, p1.artifact, later, evidence) else (rows, p1)
  }

  // The part after the checks: count, update, evidence.
  function FinishDownload(rows: seq<Artifact>, ask: DownloadRequest, a: Artifact, later: int, evidence: bool)
    : (seq<Artifact>, DownloadPhase)
  {
    var p2 := CountStep(rows, ask, a, Runs);
    if !p2.Updating? then (rows, p2)
    else
      var (after, p3) := UpdateStep(rows, ask, a, Runs, later);
      (after, if p3.Appending? then (if evidence then Delivered(a, true) else EvidenceFailed(a)) else p3)
  }

  // The caller is the artifact's requester, with its authority, under a scope that covers the requester.
  ghost predicate Entitled(h: Host, p: ExportPrincipal, scope: DataScope, a: Artifact) {
    && TrimSpace(p.workspaceID) == a.workspace && TrimSpace(p.userID) == a.requester
    && Fingerprint(h.sha, h.jsonClaims, p) == a.authorizationHash
    && (scope.all || ScopeSql.Lists(scope.subjectIDs, a.requester))
  }

  // The requester is entitled under its own owner scope, which is what a download without a resolved data
  // scope uses.
  lemma {:induction false} RequesterIsEntitled(h: Host, p: ExportPrincipal, a: Artifact)
    requires TrimSpace(p.workspaceID) == a.workspace && TrimSpace(p.userID) == a.requester && a.requester != ""
    requires Fingerprint(h.sha, h.jsonClaims, p) == a.authorizationHash
    ensures Entitled(h, p, OwnerDataScope(p.userID), a)
  {
    hide TrimSpace, Fingerprint, ScopeSql.Lists, OwnerDataScope;
    ScopeSql.OwnerScopeCovers(p.userID, a.requester, None);
  }

  lemma {:induction false} EntitledSees(h: Host, p: ExportPrincipal, scope: DataScope, a: Artifact)
    requires Entitled(h, p, scope, a)
    ensures Visible(a, p.userID, scope)
  {
    hide TrimSpace, Fingerprint;
    ScopeSql.ArtifactScopeMeaning(scope, ExportTable.CellsOf(a));
  }

  lemma {:induction false} LookupFinds(h: Host, rows: seq<Artifact>, j: nat, ask: DownloadRequest, token: string)
    requires GivesDigests(h) && UniqueArtifacts(rows) && j < |rows|
    requires rows[j].tokenHash == TextHash(h, token) && Entitled(h, ask.principal, ask.scope, rows[j])
    ensures FindByToken(rows, ask.principal.workspaceID, TextHash(h, token), ask.principal.userID, ask.scope) == Some(j)
  {
    hide Visible, IsDigest, Fingerprint, TrimSpace;
    DigestIsTrimmed(TextHash(h, token));
    EntitledSees(h, ask.principal, ask.scope, rows[j]);
    var found := FindByToken(rows, ask.principal.workspaceID, TextHash(h, token), ask.principal.userID, ask.scope);
    assert found.Some?;
    ClashingRowsAreOne(rows, found.value, j);
  }

  lemma {:induction false} DownloadFinds(h: Host, rows: seq<Artifact>, j: nat, ask: DownloadRequest, a: Artifact)
    requires UniqueArtifacts(rows) && j < |rows| && rows[j].workspace == a.workspace && rows[j].id == a.id
    requires Trimmed(a.workspace) && Trimmed(a.id) && Entitled(h, ask.principal, ask.scope, rows[j])
    ensures FindForDownload(rows, a.workspace, a.id, ask.principal.userID, ask.scope) == Some(j)
  {
    hide Visible, Fingerprint, TrimSpace;
    EntitledSees(h, ask.principal, ask.scope, rows[j]);
    assert TrimSpace(a.workspace) == a.workspace && TrimSpace(a.id) == a.id;
    var found := FindForDownload(rows, a.workspace, a.id, ask.principal.userID, ask.scope);
    assert found.Some?;
    ClashingRowsAreOne(rows, found.value, j);
  }

  // What the holder of an intact export's token is told: the caller, the expiry instant, the authority
  // and the authorizer decide, in this order; the token and integrity checks never refuse.
  lemma {:induction false} ChecksOfIntactExport(h: Host, key: string, p: ExportPrincipal, a: Artifact, expiry: int,
                                                now: int, authorized: bool)
    requires Intact(h, key, a) && a.expiresAt == Rfc3339.FormatNano(expiry) && Rfc3339.Writable(expiry)
    ensures DownloadCheck(h, key, TokenOf(h, key, a), p, a, now, authorized) ==
            if TrimSpace(p.userID) != a.requester || TrimSpace(p.workspaceID) != a.workspace
            then Some("export_requester_mismatch")
            else if expiry <= now then Some("export_download_expired")
            else if Fingerprint(h.sha, h.jsonClaims, p) != a.authorizationHash then Some("export_scope_changed")
            else if !authorized then Some(NOT_AUTHORIZED)
            else None
  {
    hide Rfc3339.Parse, Rfc3339.FormatNano, TokenOf, Fingerprint, FilterHash, TextHash, TrimSpace;
    Rfc3339.ParseFormatNano(expiry);
  }

  // For the entitled caller the checks come down to the clock.
  lemma {:induction false} CheckIsTheClock(h: Host, key: string, p: ExportPrincipal, scope: DataScope, a: Artifact,
                                           t: int, now: int)
    requires Entitled(h, p, scope, a) && Intact(h, key, a) && a.expiresAt == Rfc3339.FormatNano(t + EXPORT_TTL)
    requires Rfc3339.Writable(t + EXPORT_TTL)
    ensures DownloadCheck(h, key, TokenOf(h, key, a), p, a, now, true) ==
            if now < t + EXPORT_TTL then None else Some(EXPIRED)
  {
    hide DownloadCheck, Intact, Rfc3339.FormatNano, TokenOf, Fingerprint, TrimSpace, ScopeSql.Lists;
    ChecksOfIntactExport(h, key, p, a, t + EXPORT_TTL, now, true);
  }

  // The stored artifact of a mint, as the download steps see it.
  ghost predicate Redeemable(h: Host, key: string, p: ExportPrincipal, t: int, a: Artifact) {
    && Intact(h, key, a) && a.expiresAt == Rfc3339.FormatNano(t + EXPORT_TTL) && Rfc3339.Writable(t + EXPORT_TTL)
    && TokenLengthPasses(TokenOf(h, key, a)) && TrimSpace(TokenOf(h, key, a)) == TokenOf(h, key, a)
    && Trimmed(a.workspace) && Trimmed(a.id) && a.workspace != "" && a.id != ""
  }

  lemma {:induction false} MintedIsRedeemable(h: Host, key: string, p: ExportPrincipal, t: int, a: Artifact,
                                              row: Artifact)
    requires Minted(h, key, p, t, a) && GivesDigests(h) && Rfc3339.Writable(t + EXPORT_TTL) && Core(row) == Core(a)
    ensures Redeemable(h, key, p, t, row)
  {
    hide Minted, IsDigest, Rfc3339.FormatNano, TokenOf, StoreID, FilterHash, TextHash, TrimSpace;
    CoreKeeps(row, a);
    MintedIsIntact(h, key, p, t, a);
    MintedTokenPassesGate(h, key, p, t, a);
    ServiceAndStoreAgree(h, key, p, t, a);
    IDShape(h, a);
    SameTokenOf(h, key, row, a);
    assert Trimmed(StoreID(h, a));
  }

  lemma {:induction false} SameTokenOf(h: Host, key: string, a: Artifact, b: Artifact)
    requires a.id == b.id && a.scopeHash == b.scopeHash && a.expiresAt == b.expiresAt
    ensures TokenOf(h, key, a) == TokenOf(h, key, b)
  {
  }

  // Presenting an artifact's token, the entitled caller receives exactly its stored content when the
  // clock is before creation plus 15 minutes, and is told it has expired from that instant on.
  lemma {:induction false} DownloadDeliversUntilExpiry(h: Host, key: string, rows: seq<Artifact>, j: nat,
                                                       ask: DownloadRequest, p: ExportPrincipal, t: int, now: int,
                                                       later: int)
    requires |key| >= 16 && GivesDigests(h) && UniqueArtifacts(rows) && j < |rows| && Consistent(rows[j])
    requires Redeemable(h, key, p, t, rows[j]) && Entitled(h, ask.principal, ask.scope, rows[j])
    requires TrimSpace(ask.token) == TokenOf(h, key, rows[j])
    ensures RunDownload(h, key, rows, ask, now, later, true, true).1 ==
            if now < t + EXPORT_TTL then Delivered(rows[j], rows[j].downloadCount == 0) else Refusal(EXPIRED)
  {
    hide LookupStep, TokenOf, Fingerprint, TextHash, TrimSpace, Rfc3339.FormatNano, FindForDownload, UniqueArtifacts,
      IsDigest,
      GivesDigests, Entitled, Intact;
    var a := rows[j];
    LookupIsTheClock(h, key, rows, j, ask, p, t, now);
    DownloadFinds(h, rows, j, ask, a);
    assert TrimSpace(a.workspace) == a.workspace && TrimSpace(a.id) == a.id by {
      assert Trimmed(a.workspace) && Trimmed(a.id);
    }
  }

  // At the lookup the clock decides.
  lemma {:induction false} LookupIsTheClock(h: Host, key: string, rows: seq<Artifact>, j: nat, ask: DownloadRequest,
                                            p: ExportPrincipal, t: int, now: int)
    requires |key| >= 16 && GivesDigests(h) && UniqueArtifacts(rows) && j < |rows|
    requires Redeemable(h, key, p, t, rows[j]) && Entitled(h, ask.principal, ask.scope, rows[j])
    requires TrimSpace(ask.token) == TokenOf(h, key, rows[j])
    ensures LookupStep(h, key, rows, ask, Runs, now, true) ==
            if now < t + EXPORT_TTL then Counting(rows[j]) else Refusal(EXPIRED)
  {
    hide TokenOf, Fingerprint, FilterHash, TextHash, TrimSpace, Rfc3339.FormatNano, DownloadCheck, FindByToken,
      UniqueArtifacts, IsDigest, GivesDigests, Entitled, Intact;
    var a := rows[j];
    LookupFinds(h, rows, j, ask, TokenOf(h, key, a)) by {
      IntactToken(h, key, a);
    }
    CheckIsTheClock(h, key, ask.principal, ask.scope, a, t, now);
  }

  lemma {:induction false} IntactToken(h: Host, key: string, a: Artifact)
    requires Intact(h, key, a)
    ensures a.tokenHash == TextHash(h, TokenOf(h, key, a))
  {
  }

  // ---------- the round trip in a running system ----------

  lemma {:induction false} FourSteps(s: Setting, w: World, a: Step, b: Step, c: Step, d: Step)
    ensures Execute(s, w, [a, b, c]) == Apply(s, Apply(s, Apply(s, w, a), b), c)
    ensures Execute(s, w, [a, b, c, d]) == Apply(s, Apply(s, Apply(s, Apply(s, w, a), b), c), d)
  {
    hide Apply;
    assert [a][..0] == [] && [a, b][..1] == [a] && [a, b, c][..2] == [a, b] && [a, b, c, d][..3] == [a, b, c];
    assert Execute(s, w, []) == w;
    assert Execute(s, w, [a]) == Apply(s, w, a);
    assert Execute(s, w, [a, b]) == Apply(s, Apply(s, w, a), b);
    assert Execute(s, w, [a, b, c]) == Apply(s, Apply(s, Apply(s, w, a), b), c);
  }

  lemma {:induction false} DownloadStep(s: Setting, w: World, step: Step)
    requires step.pid < |w.procs| && w.procs[step.pid].Downloader? && step.fault.Runs?
    ensures var p, next := w.procs[step.pid], Apply(s, w, step);
            next.procs[step.pid].Downloader? && next.procs[step.pid].ask == p.ask && match p.download
              case LookingUp => next.rows == w.rows && next.procs[step.pid].download ==
                                LookupStep(s.host, s.key, w.rows, p.ask, Runs, step.now, step.authorized)
              case Counting(a) => next.rows == w.rows &&
                next.procs[step.pid].download == CountStep(w.rows, p.ask, a, Runs)
              case Updating(a) => next.rows == UpdateStep(w.rows, p.ask, a, Runs, step.now).0 &&
                                  next.procs[step.pid].download == UpdateStep(w.rows, p.ask, a, Runs, step.now).1
              case Appending(a) => next.rows == w.rows && next.procs[step.pid].download == Delivered(a, true)
              case _ => next == w
  {
    hide LookupStep, CountStep, UpdateStep;
  }

  lemma {:induction false} CreatorStep(s: Setting, w: World, step: Step)
    requires step.pid < |w.procs| && w.procs[step.pid].Creator? && step.fault.Runs?
    ensures var p, next := w.procs[step.pid], Apply(s, w, step);
            next.procs[step.pid].Creator? && next.procs[step.pid].request == p.request &&
            (next.rows, next.procs[step.pid].create) == CreateStep(s.host, w.rows, p.request, p.create, Runs)
  {
    hide CreateStep;
  }

  // Three steps of one creation with no other process in between are CreateOrGetExport as one call.
  lemma {:induction false} UninterruptedCreate(s: Setting, w: World, q: nat, now: int)
    requires q < |w.procs| && w.procs[q].Creator? && w.procs[q].create == Reading
    ensures var step := Step(q, Runs, now, true);
            var end := Execute(s, w, [step, step, step]);
            var (rows, outcome) := RunCreate(s.host, w.rows, w.procs[q].request);
            end.procs[q].Creator? && end.rows == rows && end.procs[q].create == CreateDone(outcome)
  {
    hide Apply, Execute, ValidExport, FindByIdempotency, ExportTable.TryInsert, Stamped;
    var step := Step(q, Runs, now, true);
    FourSteps(s, w, step, step, step, step);
    var w1 := Apply(s, w, step);
    var w2 := Apply(s, w1, step);
    CreatorStep(s, w, step);
    CreatorStep(s, w1, step);
    CreatorStep(s, w2, step);
  }

  // Four steps of one download with no other process in between are the download as one call.
  lemma {:induction false} UninterruptedDownload(s: Setting, w: World, q: nat, now: int, later: int)
    requires q < |w.procs| && w.procs[q].Downloader? && w.procs[q].download == LookingUp
    ensures var check, record := Step(q, Runs, now, true), Step(q, Runs, later, true);
            var end := Execute(s, w, [check, record, record, record]);
            end.procs[q].Downloader? && (end.rows, end.procs[q].download) ==
                                        RunDownload(s.host, s.key, w.rows, w.procs[q].ask, now, later, true, true)
  {
    hide Apply, Execute, LookupStep, CountStep, UpdateStep;
    var check, record := Step(q, Runs, now, true), Step(q, Runs, later, true);
    FourSteps(s, w, check, record, record, record);
    var w1 := Apply(s, w, check);
    var w2 := Apply(s, w1, record);
    var w3 := Apply(s, w2, record);
    DownloadStep(s, w, check);
    DownloadStep(s, w1, record);
    DownloadStep(s, w2, record);
    DownloadStep(s, w3, record);
  }

  lemma {:induction false} OneCreation(t: int, u: int)
    requires Rfc3339.Writable(t) && Rfc3339.Writable(u) && Rfc3339.FormatNano(t) == Rfc3339.FormatNano(u)
    ensures t == u
  {
    hide Rfc3339.FormatNano, Rfc3339.Parse;
    Rfc3339.ParseFormatNano(t);
    Rfc3339.ParseFormatNano(u);
  }

  lemma {:induction false} EntitledToRow(h: Host, p: ExportPrincipal, scope: DataScope, a: Artifact, row: Artifact)
    requires Entitled(h, p, scope, a) && Core(row) == Core(a)
    ensures Entitled(h, p, scope, row)
  {
    hide TrimSpace, Fingerprint, ScopeSql.Lists;
    CoreKeeps(row, a);
  }

  lemma {:induction false} MintedCreation(h: Host, key: string, p: ExportPrincipal, t: int, a: Artifact, row: Artifact)
    requires Minted(h, key, p, t, a) && Core(row) == Core(a)
    ensures row.createdAt == Rfc3339.FormatNano(t)
  {
    hide Rfc3339.FormatNano, Rfc3339.FormatCompact, TrimSpace, ArtifactID, Token, FilterHash, TextHash, Fingerprint;
    assert Core(row).createdAt == row.createdAt && Core(a).createdAt == a.createdAt;
  }
}
