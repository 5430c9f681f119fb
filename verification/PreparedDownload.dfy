// One service on its own: what a preparation answers is what a download needs.
module PreparedDownload {
  import opened Text
  import opened ExportFilters
  import opened Authorization
  import opened ExportTable
  import opened ExportSteps
  import opened ExportProtocol
  import opened CreateRuns
  import opened ExportPrepare
  import opened ExportLifecycle
  import EventTable
  import EventQuery
  import ScopeSql
  import Csv
  import Rfc3339

  ghost predicate RowMinted(h: Host, key: string, row: Artifact) {
    exists p, t, a :: Timely(t) && Minted(h, key, p, t, a) && Core(row) == Core(a)
  }

  // A table that only ever held artifacts minted with the key.
  ghost predicate MintedTable(h: Host, key: string, rows: seq<Artifact>) {
    UniqueArtifacts(rows) && forall j :: 0 <= j < |rows| ==> Consistent(rows[j]) && RowMinted(h, key, rows[j])
  }

  lemma {:induction false} CreateAddsOwn(h: Host, rows: seq<Artifact>, a: Artifact)
    requires UniqueArtifacts(rows)
    ensures var after := RunCreate(h, rows, a).0;
            UniqueArtifacts(after) && (after == rows || after == rows + [Stamped(h, a)])
  {
    hide ValidExport, FindByIdempotency, StoreID;
  }

  lemma {:induction false} CreateKeepsMinted(h: Host, key: string, rows: seq<Artifact>, p: ExportPrincipal, t: int,
                                             a: Artifact)
    requires MintedTable(h, key, rows) && Minted(h, key, p, t, a) && Timely(t)
    ensures MintedTable(h, key, RunCreate(h, rows, a).0)
  {
    hide RunCreate, Stamped, Minted, Timely, Core, UniqueArtifacts;
    CreateAddsOwn(h, rows, a);
    ServiceAndStoreAgree(h, key, p, t, a);
    MintedStatus(h, key, p, t, a);
    assert RowMinted(h, key, a);
  }

  lemma {:induction false} MintedStatus(h: Host, key: string, p: ExportPrincipal, t: int, a: Artifact)
    requires Minted(h, key, p, t, a)
    ensures Consistent(a)
  {
    hide Minted, Intact, TrimSpace, Trimmed, Fingerprint, Rfc3339.FormatNano;
    MintedIsIntact(h, key, p, t, a);
  }

  lemma {:induction false} DownloadMarksOne(h: Host, key: string, rows: seq<Artifact>, ask: DownloadRequest, now: int,
                                            later: int, authorized: bool, evidence: bool)
    ensures var after := RunDownload(h, key, rows, ask, now, later, authorized, evidence).0;
            after == rows ||
            exists i :: 0 <= i < |rows| && after == rows[i := Downloaded(rows[i], Rfc3339.FormatNano(later))]
  {
    hide LookupStep, CountStep, FindForDownload, Downloaded, Rfc3339.FormatNano;
  }

  // A download only marks the row it is about.
  lemma {:induction false} DownloadKeepsMinted(h: Host, key: string, rows: seq<Artifact>, ask: DownloadRequest,
                                               now: int, later: int, authorized: bool, evidence: bool)
    requires MintedTable(h, key, rows)
    ensures MintedTable(h, key, RunDownload(h, key, rows, ask, now, later, authorized, evidence).0)
  {
    hide RunDownload, MintedTable, Downloaded, Rfc3339.FormatNano;
    DownloadMarksOne(h, key, rows, ask, now, later, authorized, evidence);
    var after := RunDownload(h, key, rows, ask, now, later, authorized, evidence).0;
    if after != rows {
      var i :| 0 <= i < |rows| && after == rows[i := Downloaded(rows[i], Rfc3339.FormatNano(later))];
      MarkKeepsMinted(h, key, rows, i, Rfc3339.FormatNano(later));
    }
  }

  lemma {:induction false} MarkKeepsMinted(h: Host, key: string, rows: seq<Artifact>, i: nat, at: string)
    requires MintedTable(h, key, rows) && i < |rows|
    ensures MintedTable(h, key, rows[i := Downloaded(rows[i], at)])
  {
    hide Minted, Timely, TrimSpace;
    var marked := Downloaded(rows[i], at);
    assert Core(marked) == Core(rows[i]);
    var p, t, a :| Timely(t) && Minted(h, key, p, t, a) && Core(rows[i]) == Core(a);
    assert RowMinted(h, key, marked);
  }

  // The caller of the download is the one of the preparation, under a scope that covers it.
  ghost predicate SameCaller(h: Host, p: ExportPrincipal, ask: DownloadRequest) {
    && TrimSpace(ask.principal.workspaceID) == TrimSpace(p.workspaceID) &&
      TrimSpace(ask.principal.userID) == TrimSpace(p.userID)
    && Fingerprint(h.sha, h.jsonClaims, ask.principal) == Fingerprint(h.sha, h.jsonClaims, p)
    && (ask.scope.all || ScopeSql.Lists(ask.scope.subjectIDs, TrimSpace(p.userID)))
  }

  // What the answer says of the export is what is delivered.
  ghost predicate Announced(h: Host, prepared: Prepared, a: Artifact) {
    && a.id == prepared.id && a.filename == prepared.filename && a.rowCount == prepared.rowCount
    && h.sha(a.content) == prepared.contentHash
    && var records := Csv.Decode(a.content);
       records.Some? && |records.value| == 1 + prepared.rowCount && prepared.rowCount >= 1 &&
         records.value[0] == Csv.HEADER
  }

  lemma {:induction false} StoredTokenDelivers(h: Host, key: string, rows: seq<Artifact>, p: ExportPrincipal,
                                               a: Artifact, ask: DownloadRequest, now: int, later: int)
    requires GivesDigests(h) && MintedTable(h, key, rows) && MintedTable(h, key, RunCreate(h, rows, a).0) && |key| >= 16
    requires Trimmed(a.workspace) && ValidExport(a) && SameCaller(h, p, ask)
    requires a.workspace == TrimSpace(p.workspaceID) && a.requester == TrimSpace(p.userID)
    requires a.authorizationHash == Fingerprint(h.sha, h.jsonClaims, p)
    requires var outcome := RunCreate(h, rows, a).1;
             (outcome.Created? || outcome.Replayed?) && TrimSpace(ask.token) == TokenOf(h, key, outcome.artifact)
    ensures var (after, outcome) := RunCreate(h, rows, a);
            var stored, download := outcome.artifact, RunDownload(h, key, after, ask, now, later, true, true).1;
            var expiry := Rfc3339.Parse(stored.expiresAt);
            expiry.Some? &&
            if now < expiry.value
            then download.Delivered? && Announced(h, PreparedOf(stored, TokenOf(h, key, stored)), download.artifact)
            else download == Refusal(EXPIRED)
  {
    hide RunCreate, RunDownload, Minted, ValidExport, TokenOf, TextHash, TrimSpace, Trimmed, Fingerprint,
      GivesDigests, IsDigest,
      Rfc3339.Parse, Rfc3339.FormatNano, Announced, UniqueArtifacts, Core, Redeemable, ScopeSql.Lists;
    var after := RunCreate(h, rows, a).0;
    var j := CreateStores(h, rows, a);
    assert RowMinted(h, key, after[j]);
    var q, t, m :| Timely(t) && Minted(h, key, q, t, m) && Core(after[j]) == Core(m);
    MintedIsRedeemable(h, key, q, t, m, after[j]);
    DownloadDeliversUntilExpiry(h, key, after, j, ask, q, t, now, later);
    assert after[j].expiresAt == Rfc3339.FormatNano(t + EXPORT_TTL) by {
      RedeemableExpiry(h, key, q, t, after[j]);
    }
    Rfc3339.ParseFormatNano(t + EXPORT_TTL);
    MintedIsAnnounced(h, key, q, t, m, after[j]);
  }

  lemma {:induction false} RedeemableExpiry(h: Host, key: string, p: ExportPrincipal, t: int, a: Artifact)
    requires Redeemable(h, key, p, t, a)
    ensures a.expiresAt == Rfc3339.FormatNano(t + EXPORT_TTL)
  {
    hide Rfc3339.FormatNano, Rfc3339.Writable, TokenOf, TrimSpace, Intact;
  }

  lemma {:induction false} MintedIsAnnounced(h: Host, key: string, p: ExportPrincipal, t: int, a: Artifact,
                                             row: Artifact)
    requires Minted(h, key, p, t, a) && Core(row) == Core(a)
    ensures Announced(h, PreparedOf(row, TokenOf(h, key, row)), row)
  {
    hide Minted, Csv.Decode, Csv.HEADER, TokenOf, Rfc3339.FormatNano, TextHash, FilterHash, TrimSpace, Fingerprint;
    CoreKeeps(row, a);
    assert Core(row).rowCount == row.rowCount && Core(a).rowCount == a.rowCount;
    MintedIsIntact(h, key, p, t, a);
    RowCountIsDecoded(h, key, p, t, a);
  }

  lemma {:induction false} NeedsKey(h: Host, key: string, eh: EventQuery.Host, events: seq<EventTable.Row>,
                                    c: PrepareCall)
    requires PrepareArtifact(h, key, eh, events, c).Success?
    ensures |key| >= 16
  {
    hide NormalizeOf, RowsFor, Mint, TrimSpace;
  }

  // Prepare, then download with the answered token: the caller gets the export that was announced, new
  // or replayed, until the announced expiry, and nothing from that instant on.
  lemma {:induction false} PreparedTokenDelivers(h: Host, key: string, eh: EventQuery.Host,
                                                 events: seq<EventTable.Row>, rows: seq<Artifact>, c: PrepareCall,
                                                 ask: DownloadRequest, now: int, later: int)
    requires GivesDigests(h) && MintedTable(h, key, rows) && Timely(c.now) && SameCaller(h, c.principal, ask)
    requires var r := Prepare(h, key, eh, events, rows, c, true).1;
             r.Success? && TrimSpace(ask.token) == r.value.downloadToken
    ensures var (after, r) := Prepare(h, key, eh, events, rows, c, true);
            var expiry, download := Rfc3339.Parse(r.value.expiresAt),
              RunDownload(h, key, after, ask, now, later, true, true).1;
            && MintedTable(h, key, after) && expiry.Some?
            && if now < expiry.value then download.Delivered? && Announced(h, r.value, download.artifact)
               else download == Refusal(EXPIRED)
  {
    hide PrepareArtifact, RunCreate, RunDownload, Minted, MintedTable, ValidExport, TokenOf, TextHash, TrimSpace,
      Trimmed, Fingerprint,
      GivesDigests, IsDigest, Rfc3339.Parse, Rfc3339.FormatNano, Timely, Announced, UniqueArtifacts, Core, Intact,
        SameCaller;
    var made := PrepareArtifact(h, key, eh, events, c);
    var a := made.value;
    NeedsKey(h, key, eh, events, c);
    PrepareMints(h, key, eh, events, c);
    MintedIsIntact(h, key, c.principal, c.now, a);
    MintedIsComplete(h, key, c.principal, c.now, a);
    if TrimSpace(c.principal.userID) == "" {
      InvalidIsRefused(h, rows, a);
    }
    CreateKeepsMinted(h, key, rows, c.principal, c.now, a);
    StoredTokenDelivers(h, key, rows, c.principal, a, ask, now, later);
  }
}
