// Preparing an export: from a request and the event table to an artifact and its download token.
module ExportPrepare {
  import opened Wrappers
  import opened Text
  import opened DataScopes
  import opened ExportFilters
  import opened Authorization
  import opened ExportTable
  import opened ExportSteps
  import opened EventTable
  import EventClass
  import EventFacts
  import EventQuery
  import Csv
  import Rfc3339

  const EXPORT_TTL := 15 * 60 * Rfc3339.NANOS
  const EXPORT_MAX_ROWS := 1000
  const KEY_REQUIRED := "idempotency_key_required"
  const LISTING_FAILED := "audit query workspace is required"
  const NO_RESULTS := "export_no_results"
  const KEY_CONFLICT := "idempotency_key_conflict"
  const AUDIT_FAILED := "export_audit_failed"

  // ---------- the exported rows ----------

  function ListingQuery(f: ExportFilter): EventQuery.Query {
    EventQuery.Query(f.event, f.objectKey, f.recordID, f.actorID, f.roleKey, f.createdFrom, f.createdTo, "",
                     EventClass.BUSINESS, "", EXPORT_MAX_ROWS)
  }

  function FactsOf(eh: EventQuery.Host, row: Row): EventFacts.Metadata {
    (key: string) => eh.lookup(row.metadata, key)
  }

  function ColumnsOf(eh: EventQuery.Host, row: Row): (r: seq<string>)
    ensures |r| == 10 && r[0] == row.id && r[9] == row.createdAt
  {
    var facts := FactsOf(eh, row);
    [row.id, row.event, row.objectKey, row.recordID, row.actorID, row.roleKey, EventFacts.RequestIDOf(facts),
     EventFacts.ResultOf(row.event, facts), EventFacts.ReasonOf(facts), row.createdAt]
  }

  // Business events whose result is the wanted one, case aside.
  predicate Wanted(eh: EventQuery.Host, result: string, row: Row) {
    eh.classify(row) == EventClass.BUSINESS &&
    (result == "" || ToLower(EventFacts.ResultOf(row.event, FactsOf(eh, row))) == ToLower(result))
  }

  function ExportRows(eh: EventQuery.Host, result: string, events: seq<Row>): (r: seq<seq<string>>)
    ensures |r| <= |events| && forall x :: x in r ==> |x| == 10
  {
    if events == [] then []
    else
      var n := |events| - 1;
      ExportRows(eh, result, events[..n]) + if Wanted(eh, result, events[n]) then [ColumnsOf(eh, events[n])] else []
  }

  // Rows stand in the order of their events, each at most once.
  lemma {:induction false} ExportRowsInOrder(eh: EventQuery.Host, result: string, a: seq<Row>, b: seq<Row>, e: Row)
    ensures ExportRows(eh, result, a + b) == ExportRows(eh, result, a) + ExportRows(eh, result, b)
    ensures ExportRows(eh, result, [e]) == if Wanted(eh, result, e) then [ColumnsOf(eh, e)] else []
  {
    hide Wanted, ColumnsOf;
    assert [e][..0] == [];
    if b == [] {
      assert a + b == a;
    } else {
      var n := |b| - 1;
      assert (a + b)[..|a + b| - 1] == a + b[..n];
      ExportRowsInOrder(eh, result, a, b[..n], e);
    }
  }

  method ExportRow(eh: EventQuery.Host, wanted: string, event: Row) returns (row: Option<seq<string>>)
    ensures row == if Wanted(eh, wanted, event) then Some(ColumnsOf(eh, event)) else None
  {
    hide EventFacts.ResultOf, EventFacts.ReasonOf, EventFacts.RequestIDOf, FactsOf, ToLower;
    if eh.classify(event) != EventClass.BUSINESS {
      return None;
    }
    var facts := FactsOf(eh, event);
    var result := EventFacts.ExportEventResult(event.event, facts);
    if wanted != "" && ToLower(wanted) != ToLower(result) {
      return None;
    }
    var reason := EventFacts.ExportEventReason(facts);
    return Some([event.id, event.event, event.objectKey, event.recordID, event.actorID, event.roleKey,
                 EventFacts.RequestIDOf(facts), result, reason, event.createdAt]);
  }

  method CollectRows(eh: EventQuery.Host, filters: ExportFilter, events: seq<Row>) returns (rows: seq<seq<string>>)
    ensures rows == ExportRows(eh, filters.result, events)
  {
    hide Wanted, ColumnsOf;
    rows := [];
    for i := 0 to |events|
      invariant rows == ExportRows(eh, filters.result, events[..i])
    {
      assert events[..i + 1][..i] == events[..i];
      var row := ExportRow(eh, filters.result, events[i]);
      if row.Some? {
        rows := rows + [row.value];
      }
    }
    assert events[..|events|] == events;
  }

  // ---------- the artifact ----------

  function Mint(h: Host, key: string, filters: ExportFilter, rows: seq<seq<string>>, idempotencyKey: string,
                p: ExportPrincipal, now: int): Artifact {
    var scopeHash := FilterHash(h, filters);
    var expiresAt := Rfc3339.FormatNano(now + EXPORT_TTL);
    var id := ArtifactID(h, p.workspaceID, p.userID, idempotencyKey);
    var content := Csv.ExportText(rows);
    Artifact(id, TrimSpace(p.workspaceID), TrimSpace(p.userID), p.roleKey, idempotencyKey, filters, scopeHash,
             Fingerprint(h.sha, h.jsonClaims, p), TextHash(h, Token(h, key, id, scopeHash, expiresAt)),
             "audit-events-" + Rfc3339.FormatCompact(now) + ".csv", h.sha(content), |rows|, content,
             "audit_events:" + id + ":sha256:" + scopeHash, "prepared", Rfc3339.FormatNano(now), expiresAt, 0, "")
  }

  // A minted artifact, column by column.
  lemma {:induction false} MintInFull(h: Host, key: string, filters: ExportFilter, rows: seq<seq<string>>,
                                      idempotencyKey: string, p: ExportPrincipal, now: int)
    ensures var a := Mint(h, key, filters, rows, idempotencyKey, p, now);
            var digest := h.sha(TrimSpace(p.workspaceID) + "\0" + TrimSpace(p.userID) + "\0audit_events\0" +
                                TrimSpace(idempotencyKey));
            var payload := a.id + "." + a.expiresAt;
            && (|digest| >= 32 ==> a.id == "audexp_" + digest[..32])
            && a.workspace == TrimSpace(p.workspaceID) && a.requester == TrimSpace(p.userID) && a.roleKey == p.roleKey
            && a.idempotencyKey == idempotencyKey && a.filters == filters && a.scopeHash == h.sha(h.jsonFilter(filters))
            && a.authorizationHash == Fingerprint(h.sha, h.jsonClaims, p)
            && a.tokenHash == h.sha(h.jsonText(payload + "." + h.mac(key, payload + "\0" + a.scopeHash)))
            && a.filename == "audit-events-" + Rfc3339.FormatCompact(now) + ".csv"
            && a.content == Csv.ExportText(rows) && a.contentHash == h.sha(a.content) && a.rowCount == |rows|
            && a.auditIdentity == "audit_events:" + a.id + ":sha256:" + a.scopeHash
            && a.status == "prepared" && a.downloadCount == 0 && a.lastDownloadedAt == ""
            && a.createdAt == Rfc3339.FormatNano(now)
            && a.expiresAt == Rfc3339.FormatNano(now + 15 * 60 * 1_000_000_000)
  {
    hide Csv.ExportText, Rfc3339.FormatNano, Rfc3339.FormatCompact, Fingerprint, TrimSpace;
  }

  // What the service is called with.
  datatype PrepareCall = PrepareCall(request: ExportRequest, idempotencyKey: string, principal: ExportPrincipal,
                                     scope: DataScope, now: int, authorized: bool)

  // The rows a call exports from an event table.
  function RowsFor(eh: EventQuery.Host, events: seq<Row>, filters: ExportFilter, p: ExportPrincipal,
                   scope: DataScope): Result<seq<seq<string>>, string> {
    if TrimSpace(p.workspaceID) == "" then Failure(LISTING_FAILED)
    else
      var listed :- EventQuery.ListRows(eh, events, Some(TrimSpace(p.workspaceID)), ListingQuery(filters),
                                        Normalized(scope));
      Success(ExportRows(eh, filters.result, listed))
  }

  function PrepareArtifact(h: Host, key: string, eh: EventQuery.Host, events: seq<Row>,
                           c: PrepareCall): Result<Artifact, string> {
    if |key| < 16 then Failure(UNAVAILABLE)
    else if TrimSpace(c.idempotencyKey) == "" then Failure(KEY_REQUIRED)
    else
      var filters :- NormalizeOf(c.request, c.now);
      if !c.authorized then Failure(NOT_AUTHORIZED)
      else
        var rows :- RowsFor(eh, events, filters, c.principal, c.scope);
        if rows == [] then Failure(NO_RESULTS)
        else Success(Mint(h, key, filters, rows, TrimSpace(c.idempotencyKey), c.principal, c.now))
  }

  // CreateOrGetExport with no other caller in between and no storage failure.
  function RunCreate(h: Host, rows: seq<Artifact>, request: Artifact): (seq<Artifact>, CreateOutcome) {
    CreateAmid(h, rows, Alone(), request)
  }

  datatype Prepared = Prepared(id: string, filename: string, contentHash: string, rowCount: int, auditIdentity: string,
                               scopeHash: string, filters: ExportFilter, downloadToken: string, expiresAt: string)

  function PreparedOf(a: Artifact, token: string): Prepared {
    Prepared(a.id, a.filename, a.contentHash, a.rowCount, a.auditIdentity, a.scopeHash, a.filters, token, a.expiresAt)
  }

  // What is answered for the artifact the store returned.
  function Answer(h: Host, key: string, stored: Artifact, evidence: bool): Result<Prepared, string> {
    var token := TokenOf(h, key, stored);
    if TextHash(h, token) != stored.tokenHash then Failure(INTEGRITY_FAILED)
    else if !evidence then Failure(AUDIT_FAILED)
    else Success(PreparedOf(stored, token))
  }

  // The whole call; evidence says whether the audit append that ends it succeeds.
  function Prepare(h: Host, key: string, eh: EventQuery.Host, events: seq<Row>, rows: seq<Artifact>, c: PrepareCall,
                   evidence: bool): (seq<Artifact>, Result<Prepared, string>) {
    var artifact := PrepareArtifact(h, key, eh, events, c);
    if artifact.Failure? then (rows, Failure(artifact.error))
    else
      var (after, outcome) := RunCreate(h, rows, artifact.value);
      match outcome
      case Conflict => (after, Failure(if evidence then KEY_CONFLICT else AUDIT_FAILED))
      case Failed => (after, Failure(PERSISTENCE_FAILED))
      case Created(stored) => (after, Answer(h, key, stored, evidence))
      case Replayed(stored) => (after, Answer(h, key, stored, evidence))
  }

  // ---------- digests ----------

  predicate HexChar(c: char) {
    '0' <= c <= '9' || 'a' <= c <= 'f'
  }

  predicate IsDigest(s: string) {
    |s| == 64 && forall i :: 0 <= i < |s| ==> HexChar(s[i])
  }

  ghost predicate GivesDigests(h: Host) {
    (forall x :: IsDigest(h.sha(x))) && (forall k, x :: IsDigest(h.mac(k, x)))
  }

  lemma {:induction false} DigestIsTrimmed(s: string)
    requires IsDigest(s)
    ensures TrimSpace(s) == s && s != ""
  {
    assert HexChar(s[0]) && HexChar(s[63]);
    assert Trimmed(s);
  }

  // ---------- what a minted artifact satisfies ----------

  // An artifact minted for this principal at this instant.
  ghost predicate Minted(h: Host, key: string, p: ExportPrincipal, t: int, a: Artifact) {
    exists filters, rows, k :: Trimmed(k) && k != "" && 1 <= |rows| <= EXPORT_MAX_ROWS &&
      (forall x :: x in rows ==> |x| == 10) &&
                               TrimSpace(p.workspaceID) != "" && a == Mint(h, key, filters, rows, k, p, t)
  }

  // The id the service derives from trimmed parts is the one the store derives from the stored fields.
  lemma {:induction false} ServiceAndStoreAgree(h: Host, key: string, p: ExportPrincipal, t: int, a: Artifact)
    requires Minted(h, key, p, t, a)
    ensures a.id == StoreID(h, a) && Stamped(h, a) == a
    ensures a.id == ArtifactID(h, p.workspaceID, p.userID, a.idempotencyKey)
  {
    hide Csv.ExportText, Rfc3339.FormatNano, Rfc3339.FormatCompact, TextHash, FilterHash, Fingerprint, Token;
    var filters, rows, k :| Trimmed(k) && k != "" && 1 <= |rows| <= EXPORT_MAX_ROWS &&
      (forall x :: x in rows ==> |x| == 10) &&
                            TrimSpace(p.workspaceID) != "" && a == Mint(h, key, filters, rows, k, p, t);
    assert TrimSpace(k) == k;
  }

  // The integrity facts every later check relies on.
  predicate Intact(h: Host, key: string, a: Artifact) {
    a.tokenHash == TextHash(h, TokenOf(h, key, a)) && a.contentHash == h.sha(a.content) &&
      a.scopeHash == FilterHash(h, a.filters)
  }

  lemma {:induction false} MintedIsIntact(h: Host, key: string, p: ExportPrincipal, t: int, a: Artifact)
    requires Minted(h, key, p, t, a)
    ensures Intact(h, key, a) && a.status == "prepared" && a.downloadCount == 0 && Trimmed(a.workspace) &&
            a.workspace != ""
    ensures a.workspace == TrimSpace(p.workspaceID) && a.requester == TrimSpace(p.userID)
    ensures a.authorizationHash == Fingerprint(h.sha, h.jsonClaims, p)
    ensures a.expiresAt == Rfc3339.FormatNano(t + EXPORT_TTL)
  {
    hide Csv.ExportText, Rfc3339.FormatNano, Rfc3339.FormatCompact, TextHash, FilterHash, Fingerprint, Token,
      ArtifactID;
  }

  lemma {:induction false} ExportTextIsNotEmpty(rows: seq<seq<string>>)
    ensures |Csv.ExportText(rows)| > 0
  {
  }

  // A call that gets as far as an artifact mints one; it is complete unless the principal has no user.
  lemma {:induction false} PrepareMints(h: Host, key: string, eh: EventQuery.Host, events: seq<Row>, c: PrepareCall)
    requires PrepareArtifact(h, key, eh, events, c).Success?
    ensures Minted(h, key, c.principal, c.now, PrepareArtifact(h, key, eh, events, c).value)
  {
    hide Mint, NormalizeOf, TrimSpace, Trimmed, RowsFor;
    var filters := NormalizeOf(c.request, c.now).value;
    var rows := RowsFor(eh, events, filters, c.principal, c.scope).value;
    RowsAreBounded(eh, events, filters, c.principal, c.scope);
    assert PrepareArtifact(h, key, eh, events, c).value ==
           Mint(h, key, filters, rows, TrimSpace(c.idempotencyKey), c.principal, c.now);
  }

  lemma {:induction false} RowsAreBounded(eh: EventQuery.Host, events: seq<Row>, filters: ExportFilter,
                                          p: ExportPrincipal, scope: DataScope)
    requires RowsFor(eh, events, filters, p, scope).Success?
    ensures |RowsFor(eh, events, filters, p, scope).value| <= EXPORT_MAX_ROWS
    ensures forall x :: x in RowsFor(eh, events, filters, p, scope).value ==> |x| == 10
    ensures TrimSpace(p.workspaceID) != ""
  {
    hide EventQuery.ListRows, TrimSpace;
    ListingIsBounded(eh, events, Some(TrimSpace(p.workspaceID)), ListingQuery(filters), Normalized(scope));
  }

  lemma {:induction false} ListingIsBounded(eh: EventQuery.Host, events: seq<Row>, workspace: Option<string>,
                                            q: EventQuery.Query, scope: DataScope)
    requires EventQuery.ListRows(eh, events, workspace, q, scope).Success? && 1 <= q.limit
    ensures |EventQuery.ListRows(eh, events, workspace, q, scope).value| <= q.limit
  {
    hide EventQuery.ListPredicates, EventQuery.QueryCursor, TrimSpace;
  }

  lemma {:induction false} MintedIsComplete(h: Host, key: string, p: ExportPrincipal, t: int, a: Artifact)
    requires Minted(h, key, p, t, a) && GivesDigests(h)
    ensures ValidExport(a) <==> TrimSpace(p.userID) != ""
  {
    hide Csv.ExportText, Rfc3339.FormatNano, Rfc3339.FormatCompact, Token, ArtifactID, IsDigest, TextHash,
      FilterHash, Fingerprint,
      GivesDigests, TrimSpace;
    var filters, rows, k :| Trimmed(k) && k != "" && 1 <= |rows| <= EXPORT_MAX_ROWS &&
      (forall x :: x in rows ==> |x| == 10) &&
                            TrimSpace(p.workspaceID) != "" && a == Mint(h, key, filters, rows, k, p, t);
    ExportTextIsNotEmpty(rows);
    MintedDigests(h, key, p, t, a);
    assert a.auditIdentity[0] == 'a';
    NotBlank(a.auditIdentity);
  }

  lemma {:induction false} MintedDigests(h: Host, key: string, p: ExportPrincipal, t: int, a: Artifact)
    requires Minted(h, key, p, t, a) && GivesDigests(h)
    ensures TrimSpace(a.scopeHash) != "" && TrimSpace(a.authorizationHash) != "" && TrimSpace(a.tokenHash) != "" &&
            TrimSpace(a.contentHash) != ""
  {
    hide Csv.ExportText, Rfc3339.FormatNano, Rfc3339.FormatCompact, Token, ArtifactID, IsDigest, TrimSpace, Trimmed;
    DigestIsTrimmed(a.scopeHash);
    DigestIsTrimmed(a.authorizationHash);
    DigestIsTrimmed(a.tokenHash);
    DigestIsTrimmed(a.contentHash);
  }

  lemma {:induction false} NotBlank(s: string)
    requires s != "" && !IsSpace(s[0])
    ensures TrimSpace(s) != ""
  {
    assert TrimLeft(s) == s;
    KeepsFirst(s);
  }

  lemma {:induction false} KeepsFirst(s: string)
    requires s != "" && !IsSpace(s[0])
    ensures TrimRight(s) != ""
  {
    if |s| > 1 && IsSpace(s[|s| - 1]) {
      KeepsFirst(s[..|s| - 1]);
    }
  }

  // The stored row count is the number of data rows a reader of the content finds: 1 to 1000.
  lemma {:induction false} RowCountIsDecoded(h: Host, key: string, p: ExportPrincipal, t: int, a: Artifact)
    requires Minted(h, key, p, t, a)
    ensures var records := Csv.Decode(a.content);
            records.Some? && |records.value| == 1 + a.rowCount && records.value[0] == Csv.HEADER &&
            1 <= a.rowCount <= EXPORT_MAX_ROWS && forall i :: 0 <= i < |records.value| ==> |records.value[i]| == 10
  {
    hide Csv.ExportText, Csv.Decode, Csv.HEADER, Rfc3339.FormatNano, Rfc3339.FormatCompact, Token, ArtifactID,
      Fingerprint, TrimSpace;
    var filters, rows, k :| Trimmed(k) && k != "" && 1 <= |rows| <= EXPORT_MAX_ROWS &&
      (forall x :: x in rows ==> |x| == 10) &&
                            TrimSpace(p.workspaceID) != "" && a == Mint(h, key, filters, rows, k, p, t);
    Csv.ExportRoundTrip(rows);
    Csv.HeaderWidth();
    forall i | 0 <= i < |[Csv.HEADER] + rows|
      ensures |([Csv.HEADER] + rows)[i]| == 10
    {
      if i > 0 {
        assert rows[i - 1] in rows;
      }
    }
  }

  // ---------- what is exported ----------

  lemma {:induction false} ExportedRowHasSource(eh: EventQuery.Host, result: string, events: seq<Row>, x: seq<string>)
    requires x in ExportRows(eh, result, events)
    ensures exists e :: e in events && Wanted(eh, result, e) && x == ColumnsOf(eh, e)
  {
    hide Wanted, ColumnsOf;
    var n := |events| - 1;
    if x in ExportRows(eh, result, events[..n]) {
      ExportedRowHasSource(eh, result, events[..n], x);
      var e :| e in events[..n] && Wanted(eh, result, e) && x == ColumnsOf(eh, e);
      assert e in events;
    } else {
      assert events[n] in events;
    }
  }

  lemma {:induction false} NoCursor(eh: EventQuery.Host, filters: ExportFilter)
    ensures EventQuery.QueryCursor(eh, ListingQuery(filters)) == Success(None)
  {
  }
}
