// Export artifacts, the statements on their table, and the identities derived from their fields.
module ExportTable {
  import opened Wrappers
  import opened Text
  import opened DataScopes
  import opened SqlQuery
  import opened ExportFilters
  import opened Authorization
  import ScopeSql

  // Hash, message authentication and JSON encoding as the service uses them: sha and mac give lower-case
  // hexadecimal digests.
  datatype Host = Host(sha: string -> string, mac: (string, string) -> string, jsonText: string -> string,
                       jsonFilter: ExportFilter -> string, jsonClaims: Claims -> string)

  datatype Artifact = Artifact(id: string, workspace: string, requester: string, roleKey: string,
                               idempotencyKey: string,
                               filters: ExportFilter, scopeHash: string, authorizationHash: string, tokenHash: string,
                               filename: string, contentHash: string, rowCount: int, content: string,
                                 auditIdentity: string,
                               status: string, createdAt: string, expiresAt: string, downloadCount: int,
                               lastDownloadedAt: string)

  // ---------- derived identities ----------

  function TextHash(h: Host, text: string): string {
    h.sha(h.jsonText(text))
  }

  function FilterHash(h: Host, f: ExportFilter): string {
    h.sha(h.jsonFilter(f))
  }

  // The first 16 bytes of a digest in hexadecimal.
  function Short(digest: string): string {
    if |digest| >= 32 then digest[..32] else digest
  }

  // exportArtifactID in the service: trims its three parts.
  function ArtifactID(h: Host, workspace: string, user: string, key: string): string {
    "audexp_" + Short(h.sha(TrimSpace(workspace) + "\0" + TrimSpace(user) + "\0audit_events\0" + TrimSpace(key)))
  }

  // exportID in the store: takes them as they are.
  function StoreID(h: Host, a: Artifact): string {
    "audexp_" + Short(h.sha(a.workspace + "\0" + a.requester + "\0audit_events\0" + a.idempotencyKey))
  }

  function Token(h: Host, key: string, id: string, scopeHash: string, expiresAt: string): string {
    var payload := id + "." + expiresAt;
    payload + "." + h.mac(key, payload + "\0" + scopeHash)
  }

  function TokenOf(h: Host, key: string, a: Artifact): string {
    Token(h, key, a.id, a.scopeHash, a.expiresAt)
  }

  // ---------- the table ----------

  predicate SameIdentity(a: Artifact, b: Artifact) {
    a.workspace == b.workspace && a.requester == b.requester && a.idempotencyKey == b.idempotencyKey
  }

  // The primary key and the two unique indexes.
  predicate Clash(a: Artifact, b: Artifact) {
    a.workspace == b.workspace &&
    (a.id == b.id || (a.requester == b.requester && a.idempotencyKey == b.idempotencyKey) || a.tokenHash == b.tokenHash)
  }

  ghost predicate UniqueArtifacts(rows: seq<Artifact>) {
    forall i, j :: 0 <= i < j < |rows| ==> !Clash(rows[i], rows[j])
  }

  lemma {:induction false} ClashingRowsAreOne(rows: seq<Artifact>, i: nat, j: nat)
    requires UniqueArtifacts(rows) && i < |rows| && j < |rows| && Clash(rows[i], rows[j])
    ensures i == j
  {
    assert Clash(rows[j], rows[i]);
  }

  // Everything but what a download records.
  function Core(a: Artifact): Artifact {
    a.(status := "", downloadCount := 0, lastDownloadedAt := "")
  }

  function FirstIndex<T>(rows: seq<T>, p: T -> bool): (r: Option<nat>)
    ensures r.Some? ==> r.value < |rows| && p(rows[r.value])
    ensures r.None? ==> forall i :: 0 <= i < |rows| ==> !p(rows[i])
  {
    if rows == [] then None
    else
      var n := |rows| - 1;
      if p(rows[n]) then Some(n) else FirstIndex(rows[..n], p)
  }

  // SELECT by workspace, requester and idempotency key; the workspace is trimmed.
  function FindByIdempotency(rows: seq<Artifact>, a: Artifact): (r: Option<nat>)
    ensures r.Some? ==> r.value < |rows| && SameIdentity(rows[r.value], a.(workspace := TrimSpace(a.workspace)))
    ensures r.None? ==> forall i :: 0 <= i < |rows| ==> !SameIdentity(rows[i], a.(workspace := TrimSpace(a.workspace)))
  {
    FirstIndex(rows, (x: Artifact) => SameIdentity(x, a.(workspace := TrimSpace(a.workspace))))
  }

  function TryInsert(rows: seq<Artifact>, a: Artifact): (r: Option<seq<Artifact>>)
    ensures r.Some? ==> r.value == rows + [a] && forall i :: 0 <= i < |rows| ==> !Clash(rows[i], a)
    ensures r.None? ==> exists i :: 0 <= i < |rows| && Clash(rows[i], a)
  {
    if FirstIndex(rows, (x: Artifact) => Clash(x, a)).Some? then None else Some(rows + [a])
  }

  function CellsOf(a: Artifact): Cells {
    (c: Column) => if c == RequesterUserID then Some(a.requester) else None
  }

  // The requester clause and the scope clause of artifact reads and writes.
  predicate Visible(a: Artifact, requester: string, scope: DataScope) {
    (TrimSpace(requester) == "" || a.requester == TrimSpace(requester)) &&
    var p := ScopeSql.ArtifactScopePredicate(scope);
    (p.None? || Selects(p.value, CellsOf(a)))
  }

  // Seen by a requester, if one is given, and by a scope that is unrestricted or lists the requester.
  lemma {:induction false} VisibleInFull(a: Artifact, requester: string, scope: DataScope)
    ensures Visible(a, requester, scope) <==>
            (TrimSpace(requester) == "" || a.requester == TrimSpace(requester)) &&
            (scope.all || ScopeSql.Lists(scope.subjectIDs, a.requester))
  {
    hide TrimSpace, ScopeSql.Lists;
    ScopeSql.ArtifactScopeMeaning(scope, CellsOf(a));
  }

  function FindByToken(rows: seq<Artifact>, workspace: string, tokenHash: string, requester: string,
                       scope: DataScope): (r: Option<nat>)
    ensures r.Some? ==> r.value < |rows| && rows[r.value].workspace == TrimSpace(workspace) &&
                        rows[r.value].tokenHash == TrimSpace(tokenHash) && Visible(rows[r.value], requester, scope)
    ensures r.None? ==> forall i :: 0 <= i < |rows| ==>
              !(rows[i].workspace == TrimSpace(workspace) && rows[i].tokenHash == TrimSpace(tokenHash) &&
                Visible(rows[i], requester, scope))
  {
    FirstIndex(rows, (x: Artifact) =>
      x.workspace == TrimSpace(workspace) && x.tokenHash == TrimSpace(tokenHash) && Visible(x, requester, scope))
  }

  function FindForDownload(rows: seq<Artifact>, workspace: string, id: string, requester: string,
                           scope: DataScope): (r: Option<nat>)
    ensures r.Some? ==> r.value < |rows| && rows[r.value].workspace == TrimSpace(workspace) &&
                        rows[r.value].id == TrimSpace(id) && Visible(rows[r.value], requester, scope)
    ensures r.None? ==> forall i :: 0 <= i < |rows| ==>
              !(rows[i].workspace == TrimSpace(workspace) && rows[i].id == TrimSpace(id) &&
                Visible(rows[i], requester, scope))
  {
    FirstIndex(rows, (x: Artifact) =>
      x.workspace == TrimSpace(workspace) && x.id == TrimSpace(id) && Visible(x, requester, scope))
  }

  function Downloaded(a: Artifact, at: string): Artifact {
    a.(downloadCount := 1, lastDownloadedAt := TrimSpace(at), status := "downloaded")
  }

  // UPDATE ... WHERE download_count = 0 AND the lookup's clauses: the changed table, or None when no
  // row was changed.
  function TryMarkDownloaded(rows: seq<Artifact>, workspace: string, id: string, requester: string, scope: DataScope,
                             at: string): Option<seq<Artifact>> {
    var i := FindForDownload(rows, workspace, id, requester, scope);
    if i.Some? && rows[i.value].downloadCount == 0 then Some(rows[i.value := Downloaded(rows[i.value], at)]) else None
  }

  // ---------- requests ----------

  predicate ValidExport(a: Artifact) {
    TrimSpace(a.workspace) != "" && TrimSpace(a.requester) != "" && TrimSpace(a.idempotencyKey) != "" &&
    TrimSpace(a.scopeHash) != "" && TrimSpace(a.authorizationHash) != "" && TrimSpace(a.tokenHash) != "" &&
    TrimSpace(a.contentHash) != "" && TrimSpace(a.auditIdentity) != "" && a.rowCount >= 1 && |a.content| > 0
  }

  predicate SameExportRequest(a: Artifact, b: Artifact) {
    a.scopeHash == b.scopeHash && a.authorizationHash == b.authorizationHash
  }
}
