// The assumptions about hosts can be met: what is proved from them is not proved from nothing.
module Assumptions {
  import opened Wrappers
  import opened Text
  import EventClass
  import opened EventOrder
  import EventQuery
  import opened ExportTable
  import opened ExportSteps
  import opened ExportProtocol
  import opened ExportPrepare
  import opened ExportLifecycle
  import opened Authorization
  import opened ExportFilters
  import CreateRuns
  import ExportContents
  import Pagination
  import Csv
  import Rfc3339

  // A cursor codec: a bracketed record of time and id.
  function Encode(k: Key): string {
    "(" + Csv.ExportText([[k.createdAt, k.id]]) + ")"
  }

  function DecodeCursor(s: string): Option<Key> {
    if |s| < 2 then None
    else
      var records := Csv.Decode(s[1..|s| - 1]);
      if records.None? || |records.value| != 2 || |records.value[1]| != 2 then None
      else Some(Key(records.value[1][0], records.value[1][1]))
  }

  lemma {:induction false} CodecExists(k: Key)
    ensures DecodeCursor(Encode(k)) == Some(k) && Trimmed(Encode(k)) && Encode(k) != ""
  {
    hide Csv.ExportText, Csv.Decode, Csv.HEADER;
    var rows := [[k.createdAt, k.id]];
    var s := Encode(k);
    assert s[1..|s| - 1] == Csv.ExportText(rows);
    assert s[0] == '(' && s[|s| - 1] == ')';
    Csv.ExportRoundTrip(rows);
    assert ([Csv.HEADER] + rows)[1] == rows[0];
  }

  ghost function ExampleHost(markers: EventClass.Markers): EventQuery.Host {
    EventQuery.Host(markers, row => EventClass.ClassOf(markers, row), Encode, DecodeCursor, s => s,
                    (text, key) => None, s => s)
  }

  // Whatever the markers, some host and projection behave as the paging results ask.
  lemma {:induction false} HostExists(markers: EventClass.Markers)
    ensures exists host: EventQuery.Host, project: EventQuery.Projection ::
              host.markers == markers && Pagination.WellBehaved(host, project)
  {
    hide Encode, DecodeCursor, EventClass.ClassOf;
    var host := ExampleHost(markers);
    var project: EventQuery.Projection := rows => Success(rows);
    forall k: Key
      ensures host.decodeCursor(host.encodeCursor(k)) == Some(k) && Trimmed(host.encodeCursor(k)) &&
              host.encodeCursor(k) != ""
    {
      CodecExists(k);
    }
    assert Pagination.WellBehaved(host, project);
  }

  // The host without markers and metadata is one of them.
  lemma {:induction false} PlainHostExists()
    ensures ExportContents.Plain(ExampleHost(EventClass.Markers([], [])))
  {
  }

  // ---------- hashes ----------

  function Digest(one: bool): string {
    seq(64, i => if one then '1' else '2')
  }

  // A hash that looks at the last character, and an authentication code that looks at the first
  // character of an artifact id's digest.
  function ExportHost(jsonFilter: ExportFilter -> string, jsonClaims: Claims -> string): ExportTable.Host {
    ExportTable.Host(s => Digest(s != "" && s[|s| - 1] == '1'), (k, s) => Digest(|s| > 7 && s[7] == '1'), s => s,
                     jsonFilter, jsonClaims)
  }

  lemma {:induction false} GivesDigestsIsMet(jsonFilter: ExportFilter -> string, jsonClaims: Claims -> string)
    ensures GivesDigests(ExportHost(jsonFilter, jsonClaims))
  {
    assert IsDigest(Digest(true)) && IsDigest(Digest(false));
  }

  lemma {:induction false} IDOfKey(h: ExportTable.Host, workspace: string, user: string, one: bool)
    requires h == ExportHost(h.jsonFilter, h.jsonClaims)
    ensures ArtifactID(h, workspace, user, if one then "1" else "2") == "audexp_" + Digest(one)[..32]
  {
    hide TrimSpace;
    var k := if one then "1" else "2";
    assert Trimmed(k) && TrimSpace(k) == k;
    var text := TrimSpace(workspace) + "\0" + TrimSpace(user) + "\0audit_events\0" + k;
    assert text[|text| - 1] == k[0];
  }

  lemma {:induction false} TokenOfKey(h: ExportTable.Host, key: string, id: string, scopeHash: string,
                                      expiresAt: string, one: bool)
    requires h == ExportHost(h.jsonFilter, h.jsonClaims) && id == "audexp_" + Digest(one)[..32]
    ensures TextHash(h, Token(h, key, id, scopeHash, expiresAt)) == Digest(one)
  {
    var payload := id + "." + expiresAt;
    assert (payload + "\0" + scopeHash)[7] == id[7] == Digest(one)[0];
    var token := Token(h, key, id, scopeHash, expiresAt);
    assert token == payload + "." + Digest(one) && token[|token| - 1] == Digest(one)[63];
  }

  // The id and the token hash under a key that is "1" or "2".
  lemma {:induction false} ArtifactOfKey(h: ExportTable.Host, key: string, filters: ExportFilter,
                                         rows: seq<seq<string>>, one: bool, p: ExportPrincipal, t: int, a: Artifact)
    requires h == ExportHost(h.jsonFilter, h.jsonClaims)
    requires a == Mint(h, key, filters, rows, if one then "1" else "2", p, t)
    ensures a.id == "audexp_" + Digest(one)[..32] && a.tokenHash == Digest(one)
    ensures a.idempotencyKey == if one then "1" else "2"
  {
    hide TrimSpace, Rfc3339.FormatNano, Rfc3339.FormatCompact, Csv.ExportText, FilterHash, TextHash, Fingerprint,
      ArtifactID, Token,
      ExportHost, Digest;
    IDOfKey(h, p.workspaceID, p.userID, one);
    TokenOfKey(h, key, a.id, a.scopeHash, a.expiresAt, one);
  }

  // The creators of two complete minted artifacts with different ids, token hashes and keys.
  lemma {:induction false} TwoCreators(s: Setting, p: ExportPrincipal, t: int, a: Artifact, b: Artifact)
    requires Minted(s.host, s.key, p, t, a) && Minted(s.host, s.key, p, t, b) && Timely(t)
    requires ValidExport(a) && ValidExport(b)
    requires a.id != b.id && a.tokenHash != b.tokenHash && a.idempotencyKey != b.idempotencyKey
    ensures var w := World([], [], [Creator(a, Reading), Creator(b, Reading)], []);
            Start(w) && AllMinted(s, w) && CreateRuns.KeysSeparate(s, w)
  {
    hide Minted, TrimSpace, ValidExport, Timely, Stamped, StoreID, Intact, Fingerprint, Rfc3339.FormatNano;
    MintedIsIntact(s.host, s.key, p, t, a);
    MintedIsIntact(s.host, s.key, p, t, b);
    ServiceAndStoreAgree(s.host, s.key, p, t, a);
    ServiceAndStoreAgree(s.host, s.key, p, t, b);
    assert !Clash(a, b) && !Clash(b, a);
  }

  // Two creators under different keys of one user in one workspace can start with all hypotheses of the
  // protocol met.
  lemma {:induction false} KeysCanBeSeparate(h: ExportTable.Host, key: string, filters: ExportFilter,
                                             rows: seq<seq<string>>, p: ExportPrincipal, t: int)
    requires h == ExportHost(h.jsonFilter, h.jsonClaims) && Timely(t)
    requires TrimSpace(p.workspaceID) != "" && TrimSpace(p.userID) != "" && 1 <= |rows| <= EXPORT_MAX_ROWS
    requires forall x :: x in rows ==> |x| == 10
    ensures var s := Setting(h, key);
            var w := World([], [], [Creator(Mint(h, key, filters, rows, "1", p, t), Reading),
                                    Creator(Mint(h, key, filters, rows, "2", p, t), Reading)], []);
            Start(w) && AllMinted(s, w) && GivesDigests(s.host) && CreateRuns.KeysSeparate(s, w)
  {
    hide Mint, TrimSpace, ValidExport, GivesDigests, Timely, Start, AllMinted, CreateRuns.KeysSeparate, ExportHost;
    GivesDigestsIsMet(h.jsonFilter, h.jsonClaims);
    var a, b := Mint(h, key, filters, rows, "1", p, t), Mint(h, key, filters, rows, "2", p, t);
    assert Trimmed("1") && Trimmed("2");
    assert Minted(h, key, p, t, a) && Minted(h, key, p, t, b);
    ArtifactOfKey(h, key, filters, rows, true, p, t, a);
    ArtifactOfKey(h, key, filters, rows, false, p, t, b);
    MintedIsComplete(h, key, p, t, a);
    MintedIsComplete(h, key, p, t, b);
    assert Digest(true)[0] == '1' && Digest(false)[0] == '2' && a.id[7] == Digest(true)[0] &&
           b.id[7] == Digest(false)[0];
    TwoCreators(Setting(h, key), p, t, a, b);
  }
}
