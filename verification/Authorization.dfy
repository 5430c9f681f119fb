// The authorization fingerprint of an export principal.
module Authorization {
  import opened Text

  datatype ExportPrincipal = ExportPrincipal(workspaceID: string, userID: string, roleKey: string, revision: string,
                                             systemScope: string, systemCapabilities: seq<string>,
                                             requestID: string, orgID: string)

  // The struct that is encoded as JSON and hashed.
  datatype Claims = Claims(workspaceID: string, userID: string, roleKey: string, revision: string,
                           systemScope: string, systemCapabilities: seq<string>)

  // ---------- sort.Strings ----------

  function Place(x: string, sorted: seq<string>): (r: seq<string>)
    ensures multiset(r) == multiset(sorted) + multiset{x}
  {
    if sorted == [] || AtMost(x, sorted[0]) then
      assert multiset([x] + sorted) == multiset(sorted) + multiset{x};
      [x] + sorted
    else
      assert sorted == [sorted[0]] + sorted[1..];
      [sorted[0]] + Place(x, sorted[1..])
  }

  function Sort(xs: seq<string>): (r: seq<string>)
    ensures multiset(r) == multiset(xs)
  {
    if xs == [] then []
    else
      assert xs == [xs[0]] + xs[1..];
      Place(xs[0], Sort(xs[1..]))
  }

  ghost predicate Sorted(xs: seq<string>) {
    forall i, j :: 0 <= i < j < |xs| ==> AtMost(xs[i], xs[j])
  }

  lemma {:induction false} PlaceSorted(x: string, sorted: seq<string>)
    requires Sorted(sorted)
    ensures Sorted(Place(x, sorted))
  {
    hide Less;
    var placed := Place(x, sorted);
    if sorted == [] {
    } else if AtMost(x, sorted[0]) {
      forall i, j | 0 <= i < j < |placed|
        ensures AtMost(placed[i], placed[j])
      {
        if i == 0 && j > 1 {
          AtMostTransitive(x, sorted[0], sorted[j - 1]);
        }
      }
    } else {
      var rest := Place(x, sorted[1..]);
      PlaceSorted(x, sorted[1..]);
      LessTotal(x, sorted[0]);
      forall j | 0 <= j < |rest|
        ensures AtMost(sorted[0], rest[j])
      {
        assert rest[j] in multiset(rest);
        if rest[j] != x {
          assert rest[j] in sorted[1..];
          var k :| 0 <= k < |sorted[1..]| && sorted[1..][k] == rest[j];
          assert AtMost(sorted[0], sorted[k + 1]);
        }
      }
    }
  }

  lemma {:induction false} SortSorts(xs: seq<string>)
    ensures Sorted(Sort(xs))
  {
    if xs != [] {
      SortSorts(xs[1..]);
      PlaceSorted(xs[0], Sort(xs[1..]));
    }
  }

  // A sorted list is determined by how often it holds each text.
  lemma {:induction false} SortedIsCanonical(a: seq<string>, b: seq<string>)
    requires Sorted(a) && Sorted(b) && multiset(a) == multiset(b)
    ensures a == b
  {
    hide Less;
    assert |multiset(a)| == |a| && |multiset(b)| == |b|;
    if a != [] {
      assert a[0] in multiset(b) && b[0] in multiset(a);
      var i :| 0 <= i < |a| && a[i] == b[0];
      var j :| 0 <= j < |b| && b[j] == a[0];
      assert AtMost(a[0], b[0]) && AtMost(b[0], a[0]);
      LessAsymmetric(a[0], b[0]);
      assert a == [a[0]] + a[1..] && b == [b[0]] + b[1..];
      assert multiset(a[1..]) == multiset(a) - multiset{a[0]};
      assert multiset(b[1..]) == multiset(b) - multiset{b[0]};
      SortedTail(a);
      SortedTail(b);
      SortedIsCanonical(a[1..], b[1..]);
    }
  }

  lemma {:induction false} SortedTail(a: seq<string>)
    requires Sorted(a) && a != []
    ensures Sorted(a[1..])
  {
    hide Less;
    forall i, j | 0 <= i < j < |a[1..]|
      ensures AtMost(a[1..][i], a[1..][j])
    {
      assert AtMost(a[i + 1], a[j + 1]);
    }
  }

  lemma {:induction false} SortIsCanonicalForm(a: seq<string>, b: seq<string>)
    ensures Sort(a) == Sort(b) <==> multiset(a) == multiset(b)
  {
    SortSorts(a);
    SortSorts(b);
    if multiset(a) == multiset(b) {
      SortedIsCanonical(Sort(a), Sort(b));
    }
  }

  // ---------- fingerprints ----------

  function ClaimsOf(p: ExportPrincipal): Claims {
    Claims(TrimSpace(p.workspaceID), TrimSpace(p.userID), TrimSpace(p.roleKey), TrimSpace(p.revision),
           p.systemScope, Sort(p.systemCapabilities))
  }

  // sha is hex-encoded SHA-256 of a text, json the JSON encoding of the claims.
  function Fingerprint(sha: string -> string, json: Claims -> string, p: ExportPrincipal): string {
    sha(json(ClaimsOf(p)))
  }

  // The same authority: four trimmed fields, the system scope as given, the same capabilities.
  ghost predicate SameAuthority(p: ExportPrincipal, q: ExportPrincipal) {
    && TrimSpace(p.workspaceID) == TrimSpace(q.workspaceID) && TrimSpace(p.userID) == TrimSpace(q.userID)
    && TrimSpace(p.roleKey) == TrimSpace(q.roleKey) && TrimSpace(p.revision) == TrimSpace(q.revision)
    && p.systemScope == q.systemScope && multiset(p.systemCapabilities) == multiset(q.systemCapabilities)
  }

  // Equal fingerprints mean equal authority, unless these two encodings happen to collide; the order in
  // which capabilities are listed never matters, how often one is listed does.
  lemma {:induction false} FingerprintIsAuthority(sha: string -> string, json: Claims -> string, p: ExportPrincipal,
                                                  q: ExportPrincipal)
    requires forall a, b :: json(a) == json(b) ==> a == b
    requires sha(json(ClaimsOf(p))) == sha(json(ClaimsOf(q))) ==> json(ClaimsOf(p)) == json(ClaimsOf(q))
    ensures Fingerprint(sha, json, p) == Fingerprint(sha, json, q) <==> SameAuthority(p, q)
  {
    SortIsCanonicalForm(p.systemCapabilities, q.systemCapabilities);
    assert json(ClaimsOf(p)) == json(ClaimsOf(q)) ==> ClaimsOf(p) == ClaimsOf(q);
  }
}
