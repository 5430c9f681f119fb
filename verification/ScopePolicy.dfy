// From the identity module's data policies to the boundary Audit applies.
module ScopePolicy {
  import opened Wrappers
  import opened Text
  import opened DataScopes
  import ScopeSql

  datatype ScopeKind = All | Owner | Org | OrgChild | TargetOrg | Unsupported(name: string)
  datatype Effect = Allow | OtherEffect(name: string)
  datatype Operator = OperatorEqual | OperatorIn

  // A policy value is a reference to a subject fact or a plain flag.
  datatype PolicyValue = Reference(name: string) | Flag(value: bool)

  // The zero predicate accepts every record; an any-list accepts what one of its parts accepts.
  datatype PolicyPredicate =
    | Unconditional
    | Fact(fact: string, operator: Operator, value: PolicyValue)
    | AnyOf(parts: seq<PolicyPredicate>)

  datatype DataPolicy = DataPolicy(resource: string, action: string, effect: Effect,
                                   dataScopes: seq<ScopeKind>, rule: PolicyPredicate)
  datatype Guardrail = Guardrail(resource: string, action: string, field: string, hasPredicate: bool)
  datatype Subject = Subject(workspaceID: string, subjectID: string, orgID: string,
                             orgScopeIDs: seq<string>, supportOrgScopeIDs: seq<string>)

  // valid is the outcome of AccessBundle.Validate at the time of the call.
  datatype AccessBundle = AccessBundle(subject: Subject, dataPolicies: seq<DataPolicy>,
                                       guardrails: seq<Guardrail>, valid: bool)
  datatype Principal = Principal(known: bool, workspaceID: string, userID: string,
                                 permissions: set<string>, accessBundle: Option<AccessBundle>)

  const DENIED := "backend.audit.view_permission_required"

  // ---------- the canonical predicate of a scope list ----------

  function KindPredicate(kind: ScopeKind): PolicyPredicate
    requires !kind.All? && !kind.Unsupported?
  {
    match kind
    case Owner => Fact("owner_user_id", OperatorEqual, Reference("$subject.id"))
    case Org => Fact("owner_org_id", OperatorEqual, Reference("$subject.org_id"))
    case OrgChild => Fact("owner_org_id", OperatorIn, Reference("$subject.org_scope_ids"))
    case TargetOrg => Fact("owner_org_id", OperatorIn, Reference("$subject.support_org_scope_ids"))
  }

  const UNSUPPORTED := Fact("__audit_scope_unsupported__", OperatorEqual, Flag(true))

  // The canonical predicate of scopes when parts have been collected before them.
  function CanonicalFrom(scopes: seq<ScopeKind>, parts: seq<PolicyPredicate>): PolicyPredicate {
    if scopes == [] then (if |parts| == 1 then parts[0] else AnyOf(parts))
    else match scopes[0]
      case All => Unconditional
      case Unsupported(_) => UNSUPPORTED
      case kind => CanonicalFrom(scopes[1..], parts + [KindPredicate(kind)])
  }

  function Canonical(scopes: seq<ScopeKind>): PolicyPredicate {
    CanonicalFrom(scopes, [])
  }

  method CanonicalAuditScopePredicate(scopes: seq<ScopeKind>) returns (p: PolicyPredicate)
    ensures p == Canonical(scopes)
  {
    var parts := [];
    for i := 0 to |scopes|
      invariant CanonicalFrom(scopes[i..], parts) == Canonical(scopes)
    {
      assert scopes[i..][1..] == scopes[i + 1..];
      match scopes[i] {
        case All => return Unconditional;
        case Owner =>
          parts := parts + [Fact("owner_user_id", OperatorEqual, Reference("$subject.id"))];
        case Org =>
          parts := parts + [Fact("owner_org_id", OperatorEqual, Reference("$subject.org_id"))];
        case OrgChild =>
          parts := parts + [Fact("owner_org_id", OperatorIn, Reference("$subject.org_scope_ids"))];
        case TargetOrg =>
          parts := parts + [Fact("owner_org_id", OperatorIn, Reference("$subject.support_org_scope_ids"))];
        case Unsupported(_) => return UNSUPPORTED;
      }
    }
    if |parts| == 1 {
      return parts[0];
    }
    return AnyOf(parts);
  }

  // ---------- what policies mean ----------

  function SubjectFacts(reference: string, subject: Subject): seq<string> {
    if reference == "$subject.id" then [subject.subjectID]
    else if reference == "$subject.org_id" then [subject.orgID]
    else if reference == "$subject.org_scope_ids" then subject.orgScopeIDs
    else if reference == "$subject.support_org_scope_ids" then subject.supportOrgScopeIDs
    else []
  }

  // The record fact an audit event supplies: its actor, and its actor's organisation if recorded.
  function RecordFact(fact: string, actor: string, organization: Option<string>): Option<string> {
    if fact == "owner_user_id" then Some(actor)
    else if fact == "owner_org_id" then organization
    else None
  }

  predicate Accepts(p: PolicyPredicate, subject: Subject, actor: string, organization: Option<string>) {
    match p
    case Unconditional => true
    case Fact(fact, _, value) =>
      var known := RecordFact(fact, actor, organization);
      known.Some? && value.Reference? && known.value in SubjectFacts(value.name, subject)
    case AnyOf(parts) => exists q :: q in parts && Accepts(q, subject, actor, organization)
  }

  predicate Supported(scopes: seq<ScopeKind>) {
    forall k :: k in scopes ==> !k.Unsupported?
  }

  // What one kind of scope lets a subject see.
  predicate KindAccepts(kind: ScopeKind, subject: Subject, actor: string, organization: Option<string>) {
    match kind
    case All => true
    case Owner => actor == subject.subjectID
    case Org => organization == Some(subject.orgID)
    case OrgChild => organization.Some? && organization.value in subject.orgScopeIDs
    case TargetOrg => organization.Some? && organization.value in subject.supportOrgScopeIDs
    case Unsupported(_) => false
  }

  lemma {:induction false} CanonicalFromMeaning(scopes: seq<ScopeKind>, parts: seq<PolicyPredicate>, subject: Subject,
                                                actor: string, organization: Option<string>)
    requires Supported(scopes)
    ensures Accepts(CanonicalFrom(scopes, parts), subject, actor, organization) <==>
            (exists q :: q in parts && Accepts(q, subject, actor, organization)) ||
            (exists k :: k in scopes && KindAccepts(k, subject, actor, organization))
  {
    if scopes == [] {
      if |parts| == 1 {
        assert parts[0] in parts;
      }
    } else if !scopes[0].All? {
      var part := KindPredicate(scopes[0]);
      CanonicalFromMeaning(scopes[1..], parts + [part], subject, actor, organization);
      assert Accepts(part, subject, actor, organization) <==> KindAccepts(scopes[0], subject, actor, organization);
      assert part in parts + [part];
      assert scopes == [scopes[0]] + scopes[1..];
      assert forall q :: q in parts + [part] <==> q in parts || q == part;
      assert forall k :: k in scopes <==> k == scopes[0] || k in scopes[1..];
    } else {
      assert scopes[0] in scopes;
    }
  }

  // A canonical predicate accepts what one of its scopes lets the subject see.
  lemma {:induction false} CanonicalMeaning(scopes: seq<ScopeKind>, subject: Subject, actor: string,
                                            organization: Option<string>)
    requires Supported(scopes)
    ensures Accepts(Canonical(scopes), subject, actor, organization) <==>
            exists k :: k in scopes && KindAccepts(k, subject, actor, organization)
  {
    CanonicalFromMeaning(scopes, [], subject, actor, organization);
  }

  // ---------- resolving ----------

  // The position of the last dot, or -1.
  function LastDot(s: string): (k: int)
    ensures -1 <= k < |s|
  {
    if s == "" then -1 else if s[|s| - 1] == '.' then |s| - 1 else LastDot(s[..|s| - 1])
  }

  predicate SplitsExactly(permission: string) {
    0 < LastDot(permission) < |permission| - 1
  }

  function Resource(permission: string): string
    requires SplitsExactly(permission)
  {
    permission[..LastDot(permission)]
  }

  function Action(permission: string): string
    requires SplitsExactly(permission)
  {
    permission[LastDot(permission) + 1..]
  }

  predicate Concerns(policy: DataPolicy, resource: string, action: string) {
    TrimSpace(policy.resource) == resource && TrimSpace(policy.action) == action
  }

  // An allow policy whose predicate is exactly that of its supported scopes.
  predicate Translatable(policy: DataPolicy) {
    policy.effect.Allow? && policy.rule == Canonical(policy.dataScopes) && Supported(policy.dataScopes)
  }

  predicate Blocks(guardrail: Guardrail, resource: string, action: string) {
    && (guardrail.resource == "" || TrimSpace(guardrail.resource) == resource)
    && (guardrail.action == "" || TrimSpace(guardrail.action) == action)
    && guardrail.hasPredicate && TrimSpace(guardrail.field) == ""
  }

  predicate IdentityHolds(principal: Principal, permission: string) {
    && principal.known && SplitsExactly(permission) && permission in principal.permissions
    && principal.accessBundle.Some?
    && var bundle := principal.accessBundle.value;
       bundle.valid
       && TrimSpace(bundle.subject.workspaceID) == TrimSpace(principal.workspaceID)
       && TrimSpace(bundle.subject.subjectID) == TrimSpace(principal.userID)
  }

  // The grant a principal needs for an exact permission.
  predicate Granted(principal: Principal, permission: string) {
    && IdentityHolds(principal, permission)
    && var bundle := principal.accessBundle.value;
       var resource, action := Resource(permission), Action(permission);
       && (exists p :: p in bundle.dataPolicies && Concerns(p, resource, action))
       && (forall p :: p in bundle.dataPolicies && Concerns(p, resource, action) ==> Translatable(p))
       && (forall g :: g in bundle.guardrails ==> !Blocks(g, resource, action))
  }

  function WithKind(scope: DataScope, kind: ScopeKind, subject: Subject): DataScope {
    match kind
    case All => scope.(all := true)
    case Owner => scope.(subjectIDs := scope.subjectIDs + [subject.subjectID])
    case Org => scope.(organizationIDs := scope.organizationIDs + [subject.orgID])
    case OrgChild => scope.(organizationIDs := scope.organizationIDs + subject.orgScopeIDs)
    case TargetOrg => scope.(organizationIDs := scope.organizationIDs + subject.supportOrgScopeIDs)
    case Unsupported(_) => scope
  }

  function WithKinds(scope: DataScope, kinds: seq<ScopeKind>, subject: Subject): DataScope {
    if kinds == [] then scope
    else WithKind(WithKinds(scope, kinds[..|kinds| - 1], subject), kinds[|kinds| - 1], subject)
  }

  function Collected(policies: seq<DataPolicy>, subject: Subject, resource: string, action: string): DataScope {
    if policies == [] then DataScope(false, [], [])
    else
      var n := |policies| - 1;
      var before := Collected(policies[..n], subject, resource, action);
      if Concerns(policies[n], resource, action) then WithKinds(before, policies[n].dataScopes, subject) else before
  }

  // The boundary of a granted principal.
  function Boundary(principal: Principal, permission: string): DataScope
    requires IdentityHolds(principal, permission)
  {
    var bundle := principal.accessBundle.value;
    Normalized(Collected(bundle.dataPolicies, bundle.subject, Resource(permission), Action(permission)))
  }

  method AddDataScopes(input: DataScope, kinds: seq<ScopeKind>, subject: Subject) returns (scope: DataScope, ok: bool)
    ensures ok <==> Supported(kinds)
    ensures ok ==> scope == WithKinds(input, kinds, subject)
  {
    scope, ok := input, true;
    for i := 0 to |kinds|
      invariant Supported(kinds[..i])
      invariant scope == WithKinds(input, kinds[..i], subject)
    {
      assert kinds[..i + 1][..i] == kinds[..i];
      match kinds[i] {
        case All => scope := scope.(all := true);
        case Owner => scope := scope.(subjectIDs := scope.subjectIDs + [subject.subjectID]);
        case Org => scope := scope.(organizationIDs := scope.organizationIDs + [subject.orgID]);
        case OrgChild => scope := scope.(organizationIDs := scope.organizationIDs + subject.orgScopeIDs);
        case TargetOrg => scope := scope.(organizationIDs := scope.organizationIDs + subject.supportOrgScopeIDs);
        case Unsupported(_) =>
          assert kinds[i] in kinds;
          return scope, false;
      }
    }
    assert kinds[..|kinds|] == kinds;
  }

  // The policy loop: stops at the first policy for the permission that cannot be translated.
  method CollectPolicies(policies: seq<DataPolicy>, subject: Subject, resource: string, action: string)
    returns (scope: DataScope, found: bool, ok: bool)
    ensures ok <==> forall p :: p in policies && Concerns(p, resource, action) ==> Translatable(p)
    ensures ok ==> scope == Collected(policies, subject, resource, action)
    ensures ok ==> (found <==> exists p :: p in policies && Concerns(p, resource, action))
  {
    hide Canonical, WithKinds, TrimSpace;
    scope, found, ok := DataScope(false, [], []), false, true;
    for i := 0 to |policies|
      invariant found <==> exists p :: p in policies[..i] && Concerns(p, resource, action)
      invariant forall p :: p in policies[..i] && Concerns(p, resource, action) ==> Translatable(p)
      invariant scope == Collected(policies[..i], subject, resource, action)
    {
      var policy := policies[i];
      assert policy in policies && policies[..i + 1] == policies[..i] + [policy];
      assert policies[..i + 1][..i] == policies[..i];
      if TrimSpace(policy.resource) != resource || TrimSpace(policy.action) != action {
        assert !Concerns(policy, resource, action);
        continue;
      }
      if !policy.effect.Allow? {
        return scope, found, false;
      }
      var canonical := CanonicalAuditScopePredicate(policy.dataScopes);
      if policy.rule != canonical {
        return scope, found, false;
      }
      found := true;
      assert Concerns(policy, resource, action) && policy in policies[..i + 1];
      var extended, supported := AddDataScopes(scope, policy.dataScopes, subject);
      if !supported {
        return scope, found, false;
      }
      scope := extended;
    }
    assert policies[..|policies|] == policies;
  }

  // The guardrail loop: no field-free condition may apply to the permission.
  method GuardrailsPass(guardrails: seq<Guardrail>, resource: string, action: string) returns (ok: bool)
    ensures ok <==> forall g :: g in guardrails ==> !Blocks(g, resource, action)
  {
    for i := 0 to |guardrails|
      invariant forall g :: g in guardrails[..i] ==> !Blocks(g, resource, action)
    {
      var guardrail := guardrails[i];
      assert guardrail in guardrails && guardrails[..i + 1] == guardrails[..i] + [guardrail];
      var resourceMatches := guardrail.resource == "" || TrimSpace(guardrail.resource) == resource;
      var actionMatches := guardrail.action == "" || TrimSpace(guardrail.action) == action;
      if resourceMatches && actionMatches && guardrail.hasPredicate && TrimSpace(guardrail.field) == "" {
        return false;
      }
    }
    assert guardrails[..|guardrails|] == guardrails;
    return true;
  }

  lemma {:induction false} LastDotSplits(s: string)
    ensures LastDot(s) >= 0 ==> s[LastDot(s)] == '.'
    ensures forall j :: LastDot(s) < j < |s| ==> s[j] != '.'
  {
    if s != "" && s[|s| - 1] != '.' {
      LastDotSplits(s[..|s| - 1]);
    }
  }

  // A grant in the principal's own fields, written out: it is known, holds the permission and a valid bundle
  // about itself; the permission's last dot splits it into a resource and an action; some policy is about
  // these, every one that is allows in the canonical form of known scopes, and no guardrail on whole records is.
  ghost predicate Entitles(principal: Principal, permission: string) {
    && principal.known && permission in principal.permissions && principal.accessBundle.Some?
    && var bundle := principal.accessBundle.value;
    && bundle.valid
    && TrimSpace(bundle.subject.workspaceID) == TrimSpace(principal.workspaceID)
    && TrimSpace(bundle.subject.subjectID) == TrimSpace(principal.userID)
    && exists k ::
         && 0 < k < |permission| - 1 && permission[k] == '.'
         && (forall j :: k < j < |permission| ==> permission[j] != '.')
         && Allows(bundle, permission[..k], permission[k + 1..])
  }

  ghost predicate Allows(bundle: AccessBundle, resource: string, action: string) {
    && (exists p :: p in bundle.dataPolicies && TrimSpace(p.resource) == resource && TrimSpace(p.action) == action)
    && (forall p :: p in bundle.dataPolicies && TrimSpace(p.resource) == resource && TrimSpace(p.action) == action ==>
          p.effect == Allow && p.rule == Canonical(p.dataScopes) &&
          forall kind :: kind in p.dataScopes ==> !kind.Unsupported?)
    && (forall g :: g in bundle.guardrails && g.hasPredicate && TrimSpace(g.field) == "" ==>
          (g.resource != "" && TrimSpace(g.resource) != resource) ||
          (g.action != "" && TrimSpace(g.action) != action))
  }

  lemma {:induction false} AllowsInFull(bundle: AccessBundle, resource: string, action: string)
    ensures Allows(bundle, resource, action) <==>
            && (exists p :: p in bundle.dataPolicies && Concerns(p, resource, action))
            && (forall p :: p in bundle.dataPolicies && Concerns(p, resource, action) ==> Translatable(p))
            && (forall g :: g in bundle.guardrails ==> !Blocks(g, resource, action))
  {
    hide TrimSpace, Canonical;
  }

  lemma {:induction false} GrantInFull(principal: Principal, permission: string)
    ensures Granted(principal, permission) <==> Entitles(principal, permission)
  {
    hide TrimSpace, Canonical, LastDot, Allows, Concerns, Translatable, Blocks;
    LastDotSplits(permission);
    if SplitsExactly(permission) && principal.accessBundle.Some? {
      AllowsInFull(principal.accessBundle.value, Resource(permission), Action(permission));
    }
  }

  method ResolveAuditDataScope(principal: Principal, permissionText: string) returns (r: Result<DataScope, string>)
    ensures r.Success? <==> Entitles(principal, TrimSpace(permissionText))
    ensures r.Success? ==> Granted(principal, TrimSpace(permissionText)) &&
                           r.value == Boundary(principal, TrimSpace(permissionText))
    ensures r.Failure? ==> r.error == "backend.audit.view_permission_required"
  {
    hide Collected, Normalized, Translatable, Blocks, Concerns, LastDot, TrimSpace, Entitles;
    GrantInFull(principal, TrimSpace(permissionText));
    var permission := TrimSpace(permissionText);
    var separator := LastDot(permission);
    if !principal.known || separator <= 0 || separator == |permission| - 1 ||
       permission !in principal.permissions || principal.accessBundle.None? {
      return Failure(DENIED);
    }
    var bundle := principal.accessBundle.value;
    if !bundle.valid || TrimSpace(bundle.subject.workspaceID) != TrimSpace(principal.workspaceID) ||
       TrimSpace(bundle.subject.subjectID) != TrimSpace(principal.userID) {
      return Failure(DENIED);
    }
    var resource, action := permission[..separator], permission[separator + 1..];
    var scope, found, translatable := CollectPolicies(bundle.dataPolicies, bundle.subject, resource, action);
    if !translatable || !found {
      return Failure(DENIED);
    }
    var pass := GuardrailsPass(bundle.guardrails, resource, action);
    if !pass {
      return Failure(DENIED);
    }
    var result := NormalizeDataScope(scope);
    return Success(result);
  }

  // ---------- the compiled boundary means what the policies mean ----------

  function TrimAll(values: seq<string>): seq<string> {
    seq(|values|, i requires 0 <= i < |values| => TrimSpace(values[i]))
  }

  // The subject's facts with surrounding white space removed.
  function TrimmedSubject(s: Subject): Subject {
    Subject(s.workspaceID, TrimSpace(s.subjectID), TrimSpace(s.orgID), TrimAll(s.orgScopeIDs),
            TrimAll(s.supportOrgScopeIDs))
  }

  lemma {:induction false} ListsAppend(a: seq<string>, b: seq<string>, v: string)
    ensures ScopeSql.Lists(a + b, v) <==> ScopeSql.Lists(a, v) || ScopeSql.Lists(b, v)
  {
    if i :| 0 <= i < |a| && TrimSpace(a[i]) == v {
      assert (a + b)[i] == a[i];
    }
    if i :| 0 <= i < |b| && TrimSpace(b[i]) == v {
      assert (a + b)[|a| + i] == b[i];
    }
  }

  lemma {:induction false} ListsTrimmed(values: seq<string>, v: string)
    ensures ScopeSql.Lists(values, v) <==> v != "" && v in TrimAll(values)
  {
    if i :| 0 <= i < |values| && TrimSpace(values[i]) == v {
      assert TrimAll(values)[i] == v;
    }
  }

  // What a kind adds to a boundary: exactly the non-blank part of what the kind accepts.
  ghost predicate KindCovers(kind: ScopeKind, subject: Subject, actor: string, organization: Option<string>) {
    KindAccepts(kind, TrimmedSubject(subject), actor, organization) &&
    (kind.Owner? ==> actor != "") &&
    (kind.Org? || kind.OrgChild? || kind.TargetOrg? ==> organization != Some(""))
  }

  lemma {:induction false} WithKindCovers(scope: DataScope, kind: ScopeKind, subject: Subject, actor: string,
                                          organization: Option<string>)
    requires !kind.Unsupported?
    ensures ScopeSql.Covers(WithKind(scope, kind, subject), actor, organization) <==>
            ScopeSql.Covers(scope, actor, organization) || KindCovers(kind, subject, actor, organization)
  {
    hide TrimSpace;
    match kind {
      case All =>
      case Owner =>
        ListsAppend(scope.subjectIDs, [subject.subjectID], actor);
        ListsTrimmed([subject.subjectID], actor);
        assert TrimAll([subject.subjectID]) == [TrimSpace(subject.subjectID)];
      case Org =>
        if organization.Some? {
          ListsAppend(scope.organizationIDs, [subject.orgID], organization.value);
          ListsTrimmed([subject.orgID], organization.value);
          assert TrimAll([subject.orgID]) == [TrimSpace(subject.orgID)];
        }
      case OrgChild =>
        if organization.Some? {
          ListsAppend(scope.organizationIDs, subject.orgScopeIDs, organization.value);
          ListsTrimmed(subject.orgScopeIDs, organization.value);
        }
      case TargetOrg =>
        if organization.Some? {
          ListsAppend(scope.organizationIDs, subject.supportOrgScopeIDs, organization.value);
          ListsTrimmed(subject.supportOrgScopeIDs, organization.value);
        }
    }
  }

  lemma {:induction false} WithKindsCovers(scope: DataScope, kinds: seq<ScopeKind>, subject: Subject, actor: string,
                                           organization: Option<string>)
    requires Supported(kinds)
    ensures ScopeSql.Covers(WithKinds(scope, kinds, subject), actor, organization) <==>
            ScopeSql.Covers(scope, actor, organization) ||
            exists k :: k in kinds && KindCovers(k, subject, actor, organization)
  {
    if kinds != [] {
      var n := |kinds| - 1;
      WithKindsCovers(scope, kinds[..n], subject, actor, organization);
      WithKindCovers(WithKinds(scope, kinds[..n], subject), kinds[n], subject, actor, organization);
      assert kinds == kinds[..n] + [kinds[n]];
      assert forall k :: k in kinds <==> k in kinds[..n] || k == kinds[n];
    }
  }

  // The rows the policies reach through some kind of scope, blank facts left out.
  ghost predicate Reached(policies: seq<DataPolicy>, subject: Subject, resource: string, action: string,
                          actor: string, organization: Option<string>) {
    exists p, k :: p in policies && Concerns(p, resource, action) && k in p.dataScopes &&
                   KindCovers(k, subject, actor, organization)
  }

  lemma {:induction false} CollectedCovers(policies: seq<DataPolicy>, subject: Subject, resource: string,
                                           action: string, actor: string, organization: Option<string>)
    requires forall p :: p in policies && Concerns(p, resource, action) ==> Supported(p.dataScopes)
    ensures ScopeSql.Covers(Collected(policies, subject, resource, action), actor, organization) <==>
            Reached(policies, subject, resource, action, actor, organization)
  {
    if policies != [] {
      var n := |policies| - 1;
      var last := policies[n];
      CollectedCovers(policies[..n], subject, resource, action, actor, organization);
      assert policies == policies[..n] + [last];
      assert forall p :: p in policies <==> p in policies[..n] || p == last;
      if Concerns(last, resource, action) {
        WithKindsCovers(Collected(policies[..n], subject, resource, action), last.dataScopes, subject, actor,
                        organization);
      }
    }
  }

  // Some policy for the permission accepts the record, its rule read under these facts.
  ghost predicate AcceptedUnder(principal: Principal, permission: string, facts: Subject, actor: string,
                                organization: Option<string>)
    requires IdentityHolds(principal, permission)
  {
    exists p :: p in principal.accessBundle.value.dataPolicies &&
                Concerns(p, Resource(permission), Action(permission)) && Accepts(p.rule, facts, actor, organization)
  }

  // Some policy accepts the record under the subject's own facts.
  ghost predicate PoliciesAccept(principal: Principal, permission: string, actor: string, organization: Option<string>)
    requires IdentityHolds(principal, permission)
  {
    AcceptedUnder(principal, permission, principal.accessBundle.value.subject, actor, organization)
  }

  lemma {:induction false} BoundaryReaches(principal: Principal, permission: string, actor: string,
                                           organization: Option<string>)
    requires Granted(principal, permission)
    ensures var bundle := principal.accessBundle.value;
            ScopeSql.Covers(Boundary(principal, permission), actor, organization) <==>
            Reached(bundle.dataPolicies, bundle.subject, Resource(permission), Action(permission), actor, organization)
  {
    var bundle := principal.accessBundle.value;
    var resource, action := Resource(permission), Action(permission);
    CollectedCovers(bundle.dataPolicies, bundle.subject, resource, action, actor, organization);
    ScopeSql.CoversNormalized(Collected(bundle.dataPolicies, bundle.subject, resource, action), actor, organization);
  }

  // Compilation reads the subject's facts with white space removed. Blank record facts can only be lost,
  // never gained.
  lemma {:induction false} CompilationTrimsFacts(principal: Principal, permission: string, actor: string,
                                                 organization: Option<string>)
    requires Granted(principal, permission)
    ensures var facts := TrimmedSubject(principal.accessBundle.value.subject);
            && (ScopeSql.Covers(Boundary(principal, permission), actor, organization) ==>
                  AcceptedUnder(principal, permission, facts, actor, organization))
            && (actor != "" && organization != Some("") ==>
                  (ScopeSql.Covers(Boundary(principal, permission), actor, organization) <==>
                   AcceptedUnder(principal, permission, facts, actor, organization)))
  {
    var bundle := principal.accessBundle.value;
    var resource, action := Resource(permission), Action(permission);
    var subject := TrimmedSubject(bundle.subject);
    BoundaryReaches(principal, permission, actor, organization);
    forall p | p in bundle.dataPolicies && Concerns(p, resource, action)
      ensures Accepts(p.rule, subject, actor, organization) <==>
              exists k :: k in p.dataScopes && KindAccepts(k, subject, actor, organization)
    {
      CanonicalMeaning(p.dataScopes, subject, actor, organization);
    }
    if actor != "" && organization != Some("") {
      forall k, s | KindAccepts(k, TrimmedSubject(s), actor, organization)
        ensures KindCovers(k, s, actor, organization)
      {
      }
    }
  }

  // For facts without surrounding white space the trimmed subject is the subject itself.
  lemma {:induction false} CleanSubject(s: Subject)
    requires Trimmed(s.subjectID) && Trimmed(s.orgID)
    requires forall v :: v in s.orgScopeIDs + s.supportOrgScopeIDs ==> Trimmed(v)
    ensures TrimmedSubject(s) == s
  {
    assert forall i :: 0 <= i < |s.orgScopeIDs| ==> s.orgScopeIDs[i] in s.orgScopeIDs + s.supportOrgScopeIDs;
    assert forall i :: 0 <= i < |s.supportOrgScopeIDs| ==>
           s.supportOrgScopeIDs[i] in s.orgScopeIDs + s.supportOrgScopeIDs;
    assert TrimAll(s.orgScopeIDs) == s.orgScopeIDs;
    assert TrimAll(s.supportOrgScopeIDs) == s.supportOrgScopeIDs;
  }

  // ---------- the subject's own facts ----------

  // What a collected scope admits with its values as they are.
  predicate Admits(scope: DataScope, actor: string, organization: Option<string>) {
    scope.all || actor in scope.subjectIDs || (organization.Some? && organization.value in scope.organizationIDs)
  }

  lemma {:induction false} WithKindAdmits(scope: DataScope, kind: ScopeKind, subject: Subject, actor: string,
                                          organization: Option<string>)
    requires !kind.Unsupported?
    ensures Admits(WithKind(scope, kind, subject), actor, organization) <==>
            Admits(scope, actor, organization) || KindAccepts(kind, subject, actor, organization)
  {
  }

  lemma {:induction false} WithKindsAdmit(scope: DataScope, kinds: seq<ScopeKind>, subject: Subject, actor: string,
                                          organization: Option<string>)
    requires Supported(kinds)
    ensures Admits(WithKinds(scope, kinds, subject), actor, organization) <==>
            Admits(scope, actor, organization) || exists k :: k in kinds && KindAccepts(k, subject, actor, organization)
  {
    if kinds != [] {
      var n := |kinds| - 1;
      WithKindsAdmit(scope, kinds[..n], subject, actor, organization);
      WithKindAdmits(WithKinds(scope, kinds[..n], subject), kinds[n], subject, actor, organization);
      assert kinds == kinds[..n] + [kinds[n]];
      assert forall k :: k in kinds <==> k in kinds[..n] || k == kinds[n];
    }
  }

  lemma {:induction false} CollectedAdmits(policies: seq<DataPolicy>, subject: Subject, resource: string,
                                           action: string, actor: string, organization: Option<string>)
    requires forall p :: p in policies && Concerns(p, resource, action) ==> Translatable(p)
    ensures Admits(Collected(policies, subject, resource, action), actor, organization) <==>
            exists p :: p in policies && Concerns(p, resource, action) && Accepts(p.rule, subject, actor, organization)
  {
    hide Canonical, Accepts;
    if policies != [] {
      var n := |policies| - 1;
      var last := policies[n];
      CollectedAdmits(policies[..n], subject, resource, action, actor, organization);
      assert policies == policies[..n] + [last];
      assert forall p :: p in policies <==> p in policies[..n] || p == last;
      if Concerns(last, resource, action) {
        WithKindsAdmit(Collected(policies[..n], subject, resource, action), last.dataScopes, subject, actor,
                       organization);
        CanonicalMeaning(last.dataScopes, subject, actor, organization);
      }
    }
  }

  // The scope collected from the policies, before it is normalised.
  function Gathered(principal: Principal, permission: string): DataScope
    requires IdentityHolds(principal, permission)
  {
    var bundle := principal.accessBundle.value;
    Collected(bundle.dataPolicies, bundle.subject, Resource(permission), Action(permission))
  }

  // Trimming a value gives a blank or another value of the list.
  predicate TrimsWithin(values: seq<string>) {
    forall v :: v in values ==> TrimSpace(v) == "" || TrimSpace(v) in values
  }

  // The values the policies refer to, as they stand in the subject: unrestricted, or closed under trimming.
  predicate FactsAreClean(principal: Principal, permission: string)
    requires IdentityHolds(principal, permission)
  {
    var scope := Gathered(principal, permission);
    scope.all || (TrimsWithin(scope.subjectIDs) && TrimsWithin(scope.organizationIDs))
  }

  // A record whose facts carry no surrounding white space; an organisation may be absent.
  predicate CleanRecord(actor: string, organization: Option<string>) {
    Trimmed(actor) && actor != "" && (organization.Some? ==> Trimmed(organization.value) && organization.value != "")
  }

  lemma {:induction false} ListsWhatItHolds(values: seq<string>, v: string)
    ensures ScopeSql.Lists(values, v) && TrimsWithin(values) ==> v in values
    ensures v in values && Trimmed(v) && v != "" ==> ScopeSql.Lists(values, v)
  {
    hide Trimmed;
    if ScopeSql.Lists(values, v) && TrimsWithin(values) {
      var i :| 0 <= i < |values| && TrimSpace(values[i]) == v;
      assert values[i] in values;
    }
    if v in values && Trimmed(v) {
      var i :| 0 <= i < |values| && values[i] == v;
      assert TrimSpace(values[i]) == v;
    }
  }

  // Scope compilation preserves meaning: under the subject's own facts the boundary covers a record exactly
  // when some matching policy accepts it, and record facts that are blank or carry white space only shrink it.
  lemma {:induction false} CompilationPreservesMeaning(principal: Principal, permission: string, actor: string,
                                                       organization: Option<string>)
    requires Granted(principal, permission) && FactsAreClean(principal, permission)
    ensures ScopeSql.Covers(Boundary(principal, permission), actor, organization) ==>
            PoliciesAccept(principal, permission, actor, organization)
    ensures CleanRecord(actor, organization) ==>
            (ScopeSql.Covers(Boundary(principal, permission), actor, organization) <==>
             PoliciesAccept(principal, permission, actor, organization))
  {
    hide Accepts, Concerns, Collected, Normalized, ScopeSql.Lists, TrimsWithin, Trimmed;
    BoundaryAndPolicies(principal, permission, actor, organization);
    var scope := Gathered(principal, permission);
    ListsWhatItHolds(scope.subjectIDs, actor);
    if organization.Some? {
      ListsWhatItHolds(scope.organizationIDs, organization.value);
    }
  }

  lemma {:induction false} BoundaryAndPolicies(principal: Principal, permission: string, actor: string,
                                               organization: Option<string>)
    requires Granted(principal, permission)
    ensures var scope := Gathered(principal, permission);
            && (ScopeSql.Covers(Boundary(principal, permission), actor, organization) <==>
                ScopeSql.Covers(scope, actor, organization))
            && (PoliciesAccept(principal, permission, actor, organization) <==> Admits(scope, actor, organization))
  {
    hide Accepts, Collected, Normalized, ScopeSql.Covers, Admits, Canonical, Supported;
    var bundle := principal.accessBundle.value;
    ScopeSql.CoversNormalized(Gathered(principal, permission), actor, organization);
    CollectedAdmits(bundle.dataPolicies, bundle.subject, Resource(permission), Action(permission), actor, organization);
  }

  // Facts without surrounding white space are clean.
  lemma {:induction false} CleanSubjectIsClean(principal: Principal, permission: string)
    requires IdentityHolds(principal, permission)
    requires var s := principal.accessBundle.value.subject;
             Trimmed(s.subjectID) && Trimmed(s.orgID) &&
             forall v :: v in s.orgScopeIDs + s.supportOrgScopeIDs ==> Trimmed(v)
    ensures FactsAreClean(principal, permission)
  {
    var bundle := principal.accessBundle.value;
    CleanSubject(bundle.subject);
    TrimmedFactsGather(bundle.dataPolicies, bundle.subject, Resource(permission), Action(permission));
  }

  lemma {:induction false} TrimmedFactsGather(policies: seq<DataPolicy>, subject: Subject, resource: string,
                                              action: string)
    requires TrimmedSubject(subject) == subject
    ensures var scope := Collected(policies, subject, resource, action);
            forall v :: v in scope.subjectIDs || v in scope.organizationIDs ==> TrimSpace(v) == v
  {
    if policies != [] {
      var n := |policies| - 1;
      TrimmedFactsGather(policies[..n], subject, resource, action);
      TrimmedFactsAdd(Collected(policies[..n], subject, resource, action), policies[n].dataScopes, subject);
    }
  }

  lemma {:induction false} TrimmedFactsAdd(scope: DataScope, kinds: seq<ScopeKind>, subject: Subject)
    requires TrimmedSubject(subject) == subject
    requires forall v :: v in scope.subjectIDs || v in scope.organizationIDs ==> TrimSpace(v) == v
    ensures var added := WithKinds(scope, kinds, subject);
            forall v :: v in added.subjectIDs || v in added.organizationIDs ==> TrimSpace(v) == v
  {
    hide TrimSpace;
    if kinds != [] {
      var n := |kinds| - 1;
      TrimmedFactsAdd(scope, kinds[..n], subject);
      TrimmedList(subject.orgScopeIDs);
      TrimmedList(subject.supportOrgScopeIDs);
    }
  }

  lemma {:induction false} TrimmedList(values: seq<string>)
    ensures TrimAll(values) == values ==> forall v :: v in values ==> TrimSpace(v) == v
  {
    hide TrimSpace;
    forall v | TrimAll(values) == values && v in values
      ensures TrimSpace(v) == v
    {
      var i :| 0 <= i < |values| && values[i] == v;
      assert TrimAll(values)[i] == TrimSpace(values[i]);
    }
  }

  // Boundary and policies agree on every clean record.
  ghost predicate AgreesOnCleanRecords(principal: Principal, permission: string)
    requires IdentityHolds(principal, permission)
  {
    forall actor, organization :: CleanRecord(actor, organization) ==>
      (ScopeSql.Covers(Boundary(principal, permission), actor, organization) <==>
       PoliciesAccept(principal, permission, actor, organization))
  }

  // The condition is exact: a value whose trimmed form the policies do not list widens the boundary.
  lemma {:induction false} CompilationExactly(principal: Principal, permission: string)
    requires Granted(principal, permission)
    ensures AgreesOnCleanRecords(principal, permission) <==> FactsAreClean(principal, permission)
  {
    hide Accepts, Concerns, Collected, Normalized, ScopeSql.Lists, TrimSpace;
    var scope := Gathered(principal, permission);
    if FactsAreClean(principal, permission) {
      forall actor, organization | CleanRecord(actor, organization)
        ensures ScopeSql.Covers(Boundary(principal, permission), actor, organization) <==>
                PoliciesAccept(principal, permission, actor, organization)
      {
        CompilationPreservesMeaning(principal, permission, actor, organization);
      }
    } else if !TrimsWithin(scope.subjectIDs) {
      var v :| v in scope.subjectIDs && TrimSpace(v) != "" && TrimSpace(v) !in scope.subjectIDs;
      ListsTrimmedOf(scope.subjectIDs, v);
      BoundaryAndPolicies(principal, permission, TrimSpace(v), None);
      assert CleanRecord(TrimSpace(v), None);
    } else {
      var v :| v in scope.organizationIDs && TrimSpace(v) != "" && TrimSpace(v) !in scope.organizationIDs;
      ListsTrimmedOf(scope.organizationIDs, v);
      var actor := FreshActor(scope.subjectIDs);
      BoundaryAndPolicies(principal, permission, actor, Some(TrimSpace(v)));
      assert CleanRecord(actor, Some(TrimSpace(v)));
    }
  }

  lemma {:induction false} ListsTrimmedOf(values: seq<string>, v: string)
    requires v in values && TrimSpace(v) != ""
    ensures ScopeSql.Lists(values, TrimSpace(v))
  {
    hide TrimSpace;
    var i :| 0 <= i < |values| && values[i] == v;
  }

  // An actor that is none of the listed ones.
  lemma {:induction false} FreshActor(values: seq<string>) returns (actor: string)
    ensures actor != "" && Trimmed(actor) && actor !in values
  {
    var n := 1;
    for i := 0 to |values|
      invariant 1 <= n && forall k :: 0 <= k < i ==> |values[k]| < n
    {
      if n <= |values[i]| {
        n := |values[i]| + 1;
      }
    }
    actor := seq(n, i => 'a');
    assert |actor| == n;
  }

  // The boundary of a subject whose id carries white space covers an actor no policy accepts.
  lemma {:induction false} UntrimmedSubjectWidens()
    ensures var policy := DataPolicy("audit.business", "read", Allow, [Owner], Canonical([Owner]));
            var bundle := AccessBundle(Subject("w", " u1", "", [], []), [policy], [], true);
            var principal := Principal(true, "w", "u1", {"audit.business.read"}, Some(bundle));
            && Granted(principal, "audit.business.read")
            && ScopeSql.Covers(Boundary(principal, "audit.business.read"), "u1", None)
            && !PoliciesAccept(principal, "audit.business.read", "u1", None)
  {
    var policy := DataPolicy("audit.business", "read", Allow, [Owner], Canonical([Owner]));
    var bundle := AccessBundle(Subject("w", " u1", "", [], []), [policy], [], true);
    var principal := Principal(true, "w", "u1", {"audit.business.read"}, Some(bundle));
    var permission := "audit.business.read";
    hide Canonical, Collected, Accepts, Supported, TrimSpace, ScopeSql.Covers, Normalized, SplitsExactly, Resource,
      Action;
    TrimsOneSpace("u1");
    ExamplePermission();
    CanonicalSupported();
    assert policy in bundle.dataPolicies && Concerns(policy, "audit.business", "read");
    assert " " + "u1" == " u1";
    OneOwnerPolicy(policy, bundle.subject, "audit.business", "read");
    BoundaryAndPolicies(principal, permission, "u1", None);
    OneUntrimmedSubject(" u1", "u1");
  }

  lemma {:induction false} CanonicalSupported()
    ensures Supported([Owner])
  {
  }

  lemma {:induction false} OneOwnerPolicy(policy: DataPolicy, subject: Subject, resource: string, action: string)
    requires Concerns(policy, resource, action) && policy.dataScopes == [Owner]
    ensures Collected([policy], subject, resource, action) == DataScope(false, [subject.subjectID], [])
  {
    var none := DataScope(false, [], []);
    assert [Owner][..0] == [] && [policy][..0] == [];
    assert Collected([], subject, resource, action) == none && WithKinds(none, [], subject) == none;
    assert WithKinds(none, [Owner], subject) == WithKind(none, Owner, subject);
  }

  lemma {:induction false} OneUntrimmedSubject(listed: string, actor: string)
    requires TrimSpace(listed) == actor && actor != "" && actor != listed
    ensures ScopeSql.Covers(DataScope(false, [listed], []), actor, None) &&
            !Admits(DataScope(false, [listed], []), actor, None)
  {
    hide TrimSpace;
    assert TrimSpace([listed][0]) == actor;
  }

  lemma {:induction false} TrimsOneSpace(s: string)
    requires Trimmed(s) && s != ""
    ensures TrimSpace(" " + s) == s
  {
    assert (" " + s)[1..] == s;
    assert TrimLeft(" " + s) == TrimLeft(s) == s;
  }

  lemma {:induction false} ExamplePermission()
    ensures SplitsExactly("audit.business.read") && Resource("audit.business.read") == "audit.business"
    ensures Action("audit.business.read") == "read"
    ensures TrimSpace("audit.business") == "audit.business" && TrimSpace("read") == "read"
    ensures TrimSpace("w") == "w" && TrimSpace("u1") == "u1"
  {
    assert Trimmed("audit.business") && Trimmed("read") && Trimmed("w") && Trimmed("u1");
    var s := "audit.business.read";
    assert s[..18] == "audit.business.rea" && s[..18][..17] == "audit.business.re" &&
           s[..18][..17][..16] == "audit.business.r";
    assert "audit.business.r"[..15] == "audit.business.";
    assert LastDot("audit.business.") == 14;
    assert LastDot("audit.business.r") == 14 && LastDot("audit.business.re") == 14 &&
           LastDot("audit.business.rea") == 14;
    assert LastDot(s) == 14;
  }

  function Reordered(principal: Principal, policies: seq<DataPolicy>): Principal
    requires principal.accessBundle.Some?
  {
    principal.(accessBundle := Some(principal.accessBundle.value.(dataPolicies := policies)))
  }

  // The order of the policies decides neither the grant nor the accepted rows.
  lemma {:induction false} PolicyOrderIsIrrelevant(principal: Principal, permission: string,
                                                   policies: seq<DataPolicy>, actor: string,
                                                   organization: Option<string>)
    requires principal.accessBundle.Some?
    requires multiset(policies) == multiset(principal.accessBundle.value.dataPolicies)
    ensures Granted(Reordered(principal, policies), permission) <==> Granted(principal, permission)
    ensures Granted(principal, permission) ==>
            (ScopeSql.Covers(Boundary(Reordered(principal, policies), permission), actor, organization) <==>
             ScopeSql.Covers(Boundary(principal, permission), actor, organization))
  {
    var before := principal.accessBundle.value.dataPolicies;
    forall p
      ensures p in policies <==> p in before
    {
      assert p in policies <==> p in multiset(policies);
      assert p in before <==> p in multiset(before);
    }
    if Granted(principal, permission) {
      BoundaryReaches(principal, permission, actor, organization);
      BoundaryReaches(Reordered(principal, policies), permission, actor, organization);
    }
  }

  // The canonical predicate, written out.
  function Rule(kind: ScopeKind): PolicyPredicate {
    if kind.Owner? then Fact("owner_user_id", OperatorEqual, Reference("$subject.id"))
    else if kind.Org? then Fact("owner_org_id", OperatorEqual, Reference("$subject.org_id"))
    else if kind.OrgChild? then Fact("owner_org_id", OperatorIn, Reference("$subject.org_scope_ids"))
    else if kind.TargetOrg? then Fact("owner_org_id", OperatorIn, Reference("$subject.support_org_scope_ids"))
    else if kind.All? then Unconditional
    else Fact("__audit_scope_unsupported__", OperatorEqual, Flag(true))
  }

  function Rules(scopes: seq<ScopeKind>): (r: seq<PolicyPredicate>)
    ensures |r| == |scopes| && forall i :: 0 <= i < |scopes| ==> r[i] == Rule(scopes[i])
  {
    seq(|scopes|, i requires 0 <= i < |scopes| => Rule(scopes[i]))
  }

  predicate Ordinary(kind: ScopeKind) {
    !kind.All? && !kind.Unsupported?
  }

  // One scope stands by itself, several or none in an any-list; the first unrestricted or unsupported one decides.
  lemma {:induction false} CanonicalInFull(scopes: seq<ScopeKind>)
    ensures (forall k :: k in scopes ==> Ordinary(k)) ==>
              Canonical(scopes) == if |scopes| == 1 then Rule(scopes[0]) else AnyOf(Rules(scopes))
    ensures forall k ::
              (0 <= k < |scopes| && !Ordinary(scopes[k]) && (forall i :: 0 <= i < k ==> Ordinary(scopes[i]))) ==>
              Canonical(scopes) == Rule(scopes[k])
  {
    if forall k :: k in scopes ==> Ordinary(k) {
      OrdinaryScopes(scopes, []);
      assert [] + Rules(scopes) == Rules(scopes);
    }
    forall k | 0 <= k < |scopes| && !Ordinary(scopes[k]) && (forall i :: 0 <= i < k ==> Ordinary(scopes[i]))
      ensures Canonical(scopes) == Rule(scopes[k])
    {
      FirstSpecial(scopes, [], k);
    }
  }

  lemma {:induction false} OrdinaryScopes(scopes: seq<ScopeKind>, before: seq<PolicyPredicate>)
    requires forall k :: k in scopes ==> Ordinary(k)
    ensures var parts := before + Rules(scopes);
            CanonicalFrom(scopes, before) == if |parts| == 1 then parts[0] else AnyOf(parts)
  {
    if scopes == [] {
      assert before + Rules(scopes) == before;
    } else {
      assert scopes[0] in scopes && KindPredicate(scopes[0]) == Rule(scopes[0]);
      OrdinaryScopes(scopes[1..], before + [Rule(scopes[0])]);
      assert (before + [Rule(scopes[0])]) + Rules(scopes[1..]) == before + Rules(scopes);
    }
  }

  lemma {:induction false} FirstSpecial(scopes: seq<ScopeKind>, before: seq<PolicyPredicate>, k: nat)
    requires k < |scopes| && !Ordinary(scopes[k]) && forall i :: 0 <= i < k ==> Ordinary(scopes[i])
    ensures CanonicalFrom(scopes, before) == Rule(scopes[k])
  {
    if k > 0 {
      assert Ordinary(scopes[0]);
      FirstSpecial(scopes[1..], before + [KindPredicate(scopes[0])], k - 1);
    }
  }
}
