// What an export contains, exactly, and when a preparation can be repeated.
module ExportContents {
  import opened Wrappers
  import opened Text
  import opened DataScopes
  import opened ExportFilters
  import opened Authorization
  import opened ExportTable
  import opened ExportProtocol
  import opened ExportPrepare
  import opened ExportLifecycle
  import opened EventTable
  import opened EventOrder
  import EventClass
  import EventFacts
  import EventQuery
  import Pagination
  import ScopeSql

  // The event is one the filters and the data scope ask for; its result is left aside.
  ghost predicate Asked(eh: EventQuery.Host, filters: ExportFilter, p: ExportPrincipal, scope: DataScope, e: Row) {
    && e.workspace == TrimSpace(p.workspaceID)
    && (TrimSpace(filters.event) == "" || e.event == TrimSpace(filters.event))
    && (TrimSpace(filters.objectKey) == "" || e.objectKey == TrimSpace(filters.objectKey))
    && (TrimSpace(filters.recordID) == "" || e.recordID == TrimSpace(filters.recordID))
    && (TrimSpace(filters.actorID) == "" || e.actorID == TrimSpace(filters.actorID))
    && (TrimSpace(filters.roleKey) == "" || e.roleKey == TrimSpace(filters.roleKey))
    && (TrimSpace(filters.createdFrom) == "" || AtMost(TrimSpace(filters.createdFrom), e.createdAt))
    && (TrimSpace(filters.createdTo) == "" || AtMost(e.createdAt, TrimSpace(filters.createdTo)))
    && EventClass.ClassOf(eh.markers, e) == "business"
    && ScopeSql.Covers(scope, e.actorID, e.actorOrg)
  }

  // As many newer events are asked for as one export takes.
  ghost predicate Buried(eh: EventQuery.Host, events: seq<Row>, filters: ExportFilter, p: ExportPrincipal,
                         scope: DataScope, e: Row) {
    exists newer: seq<Row> :: |newer| == EXPORT_MAX_ROWS && Descending(Keys(newer)) &&
      forall y :: y in newer ==> y in events && Asked(eh, filters, p, scope, y) && KeyLess(KeyOf(e), KeyOf(y))
  }

  // ---------- the listing ----------

  lemma {:induction false} AskedIsMatched(eh: EventQuery.Host, filters: ExportFilter, p: ExportPrincipal,
                                          scope: DataScope, e: Row)
    ensures Asked(eh, filters, p, scope, e) <==>
            e.workspace == TrimSpace(p.workspaceID) &&
            EventQuery.Matches(eh, ListingQuery(filters), Normalized(scope), None, e)
  {
    hide Contains, EventQuery.RequestIDText, TrimSpace, EventClass.ClassOf, ScopeSql.Covers, Less;
    Pagination.KindIsTrimmed(EventClass.BUSINESS);
    assert TrimSpace("") == "";
    ScopeSql.CoversNormalized(scope, e.actorID, e.actorOrg);
  }

  // What a listing holds: exactly the events asked for that are not buried.
  lemma {:induction false} ListedExactly(eh: EventQuery.Host, events: seq<Row>, filters: ExportFilter,
                                         p: ExportPrincipal, scope: DataScope, e: Row)
    requires UniqueKeys(events)
    ensures var listed := EventQuery.ListRows(eh, events, Some(TrimSpace(p.workspaceID)), ListingQuery(filters),
                                              Normalized(scope));
            && listed.Success? && |listed.value| <= EXPORT_MAX_ROWS
            && (e in listed.value <==>
                  e in events && Asked(eh, filters, p, scope, e) && !Buried(eh, events, filters, p, scope, e))
  {
    hide EventQuery.ListRows, EventQuery.Matches, Asked, KeyLess, TrimSpace;
    var workspace, q := TrimSpace(p.workspaceID), ListingQuery(filters);
    NoCursor(eh, filters);
    EventQuery.ListIsNewestMatches(eh, events, workspace, q, Normalized(scope), None);
    var listed := EventQuery.ListRows(eh, events, Some(workspace), q, Normalized(scope)).value;
    forall x | x in events && x.workspace == workspace
      ensures Asked(eh, filters, p, scope, x) <==> EventQuery.Matches(eh, q, Normalized(scope), None, x)
    {
      AskedIsMatched(eh, filters, p, scope, x);
    }
    forall x | x in listed
      ensures x in events && Asked(eh, filters, p, scope, x)
    {
    }
    if e in listed {
      if newer: seq<Row> :| |newer| == EXPORT_MAX_ROWS && Descending(Keys(newer)) &&
                            forall y :: y in newer ==>
                              y in events && Asked(eh, filters, p, scope, y) && KeyLess(KeyOf(e), KeyOf(y)) {
        forall y | y in newer
          ensures y in listed
        {
          AskedIsMatched(eh, filters, p, scope, y);
          if y !in listed {
            KeyLessTransitive(KeyOf(y), KeyOf(e), KeyOf(y));
            KeyLessTotal(KeyOf(y), KeyOf(y));
          }
        }
        OneMoreThanFits(listed, newer, e);
      }
    } else if e in events && Asked(eh, filters, p, scope, e) {
      AskedIsMatched(eh, filters, p, scope, e);
      assert forall y :: y in listed ==> y in events && Asked(eh, filters, p, scope, y) && KeyLess(KeyOf(e), KeyOf(y));
      assert Buried(eh, events, filters, p, scope, e);
    }
  }

  lemma {:induction false} ListingSucceeds(eh: EventQuery.Host, events: seq<Row>, filters: ExportFilter,
                                           workspace: string, scope: DataScope)
    ensures EventQuery.ListRows(eh, events, Some(workspace), ListingQuery(filters), scope).Success?
  {
    hide EventQuery.ListPredicates, EventQuery.QueryCursor;
    NoCursor(eh, filters);
  }

  lemma {:induction false} OneMoreThanFits(listed: seq<Row>, newer: seq<Row>, e: Row)
    requires Descending(Keys(newer)) && e in listed
    requires forall y :: y in newer ==> y in listed && KeyLess(KeyOf(e), KeyOf(y))
    ensures |newer| < |listed|
  {
    hide KeyLess;
    var keys := Keys(newer) + [KeyOf(e)];
    forall i, j | 0 <= i < j < |keys|
      ensures KeyLess(keys[j], keys[i])
    {
      assert keys[i] == Keys(newer)[i] && newer[i] in newer;
    }
    forall k | k in keys
      ensures exists x :: x in listed && KeyOf(x) == k
    {
      var i :| 0 <= i < |keys| && keys[i] == k;
      if i < |newer| {
        assert newer[i] in newer;
      }
    }
    DistinctKeysFit(keys, listed);
  }

  // ---------- the export ----------

  lemma {:induction false} WantedIsExported(eh: EventQuery.Host, result: string, listed: seq<Row>, e: Row)
    requires e in listed && Wanted(eh, result, e)
    ensures ColumnsOf(eh, e) in ExportRows(eh, result, listed)
  {
    hide Wanted, ColumnsOf;
    var n := |listed| - 1;
    if e != listed[n] {
      assert e in listed[..n];
      WantedIsExported(eh, result, listed[..n], e);
    }
  }

  lemma {:induction false} ExportRowsExactly(eh: EventQuery.Host, events: seq<Row>, filters: ExportFilter,
                                         p: ExportPrincipal, scope: DataScope, x: seq<string>)
    requires UniqueKeys(events) && TrimSpace(p.workspaceID) != ""
    ensures RowsFor(eh, events, filters, p, scope).Success?
    ensures x in RowsFor(eh, events, filters, p, scope).value <==>
            exists e :: e in events && Asked(eh, filters, p, scope, e) && Wanted(eh, filters.result, e) &&
                        !Buried(eh, events, filters, p, scope, e) && x == ColumnsOf(eh, e)
  {
    hide Wanted, ColumnsOf, EventQuery.ListRows, Asked, Buried, TrimSpace;
    var listed := EventQuery.ListRows(eh, events, Some(TrimSpace(p.workspaceID)), ListingQuery(filters),
                                      Normalized(scope));
    ListingSucceeds(eh, events, filters, TrimSpace(p.workspaceID), Normalized(scope));
    forall e
      ensures e in listed.value <==>
              e in events && Asked(eh, filters, p, scope, e) && !Buried(eh, events, filters, p, scope, e)
    {
      ListedExactly(eh, events, filters, p, scope, e);
    }
    if x in RowsFor(eh, events, filters, p, scope).value {
      ExportedRowHasSource(eh, filters.result, listed.value, x);
    }
    forall e | e in listed.value && Wanted(eh, filters.result, e)
      ensures ColumnsOf(eh, e) in RowsFor(eh, events, filters, p, scope).value
    {
      WantedIsExported(eh, filters.result, listed.value, e);
    }
  }

  // An export holds, in ten columns, exactly the business events with the wanted result that are asked for and
  // not buried under newer ones: nothing else, and none of these is missing.
  lemma {:induction false} ExportIsExact(eh: EventQuery.Host, events: seq<Row>, filters: ExportFilter,
                                         p: ExportPrincipal, scope: DataScope, x: seq<string>)
    requires UniqueKeys(events) && TrimSpace(p.workspaceID) != ""
    ensures RowsFor(eh, events, filters, p, scope).Success?
    ensures x in RowsFor(eh, events, filters, p, scope).value <==>
            exists e :: e in events && Asked(eh, filters, p, scope, e) && !Buried(eh, events, filters, p, scope, e) &&
              eh.classify(e) == "business" &&
              var facts := (key: string) => eh.lookup(e.metadata, key);
              var requestID := if facts("request_id").Some? then TrimSpace(facts("request_id").value) else "";
              var result := EventFacts.ResultOf(e.event, facts);
              (filters.result == "" || ToLower(filters.result) == ToLower(result)) &&
              x == [e.id, e.event, e.objectKey, e.recordID, e.actorID, e.roleKey, requestID, result,
                    EventFacts.ReasonOf(facts), e.createdAt]
  {
    hide EventQuery.ListRows, Asked, Buried, TrimSpace, RowsFor, ToLower, EventFacts.ResultOf, EventFacts.ReasonOf;
    ExportRowsExactly(eh, events, filters, p, scope, x);
  }

  // ---------- repeating a preparation ----------

  // Some event would be exported now.
  ghost predicate SomethingToExport(eh: EventQuery.Host, events: seq<Row>, filters: ExportFilter, p: ExportPrincipal,
                                    scope: DataScope) {
    exists e :: e in events && Asked(eh, filters, p, scope, e) && Wanted(eh, filters.result, e) &&
                !Buried(eh, events, filters, p, scope, e)
  }

  lemma {:induction false} NothingMeansEmpty(eh: EventQuery.Host, events: seq<Row>, filters: ExportFilter,
                                             p: ExportPrincipal, scope: DataScope)
    requires UniqueKeys(events) && TrimSpace(p.workspaceID) != ""
    ensures RowsFor(eh, events, filters, p, scope).Success?
    ensures RowsFor(eh, events, filters, p, scope).value == [] <==> !SomethingToExport(eh, events, filters, p, scope)
  {
    hide Wanted, ColumnsOf, RowsFor, Asked, Buried, TrimSpace;
    ExportRowsExactly(eh, events, filters, p, scope, []);
    var rows := RowsFor(eh, events, filters, p, scope).value;
    if rows != [] {
      assert rows[0] in rows;
      ExportRowsExactly(eh, events, filters, p, scope, rows[0]);
    }
    if e :| e in events && Asked(eh, filters, p, scope, e) && Wanted(eh, filters.result, e) &&
            !Buried(eh, events, filters, p, scope, e) {
      ExportRowsExactly(eh, events, filters, p, scope, ColumnsOf(eh, e));
    }
  }

  // In terms of the event table: the second preparation replays the first exactly as long as some event
  // of the table would still be exported.
  lemma {:induction false} ReplayExactly(h: Host, key: string, eh: EventQuery.Host, events: seq<Row>, later: seq<Row>,
                                         rows: seq<Artifact>, current: seq<Artifact>, c: PrepareCall, d: PrepareCall)
    requires GivesDigests(h) && UniqueArtifacts(rows) && UniqueArtifacts(current) && SameCall(h, c, d) && d.authorized
    requires UniqueKeys(later) && Prepare(h, key, eh, events, rows, c, true).1.Success?
    requires RowsDevelop(Prepare(h, key, eh, events, rows, c, true).0, current)
    ensures NormalizeOf(d.request, d.now).Success?
    ensures Prepare(h, key, eh, later, current, d, true) ==
            (current, if SomethingToExport(eh, later, NormalizeOf(d.request, d.now).value, d.principal, d.scope)
                      then Prepare(h, key, eh, events, rows, c, true).1 else Failure(NO_RESULTS))
  {
    hide NormalizeOf, Prepare, RowsFor, SomethingToExport, GivesDigests, UniqueArtifacts, RowsDevelop, TrimSpace;
    PrepareReplays(h, key, eh, events, later, rows, current, c, d);
    PreparedHasWorkspace(h, key, eh, events, rows, c);
    SameWorkspace(h, c, d);
    NothingMeansEmpty(eh, later, NormalizeOf(d.request, d.now).value, d.principal, d.scope);
  }

  lemma {:induction false} SameWorkspace(h: Host, c: PrepareCall, d: PrepareCall)
    requires SameCall(h, c, d)
    ensures TrimSpace(c.principal.workspaceID) == TrimSpace(d.principal.workspaceID)
    ensures NormalizeOf(c.request, c.now) == NormalizeOf(d.request, d.now)
  {
    hide TrimSpace, NormalizeOf;
  }

  // What a successful preparation started from.
  lemma {:induction false} PreparedHasWorkspace(h: Host, key: string, eh: EventQuery.Host, events: seq<Row>,
                                                rows: seq<Artifact>, c: PrepareCall)
    requires Prepare(h, key, eh, events, rows, c, true).1.Success?
    ensures TrimSpace(c.principal.workspaceID) != "" && NormalizeOf(c.request, c.now).Success?
    ensures var exported := RowsFor(eh, events, NormalizeOf(c.request, c.now).value, c.principal, c.scope);
            exported.Success? && exported.value != []
  {
    hide NormalizeOf, TrimSpace, RunCreate, EventQuery.ListRows, ExportRows, Mint;
  }

  // Without a result filter every event asked for is wanted, so one is enough.
  lemma {:induction false} AnyAskedIsExported(eh: EventQuery.Host, events: seq<Row>, filters: ExportFilter,
                                              p: ExportPrincipal, scope: DataScope)
    requires Pagination.ClassifierAgrees(eh) && UniqueKeys(events) && filters.result == ""
    ensures SomethingToExport(eh, events, filters, p, scope) <==>
            exists e :: e in events && Asked(eh, filters, p, scope, e)
  {
    hide Asked, Wanted, EventQuery.ListRows, TrimSpace, KeyLess;
    if e :| e in events && Asked(eh, filters, p, scope, e) {
      var listed := EventQuery.ListRows(eh, events, Some(TrimSpace(p.workspaceID)), ListingQuery(filters),
                                        Normalized(scope));
      ListingIsNotEmpty(eh, events, filters, p, scope, e);
      var x := listed.value[0];
      ListedExactly(eh, events, filters, p, scope, x);
      AskedIsWanted(eh, filters, p, scope, x);
    }
  }

  lemma {:induction false} ListingIsNotEmpty(eh: EventQuery.Host, events: seq<Row>, filters: ExportFilter,
                                             p: ExportPrincipal, scope: DataScope, e: Row)
    requires UniqueKeys(events) && e in events && Asked(eh, filters, p, scope, e)
    ensures var listed := EventQuery.ListRows(eh, events, Some(TrimSpace(p.workspaceID)), ListingQuery(filters),
                                              Normalized(scope));
            listed.Success? && listed.value != []
  {
    hide EventQuery.ListRows, EventQuery.Matches, Asked, KeyLess, TrimSpace;
    NoCursor(eh, filters);
    EventQuery.ListIsNewestMatches(eh, events, TrimSpace(p.workspaceID), ListingQuery(filters), Normalized(scope),
                                   None);
    AskedIsMatched(eh, filters, p, scope, e);
  }

  lemma {:induction false} AskedIsWanted(eh: EventQuery.Host, filters: ExportFilter, p: ExportPrincipal,
                                         scope: DataScope, e: Row)
    requires Pagination.ClassifierAgrees(eh) && filters.result == "" && Asked(eh, filters, p, scope, e)
    ensures Wanted(eh, filters.result, e)
  {
    hide EventQuery.FieldMatches, EventQuery.FromMatches, EventQuery.ToMatches, Contains, EventQuery.RequestIDText,
      TrimSpace,
      EventClass.ClassOf, ScopeSql.Covers;
    Pagination.KindIsTrimmed(EventClass.BUSINESS);
    assert EventQuery.ClassMatches(eh.markers, EventClass.BUSINESS, e);
    assert eh.classify(e) == EventClass.ClassOf(eh.markers, e);
  }

  // Without a result filter, however the log has grown, the same call under the same scope always replays.
  lemma {:induction false} GrowingLogReplays(h: Host, key: string, eh: EventQuery.Host, events: seq<Row>,
                                             later: seq<Row>, rows: seq<Artifact>, current: seq<Artifact>,
                                             c: PrepareCall, d: PrepareCall)
    requires GivesDigests(h) && UniqueArtifacts(rows) && UniqueArtifacts(current) && SameCall(h, c, d) && d.authorized
    requires Prepare(h, key, eh, events, rows, c, true).1.Success?
    requires RowsDevelop(Prepare(h, key, eh, events, rows, c, true).0, current)
    requires Pagination.ClassifierAgrees(eh) && UniqueKeys(events) && UniqueKeys(later) && events <= later
    requires Normalized(c.scope) == Normalized(d.scope) && ToLower(TrimSpace(d.request.filters.result)) == ""
    ensures Prepare(h, key, eh, later, current, d, true) == (current, Prepare(h, key, eh, events, rows, c, true).1)
  {
    hide NormalizeOf, Prepare, RowsFor, Asked, Wanted, GivesDigests, UniqueArtifacts, RowsDevelop, TrimSpace, Buried,
      UniqueKeys,
      Normalized, ToLower;
    ReplayExactly(h, key, eh, events, later, rows, current, c, d);
    PreparedHasWorkspace(h, key, eh, events, rows, c);
    SameWorkspace(h, c, d);
    var filters := NormalizeOf(d.request, d.now).value;
    NormalizedResult(d.request, d.now);
    NothingMeansEmpty(eh, events, filters, c.principal, c.scope);
    var e :| e in events && Asked(eh, filters, c.principal, c.scope, e);
    AskedUnderSameScope(eh, filters, c.principal, c.scope, d.principal, d.scope, e);
    var i :| 0 <= i < |events| && events[i] == e;
    assert later[i] == e;
    AnyAskedIsExported(eh, later, filters, d.principal, d.scope);
  }

  lemma {:induction false} NormalizedResult(request: ExportRequest, now: int)
    requires NormalizeOf(request, now).Success?
    ensures NormalizeOf(request, now).value.result == ToLower(TrimSpace(request.filters.result))
  {
    hide UtcBound, TrimSpace, ToLower, CleanFields, Cutoff, Less;
  }

  lemma {:induction false} AskedUnderSameScope(eh: EventQuery.Host, filters: ExportFilter, p: ExportPrincipal,
                                               scope: DataScope, q: ExportPrincipal, other: DataScope, e: Row)
    requires TrimSpace(p.workspaceID) == TrimSpace(q.workspaceID) && Normalized(scope) == Normalized(other)
    ensures Asked(eh, filters, p, scope, e) <==> Asked(eh, filters, q, other, e)
  {
    hide EventQuery.Matches, Asked, Normalized, TrimSpace;
    AskedIsMatched(eh, filters, p, scope, e);
    AskedIsMatched(eh, filters, q, other, e);
  }

  // ---------- a result filter can lose the replay ----------

  // The n-th event of a run of like ones: same time, ids of ascending length.
  function Like(e: Row, n: nat): Row {
    e.(event := "x", id := seq(n + 1, i => 'b'))
  }

  // The newest n of them, newest first.
  function Newer(e: Row, n: nat): (r: seq<Row>)
    ensures |r| == n && forall i :: 0 <= i < n ==> r[i] == Like(e, n - 1 - i)
  {
    seq(n, i requires 0 <= i < n => Like(e, n - 1 - i))
  }

  lemma {:induction false} LongerIsGreater(m: nat, n: nat)
    ensures Less(seq(m, i => 'b'), seq(n, i => 'b')) <==> m < n
  {
    var a, b := seq(m, i => 'b'), seq(n, i => 'b');
    if m > 0 && n > 0 {
      LongerIsGreater(m - 1, n - 1);
      assert a[1..] == seq(m - 1, i => 'b') && b[1..] == seq(n - 1, i => 'b');
    }
  }

  lemma {:induction false} NewerAreNewer(e: Row, n: nat)
    requires e.id == "a"
    ensures Descending(Keys(Newer(e, n))) && UniqueKeys([e] + Newer(e, n))
    ensures forall y :: y in Newer(e, n) ==> KeyLess(KeyOf(e), KeyOf(y))
  {
    var newer := Newer(e, n);
    LessIrreflexive(e.createdAt);
    forall i, j | 0 <= i < j < n
      ensures KeyLess(KeyOf(newer[j]), KeyOf(newer[i])) && newer[i].id != newer[j].id
    {
      LongerIsGreater(n - j, n - i);
      assert |newer[j].id| == n - j && |newer[i].id| == n - i;
    }
    forall i | 0 <= i < n
      ensures KeyLess(KeyOf(e), KeyOf(newer[i])) && newer[i].id != e.id
    {
      assert newer[i].id[0] == 'b' && e.id[0] == 'a';
    }
  }

  // No class markers, and metadata that says nothing.
  ghost predicate Plain(eh: EventQuery.Host) {
    && Pagination.ClassifierAgrees(eh) && eh.markers == EventClass.Markers([], [])
    && forall text, key :: eh.lookup(text, key).None?
  }

  lemma {:induction false} PlainFacts(eh: EventQuery.Host, e: Row)
    requires Plain(eh)
    ensures e.event == "x" ==> eh.classify(e) == EventClass.BUSINESS && !Wanted(eh, "denied", e)
    ensures e.event == "denied" ==> eh.classify(e) == EventClass.BUSINESS && Wanted(eh, "denied", e)
  {
    hide EventFacts.ResultOf, EventClass.ClassOf;
    assert eh.classify(e) == EventClass.ClassOf(eh.markers, e);
    assert ToLower("x") == "x" && ToLower("denied") == "denied" && ToLower("") == "";
    if e.event == "x" || e.event == "denied" {
      PlainClass(eh.markers, e);
      PlainResult(e.event, FactsOf(eh, e));
    }
  }

  lemma {:induction false} PlainClass(markers: EventClass.Markers, e: Row)
    requires markers == EventClass.Markers([], []) && (e.event == "x" || e.event == "denied")
    ensures EventClass.ClassOf(markers, e) == EventClass.BUSINESS
  {
    var event := ToLower(e.event);
    assert event[0] == 'x' || event[0] == 'd';
    assert forall prefix: string :: prefix != "" && HasPrefix(event, prefix) ==> event[0] == prefix[0];
  }

  lemma {:induction false} PlainResult(event: string, facts: EventFacts.Metadata)
    requires forall key :: facts(key).None?
    ensures event == "x" ==> EventFacts.ResultOf(event, facts) == ""
    ensures event == "denied" ==> EventFacts.ResultOf(event, facts) == "denied"
  {
    hide Contains;
    NoStatedResult(facts, EventFacts.RESULT_KEYS);
    assert ToLower("x") == "x" && ToLower("denied") == "denied";
    ShortTextHasNoWord(EventFacts.RESULT_WORDS);
    ContainsItself("denied");
  }

  lemma {:induction false} NoStatedResult(facts: EventFacts.Metadata, keys: seq<string>)
    requires forall key :: facts(key).None?
    ensures EventFacts.FirstResult(facts, keys).None?
  {
    if keys != [] {
      NoStatedResult(facts, keys[1..]);
    }
  }

  lemma {:induction false} ContainsItself(s: string)
    ensures Contains(s, s)
  {
    assert s[0..] == s && s[..|s|] == s;
    assert HasPrefix(s[0..], s);
  }

  lemma {:induction false} ShortTextHasNoWord(words: seq<string>)
    requires forall w :: w in words ==> |w| > 1
    ensures EventFacts.FirstWord("x", words) == ""
  {
    if words != [] {
      assert words[0] in words && forall w :: w in words[1..] ==> w in words;
      assert !Contains("x", words[0]);
      ShortTextHasNoWord(words[1..]);
    }
  }

  lemma {:induction false} PlainlyAsked(eh: EventQuery.Host, p: ExportPrincipal, e: Row)
    requires Plain(eh) && e.workspace == TrimSpace(p.workspaceID) && eh.classify(e) == EventClass.BUSINESS
    ensures Asked(eh, ExportFilter("", "", "", "", "", "denied", e.createdAt, ""), p, AllDataScope(), e) <==>
            EventQuery.FromMatches(e.createdAt, e)
  {
    hide EventClass.ClassOf, TrimSpace, Less;
    assert Trimmed("") && TrimSpace("") == "";
    assert eh.classify(e) == EventClass.ClassOf(eh.markers, e);
  }

  // A result filter does not enter the listing, so newer events with other results can fill it: a
  // preparation that succeeded once is then told that there is nothing to export, although its event is
  // still there, still asked for and still wanted.
  lemma {:induction false} NewerResultsHideTheExport(eh: EventQuery.Host, p: ExportPrincipal, e: Row)
    requires Plain(eh) && TrimSpace(p.workspaceID) != "" && Trimmed(e.createdAt)
    requires e.workspace == TrimSpace(p.workspaceID) && e.id == "a" && e.event == "denied"
    ensures var filters := ExportFilter("", "", "", "", "", "denied", e.createdAt, "");
            var scope, later := AllDataScope(), [e] + Newer(e, EXPORT_MAX_ROWS);
            && RowsFor(eh, [e], filters, p, scope).Success? && RowsFor(eh, [e], filters, p, scope).value != []
            && UniqueKeys(later) && [e] <= later && e in later && Asked(eh, filters, p, scope, e)
            && Wanted(eh, filters.result, e) && RowsFor(eh, later, filters, p, scope) == Success([])
  {
    hide RowsFor, Wanted, Asked, TrimSpace, KeyLess, ColumnsOf, Plain;
    var filters := ExportFilter("", "", "", "", "", "denied", e.createdAt, "");
    var scope, newer := AllDataScope(), Newer(e, EXPORT_MAX_ROWS);
    NewerAreNewer(e, EXPORT_MAX_ROWS);
    PlainFacts(eh, e);
    PlainlyAsked(eh, p, e);
    forall y | y in newer
      ensures Asked(eh, filters, p, scope, y) && !Wanted(eh, filters.result, y)
    {
      PlainFacts(eh, y);
      PlainlyAsked(eh, p, y);
    }
    assert Buried(eh, [e] + newer, filters, p, scope, e);
    NothingMeansEmpty(eh, [e] + newer, filters, p, scope);
    OneIsNotBuried(eh, filters, p, scope, e);
    NothingMeansEmpty(eh, [e], filters, p, scope);
  }

  lemma {:induction false} OneIsNotBuried(eh: EventQuery.Host, filters: ExportFilter, p: ExportPrincipal,
                                          scope: DataScope, e: Row)
    ensures !Buried(eh, [e], filters, p, scope, e)
  {
    hide Asked, KeyLess;
    if newer: seq<Row> :| |newer| == EXPORT_MAX_ROWS && Descending(Keys(newer)) &&
                          forall y :: y in newer ==> y in [e] && KeyLess(KeyOf(e), KeyOf(y)) {
      OneMoreThanFits([e], newer, e);
    }
  }
}
