// The audit event table and the statements that change it.
module EventTable {
  import opened Wrappers
  import opened Text

  // One row of _audit_events. The JSON columns hold text; actorOrg is the only nullable one in use.
  datatype Row = Row(workspace: string, id: string, event: string, objectKey: string, recordID: string,
                     actorID: string, actorOrg: Option<string>, roleKey: string, summary: string,
                     metadata: string, before: string, after: string, createdAt: string)

  // A prepared event: metadata, before and after already encoded as JSON text; actorOrgID is the
  // text under actor_org_id in the metadata, blank when there is none.
  datatype Event = Event(workspace: string, id: string, event: string, objectKey: string, recordID: string,
                         actorID: string, actorOrgID: string, roleKey: string, summary: string,
                         metadata: string, before: string, after: string, createdAt: string)

  function ToRow(e: Event): Row {
    Row(e.workspace, e.id, e.event, e.objectKey, e.recordID, e.actorID, Some(TrimSpace(e.actorOrgID)), e.roleKey,
        e.summary, e.metadata, e.before, e.after, e.createdAt)
  }

  predicate SameKey(a: Row, b: Row) {
    a.workspace == b.workspace && a.id == b.id
  }

  // The primary key (workspace_id, id).
  ghost predicate UniqueKeys(rows: seq<Row>) {
    forall i, j :: 0 <= i < j < |rows| ==> !SameKey(rows[i], rows[j])
  }

  // The index of the row with a key, if there is one.
  function IndexOf(rows: seq<Row>, workspace: string, id: string): (r: Option<nat>)
    ensures r.Some? ==> r.value < |rows| && rows[r.value].workspace == workspace && rows[r.value].id == id
    ensures r.None? ==> forall i :: 0 <= i < |rows| ==> !(rows[i].workspace == workspace && rows[i].id == id)
  {
    if rows == [] then None
    else
      var n := |rows| - 1;
      if rows[n].workspace == workspace && rows[n].id == id then Some(n) else IndexOf(rows[..n], workspace, id)
  }

  // INSERT: refused by the primary key.
  function TryInsert(rows: seq<Row>, row: Row): Option<seq<Row>> {
    if IndexOf(rows, row.workspace, row.id).Some? then None else Some(rows + [row])
  }

  // The stored columns a replay must match; NULL and blank organisations read the same.
  predicate PayloadEqual(stored: Row, given: Row) {
    && stored.event == given.event && stored.objectKey == given.objectKey && stored.recordID == given.recordID
    && stored.actorID == given.actorID && Organization(stored) == Organization(given)
    && stored.roleKey == given.roleKey && stored.summary == given.summary && stored.metadata == given.metadata
    && stored.before == given.before && stored.after == given.after
  }

  function Organization(row: Row): string {
    if row.actorOrg.Some? then row.actorOrg.value else ""
  }

  // A stored row with this key carries exactly this payload.
  predicate Recorded(rows: seq<Row>, row: Row) {
    var k := IndexOf(rows, row.workspace, row.id);
    k.Some? && PayloadEqual(rows[k.value], row)
  }

  // The row has the event's key and its columns, one by one; a NULL organisation reads as a blank one.
  predicate Carries(row: Row, event: Event) {
    && row.workspace == event.workspace && row.id == event.id && row.event == event.event
    && row.objectKey == event.objectKey && row.recordID == event.recordID && row.actorID == event.actorID
    && (row.actorOrg == Some(TrimSpace(event.actorOrgID)) ||
        (row.actorOrg == None && TrimSpace(event.actorOrgID) == ""))
    && row.roleKey == event.roleKey && row.summary == event.summary && row.metadata == event.metadata
    && row.before == event.before && row.after == event.after
  }

  // A recorded event is carried by a stored row, and by the only one with its key.
  lemma {:induction false} RecordedIsCarried(rows: seq<Row>, event: Event)
    ensures Recorded(rows, ToRow(event)) ==> exists row :: row in rows && Carries(row, event)
    ensures UniqueKeys(rows) && (exists row :: row in rows && Carries(row, event)) ==> Recorded(rows, ToRow(event))
  {
    hide TrimSpace;
    var k := IndexOf(rows, event.workspace, event.id);
    if Recorded(rows, ToRow(event)) {
      assert Carries(rows[k.value], event);
    }
    if UniqueKeys(rows) && exists row :: row in rows && Carries(row, event) {
      var row :| row in rows && Carries(row, event);
      var i :| 0 <= i < |rows| && rows[i] == row;
      assert SameKey(rows[i], rows[k.value]) && SameKey(rows[k.value], rows[i]);
      assert !(i < k.value) && !(k.value < i);
    }
  }

  // ---------- subject erasure ----------

  datatype Target = ByActor(identity: string) | ByRecord(objectKey: string, recordID: string)

  predicate Hits(t: Target, workspace: string, row: Row) {
    row.workspace == workspace && match t
      case ByActor(identity) => row.actorID == identity
      case ByRecord(objectKey, recordID) => row.objectKey == objectKey && row.recordID == recordID
  }

  function Redact(row: Row): Row {
    row.(summary := "[erased]", metadata := "{}", before := "null", after := "null")
  }

  predicate Redacted(row: Row) {
    row.summary == "[erased]" && row.metadata == "{}" && row.before == "null" && row.after == "null"
  }

  function Anonymize(row: Row, alias: string): Row {
    row.(actorID := alias, actorOrg := None, roleKey := "")
  }

  // UPDATE ... SET summary, metadata_json, before_json, after_json WHERE target.
  function RedactWhere(rows: seq<Row>, workspace: string, t: Target): (r: seq<Row>)
    ensures |r| == |rows|
    ensures forall i :: 0 <= i < |rows| ==> r[i] == if Hits(t, workspace, rows[i]) then Redact(rows[i]) else rows[i]
  {
    seq(|rows|, i requires 0 <= i < |rows| => if Hits(t, workspace, rows[i]) then Redact(rows[i]) else rows[i])
  }

  // UPDATE ... SET actor_id, actor_org_id, role_key WHERE actor_id = identity.
  function AnonymizeWhere(rows: seq<Row>, workspace: string, identity: string, alias: string): (r: seq<Row>)
    ensures |r| == |rows|
    ensures forall i :: 0 <= i < |rows| ==>
              r[i] == if Hits(ByActor(identity), workspace, rows[i]) then Anonymize(rows[i], alias) else rows[i]
  {
    seq(|rows|, i requires 0 <= i < |rows| =>
          if Hits(ByActor(identity), workspace, rows[i]) then Anonymize(rows[i], alias) else rows[i])
  }

  // Rows an update or a count with this target concerns.
  function CountHits(rows: seq<Row>, workspace: string, t: Target): nat {
    if rows == [] then 0
    else CountHits(rows[..|rows| - 1], workspace, t) + if Hits(t, workspace, rows[|rows| - 1]) then 1 else 0
  }

  // The alias of an erased identity; hash is hex-encoded SHA-256.
  function Alias(hash: string -> string, workspace: string, identity: string): string {
    var sum := hash(workspace + "\0" + identity);
    "erased-" + if |sum| >= 24 then sum[..24] else sum
  }

  lemma {:induction false} AliasText(hash: string -> string, workspace: string, identity: string)
    ensures var sum := hash(workspace + "\0" + identity);
            |sum| >= 24 ==> Alias(hash, workspace, identity) == "erased-" + sum[..24]
  {
  }
}
