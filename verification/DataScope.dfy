// The resolved record boundary handed to persistence, and its normal form.
module DataScopes {
  import opened Text

  datatype DataScope = DataScope(all: bool, subjectIDs: seq<string>, organizationIDs: seq<string>)

  function AllDataScope(): DataScope {
    DataScope(true, [], [])
  }

  function OwnerDataScope(subjectID: string): DataScope {
    Normalized(DataScope(false, [TrimSpace(subjectID)], []))
  }

  // Trimmed, non-blank values, each at its first occurrence.
  function NormalizedValues(values: seq<string>): seq<string> {
    if values == [] then []
    else
      var before := NormalizedValues(values[..|values| - 1]);
      var value := TrimSpace(values[|values| - 1]);
      if value == "" || value in before then before else before + [value]
  }

  function Normalized(scope: DataScope): DataScope {
    if scope.all then AllDataScope()
    else DataScope(false, NormalizedValues(scope.subjectIDs), NormalizedValues(scope.organizationIDs))
  }

  method NormalizedScopeValues(values: seq<string>) returns (result: seq<string>)
    ensures result == NormalizedValues(values)
  {
    var seen: set<string> := {};
    result := [];
    for i := 0 to |values|
      invariant result == NormalizedValues(values[..i])
      invariant forall v :: v in seen <==> v in result
    {
      assert values[..i + 1][..i] == values[..i];
      var value := TrimSpace(values[i]);
      if value == "" || value in seen {
        continue;
      }
      seen := seen + {value};
      result := result + [value];
    }
    assert values[..|values|] == values;
  }

  method NormalizeDataScope(scope: DataScope) returns (result: DataScope)
    ensures result == Normalized(scope)
    ensures scope.all ==> result == DataScope(true, [], [])
    ensures !scope.all ==> !result.all
    ensures forall v :: !scope.all ==>
              (v in result.subjectIDs <==>
                 v != "" && exists i :: 0 <= i < |scope.subjectIDs| && TrimSpace(scope.subjectIDs[i]) == v) &&
              (v in result.organizationIDs <==>
                 v != "" && exists i :: 0 <= i < |scope.organizationIDs| && TrimSpace(scope.organizationIDs[i]) == v)
  {
    hide TrimSpace, NormalizedValues;
    forall v
      ensures v in NormalizedValues(scope.subjectIDs) <==>
              v != "" && exists i :: 0 <= i < |scope.subjectIDs| && TrimSpace(scope.subjectIDs[i]) == v
      ensures v in NormalizedValues(scope.organizationIDs) <==>
              v != "" && exists i :: 0 <= i < |scope.organizationIDs| && TrimSpace(scope.organizationIDs[i]) == v
    {
      NormalizedMembers(scope.subjectIDs, v);
      NormalizedMembers(scope.organizationIDs, v);
    }
    if scope.all {
      return DataScope(true, [], []);
    }
    var subjects := NormalizedScopeValues(scope.subjectIDs);
    var organizations := NormalizedScopeValues(scope.organizationIDs);
    result := scope.(subjectIDs := subjects, organizationIDs := organizations);
  }

  // Normalising keeps exactly the non-blank trimmed values.
  lemma {:induction false} NormalizedMembers(values: seq<string>, v: string)
    ensures v in NormalizedValues(values) <==> v != "" && exists i :: 0 <= i < |values| && TrimSpace(values[i]) == v
  {
    hide TrimSpace;
    if values != [] {
      var n := |values| - 1;
      var init := values[..n];
      NormalizedMembers(init, v);
      LastValue(values, v);
    }
  }

  lemma {:induction false} LastValue(values: seq<string>, v: string)
    requires values != []
    ensures var n := |values| - 1;
            (exists i :: 0 <= i < |values| && TrimSpace(values[i]) == v) <==>
            TrimSpace(values[n]) == v || (exists i :: 0 <= i < n && TrimSpace(values[..n][i]) == v)
  {
    hide TrimSpace;
    var n := |values| - 1;
    if i :| 0 <= i < n && TrimSpace(values[..n][i]) == v {
      assert TrimSpace(values[i]) == v;
    }
    if i :| 0 <= i < |values| && TrimSpace(values[i]) == v {
      assert i < n ==> TrimSpace(values[..n][i]) == v;
    }
  }

  // Every value appears once.
  lemma {:induction false} NormalizedDistinct(values: seq<string>)
    ensures forall i, j :: 0 <= i < j < |NormalizedValues(values)| ==>
                             NormalizedValues(values)[i] != NormalizedValues(values)[j]
  {
    if values != [] {
      NormalizedDistinct(values[..|values| - 1]);
    }
  }

  // Values are in the order of their first occurrence: later input never reorders earlier output.
  lemma {:induction false} NormalizedOrder(values: seq<string>, more: seq<string>)
    ensures NormalizedValues(values) <= NormalizedValues(values + more)
    decreases |more|
  {
    if more == [] {
      assert values + more == values;
    } else {
      var n := |more| - 1;
      assert (values + more)[..|values + more| - 1] == values + more[..n];
      NormalizedOrder(values, more[..n]);
    }
  }

  lemma {:induction false} NormalFormIsFixed(values: seq<string>)
    requires forall i :: 0 <= i < |values| ==> Trimmed(values[i]) && values[i] != ""
    requires forall i, j :: 0 <= i < j < |values| ==> values[i] != values[j]
    ensures NormalizedValues(values) == values
  {
    if values != [] {
      var n := |values| - 1;
      NormalFormIsFixed(values[..n]);
      assert values[..n] + [values[n]] == values;
    }
  }

  // A second normalisation changes nothing.
  lemma {:induction false} NormalizedIdempotent(scope: DataScope)
    ensures Normalized(Normalized(scope)) == Normalized(scope)
  {
    if !scope.all {
      NormalizedValuesIdempotent(scope.subjectIDs);
      NormalizedValuesIdempotent(scope.organizationIDs);
    }
  }

  lemma {:induction false} NormalizedValuesIdempotent(values: seq<string>)
    ensures NormalizedValues(NormalizedValues(values)) == NormalizedValues(values)
  {
    var normal := NormalizedValues(values);
    forall i | 0 <= i < |normal|
      ensures Trimmed(normal[i]) && normal[i] != ""
    {
      NormalizedMembers(values, normal[i]);
    }
    NormalizedDistinct(values);
    NormalFormIsFixed(normal);
  }
}
