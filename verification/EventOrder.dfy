// ORDER BY created_at DESC, id DESC LIMIT n over the rows a WHERE clause selects.
module EventOrder {
  import opened Text
  import opened EventTable

  // What a cursor remembers of an event.
  datatype Key = Key(createdAt: string, id: string)

  function KeyOf(row: Row): Key {
    Key(row.createdAt, row.id)
  }

  predicate KeyLess(a: Key, b: Key) {
    Less(a.createdAt, b.createdAt) || (a.createdAt == b.createdAt && Less(a.id, b.id))
  }

  lemma {:induction false} KeyLessTransitive(a: Key, b: Key, c: Key)
    requires KeyLess(a, b) && KeyLess(b, c)
    ensures KeyLess(a, c)
  {
    if Less(a.createdAt, b.createdAt) && Less(b.createdAt, c.createdAt) {
      LessTransitive(a.createdAt, b.createdAt, c.createdAt);
    }
    if Less(a.id, b.id) && Less(b.id, c.id) {
      LessTransitive(a.id, b.id, c.id);
    }
  }

  lemma {:induction false} KeyLessTotal(a: Key, b: Key)
    ensures KeyLess(a, b) || a == b || KeyLess(b, a)
    ensures !KeyLess(a, a)
  {
    LessTotal(a.createdAt, b.createdAt);
    LessTotal(a.id, b.id);
    LessIrreflexive(a.createdAt);
    LessIrreflexive(a.id);
  }

  // Newest first, no two alike.
  ghost predicate Descending(keys: seq<Key>) {
    forall i, j :: 0 <= i < j < |keys| ==> KeyLess(keys[j], keys[i])
  }

  function Keys(rows: seq<Row>): (r: seq<Key>)
    ensures |r| == |rows|
    ensures forall i :: 0 <= i < |rows| ==> r[i] == KeyOf(rows[i])
  {
    seq(|rows|, i requires 0 <= i < |rows| => KeyOf(rows[i]))
  }

  function Place(row: Row, sorted: seq<Row>): (r: seq<Row>)
    ensures |r| == |sorted| + 1
    ensures forall x :: x in r <==> x == row || x in sorted
  {
    if sorted == [] || KeyLess(KeyOf(sorted[0]), KeyOf(row)) then [row] + sorted
    else [sorted[0]] + Place(row, sorted[1..])
  }

  function SortDescending(rows: seq<Row>): (r: seq<Row>)
    ensures |r| == |rows|
    ensures forall x :: x in r <==> x in rows
  {
    if rows == [] then [] else Place(rows[0], SortDescending(rows[1..]))
  }

  lemma {:induction false} PlaceDescending(row: Row, sorted: seq<Row>)
    requires Descending(Keys(sorted))
    requires forall x :: x in sorted ==> KeyOf(x) != KeyOf(row)
    ensures Descending(Keys(Place(row, sorted)))
  {
    var placed := Place(row, sorted);
    if sorted == [] {
    } else if KeyLess(KeyOf(sorted[0]), KeyOf(row)) {
      forall i, j | 0 <= i < j < |placed|
        ensures KeyLess(Keys(placed)[j], Keys(placed)[i])
      {
        if i == 0 {
          if j > 1 {
            assert KeyLess(Keys(sorted)[j - 1], Keys(sorted)[0]);
            KeyLessTransitive(KeyOf(sorted[j - 1]), KeyOf(sorted[0]), KeyOf(row));
          }
        } else {
          assert KeyLess(Keys(sorted)[j - 1], Keys(sorted)[i - 1]);
        }
      }
    } else {
      var head, tail := sorted[0], sorted[1..];
      assert head in sorted;
      KeyLessTotal(KeyOf(head), KeyOf(row));
      forall i, j | 0 <= i < j < |tail|
        ensures KeyLess(Keys(tail)[j], Keys(tail)[i])
      {
        assert KeyLess(Keys(sorted)[j + 1], Keys(sorted)[i + 1]);
      }
      PlaceDescending(row, tail);
      var rest := Place(row, tail);
      forall i, j | 0 <= i < j < |placed|
        ensures KeyLess(Keys(placed)[j], Keys(placed)[i])
      {
        if i > 0 {
          assert KeyLess(Keys(rest)[j - 1], Keys(rest)[i - 1]);
        } else {
          assert rest[j - 1] in rest;
          if rest[j - 1] != row {
            var k :| 0 <= k < |tail| && tail[k] == rest[j - 1];
            assert KeyLess(Keys(sorted)[k + 1], Keys(sorted)[0]);
          }
        }
      }
    }
  }

  // Distinct keys of a table's rows are at most as many as its rows.
  lemma {:induction false} DistinctKeysFit(keys: seq<Key>, rows: seq<Row>)
    requires Descending(keys)
    requires forall k :: k in keys ==> exists x :: x in rows && KeyOf(x) == k
    ensures |keys| <= |rows|
  {
    hide KeyLess;
    if keys != [] {
      var n := |keys| - 1;
      assert keys[n] in keys;
      var taken :| taken in rows && KeyOf(taken) == keys[n];
      var i :| 0 <= i < |rows| && rows[i] == taken;
      var rest := rows[..i] + rows[i + 1..];
      forall k | k in keys[..n]
        ensures exists x :: x in rest && KeyOf(x) == k
      {
        var j :| 0 <= j < n && keys[..n][j] == k;
        assert KeyLess(keys[n], keys[j]);
        KeyLessTotal(keys[n], keys[n]);
        assert k in keys;
        var x :| x in rows && KeyOf(x) == k;
        var m :| 0 <= m < |rows| && rows[m] == x;
        assert m != i;
        assert x in rest by {
          if m < i {
            assert rest[m] == x;
          } else {
            assert rest[m - 1] == x;
          }
        }
      }
      forall a, b | 0 <= a < b < n
        ensures KeyLess(keys[..n][b], keys[..n][a])
      {
        assert KeyLess(keys[b], keys[a]);
      }
      DistinctKeysFit(keys[..n], rest);
    }
  }

  ghost predicate DistinctKeys(rows: seq<Row>) {
    forall i, j :: 0 <= i < j < |rows| ==> KeyOf(rows[i]) != KeyOf(rows[j])
  }

  lemma {:induction false} SortIsDescending(rows: seq<Row>)
    requires DistinctKeys(rows)
    ensures Descending(Keys(SortDescending(rows)))
  {
    if rows != [] {
      SortIsDescending(rows[1..]);
      forall x | x in SortDescending(rows[1..])
        ensures KeyOf(x) != KeyOf(rows[0])
      {
        assert x in rows[1..];
        var k :| 0 <= k < |rows[1..]| && rows[1..][k] == x;
        assert rows[k + 1] == x;
      }
      PlaceDescending(rows[0], SortDescending(rows[1..]));
    }
  }

  // The first n elements, or all.
  function Take<T>(s: seq<T>, n: int): seq<T> {
    if n < 0 then [] else if |s| <= n then s else s[..n]
  }

  // A limited result is the top of what was selected: descending, nothing foreign, and whatever is
  // missing sorts below a full result.
  lemma {:induction false} TopOfSelection(rows: seq<Row>, n: nat)
    requires DistinctKeys(rows)
    ensures var top := Take(SortDescending(rows), n);
            && Descending(Keys(top)) && |top| <= n
            && (forall x :: x in top ==> x in rows)
            && (forall x :: x in rows && x !in top ==>
                  |top| == n && forall y :: y in top ==> KeyLess(KeyOf(x), KeyOf(y)))
  {
    var sorted := SortDescending(rows);
    var top := Take(sorted, n);
    SortIsDescending(rows);
    forall i, j | 0 <= i < j < |top|
      ensures KeyLess(Keys(top)[j], Keys(top)[i])
    {
      assert KeyLess(Keys(sorted)[j], Keys(sorted)[i]);
    }
    forall x, y | x in rows && x !in top && y in top
      ensures KeyLess(KeyOf(x), KeyOf(y))
    {
      assert x in sorted;
      var i :| 0 <= i < |sorted| && sorted[i] == x;
      var j :| 0 <= j < |top| && top[j] == y;
      assert forall k :: 0 <= k < |top| ==> top[k] == sorted[k] && top[k] in top;
      assert i >= |top|;
      assert KeyLess(Keys(sorted)[i], Keys(sorted)[j]);
    }
  }
}
