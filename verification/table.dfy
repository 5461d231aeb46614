/**
  A table whose rows are kept in ascending primary-key order, as SQLite keeps
  the rows of a table whose primary key is an INTEGER PRIMARY KEY (the
  rowid). `key` projects a row onto its primary key; every operation works
  for both of the app's tables.
 */
module Table {
  import opened Lang

  /** Strictly ascending keys: sorted, and therefore no key twice. */
  predicate Ascending<T>(rows: seq<T>, key: T -> int) {
    forall i, j :: 0 <= i < j < |rows| ==> key(rows[i]) < key(rows[j])
  }

  /** Some row carries primary key `k`. */
  predicate HasKey<T>(rows: seq<T>, k: int, key: T -> int) {
    exists i :: 0 <= i < |rows| && key(rows[i]) == k
  }

  /** Every key is at most `bound`. */
  predicate KeysAtMost<T>(rows: seq<T>, bound: int, key: T -> int) {
    forall i :: 0 <= i < |rows| ==> key(rows[i]) <= bound
  }

  /** `SELECT * ... WHERE key = k`: the row with that key, if any. */
  function Find<T>(rows: seq<T>, k: int, key: T -> int): (r: Option<T>)
    ensures r.Some? <==> HasKey(rows, k, key)
    ensures r.Some? ==> r.value in rows && key(r.value) == k
  {
    if |rows| == 0 then None
    else if key(rows[0]) == k then Some(rows[0])
    else
      var r := Find(rows[1..], k, key);
      assert HasKey(rows, k, key) ==> HasKey(rows[1..], k, key) by {
        if HasKey(rows, k, key) {
          var i :| 0 <= i < |rows| && key(rows[i]) == k;
          assert rows[1..][i - 1] == rows[i];
        }
      }
      assert HasKey(rows[1..], k, key) ==> HasKey(rows, k, key) by {
        if HasKey(rows[1..], k, key) {
          var i :| 0 <= i < |rows[1..]| && key(rows[1..][i]) == k;
          assert rows[i + 1] == rows[1..][i];
        }
      }
      r
  }

  /** The rows `keep` accepts, in their original order (a `WHERE` filter or,
      negated, a `DELETE ... WHERE`). */
  function Filter<T(!new)>(rows: seq<T>, keep: T -> bool): (r: seq<T>)
    ensures |r| <= |rows|
    ensures forall x :: x in r <==> x in rows && keep(x)
  {
    if |rows| == 0 then []
    else
      var rest := Filter(rows[1..], keep);
      assert forall x :: x in rows <==> x == rows[0] || x in rows[1..];
      if keep(rows[0]) then [rows[0]] + rest else rest
  }

  /** The rows `key`-ordered: a filter keeps the order (and so the relative
      order of the rows that remain). */
  lemma {:induction false} FilterAscending<T(!new)>(rows: seq<T>, keep: T -> bool, key: T -> int)
    requires Ascending(rows, key)
    ensures Ascending(Filter(rows, keep), key)
  {
    if |rows| > 0 {
      FilterAscending(rows[1..], keep, key);
      var rest := Filter(rows[1..], keep);
      if keep(rows[0]) {
        var r := [rows[0]] + rest;
        forall i, j | 0 <= i < j < |r|
          ensures key(r[i]) < key(r[j])
        {
          if i == 0 {
            assert r[j] in rows[1..];
            var m :| 0 <= m < |rows[1..]| && rows[1..][m] == r[j];
            assert rows[m + 1] == r[j];
          }
        }
      }
    }
  }

  /** A filter never invents keys. */
  lemma {:induction false} FilterKeysAtMost<T(!new)>(rows: seq<T>, keep: T -> bool, bound: int, key: T -> int)
    requires KeysAtMost(rows, bound, key)
    ensures KeysAtMost(Filter(rows, keep), bound, key)
  {
    var r := Filter(rows, keep);
    forall i | 0 <= i < |r|
      ensures key(r[i]) <= bound
    {
      assert r[i] in rows;
      var m :| 0 <= m < |rows| && rows[m] == r[i];
    }
  }

  /** The first row of an ascending table is below all the others, and the
      rest is ascending too. */
  lemma HeadTail<T(!new)>(rows: seq<T>, key: T -> int)
    requires Ascending(rows, key) && |rows| > 0
    ensures Ascending(rows[1..], key)
    ensures forall x :: x in rows <==> x == rows[0] || x in rows[1..]
    ensures forall x :: x in rows[1..] ==> key(rows[0]) < key(x)
    ensures forall k :: HasKey(rows, k, key) <==> key(rows[0]) == k || HasKey(rows[1..], k, key)
  {
    forall x | x in rows[1..] ensures key(rows[0]) < key(x) {
      var m :| 0 <= m < |rows[1..]| && rows[1..][m] == x;
      assert rows[m + 1] == x;
    }
    forall k ensures HasKey(rows, k, key) <==> key(rows[0]) == k || HasKey(rows[1..], k, key) {
      if HasKey(rows, k, key) {
        var i :| 0 <= i < |rows| && key(rows[i]) == k;
        assert i == 0 || rows[1..][i - 1] == rows[i];
      }
      if HasKey(rows[1..], k, key) {
        var i :| 0 <= i < |rows[1..]| && key(rows[1..][i]) == k;
        assert rows[i + 1] == rows[1..][i];
      }
    }
  }

  /** A row put in front of an ascending table whose keys are all above its
      own keeps the table ascending. */
  lemma ConsAscending<T(!new)>(x: T, rows: seq<T>, key: T -> int)
    requires Ascending(rows, key)
    requires forall y :: y in rows ==> key(x) < key(y)
    ensures Ascending([x] + rows, key)
  {
    var r := [x] + rows;
    forall i, j | 0 <= i < j < |r| ensures key(r[i]) < key(r[j]) {
      assert r[j] == rows[j - 1];
      if i > 0 { assert r[i] == rows[i - 1]; }
    }
  }

  /** `INSERT OR REPLACE`: the row with `row`'s key is replaced, or `row` is
      put in its key position. */
  function Upsert<T(!new)>(rows: seq<T>, row: T, key: T -> int): (r: seq<T>)
    requires Ascending(rows, key)
    ensures Ascending(r, key)
    ensures forall x :: x in r <==> x == row || (x in rows && key(x) != key(row))
    ensures |r| == if HasKey(rows, key(row), key) then |rows| else |rows| + 1
    decreases |rows|
  {
    if |rows| == 0 then [row]
    else
      HeadTail(rows, key);
      if key(rows[0]) == key(row) then
        ConsAscending(row, rows[1..], key);
        assert !HasKey(rows[1..], key(row), key);
        [row] + rows[1..]
      else if key(rows[0]) > key(row) then
        ConsAscending(row, rows, key);
        assert !HasKey(rows[1..], key(row), key);
        [row] + rows
      else
        var rest := Upsert(rows[1..], row, key);
        ConsAscending(rows[0], rest, key);
        [rows[0]] + rest
  }

  /** A row whose key is above the first row's key is upserted into the
      rest of the table. */
  lemma UpsertPastHead<T(!new)>(rows: seq<T>, row: T, key: T -> int)
    requires Ascending(rows, key) && |rows| > 0 && key(rows[0]) < key(row)
    ensures Ascending(rows[1..], key)
    ensures Upsert(rows, row, key) == [rows[0]] + Upsert(rows[1..], row, key)
  {
    HeadTail(rows, key);
  }

  /** `UPDATE ... WHERE key = key(row)`: the row with that key becomes `row`;
      a missing key changes nothing. */
  function Replace<T>(rows: seq<T>, row: T, key: T -> int): (r: seq<T>)
    requires Ascending(rows, key)
    ensures Ascending(r, key)
    ensures |r| == |rows|
    ensures forall i :: 0 <= i < |r| ==> key(r[i]) == key(rows[i])
    ensures forall i :: 0 <= i < |r| ==> r[i] == if key(rows[i]) == key(row) then row else rows[i]
  {
    seq(|rows|, i requires 0 <= i < |rows| => if key(rows[i]) == key(row) then row else rows[i])
  }

  /** After `Replace`, a row is present exactly when it is `row` and its key
      was present, or it was present under another key. */
  lemma ReplaceContents<T(!new)>(rows: seq<T>, row: T, key: T -> int)
    requires Ascending(rows, key)
    ensures forall x :: x in Replace(rows, row, key) <==>
      (x == row && HasKey(rows, key(row), key)) || (x in rows && key(x) != key(row))
  {
    var r := Replace(rows, row, key);
    forall x
      ensures x in r <==> (x == row && HasKey(rows, key(row), key)) || (x in rows && key(x) != key(row))
    {
      if x in r {
        var i :| 0 <= i < |r| && r[i] == x;
      }
      if x == row && HasKey(rows, key(row), key) {
        var i :| 0 <= i < |rows| && key(rows[i]) == key(row);
        assert r[i] == row;
      }
      if x in rows && key(x) != key(row) {
        var i :| 0 <= i < |rows| && rows[i] == x;
        assert r[i] == x;
      }
    }
  }

  /** An ascending table holds no row twice, so it is determined by its rows:
      two ascending tables with the same rows are equal. */
  lemma {:induction false} SameRows<T(!new)>(a: seq<T>, b: seq<T>, key: T -> int)
    requires Ascending(a, key) && Ascending(b, key)
    requires forall x :: x in a <==> x in b
    ensures a == b
  {
    assert |a| > 0 ==> a[0] in b;
    assert |b| > 0 ==> b[0] in a;
    if |a| > 0 {
      assert a[0] in a && b[0] in b;
      var m :| 0 <= m < |b| && b[m] == a[0];
      var n :| 0 <= n < |a| && a[n] == b[0];
      assert key(b[0]) <= key(b[m]);
      assert key(a[0]) <= key(a[n]);
      assert m == 0;
      forall x ensures x in a[1..] <==> x in b[1..] {
        assert x in a <==> x == a[0] || x in a[1..];
        assert x in b <==> x == b[0] || x in b[1..];
        if x in a[1..] {
          var k :| 0 <= k < |a[1..]| && a[1..][k] == x;
          assert key(a[0]) < key(a[k + 1]);
        }
        if x in b[1..] {
          var k :| 0 <= k < |b[1..]| && b[1..][k] == x;
          assert key(b[0]) < key(b[k + 1]);
        }
      }
      SameRows(a[1..], b[1..], key);
      assert a == [a[0]] + a[1..] && b == [b[0]] + b[1..];
    }
  }

  /** Dropping the row at `i` from an ascending table leaves an ascending
      table holding every other row. */
  lemma DropAt<T(!new)>(rows: seq<T>, i: int, key: T -> int)
    requires Ascending(rows, key)
    requires 0 <= i < |rows|
    ensures Ascending(rows[..i] + rows[i + 1..], key)
    ensures forall x :: x in rows[..i] + rows[i + 1..] <==> x in rows && key(x) != key(rows[i])
  {
    var rest := rows[..i] + rows[i + 1..];
    assert forall m :: 0 <= m < |rest| ==> rest[m] == rows[if m < i then m else m + 1];
    forall x ensures x in rest <==> x in rows && key(x) != key(rows[i]) {
      if x in rows && key(x) != key(rows[i]) {
        var m :| 0 <= m < |rows| && rows[m] == x;
        assert rest[if m < i then m else m - 1] == x;
      }
    }
  }

  /** Filtering a table with one more row at the end adds that row at the
      end exactly when it is kept. */
  lemma {:induction false} FilterSnoc<T(!new)>(rows: seq<T>, x: T, keep: T -> bool)
    ensures Filter(rows + [x], keep) == Filter(rows, keep) + if keep(x) then [x] else []
  {
    if |rows| > 0 {
      assert (rows + [x])[1..] == rows[1..] + [x];
      FilterSnoc(rows[1..], x, keep);
    }
  }

  /** A filter that accepts none of the rows leaves nothing. */
  lemma {:induction false} FilterNone<T(!new)>(rows: seq<T>, keep: T -> bool)
    requires forall x :: x in rows ==> !keep(x)
    ensures Filter(rows, keep) == []
  {
    if |rows| > 0 {
      assert rows[0] in rows;
      FilterNone(rows[1..], keep);
    }
  }
}
