/** The create / read / update / delete protocol that the store repeats for
    its students, faculty, subjects and timetable tables, stated once over a
    table of rows and the function that reads a row's id:
    add appends a row, update merges into the first row with the id,
    delete splices out the first row with the id. */
module Tables {
  import opened Records
  import opened Seqs

  /** The table after `push(row)`. */
  function Added<T>(rows: seq<T>, row: T): (r: seq<T>)
    ensures |r| == |rows| + 1 && r[..|rows|] == rows && r[|rows|] == row
  {
    rows + [row]
  }

  /** The table after an update by id: the first row with the id becomes
      `merge(row)`; without such a row the table is unchanged. */
  function Updated<T, K(==)>(rows: seq<T>, key: T -> K, k: K, merge: T -> T): (r: seq<T>)
    ensures |r| == |rows|
    ensures forall j :: 0 <= j < |rows| && r[j] != rows[j] ==> key(rows[j]) == k
  {
    var i := FindIndex(rows, key, k);
    if i == -1 then rows else rows[i := merge(rows[i])]
  }

  /** What an update by id returns: the merged row, or nothing (`null`). */
  function UpdateResult<T, K(==)>(rows: seq<T>, key: T -> K, k: K, merge: T -> T): (r: Option<T>)
    ensures r.None? <==> forall i :: 0 <= i < |rows| ==> key(rows[i]) != k
    ensures r.Some? ==> r.value in Updated(rows, key, k, merge)
  {
    var i := FindIndex(rows, key, k);
    if i == -1 then None else Some(merge(rows[i]))
  }

  /** The table after a delete by id: the first row with the id spliced out. */
  function Deleted<T, K(==)>(rows: seq<T>, key: T -> K, k: K): (r: seq<T>)
    ensures |r| == if HasKey(rows, key, k) then |rows| - 1 else |rows|
    ensures multiset(r) <= multiset(rows)
  {
    var i := FindIndex(rows, key, k);
    if i == -1 then rows else RemoveAt(rows, i)
  }

  /** Whether some row carries the id (what delete returns). */
  function HasKey<T, K(==)>(rows: seq<T>, key: T -> K, k: K): (b: bool)
    ensures b <==> exists i :: 0 <= i < |rows| && key(rows[i]) == k
  {
    FindIndex(rows, key, k) != -1
  }

  // ---------------------------------------------------------------------
  // Add.

  /** After an add, looking up the new row's id finds the new row exactly
      when no earlier row had that id; otherwise the earlier row still wins. */
  lemma {:induction false} FindAfterAdd<T, K>(rows: seq<T>, key: T -> K, row: T)
    ensures Find(Added(rows, row), key, key(row))
         == if HasKey(rows, key, key(row)) then Find(rows, key, key(row)) else Some(row)
  {
    var k := key(row);
    var i := FindIndex(rows, key, k);
    var j := FindIndex(Added(rows, row), key, k);
    if i == -1 {
      assert j == |rows|;
    } else {
      assert Added(rows, row)[i] == rows[i];
      assert j == i;
    }
  }

  /** An add leaves the lookup of every other id as it was. */
  lemma {:induction false} FindOtherAfterAdd<T, K>(rows: seq<T>, key: T -> K, row: T, k: K)
    requires k != key(row)
    ensures Find(Added(rows, row), key, k) == Find(rows, key, k)
  {
    var i := FindIndex(rows, key, k);
    var j := FindIndex(Added(rows, row), key, k);
    if i == -1 {
      assert j == -1;
    } else {
      assert Added(rows, row)[i] == rows[i];
      assert j == i;
    }
  }

  // ---------------------------------------------------------------------
  // Update.

  /** Updating an id no row carries returns nothing and changes nothing. */
  lemma UpdateAbsent<T, K>(rows: seq<T>, key: T -> K, k: K, merge: T -> T)
    requires forall i :: 0 <= i < |rows| ==> key(rows[i]) != k
    ensures Updated(rows, key, k, merge) == rows
    ensures UpdateResult(rows, key, k, merge) == None
  {
  }

  /** Updating a present id changes the first row with that id, to the merged
      row that is returned, and no other row. */
  lemma UpdatePresent<T, K>(rows: seq<T>, key: T -> K, k: K, merge: T -> T)
    requires exists i :: 0 <= i < |rows| && key(rows[i]) == k
    ensures var i := FindIndex(rows, key, k);
      && 0 <= i < |rows| && key(rows[i]) == k
      && (forall j :: 0 <= j < i ==> key(rows[j]) != k)
      && |Updated(rows, key, k, merge)| == |rows|
      && Updated(rows, key, k, merge)[i] == merge(rows[i])
      && UpdateResult(rows, key, k, merge) == Some(merge(rows[i]))
      && (forall j :: 0 <= j < |rows| && j != i ==> Updated(rows, key, k, merge)[j] == rows[j])
  {
  }

  /** When the merge keeps the id, a lookup after the update finds the merged row. */
  lemma {:induction false} FindAfterUpdate<T, K>(rows: seq<T>, key: T -> K, k: K, merge: T -> T)
    requires HasKey(rows, key, k)
    requires forall x :: key(x) == k ==> key(merge(x)) == k
    ensures Find(Updated(rows, key, k, merge), key, k) == UpdateResult(rows, key, k, merge)
  {
    var i := FindIndex(rows, key, k);
    var u := Updated(rows, key, k, merge);
    assert key(u[i]) == k;
    forall j | 0 <= j < i ensures key(u[j]) != k {
      assert u[j] == rows[j];
    }
    assert FindIndex(u, key, k) == i;
  }

  // ---------------------------------------------------------------------
  // Delete.

  /** Deleting an id no row carries reports false and changes nothing. */
  lemma DeleteAbsent<T, K>(rows: seq<T>, key: T -> K, k: K)
    requires forall i :: 0 <= i < |rows| ==> key(rows[i]) != k
    ensures !HasKey(rows, key, k)
    ensures Deleted(rows, key, k) == rows
  {
  }

  /** Deleting a present id reports true and removes exactly the first row
      with that id: the rows before it and after it stay, in order. */
  lemma DeletePresent<T, K>(rows: seq<T>, key: T -> K, k: K)
    requires exists i :: 0 <= i < |rows| && key(rows[i]) == k
    ensures HasKey(rows, key, k)
    ensures var i := FindIndex(rows, key, k);
      && 0 <= i < |rows| && key(rows[i]) == k
      && (forall j :: 0 <= j < i ==> key(rows[j]) != k)
      && Deleted(rows, key, k) == rows[..i] + rows[i + 1..]
      && multiset(Deleted(rows, key, k)) + multiset{rows[i]} == multiset(rows)
  {
  }

  /** A delete removes exactly one of the rows carrying the id. */
  lemma {:induction false} DeleteCount<T, K>(rows: seq<T>, key: T -> K, k: K)
    requires HasKey(rows, key, k)
    ensures |Where(Deleted(rows, key, k), key, k)| == |Where(rows, key, k)| - 1
  {
    var i := FindIndex(rows, key, k);
    var d := RemoveAt(rows, i);
    assert Deleted(rows, key, k) == d;
    WhereSplit(rows, i, key, k);
    var a, b := Where(d[..i], key, k), Where(d[i..], key, k);
    assert |Where(rows, key, k)| == |a| + 1 + |b|;
    assert |Where(d, key, k)| == |a| + |b|;
  }

  /** A delete leaves the rows with any other id as they were, in order. */
  lemma {:induction false} DeleteOthers<T, K>(rows: seq<T>, key: T -> K, k: K, other: K)
    requires other != k
    ensures Where(Deleted(rows, key, k), key, other) == Where(rows, key, other)
  {
    var i := FindIndex(rows, key, k);
    if i != -1 {
      var d := RemoveAt(rows, i);
      assert Deleted(rows, key, k) == d;
      WhereSplit(rows, i, key, other);
      assert key(rows[i]) == k;
      assert Where(rows, key, other) == Where(d[..i], key, other) + Where(d[i..], key, other);
    }
  }

  /** Selecting by key around one removed row. */
  lemma WhereSplit<T, K>(rows: seq<T>, i: nat, key: T -> K, k: K)
    requires i < |rows|
    ensures Where(rows, key, k)
         == Where(RemoveAt(rows, i)[..i], key, k)
            + (if key(rows[i]) == k then [rows[i]] else [])
            + Where(RemoveAt(rows, i)[i..], key, k)
    ensures Where(RemoveAt(rows, i), key, k)
         == Where(RemoveAt(rows, i)[..i], key, k) + Where(RemoveAt(rows, i)[i..], key, k)
  {
    var pre, post := rows[..i], rows[i + 1..];
    var r := RemoveAt(rows, i);
    assert r[..i] == pre && r[i..] == post;
    assert rows == (pre + [rows[i]]) + post;
    assert r == pre + post;
    WhereAppend(pre + [rows[i]], post, key, k);
    WhereSnoc(pre, rows[i], key, k);
    WhereAppend(pre, post, key, k);
  }
}
