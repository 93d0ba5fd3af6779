/** The array primitives the store is built on, stated over sequences:
    `find`/`findIndex` (first match), `filter` (order-preserving selection),
    `splice(i, 1)` (removal of one element), and the key order of a `Map`
    that is filled by a `forEach` over an array (first occurrence order). */
module Seqs {
  import opened Records

  /** `findIndex`: the index of the first row whose key is `k`, or -1. */
  function FindIndex<T, K(==)>(rows: seq<T>, key: T -> K, k: K): (r: int)
    ensures -1 <= r < |rows|
    ensures r == -1 <==> forall i :: 0 <= i < |rows| ==> key(rows[i]) != k
    ensures r >= 0 ==> key(rows[r]) == k && forall j :: 0 <= j < r ==> key(rows[j]) != k
  {
    if rows == [] then -1
    else if key(rows[0]) == k then 0
    else
      var r := FindIndex(rows[1..], key, k);
      if r == -1 then -1 else r + 1
  }

  /** The first row of `rows` with key `k`, or nothing when no row has it,
      characterised without reference to how it is found. */
  ghost predicate IsFirstWithKey<T, K>(rows: seq<T>, key: T -> K, k: K, r: Option<T>)
  {
    && (r.None? <==> forall i :: 0 <= i < |rows| ==> key(rows[i]) != k)
    && (r.Some? ==> exists i :: 0 <= i < |rows| && rows[i] == r.value && key(rows[i]) == k
                                && forall j :: 0 <= j < i ==> key(rows[j]) != k)
  }

  /** `find`: the first row whose key is `k`, if any; the lookups by id
      `getStudentById`, `getFacultyById` and `getSubjectById` are this on
      their tables. */
  function Find<T, K(==)>(rows: seq<T>, key: T -> K, k: K): (r: Option<T>)
    ensures IsFirstWithKey(rows, key, k, r)
    ensures r.None? <==> forall i :: 0 <= i < |rows| ==> key(rows[i]) != k
    ensures r.Some? ==> r.value in rows && key(r.value) == k
  {
    var i := FindIndex(rows, key, k);
    if i == -1 then None else Some(rows[i])
  }

  /** `filter`: the rows satisfying `p`, in their order. */
  function Filter<T>(rows: seq<T>, p: T -> bool): (r: seq<T>)
    ensures |r| <= |rows|
    ensures forall i :: 0 <= i < |r| ==> p(r[i])
  {
    if rows == [] then []
    else if p(rows[0]) then [rows[0]] + Filter(rows[1..], p)
    else Filter(rows[1..], p)
  }

  /** Filtering distributes over concatenation: the order of the rows is kept. */
  lemma {:induction false} FilterAppend<T>(a: seq<T>, b: seq<T>, p: T -> bool)
    ensures Filter(a + b, p) == Filter(a, p) + Filter(b, p)
  {
    if a == [] {
      assert a + b == b;
    } else {
      assert (a + b)[1..] == a[1..] + b;
      FilterAppend(a[1..], b, p);
    }
  }

  /** Filtering one more row at the end appends that row exactly when it qualifies. */
  lemma FilterSnoc<T>(a: seq<T>, x: T, p: T -> bool)
    ensures Filter(a + [x], p) == Filter(a, p) + (if p(x) then [x] else [])
  {
    FilterAppend(a, [x], p);
    assert [x][1..] == [];
  }

  /** Exactness with multiplicity: every qualifying row is kept as often as it
      occurs, and no other row is kept. */
  lemma {:induction false} FilterCount<T>(rows: seq<T>, p: T -> bool, x: T)
    ensures multiset(Filter(rows, p))[x] == if p(x) then multiset(rows)[x] else 0
  {
    if rows != [] {
      FilterCount(rows[1..], p, x);
      assert rows == [rows[0]] + rows[1..];
      assert multiset(rows) == multiset([rows[0]]) + multiset(rows[1..]);
    }
  }

  /** Exactness as membership: a value is kept iff it is a row and qualifies. */
  lemma FilterMembers<T>(rows: seq<T>, p: T -> bool)
    ensures forall x :: x in Filter(rows, p) <==> x in rows && p(x)
  {
    forall x ensures x in Filter(rows, p) <==> x in rows && p(x) {
      FilterCount(rows, p, x);
    }
  }

  /** A filter whose predicate keeps every row is the identity. */
  lemma {:induction false} FilterAll<T>(rows: seq<T>, p: T -> bool)
    requires forall i :: 0 <= i < |rows| ==> p(rows[i])
    ensures Filter(rows, p) == rows
  {
    if rows != [] {
      FilterAll(rows[1..], p);
    }
  }

  /** Rows whose key is `k` (a filter on one key value). */
  function Where<T, K(==)>(rows: seq<T>, key: T -> K, k: K): (r: seq<T>)
    ensures forall i :: 0 <= i < |r| ==> key(r[i]) == k
  {
    Filter(rows, x => key(x) == k)
  }

  lemma WhereCount<T, K>(rows: seq<T>, key: T -> K, k: K, x: T)
    ensures multiset(Where(rows, key, k))[x] == if key(x) == k then multiset(rows)[x] else 0
  {
    FilterCount(rows, y => key(y) == k, x);
  }

  lemma WhereMembers<T, K>(rows: seq<T>, key: T -> K, k: K)
    ensures forall x :: x in Where(rows, key, k) <==> x in rows && key(x) == k
  {
    FilterMembers(rows, x => key(x) == k);
  }

  /** No row with the key: nothing is selected. */
  lemma {:induction false} WhereNone<T, K>(rows: seq<T>, key: T -> K, k: K)
    requires forall i :: 0 <= i < |rows| ==> key(rows[i]) != k
    ensures Where(rows, key, k) == []
  {
    if rows != [] {
      WhereNone(rows[1..], key, k);
    }
  }

  lemma WhereAppend<T, K>(a: seq<T>, b: seq<T>, key: T -> K, k: K)
    ensures Where(a + b, key, k) == Where(a, key, k) + Where(b, key, k)
  {
    FilterAppend(a, b, x => key(x) == k);
  }

  lemma WhereSnoc<T, K>(a: seq<T>, x: T, key: T -> K, k: K)
    ensures Where(a + [x], key, k) == Where(a, key, k) + (if key(x) == k then [x] else [])
  {
    FilterSnoc(a, x, y => key(y) == k);
  }

  lemma WhereSingleton<T, K>(x: T, key: T -> K, k: K)
    ensures Where([x], key, k) == if key(x) == k then [x] else []
  {
    WhereSnoc([], x, key, k);
    assert [] + [x] == [x];
  }

  /** `splice(i, 1)`: the rows without the one at index `i`. */
  function RemoveAt<T>(rows: seq<T>, i: nat): (r: seq<T>)
    requires i < |rows|
    ensures |r| == |rows| - 1
    ensures forall j :: 0 <= j < i ==> r[j] == rows[j]
    ensures forall j :: i <= j < |r| ==> r[j] == rows[j + 1]
    ensures multiset(r) + multiset{rows[i]} == multiset(rows)
  {
    assert rows == rows[..i] + [rows[i]] + rows[i + 1..];
    rows[..i] + rows[i + 1..]
  }

  /** The keys of the rows, each once, in order of first occurrence: the order in
      which a `Map` filled by one pass over the rows yields its entries. */
  function DistinctKeys<T, K(==)>(rows: seq<T>, key: T -> K): (ks: seq<K>)
    ensures |ks| <= |rows|
    ensures ks == [] <==> rows == []
  {
    if rows == [] then []
    else
      var ks := DistinctKeys(rows[..|rows| - 1], key);
      var k := key(rows[|rows| - 1]);
      if k in ks then ks else ks + [k]
  }

  /** No key occurs twice. */
  ghost predicate Distinct<K>(ks: seq<K>)
  {
    forall i, j :: 0 <= i < j < |ks| ==> ks[i] != ks[j]
  }

  /** The key list holds every key of the rows exactly once and nothing else. */
  lemma {:induction false} DistinctKeysSpec<T, K>(rows: seq<T>, key: T -> K)
    ensures Distinct(DistinctKeys(rows, key))
    ensures forall k :: k in DistinctKeys(rows, key) <==> exists i :: 0 <= i < |rows| && key(rows[i]) == k
  {
    if rows != [] {
      var init := rows[..|rows| - 1];
      DistinctKeysSpec(init, key);
      forall k
        ensures k in DistinctKeys(rows, key) <==> exists i :: 0 <= i < |rows| && key(rows[i]) == k
      {
        if exists i :: 0 <= i < |rows| && key(rows[i]) == k {
          var i :| 0 <= i < |rows| && key(rows[i]) == k;
          if i < |rows| - 1 {
            assert key(init[i]) == k;
          }
        }
        if k in DistinctKeys(init, key) {
          var i :| 0 <= i < |init| && key(init[i]) == k;
          assert key(rows[i]) == k;
        }
      }
    }
  }

  /** One more row adds its key at the end if it is new, and changes nothing otherwise. */
  lemma DistinctKeysSnoc<T, K>(rows: seq<T>, x: T, key: T -> K)
    ensures DistinctKeys(rows + [x], key)
         == if key(x) in DistinctKeys(rows, key) then DistinctKeys(rows, key)
            else DistinctKeys(rows, key) + [key(x)]
  {
    assert (rows + [x])[..|rows + [x]| - 1] == rows;
  }

  /** Every key in the key list has at least one row. */
  lemma WhereNonEmpty<T, K>(rows: seq<T>, key: T -> K, k: K)
    requires k in DistinctKeys(rows, key)
    ensures |Where(rows, key, k)| >= 1
  {
    DistinctKeysSpec(rows, key);
    var i :| 0 <= i < |rows| && key(rows[i]) == k;
    WhereMembers(rows, key, k);
    assert rows[i] in Where(rows, key, k);
  }
}
