/**
  A database table as the sequence of its rows, and the four statements the
  storage layer issues against it: `SELECT ... WHERE col = k`, `INSERT`,
  `UPDATE ... WHERE col = k` and `DELETE ... WHERE col = k`. The column is
  given as a key function from row to value.
 */
module Tables {
  import opened Wrappers

  /** Some row has `k` in the key column. */
  predicate HasKey<R, K(==)>(rows: seq<R>, key: R -> K, k: K) {
    exists i :: 0 <= i < |rows| && key(rows[i]) == k
  }

  /** No two rows share a key: a `UNIQUE` or `PRIMARY KEY` constraint. */
  predicate UniqueKeys<R, K(==)>(rows: seq<R>, key: R -> K) {
    forall i, j :: 0 <= i < j < |rows| ==> key(rows[i]) != key(rows[j])
  }

  /** The number of rows whose key is `k`. */
  function Count<R, K(==)>(rows: seq<R>, key: R -> K, k: K): (n: nat)
    ensures n <= |rows|
    ensures n == 0 <==> !HasKey(rows, key, k)
  {
    if rows == [] then 0
    else
      var rest := Count(rows[1..], key, k);
      assert HasKey(rows[1..], key, k) ==> HasKey(rows, key, k) by {
        if HasKey(rows[1..], key, k) {
          var i :| 0 <= i < |rows[1..]| && key(rows[1..][i]) == k;
          assert key(rows[i + 1]) == k;
        }
      }
      (if key(rows[0]) == k then 1 else 0) + rest
  }

  /** Under a uniqueness constraint a key occurs in at most one row. */
  lemma {:induction false} UniqueCountAtMostOne<R, K>(rows: seq<R>, key: R -> K, k: K)
    requires UniqueKeys(rows, key)
    ensures Count(rows, key, k) <= 1
  {
    if rows != [] {
      assert UniqueKeys(rows[1..], key);
      UniqueCountAtMostOne(rows[1..], key, k);
    }
  }

  /** The position of the first row whose key is `k`: the row a
      destructuring `const [row] = await select ... where` receives. */
  function FirstIndex<R, K(==)>(rows: seq<R>, key: R -> K, k: K): (r: Option<nat>)
    ensures r.None? <==> !HasKey(rows, key, k)
    ensures r.Some? ==> r.value < |rows| && key(rows[r.value]) == k
    ensures r.Some? ==> forall j :: 0 <= j < r.value ==> key(rows[j]) != k
  {
    if rows == [] then None
    else if key(rows[0]) == k then Some(0)
    else match FirstIndex(rows[1..], key, k)
      case None => None
      case Some(i) => Some(i + 1)
  }

  /** The first row whose key is `k`, if there is one. */
  function Lookup<R, K(==)>(rows: seq<R>, key: R -> K, k: K): (r: Option<R>)
    ensures r.None? <==> !HasKey(rows, key, k)
    ensures r.Some? ==> r.value in rows && key(r.value) == k
  {
    match FirstIndex(rows, key, k)
    case None => None
    case Some(i) => Some(rows[i])
  }

  /** Under a uniqueness constraint the row found is the only one with that key. */
  lemma LookupUnique<R, K>(rows: seq<R>, key: R -> K, i: nat)
    requires UniqueKeys(rows, key)
    requires i < |rows|
    ensures Lookup(rows, key, key(rows[i])) == Some(rows[i])
  {
    var f := FirstIndex(rows, key, key(rows[i]));
    assert HasKey(rows, key, key(rows[i]));
  }

  /** `DELETE ... WHERE key = k`: the rows that remain, in order, and the row count removed. */
  function DeleteWhere<R, K(==)>(rows: seq<R>, key: R -> K, k: K): (r: (seq<R>, nat))
    ensures |r.0| + r.1 == |rows|
    ensures r.1 == Count(rows, key, k)
    ensures !HasKey(r.0, key, k)
    ensures forall i :: 0 <= i < |r.0| ==> r.0[i] in rows && key(r.0[i]) != k
    ensures forall i :: 0 <= i < |rows| && key(rows[i]) != k ==> rows[i] in r.0
  {
    if rows == [] then ([], 0)
    else
      var rest := DeleteWhere(rows[1..], key, k);
      assert forall i :: 1 <= i < |rows| ==> rows[i] == rows[1..][i - 1];
      if key(rows[0]) == k then (rest.0, rest.1 + 1)
      else
        var kept := [rows[0]] + rest.0;
        assert forall i :: 1 <= i < |kept| ==> kept[i] == rest.0[i - 1];
        (kept, rest.1)
  }

  /** Rows `key(x) != k` keep their relative order and every other key's rows survive a delete. */
  lemma DeleteKeepsOtherKeys<R, K>(rows: seq<R>, key: R -> K, k: K, k': K)
    requires k' != k
    ensures Lookup(DeleteWhere(rows, key, k).0, key, k') == Lookup(rows, key, k')
    decreases |rows|
  {
    if rows != [] {
      DeleteKeepsOtherKeys(rows[1..], key, k, k');
      var rest := DeleteWhere(rows[1..], key, k).0;
      if key(rows[0]) != k {
        var kept := [rows[0]] + rest;
        assert kept[1..] == rest;
      }
      LookupCons(rows, key, k');
      if key(rows[0]) != k {
        LookupCons([rows[0]] + rest, key, k');
        assert ([rows[0]] + rest)[1..] == rest;
      }
    }
  }

  /** Lookup on a non-empty table, one row at a time. */
  lemma LookupCons<R, K>(rows: seq<R>, key: R -> K, k: K)
    requires rows != []
    ensures Lookup(rows, key, k) ==
      (if key(rows[0]) == k then Some(rows[0]) else Lookup(rows[1..], key, k))
  {
    if key(rows[0]) != k {
      var a := FirstIndex(rows, key, k);
      var b := FirstIndex(rows[1..], key, k);
      match b
      case None =>
      case Some(j) =>
        assert a == Some(j + 1);
    }
  }

  /** `UPDATE ... SET f(row) WHERE key = k`: `f` applied to each matching row, in place. */
  function UpdateWhere<R, K(==)>(rows: seq<R>, key: R -> K, k: K, f: R -> R): (r: seq<R>)
    ensures |r| == |rows|
    ensures forall i :: 0 <= i < |rows| && key(rows[i]) != k ==> r[i] == rows[i]
    ensures forall i :: 0 <= i < |rows| && key(rows[i]) == k ==> r[i] == f(rows[i])
  {
    seq(|rows|, i requires 0 <= i < |rows| => if key(rows[i]) == k then f(rows[i]) else rows[i])
  }

  /** An update that does not move rows between keys keeps a uniqueness
      constraint and the row count of every key. */
  lemma UpdateKeepsKeys<R, K>(rows: seq<R>, key: R -> K, k: K, f: R -> R)
    requires forall x :: key(f(x)) == key(x)
    ensures forall i :: 0 <= i < |rows| ==> key(UpdateWhere(rows, key, k, f)[i]) == key(rows[i])
    ensures UniqueKeys(rows, key) ==> UniqueKeys(UpdateWhere(rows, key, k, f), key)
    ensures forall k' :: HasKey(UpdateWhere(rows, key, k, f), key, k') <==> HasKey(rows, key, k')
  {
    var r := UpdateWhere(rows, key, k, f);
    forall k' ensures HasKey(r, key, k') <==> HasKey(rows, key, k') {
      if HasKey(r, key, k') {
        var i :| 0 <= i < |r| && key(r[i]) == k';
        assert key(rows[i]) == k';
      }
      if HasKey(rows, key, k') {
        var i :| 0 <= i < |rows| && key(rows[i]) == k';
        assert key(r[i]) == k';
      }
    }
  }

  /** The row an update returns is `f` of the row found before it. */
  lemma LookupAfterUpdate<R, K>(rows: seq<R>, key: R -> K, k: K, f: R -> R)
    requires forall x :: key(f(x)) == key(x)
    ensures Lookup(UpdateWhere(rows, key, k, f), key, k) ==
      (match Lookup(rows, key, k) case None => None case Some(x) => Some(f(x)))
  {
    var r := UpdateWhere(rows, key, k, f);
    UpdateKeepsKeys(rows, key, k, f);
    var a := FirstIndex(rows, key, k);
    var b := FirstIndex(r, key, k);
    match a
    case None =>
    case Some(i) =>
      assert key(r[i]) == k;
      match b
      case None =>
      case Some(j) =>
        assert key(rows[j]) == k;
        assert i == j;
  }

  /** Lookups of other keys do not see an update to `k`. */
  lemma LookupOtherAfterUpdate<R, K>(rows: seq<R>, key: R -> K, k: K, k': K, f: R -> R)
    requires forall x :: key(f(x)) == key(x)
    requires k' != k
    ensures Lookup(UpdateWhere(rows, key, k, f), key, k') == Lookup(rows, key, k')
  {
    var r := UpdateWhere(rows, key, k, f);
    UpdateKeepsKeys(rows, key, k, f);
    var a := FirstIndex(rows, key, k');
    var b := FirstIndex(r, key, k');
    match a
    case None =>
    case Some(i) =>
      assert key(r[i]) == k';
      match b
      case None =>
      case Some(j) =>
        assert key(rows[j]) == k';
        assert i == j;
  }

  /** Appending a row whose key is new keeps a uniqueness constraint. */
  lemma AppendKeepsUnique<R, K>(rows: seq<R>, key: R -> K, x: R)
    requires UniqueKeys(rows, key)
    requires !HasKey(rows, key, key(x))
    ensures UniqueKeys(rows + [x], key)
  {
    var r := rows + [x];
    forall i, j | 0 <= i < j < |r| ensures key(r[i]) != key(r[j]) {
      if j == |rows| {
        assert key(rows[i]) != key(x);
      }
    }
  }

  /** Appending a row with a new key makes it findable and leaves other keys' lookups alone. */
  lemma LookupAfterAppend<R, K>(rows: seq<R>, key: R -> K, x: R, k: K)
    requires !HasKey(rows, key, key(x))
    ensures Lookup(rows + [x], key, k) == (if k == key(x) then Some(x) else Lookup(rows, key, k))
  {
    var r := rows + [x];
    assert forall i :: 0 <= i < |rows| ==> r[i] == rows[i];
    var a := FirstIndex(r, key, k);
    var b := FirstIndex(rows, key, k);
    match b
    case Some(j) =>
      assert key(r[j]) == k;
    case None =>
      assert key(r[|rows|]) == key(x);
  }
}
