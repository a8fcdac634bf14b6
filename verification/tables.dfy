/**
 * Generic operations on a table held as a sequence of rows in rowid order.
 * `key` projects a row onto its integer primary key.
 */
module Tables {
  import opened Outcomes

  /** No two rows share a key. */
  predicate UniqueKeys<T, K(==)>(rows: seq<T>, key: T -> K) {
    forall i, j :: 0 <= i < j < |rows| ==> key(rows[i]) != key(rows[j])
  }

  /** Some row carries primary key `k`. */
  predicate HasKey<T>(rows: seq<T>, key: T -> nat, k: nat) {
    exists i :: 0 <= i < |rows| && key(rows[i]) == k
  }

  /**
   * The rowid SQLite gives the next inserted row of an INTEGER PRIMARY KEY
   * table: one more than the largest rowid in use, or 1 for an empty table.
   */
  function NextKey<T>(rows: seq<T>, key: T -> nat): (r: nat)
    ensures r >= 1
    ensures forall i :: 0 <= i < |rows| ==> key(rows[i]) < r
    ensures |rows| == 0 ==> r == 1
    ensures |rows| > 0 ==> HasKey(rows, key, r - 1)
  {
    if |rows| == 0 then 1
    else
      var rest := NextKey(rows[1..], key);
      assert forall i :: 1 <= i < |rows| ==> key(rows[i]) == key(rows[1..][i - 1]);
      if key(rows[0]) + 1 >= rest then key(rows[0]) + 1
      else
        assert HasKey(rows[1..], key, rest - 1);
        var j :| 0 <= j < |rows[1..]| && key(rows[1..][j]) == rest - 1;
        assert key(rows[j + 1]) == rest - 1;
        rest
  }

  /** The position of the first row whose key is `k`, as `query.get(k)` finds it. */
  function Find<T>(rows: seq<T>, key: T -> nat, k: nat): (r: Option<nat>)
    ensures r.Some? ==> r.value < |rows| && key(rows[r.value]) == k
    ensures r.Some? ==> forall i :: 0 <= i < r.value ==> key(rows[i]) != k
    ensures r.None? <==> !HasKey(rows, key, k)
  {
    if |rows| == 0 then None
    else if key(rows[0]) == k then Some(0)
    else
      match Find(rows[1..], key, k)
      case None =>
        assert forall i :: 1 <= i < |rows| ==> key(rows[i]) == key(rows[1..][i - 1]);
        None
      case Some(i) => Some(i + 1)
  }

  /** The first row with key `k` is at position `i`, so that is where `Find` stops. */
  lemma FindAt<T>(rows: seq<T>, key: T -> nat, k: nat, i: nat)
    requires i < |rows| && key(rows[i]) == k
    requires forall j :: 0 <= j < i ==> key(rows[j]) != k
    ensures Find(rows, key, k) == Some(i)
  {
  }

  /** The rows satisfying `keep`, in their original order. */
  function Filter<T(!new)>(rows: seq<T>, keep: T -> bool): (r: seq<T>)
    ensures |r| <= |rows|
    ensures forall x :: x in r <==> x in rows && keep(x)
  {
    if |rows| == 0 then []
    else (if keep(rows[0]) then [rows[0]] else []) + Filter(rows[1..], keep)
  }

  /** Every row passed through `f`, in order. */
  function MapRows<T>(rows: seq<T>, f: T -> T): (r: seq<T>)
    ensures |r| == |rows|
    ensures forall i :: 0 <= i < |rows| ==> r[i] == f(rows[i])
  {
    if |rows| == 0 then [] else [f(rows[0])] + MapRows(rows[1..], f)
  }

  /**
   * The table after `DELETE ... WHERE id = k`: every row with another key
   * stays, in order, and no row with key `k` is left.
   */
  function RemoveKey<T(!new)>(rows: seq<T>, key: T -> nat, k: nat): (r: seq<T>)
    ensures forall x :: x in r <==> x in rows && key(x) != k
    ensures !HasKey(r, key, k)
    ensures !HasKey(rows, key, k) ==> r == rows
  {
    if |rows| == 0 then []
    else
      var rest := RemoveKey(rows[1..], key, k);
      assert forall i :: 1 <= i < |rows| ==> key(rows[i]) == key(rows[1..][i - 1]);
      if key(rows[0]) == k then rest
      else
        var r := [rows[0]] + rest;
        assert forall i :: 1 <= i < |r| ==> r[i] == rest[i - 1];
        r
  }

  /** Deleting by key keeps keys unique, and removes exactly one row when the key was there. */
  lemma {:induction false} RemoveKeyUnique<T(!new)>(rows: seq<T>, key: T -> nat, k: nat)
    requires UniqueKeys(rows, key)
    ensures UniqueKeys(RemoveKey(rows, key, k), key)
    ensures HasKey(rows, key, k) ==> |RemoveKey(rows, key, k)| == |rows| - 1
  {
    if |rows| > 0 {
      RemoveKeyUnique(rows[1..], key, k);
      var rest := RemoveKey(rows[1..], key, k);
      assert forall i :: 1 <= i < |rows| ==> key(rows[i]) == key(rows[1..][i - 1]);
      if key(rows[0]) == k {
        assert !HasKey(rows[1..], key, k);
      } else {
        var r := [rows[0]] + rest;
        assert forall i :: 1 <= i < |r| ==> r[i] == rest[i - 1];
        assert forall i :: 1 <= i < |r| ==> r[i] in rows[1..];
        if HasKey(rows, key, k) {
          var j :| 0 <= j < |rows| && key(rows[j]) == k;
          assert HasKey(rows[1..], key, k);
        }
      }
    }
  }

  /** Keeping the rows selected by `keep` cannot create a repeated key. */
  lemma {:induction false} FilterUniqueKeys<T(!new), K>(rows: seq<T>, keep: T -> bool, key: T -> K)
    requires UniqueKeys(rows, key)
    ensures UniqueKeys(Filter(rows, keep), key)
  {
    if |rows| > 0 {
      var rest := Filter(rows[1..], keep);
      FilterUniqueKeys(rows[1..], keep, key);
      var r := Filter(rows, keep);
      if keep(rows[0]) {
        assert r == [rows[0]] + rest;
        forall i | 1 <= i < |r|
          ensures key(r[0]) != key(r[i])
        {
          assert r[i] in rows[1..];
        }
      } else {
        assert r == rest;
      }
    }
  }

  /** Filtering distributes over concatenation. */
  lemma {:induction false} FilterAppend<T(!new)>(a: seq<T>, b: seq<T>, keep: T -> bool)
    ensures Filter(a + b, keep) == Filter(a, keep) + Filter(b, keep)
  {
    if |a| == 0 {
      assert a + b == b;
    } else {
      assert (a + b)[1..] == a[1..] + b;
      FilterAppend(a[1..], b, keep);
    }
  }

  /** A filter that rejects nothing returns its input; one that keeps nothing returns []. */
  lemma {:induction false} FilterTrivial<T(!new)>(rows: seq<T>, keep: T -> bool)
    ensures (forall x :: x in rows ==> keep(x)) ==> Filter(rows, keep) == rows
    ensures (forall x :: x in rows ==> !keep(x)) ==> Filter(rows, keep) == []
  {
    if |rows| > 0 {
      FilterTrivial(rows[1..], keep);
    }
  }

  /** A narrower filter applied after a wider one is the narrower filter alone. */
  lemma {:induction false} FilterFilter<T(!new)>(rows: seq<T>, wide: T -> bool, narrow: T -> bool)
    requires forall x :: narrow(x) ==> wide(x)
    ensures Filter(Filter(rows, wide), narrow) == Filter(rows, narrow)
  {
    if |rows| > 0 {
      FilterFilter(rows[1..], wide, narrow);
      var w := Filter(rows, wide);
      if wide(rows[0]) {
        assert w == [rows[0]] + Filter(rows[1..], wide);
        assert w[1..] == Filter(rows[1..], wide);
        assert Filter(w, narrow) == (if narrow(rows[0]) then [rows[0]] else []) + Filter(w[1..], narrow);
      } else {
        assert w == Filter(rows[1..], wide);
        assert !narrow(rows[0]);
      }
    }
  }

  /** Rewriting rows in a way the filter cannot see commutes with filtering. */
  lemma {:induction false} FilterMapRows<T(!new)>(rows: seq<T>, f: T -> T, keep: T -> bool)
    requires forall x :: keep(f(x)) == keep(x)
    ensures Filter(MapRows(rows, f), keep) == MapRows(Filter(rows, keep), f)
  {
    if |rows| > 0 {
      FilterMapRows(rows[1..], f, keep);
      assert MapRows(rows, f)[1..] == MapRows(rows[1..], f);
      if keep(rows[0]) {
        assert MapRows([rows[0]] + Filter(rows[1..], keep), f)[1..] == MapRows(Filter(rows[1..], keep), f);
      }
    }
  }

  /** A filter and its complement split a table without loss. */
  lemma {:induction false} FilterPartition<T(!new)>(rows: seq<T>, keep: T -> bool, drop: T -> bool)
    requires forall x :: drop(x) == !keep(x)
    ensures |Filter(rows, keep)| + |Filter(rows, drop)| == |rows|
  {
    if |rows| > 0 {
      FilterPartition(rows[1..], keep, drop);
    }
  }

  /** Overwriting a row the filter rejects by another it rejects leaves the filter's view alone. */
  lemma {:induction false} FilterUpdateRejected<T(!new)>(rows: seq<T>, i: nat, x: T, keep: T -> bool)
    requires i < |rows|
    requires !keep(rows[i]) && !keep(x)
    ensures Filter(rows[i := x], keep) == Filter(rows, keep)
  {
    if i > 0 {
      assert rows[i := x][1..] == rows[1..][i - 1 := x];
      FilterUpdateRejected(rows[1..], i - 1, x, keep);
    }
  }

  /** Rewriting rows with a function that fixes each of them changes nothing. */
  lemma {:induction false} MapRowsIdentity<T>(rows: seq<T>, f: T -> T)
    requires forall i :: 0 <= i < |rows| ==> f(rows[i]) == rows[i]
    ensures MapRows(rows, f) == rows
  {
    if |rows| > 0 {
      assert forall i :: 0 <= i < |rows[1..]| ==> rows[1..][i] == rows[i + 1];
      MapRowsIdentity(rows[1..], f);
    }
  }

  /** Rewriting rows without touching their keys keeps keys unique. */
  lemma MapRowsUniqueKeys<T, K>(rows: seq<T>, f: T -> T, key: T -> K)
    requires UniqueKeys(rows, key)
    requires forall i :: 0 <= i < |rows| ==> key(f(rows[i])) == key(rows[i])
    ensures UniqueKeys(MapRows(rows, f), key)
  {
  }

  /** Deleting by key is filtering out the rows with that key. */
  lemma {:induction false} RemoveKeyIsFilter<T(!new)>(rows: seq<T>, key: T -> nat, k: nat)
    ensures RemoveKey(rows, key, k) == Filter(rows, x => key(x) != k)
  {
    if |rows| > 0 {
      RemoveKeyIsFilter(rows[1..], key, k);
    }
  }

  /** Two filters that agree on every row select the same rows. */
  lemma {:induction false} FilterCongruent<T(!new)>(rows: seq<T>, keep: T -> bool, keep': T -> bool)
    requires forall i :: 0 <= i < |rows| ==> keep(rows[i]) == keep'(rows[i])
    ensures Filter(rows, keep) == Filter(rows, keep')
  {
    if |rows| > 0 {
      assert forall i :: 0 <= i < |rows[1..]| ==> rows[1..][i] == rows[i + 1];
      FilterCongruent(rows[1..], keep, keep');
    }
  }
}
