/**
 * Table queries as folds over sequences: `WHERE` (Filter), `SUM` and
 * `COUNT` over the rows a predicate selects, and `ORDER BY key DESC`
 * (a stable insertion sort). Every SQL aggregate and listing of the model
 * is one of these.
 */
module Folds {
  import opened Wrappers

  /** `sub` is `s` with some elements removed, the rest kept in order. */
  predicate IsSubsequence<T(==)>(sub: seq<T>, s: seq<T>)
    decreases |s|
  {
    if |sub| == 0 then true
    else if |s| == 0 then false
    else if sub[0] == s[0] then IsSubsequence(sub[1..], s[1..])
    else IsSubsequence(sub, s[1..])
  }

  /** `SELECT * WHERE p`: the rows satisfying `p`, in table order. */
  function Filter<T(==)>(s: seq<T>, p: T -> bool): (r: seq<T>)
    ensures forall i :: 0 <= i < |r| ==> r[i] in s && p(r[i])
    ensures forall i :: 0 <= i < |s| && p(s[i]) ==> s[i] in r
    ensures |r| <= |s|
    ensures IsSubsequence(r, s)
    decreases |s|
  {
    if |s| == 0 then []
    else if p(s[0]) then [s[0]] + Filter(s[1..], p)
    else Filter(s[1..], p)
  }

  /** `COALESCE(SUM(amount) WHERE p, 0)`. */
  function SumWhere<T>(s: seq<T>, p: T -> bool, amount: T -> int): int
    decreases |s|
  {
    if |s| == 0 then 0
    else (if p(s[0]) then amount(s[0]) else 0) + SumWhere(s[1..], p, amount)
  }

  /** `COUNT(*) WHERE p`. */
  function CountWhere<T>(s: seq<T>, p: T -> bool): nat
    decreases |s|
  {
    if |s| == 0 then 0
    else (if p(s[0]) then 1 else 0) + CountWhere(s[1..], p)
  }

  /** The first row satisfying `p` (a `SELECT ... LIMIT 1` without `ORDER BY`,
      read in table order), or `None` when no row does. */
  function FindFirst<T(==)>(s: seq<T>, p: T -> bool): (r: Option<T>)
    ensures r.None? <==> forall i :: 0 <= i < |s| ==> !p(s[i])
    ensures r.Some? ==> exists i :: 0 <= i < |s| && s[i] == r.value && p(s[i]) && forall j :: 0 <= j < i ==> !p(s[j])
    decreases |s|
  {
    if |s| == 0 then None
    else if p(s[0]) then Some(s[0])
    else
      var r := FindFirst(s[1..], p);
      if r.Some? then
        var i :| 0 <= i < |s[1..]| && s[1..][i] == r.value && p(s[1..][i]) && forall j :: 0 <= j < i ==> !p(s[1..][j]);
        assert s[i + 1] == r.value && p(s[i + 1]);
        assert forall j :: 0 <= j < i + 1 ==> !p(s[j]) by {
          forall j | 0 <= j < i + 1 ensures !p(s[j]) {
            if j > 0 { assert s[j] == s[1..][j - 1]; }
          }
        }
        r
      else
        assert forall i :: 0 <= i < |s| ==> !p(s[i]) by {
          forall i | 0 <= i < |s| ensures !p(s[i]) {
            if i > 0 { assert s[i] == s[1..][i - 1]; }
          }
        }
        r
  }

  /** Selecting the rows first and counting them gives the `COUNT(*)`. */
  lemma {:induction false} FilterLength<T>(s: seq<T>, p: T -> bool)
    ensures |Filter(s, p)| == CountWhere(s, p)
    decreases |s|
  {
    if |s| > 0 {
      FilterLength(s[1..], p);
    }
  }

  /** A selection that matches no row sums to 0 (the `COALESCE`). */
  lemma {:induction false} SumWhereNone<T>(s: seq<T>, p: T -> bool, amount: T -> int)
    requires forall i :: 0 <= i < |s| ==> !p(s[i])
    ensures SumWhere(s, p, amount) == 0
    decreases |s|
  {
    if |s| > 0 {
      assert forall i :: 0 <= i < |s[1..]| ==> s[1..][i] == s[i + 1];
      SumWhereNone(s[1..], p, amount);
    }
  }

  /** Every selected row has a non-negative amount. */
  predicate NonNegativeWhere<T>(s: seq<T>, p: T -> bool, amount: T -> int) {
    forall i :: 0 <= i < |s| && p(s[i]) ==> amount(s[i]) >= 0
  }

  lemma {:induction false} SumWhereAppend<T>(a: seq<T>, b: seq<T>, p: T -> bool, amount: T -> int)
    ensures SumWhere(a + b, p, amount) == SumWhere(a, p, amount) + SumWhere(b, p, amount)
    decreases |a|
  {
    if |a| == 0 {
      assert a + b == b;
    } else {
      assert (a + b)[0] == a[0];
      assert (a + b)[1..] == a[1..] + b;
      SumWhereAppend(a[1..], b, p, amount);
    }
  }

  lemma {:induction false} CountWhereAppend<T>(a: seq<T>, b: seq<T>, p: T -> bool)
    ensures CountWhere(a + b, p) == CountWhere(a, p) + CountWhere(b, p)
    decreases |a|
  {
    if |a| == 0 {
      assert a + b == b;
    } else {
      assert (a + b)[0] == a[0];
      assert (a + b)[1..] == a[1..] + b;
      CountWhereAppend(a[1..], b, p);
    }
  }

  /** Selecting with a weaker predicate over non-negative amounts can only
      grow the sum. */
  lemma {:induction false} SumWhereMonotone<T>(s: seq<T>, p: T -> bool, q: T -> bool, amount: T -> int)
    requires forall i :: 0 <= i < |s| && p(s[i]) ==> q(s[i])
    requires NonNegativeWhere(s, q, amount)
    ensures SumWhere(s, p, amount) <= SumWhere(s, q, amount)
    decreases |s|
  {
    if |s| > 0 {
      assert forall i :: 0 <= i < |s[1..]| ==> s[1..][i] == s[i + 1];
      SumWhereMonotone(s[1..], p, q, amount);
    }
  }

  /** Two predicates that agree on every row select the same sum. */
  lemma {:induction false} SumWhereCongruent<T>(s: seq<T>, p: T -> bool, q: T -> bool, amount: T -> int)
    requires forall i :: 0 <= i < |s| ==> (p(s[i]) <==> q(s[i]))
    ensures SumWhere(s, p, amount) == SumWhere(s, q, amount)
    decreases |s|
  {
    if |s| > 0 {
      assert forall i :: 0 <= i < |s[1..]| ==> s[1..][i] == s[i + 1];
      SumWhereCongruent(s[1..], p, q, amount);
    }
  }

  /** Splitting the selection by a second predicate splits the sum. */
  lemma {:induction false} SumWhereSplit<T>(s: seq<T>, p: T -> bool, q: T -> bool, both: T -> bool, rest: T -> bool, amount: T -> int)
    requires forall x :: both(x) <==> p(x) && q(x)
    requires forall x :: rest(x) <==> p(x) && !q(x)
    ensures SumWhere(s, p, amount) == SumWhere(s, both, amount) + SumWhere(s, rest, amount)
    decreases |s|
  {
    if |s| > 0 {
      SumWhereSplit(s[1..], p, q, both, rest, amount);
    }
  }

  /** `COUNT(*)` does not depend on the order of the rows. */
  lemma {:induction false} CountWherePermutation<T>(a: seq<T>, b: seq<T>, p: T -> bool)
    requires multiset(a) == multiset(b)
    ensures CountWhere(a, p) == CountWhere(b, p)
    decreases |a|
  {
    if |a| == 0 {
      assert |multiset(b)| == 0;
    } else {
      var x := a[0];
      assert x in multiset(b);
      var k :| 0 <= k < |b| && b[k] == x;
      var b' := b[..k] + b[k + 1..];
      assert b == b[..k] + ([b[k]] + b[k + 1..]);
      assert a == [x] + a[1..];
      assert multiset(a) == multiset{x} + multiset(a[1..]);
      assert multiset(b) == multiset(b[..k]) + multiset{x} + multiset(b[k + 1..]);
      assert multiset(b') == multiset(b[..k]) + multiset(b[k + 1..]);
      assert multiset(a[1..]) == multiset(a) - multiset{x};
      assert multiset(b') == multiset(b) - multiset{x};
      CountWherePermutation(a[1..], b', p);
      CountWhereAppend(b[..k], [b[k]] + b[k + 1..], p);
      CountWhereAppend([b[k]], b[k + 1..], p);
      CountWhereAppend(b[..k], b[k + 1..], p);
    }
  }

  /** Replacing one row moves the count by that row's contribution only. */
  lemma {:induction false} CountWhereUpdate<T>(s: seq<T>, i: nat, x: T, p: T -> bool)
    requires i < |s|
    ensures CountWhere(s[i := x], p) == CountWhere(s, p) - (if p(s[i]) then 1 else 0) + (if p(x) then 1 else 0)
    decreases |s|
  {
    if i == 0 {
      assert s[i := x][1..] == s[1..];
    } else {
      assert s[i := x][1..] == s[1..][i - 1 := x];
      CountWhereUpdate(s[1..], i - 1, x, p);
    }
  }

  /** Replacing one row moves the sum by that row's contribution only. */
  lemma {:induction false} SumWhereUpdate<T>(s: seq<T>, i: nat, x: T, p: T -> bool, amount: T -> int)
    requires i < |s|
    ensures SumWhere(s[i := x], p, amount) ==
      SumWhere(s, p, amount) - (if p(s[i]) then amount(s[i]) else 0) + (if p(x) then amount(x) else 0)
    decreases |s|
  {
    if i == 0 {
      assert s[i := x][1..] == s[1..];
    } else {
      assert s[i := x][1..] == s[1..][i - 1 := x];
      SumWhereUpdate(s[1..], i - 1, x, p, amount);
    }
  }

  /** Rows are in non-increasing order of `key`. */
  predicate SortedDesc<T>(s: seq<T>, key: T -> int) {
    forall i, j :: 0 <= i < j < |s| ==> key(s[i]) >= key(s[j])
  }

  /** Inserts `x` before the first row whose key it is not below. */
  function InsertDesc<T>(x: T, s: seq<T>, key: T -> int): (r: seq<T>)
    ensures |r| == |s| + 1
    decreases |s|
  {
    if |s| == 0 || key(x) >= key(s[0]) then [x] + s
    else [s[0]] + InsertDesc(x, s[1..], key)
  }

  lemma {:induction false} InsertDescElements<T>(x: T, s: seq<T>, key: T -> int)
    ensures multiset(InsertDesc(x, s, key)) == multiset(s) + multiset{x}
    ensures forall k :: 0 <= k < |s| + 1 ==> InsertDesc(x, s, key)[k] == x || InsertDesc(x, s, key)[k] in s
    decreases |s|
  {
    if |s| > 0 && key(x) < key(s[0]) {
      InsertDescElements(x, s[1..], key);
      var tail := InsertDesc(x, s[1..], key);
      assert InsertDesc(x, s, key) == [s[0]] + tail;
      assert s == [s[0]] + s[1..];
      assert multiset(s) == multiset{s[0]} + multiset(s[1..]);
      assert forall k :: 1 <= k < |s| + 1 ==> InsertDesc(x, s, key)[k] == tail[k - 1];
    }
  }

  lemma {:induction false} InsertDescSorted<T>(x: T, s: seq<T>, key: T -> int)
    requires SortedDesc(s, key)
    ensures SortedDesc(InsertDesc(x, s, key), key)
    decreases |s|
  {
    if |s| > 0 && key(x) < key(s[0]) {
      InsertDescSorted(x, s[1..], key);
      InsertDescElements(x, s[1..], key);
      var tail := InsertDesc(x, s[1..], key);
      forall k | 0 <= k < |tail|
        ensures key(tail[k]) <= key(s[0])
      {
        if tail[k] != x {
          var i :| 0 <= i < |s[1..]| && s[1..][i] == tail[k];
          assert s[i + 1] == tail[k];
        }
      }
      var r := InsertDesc(x, s, key);
      assert r == [s[0]] + tail;
      forall i, j | 0 <= i < j < |r|
        ensures key(r[i]) >= key(r[j])
      {
        assert r[j] == tail[j - 1];
        if i > 0 {
          assert r[i] == tail[i - 1];
        }
      }
    }
  }

  /** `ORDER BY key DESC`: a permutation of `s` in non-increasing key order;
      rows with equal keys keep their table order. */
  function SortDesc<T>(s: seq<T>, key: T -> int): (r: seq<T>)
    ensures SortedDesc(r, key)
    ensures multiset(r) == multiset(s)
    ensures |r| == |s|
    decreases |s|
  {
    if |s| == 0 then []
    else
      var rest := SortDesc(s[1..], key);
      InsertDescSorted(s[0], rest, key);
      InsertDescElements(s[0], rest, key);
      assert s == [s[0]] + s[1..];
      assert multiset(s) == multiset{s[0]} + multiset(s[1..]);
      InsertDesc(s[0], rest, key)
  }

  /** Every element of a permutation is an element of the original. */
  lemma SameElements<T>(a: seq<T>, b: seq<T>)
    requires multiset(a) == multiset(b)
    ensures forall x :: x in a <==> x in b
  {
    assert forall x :: x in a <==> x in multiset(a);
    assert forall x :: x in b <==> x in multiset(b);
  }

  /** `ORDER BY key DESC LIMIT 1` over the rows satisfying `p`: a row with
      the greatest key among them, or `None` when no row satisfies `p`. */
  function Newest<T(==)>(s: seq<T>, p: T -> bool, key: T -> int): (r: Option<T>)
    ensures r.None? <==> forall i :: 0 <= i < |s| ==> !p(s[i])
    ensures r.Some? ==> r.value in s && p(r.value)
    ensures r.Some? ==> forall i :: 0 <= i < |s| && p(s[i]) ==> key(s[i]) <= key(r.value)
  {
    var sorted := SortDesc(s, key);
    NewestOfSorted(s, sorted, p, key);
    FindFirst(sorted, p)
  }

  lemma NewestOfSorted<T>(s: seq<T>, sorted: seq<T>, p: T -> bool, key: T -> int)
    requires multiset(sorted) == multiset(s)
    requires SortedDesc(sorted, key)
    ensures FindFirst(sorted, p).None? <==> forall i :: 0 <= i < |s| ==> !p(s[i])
    ensures FindFirst(sorted, p).Some? ==> FindFirst(sorted, p).value in s
    ensures FindFirst(sorted, p).Some? ==>
      forall i :: 0 <= i < |s| && p(s[i]) ==> key(s[i]) <= key(FindFirst(sorted, p).value)
  {
    SameElements(sorted, s);
    var r := FindFirst(sorted, p);
    if r.None? {
      forall i | 0 <= i < |s| ensures !p(s[i]) {
        assert s[i] in sorted;
      }
    } else {
      var k :| 0 <= k < |sorted| && sorted[k] == r.value && p(sorted[k]) && forall j :: 0 <= j < k ==> !p(sorted[j]);
      assert sorted[k] in s;
      var m :| 0 <= m < |s| && s[m] == sorted[k];
      assert p(s[m]);
      forall i | 0 <= i < |s| && p(s[i]) ensures key(s[i]) <= key(r.value) {
        assert s[i] in sorted;
        var j :| 0 <= j < |sorted| && sorted[j] == s[i];
        if j > k {
          assert key(sorted[k]) >= key(sorted[j]);
        }
      }
    }
  }

  /** `SELECT * WHERE p ORDER BY key DESC`: the selected rows, largest key first. */
  function SelectDesc<T(==)>(s: seq<T>, p: T -> bool, key: T -> int): (r: seq<T>)
    ensures forall i :: 0 <= i < |r| ==> r[i] in s && p(r[i])
    ensures forall i :: 0 <= i < |s| && p(s[i]) ==> s[i] in r
    ensures multiset(r) == multiset(Filter(s, p))
    ensures SortedDesc(r, key)
    ensures |r| == CountWhere(s, p)
  {
    var r := SortDesc(Filter(s, p), key);
    SelectDescFacts(s, p, r);
    r
  }

  lemma SelectDescFacts<T>(s: seq<T>, p: T -> bool, r: seq<T>)
    requires multiset(r) == multiset(Filter(s, p))
    ensures forall i :: 0 <= i < |r| ==> r[i] in s && p(r[i])
    ensures forall i :: 0 <= i < |s| && p(s[i]) ==> s[i] in r
    ensures |r| == CountWhere(s, p)
  {
    var f := Filter(s, p);
    forall i | 0 <= i < |r| ensures r[i] in s && p(r[i]) {
      assert r[i] in multiset(f);
    }
    forall i | 0 <= i < |s| && p(s[i]) ensures s[i] in r {
      assert s[i] in multiset(f);
    }
    FilterLength(s, p);
    calc {
      |r|;
      |multiset(r)|;
      |multiset(f)|;
      |f|;
    }
  }

  /** `UPDATE ... SET ... WHERE p`: every row satisfying `p` is rewritten by
      `f`, the others are kept, and the order is unchanged. */
  function MapWhere<T>(s: seq<T>, p: T -> bool, f: T -> T): (r: seq<T>)
    ensures |r| == |s|
    ensures forall i :: 0 <= i < |s| && p(s[i]) ==> r[i] == f(s[i])
    ensures forall i :: 0 <= i < |s| && !p(s[i]) ==> r[i] == s[i]
  {
    seq(|s|, i requires 0 <= i < |s| => if p(s[i]) then f(s[i]) else s[i])
  }

  /** When exactly one row satisfies `p`, the update rewrites that row only. */
  lemma MapWhereSingle<T>(s: seq<T>, p: T -> bool, f: T -> T, i: nat)
    requires i < |s| && p(s[i])
    requires forall j :: 0 <= j < |s| && j != i ==> !p(s[j])
    ensures MapWhere(s, p, f) == s[i := f(s[i])]
  {
  }

  /** An update that matches no row changes nothing. */
  lemma MapWhereNone<T>(s: seq<T>, p: T -> bool, f: T -> T)
    requires forall j :: 0 <= j < |s| ==> !p(s[j])
    ensures MapWhere(s, p, f) == s
  {
  }

  /** `COUNT(*)` is zero exactly when no row is selected. */
  lemma CountWhereZeroIff<T>(s: seq<T>, p: T -> bool)
    ensures CountWhere(s, p) == 0 <==> forall i :: 0 <= i < |s| ==> !p(s[i])
  {
    FilterLength(s, p);
  }

  /** `SUM` over an empty selection is the `COALESCE` default 0. */
  lemma SumWhereEmptySelection<T>(s: seq<T>, p: T -> bool, amount: T -> int)
    ensures (forall i :: 0 <= i < |s| ==> !p(s[i])) ==> SumWhere(s, p, amount) == 0
  {
    if forall i :: 0 <= i < |s| ==> !p(s[i]) {
      SumWhereNone(s, p, amount);
    }
  }

  /** An update that does not change which rows satisfy `q` leaves the first
      such row in place: the search finds the updated version of the same row. */
  lemma FindFirstMapped<T>(s: seq<T>, p: T -> bool, f: T -> T, q: T -> bool)
    requires forall i :: 0 <= i < |s| ==> q(f(s[i])) == q(s[i])
    ensures FindFirst(MapWhere(s, p, f), q).None? <==> FindFirst(s, q).None?
    ensures FindFirst(s, q).Some? ==>
      var v := FindFirst(s, q).value;
      FindFirst(MapWhere(s, p, f), q) == Some(if p(v) then f(v) else v)
  {
    var m := MapWhere(s, p, f);
    assert forall i :: 0 <= i < |s| ==> q(m[i]) == q(s[i]);
    if FindFirst(s, q).Some? {
      var k :| 0 <= k < |s| && s[k] == FindFirst(s, q).value && q(s[k]) && forall j :: 0 <= j < k ==> !q(s[j]);
      var k' :| 0 <= k' < |m| && m[k'] == FindFirst(m, q).value && q(m[k']) && forall j :: 0 <= j < k' ==> !q(m[j]);
      assert k == k';
    }
  }

  /** Selections by predicates that agree on every row are equal. */
  lemma {:induction false} FilterCongruent<T>(s: seq<T>, p: T -> bool, q: T -> bool)
    requires forall i :: 0 <= i < |s| ==> (p(s[i]) <==> q(s[i]))
    ensures Filter(s, p) == Filter(s, q)
    decreases |s|
  {
    if |s| > 0 {
      assert forall i :: 0 <= i < |s[1..]| ==> s[1..][i] == s[i + 1];
      FilterCongruent(s[1..], p, q);
    }
  }

  /** A selection every row satisfies keeps the whole table, in order. */
  lemma {:induction false} FilterAll<T>(s: seq<T>, p: T -> bool)
    requires forall i :: 0 <= i < |s| ==> p(s[i])
    ensures Filter(s, p) == s
    decreases |s|
  {
    if |s| > 0 {
      assert forall i :: 0 <= i < |s[1..]| ==> s[1..][i] == s[i + 1];
      FilterAll(s[1..], p);
    }
  }

  /** `LIMIT n OFFSET k`. */
  function Page<T>(s: seq<T>, offset: nat, limit: nat): (r: seq<T>)
    ensures |r| <= limit
    ensures offset <= |s| ==> |r| == if |s| - offset < limit then |s| - offset else limit
    ensures forall i :: 0 <= i < |r| ==> offset + i < |s| && r[i] == s[offset + i]
  {
    if offset >= |s| then []
    else if |s| - offset <= limit then s[offset..]
    else s[offset..offset + limit]
  }

  /** No two rows share a key (a primary-key or `UNIQUE` column). */
  predicate DistinctBy<T, K(==)>(s: seq<T>, key: T -> K) {
    forall i, j :: 0 <= i < j < |s| ==> key(s[i]) != key(s[j])
  }

  /** Dropping the first row keeps the keys distinct. */
  lemma DistinctTail<T, K>(s: seq<T>, key: T -> K)
    requires DistinctBy(s, key) && |s| > 0
    ensures DistinctBy(s[1..], key)
  {
    forall i, j | 0 <= i < j < |s[1..]| ensures key(s[1..][i]) != key(s[1..][j]) {
      assert s[1..][i] == s[i + 1] && s[1..][j] == s[j + 1];
    }
  }

  lemma {:induction false} DistinctOccursOnce<T, K>(s: seq<T>, key: T -> K, x: T)
    requires DistinctBy(s, key)
    requires x in s
    ensures multiset(s)[x] == 1
    decreases |s|
  {
    assert s == [s[0]] + s[1..];
    assert multiset(s) == multiset{s[0]} + multiset(s[1..]);
    assert DistinctBy(s[1..], key) by {
      forall i, j | 0 <= i < j < |s[1..]|
        ensures key(s[1..][i]) != key(s[1..][j])
      {
        assert s[1..][i] == s[i + 1] && s[1..][j] == s[j + 1];
      }
    }
    if x == s[0] {
      assert forall k :: 0 <= k < |s[1..]| ==> s[1..][k] == s[k + 1] && key(s[0]) != key(s[k + 1]);
      assert x !in s[1..];
      assert multiset(s[1..])[x] == 0;
    } else {
      DistinctOccursOnce(s[1..], key, x);
    }
  }

  lemma RepeatedOccursTwice<T>(s: seq<T>, i: nat, j: nat)
    requires i < j < |s| && s[i] == s[j]
    ensures multiset(s)[s[i]] >= 2
  {
    assert s == s[..j] + [s[j]] + s[j + 1..];
    assert multiset(s) == multiset(s[..j]) + multiset{s[j]} + multiset(s[j + 1..]);
    assert s[..j][i] == s[i];
    assert s[i] in multiset(s[..j]);
  }

  /** A permutation of rows with distinct keys still has distinct keys. */
  lemma PermutationKeepsDistinct<T, K>(a: seq<T>, b: seq<T>, key: T -> K)
    requires multiset(a) == multiset(b)
    requires DistinctBy(a, key)
    ensures DistinctBy(b, key)
  {
    forall i, j | 0 <= i < j < |b|
      ensures key(b[i]) != key(b[j])
    {
      assert b[i] in multiset(a) && b[j] in multiset(a);
      var p :| 0 <= p < |a| && a[p] == b[i];
      var q :| 0 <= q < |a| && a[q] == b[j];
      if p != q {
        if p < q { assert key(a[p]) != key(a[q]); } else { assert key(a[q]) != key(a[p]); }
      } else if key(b[i]) == key(b[j]) {
        RepeatedOccursTwice(b, i, j);
        DistinctOccursOnce(a, key, b[i]);
        assert false;
      }
    }
  }
}
