/**
 * Generic sequence helpers behind the table operations: distinct keys in
 * order of first appearance, row selection, projection, counting and sums.
 */
module Collections {
  import opened Wrappers

  /** No value occurs twice. */
  predicate NoDup<T(==)>(s: seq<T>) {
    forall i, j :: 0 <= i < j < |s| ==> s[i] != s[j]
  }

  /** No two rows share a key. */
  predicate KeysDistinct<T, K(==)>(s: seq<T>, key: T -> K) {
    forall i, j :: 0 <= i < j < |s| ==> key(s[i]) != key(s[j])
  }

  /** The distinct values of `s`, in order of first appearance (what `unique()` yields). */
  function Distinct<T(==,!new)>(s: seq<T>): (r: seq<T>)
    ensures NoDup(r)
    ensures forall x :: x in r <==> x in s
    decreases |s|
  {
    if s == [] then []
    else
      var init, last := s[..|s| - 1], s[|s| - 1];
      assert s == init + [last];
      var d := Distinct(init);
      if last in d then d else d + [last]
  }

  /** The column `f` of the rows `s`. */
  function Project<T, K>(s: seq<T>, f: T -> K): (r: seq<K>)
    ensures |r| == |s|
    ensures forall i :: 0 <= i < |s| ==> r[i] == f(s[i])
  {
    seq(|s|, i requires 0 <= i < |s| => f(s[i]))
  }

  /** Projecting one more row appends its value. */
  lemma ProjectSnoc<T, K>(s: seq<T>, f: T -> K, i: nat)
    requires i < |s|
    ensures Project(s[..i + 1], f) == Project(s[..i], f) + [f(s[i])]
  {
  }

  /** The rows of `s` that satisfy `p`, in their original order. */
  function Filter<T(!new)>(s: seq<T>, p: T -> bool): (r: seq<T>)
    ensures |r| <= |s|
    ensures forall x :: x in r <==> x in s && p(x)
  {
    if s == [] then []
    else
      assert s == [s[0]] + s[1..];
      (if p(s[0]) then [s[0]] else []) + Filter(s[1..], p)
  }

  /** The rows of `s` whose key is `k`: one group of a group-by. */
  function Select<T(!new), K(==)>(s: seq<T>, key: T -> K, k: K): (r: seq<T>)
    ensures |r| <= |s|
    ensures forall x :: x in r <==> x in s && key(x) == k
  {
    if s == [] then []
    else
      assert s == [s[0]] + s[1..];
      (if key(s[0]) == k then [s[0]] else []) + Select(s[1..], key, k)
  }

  /**
   * The number of rows of `s` whose key lies in `ks`. For one key this is
   * `|Select(s, key, k)|` (SelectSize); the set form is kept because a grid row
   * total counts a union of (team, day) keys at once (CountsSum, CountInUnion).
   */
  function CountIn<T, K>(s: seq<T>, key: T -> K, ks: set<K>): nat
  {
    if s == [] then 0 else (if key(s[0]) in ks then 1 else 0) + CountIn(s[1..], key, ks)
  }

  /** The present values of a column with missing cells, in order (`dropna()`). */
  function Somes<T(!new)>(s: seq<Option<T>>): (r: seq<T>)
    ensures |r| <= |s|
    ensures forall x :: x in r <==> Some(x) in s
  {
    if s == [] then []
    else
      assert s == [s[0]] + s[1..];
      (if s[0].Some? then [s[0].value] else []) + Somes(s[1..])
  }

  /** A column with no present cell has no present values. */
  lemma {:induction false} SomesOfMissing<T(!new)>(s: seq<Option<T>>)
    requires forall x :: x in s ==> x.None?
    ensures Somes(s) == []
  {
    if s != [] {
      assert s[0] in s;
      assert forall x :: x in s[1..] ==> x in s;
      SomesOfMissing(s[1..]);
    }
  }

  /** The first present value of a column, or None (pandas' `first` aggregation). */
  function FirstPresent<T>(s: seq<Option<T>>): (r: Option<T>)
    ensures r.None? <==> forall i :: 0 <= i < |s| ==> s[i].None?
    ensures r.Some? ==> exists i :: 0 <= i < |s| && s[i] == r && forall j :: 0 <= j < i ==> s[j].None?
  {
    if s == [] then None
    else if s[0].Some? then s[0]
    else
      var r := FirstPresent(s[1..]);
      assert r.Some? ==> exists i :: 0 <= i < |s| - 1 && s[1..][i] == r && forall j :: 0 <= j < i ==> s[1..][j].None?;
      r
  }

  /** The rows of a list of tables, one after the other (`pd.concat`). */
  function Concat<T>(ss: seq<seq<T>>): seq<T>
  {
    if ss == [] then [] else ss[0] + Concat(ss[1..])
  }

  function SumNat(s: seq<nat>): nat
  {
    if s == [] then 0 else s[0] + SumNat(s[1..])
  }

  /**
   * The total of column `f`, taken over the rows themselves. It equals
   * `SumNat(Project(s, f))` (SumByProject); the row form is kept because
   * reordering the rows (SumByPermutation) is stated on rows, while a grid row
   * is a plain column of counts summed by SumNat.
   */
  function SumBy<T>(s: seq<T>, f: T -> nat): nat
  {
    if s == [] then 0 else f(s[0]) + SumBy(s[1..], f)
  }

  /** The group size of each key of `ks`, in order. */
  function Counts<T, K(==)>(s: seq<T>, key: T -> K, ks: seq<K>): (r: seq<nat>)
    ensures |r| == |ks|
    ensures forall j :: 0 <= j < |ks| ==> r[j] == CountIn(s, key, {ks[j]})
  {
    seq(|ks|, j requires 0 <= j < |ks| => CountIn(s, key, {ks[j]}))
  }

  // ---------------------------------------------------------------------------
  // Lemmas

  lemma {:induction false} SumNatBound(s: seq<nat>, m: nat)
    requires forall x :: x in s ==> x <= m
    ensures SumNat(s) <= |s| * m
  {
    if s != [] {
      assert forall x :: x in s[1..] ==> x in s;
      SumNatBound(s[1..], m);
      assert s[0] in s;
      assert (|s| - 1) * m + m == |s| * m;
    }
  }

  lemma {:induction false} SumNatLowerBound(s: seq<nat>, m: nat)
    requires forall x :: x in s ==> m <= x
    ensures |s| * m <= SumNat(s)
  {
    if s != [] {
      assert forall x :: x in s[1..] ==> x in s;
      SumNatLowerBound(s[1..], m);
      assert s[0] in s;
      assert (|s| - 1) * m + m == |s| * m;
    }
  }

  /** The length of a concatenation is the sum of the lengths. */
  lemma {:induction false} ConcatLength<T>(ss: seq<seq<T>>, ns: seq<nat>)
    requires |ss| == |ns|
    requires forall i :: 0 <= i < |ss| ==> |ss[i]| == ns[i]
    ensures |Concat(ss)| == SumNat(ns)
  {
    if ss != [] {
      ConcatLength(ss[1..], ns[1..]);
    }
  }

  /** A filter of a list without repeats has no repeats. */
  lemma {:induction false} FilterNoDup<T(!new)>(s: seq<T>, p: T -> bool)
    requires NoDup(s)
    ensures NoDup(Filter(s, p))
  {
    if s != [] {
      assert NoDup(s[1..]) by {
        forall i, j | 0 <= i < j < |s[1..]| ensures s[1..][i] != s[1..][j] {
          assert s[1..][i] == s[i + 1] && s[1..][j] == s[j + 1];
        }
      }
      FilterNoDup(s[1..], p);
      var rest := Filter(s[1..], p);
      assert s[0] !in s[1..];
      assert s[0] !in rest;
    }
  }

  /** Grouping the rows that pass a filter is filtering by the conjunction of both tests. */
  lemma {:induction false} SelectOfFilter<T(!new), K>(s: seq<T>, p: T -> bool, key: T -> K, k: K, pk: T -> bool)
    requires forall x :: pk(x) == (p(x) && key(x) == k)
    ensures Select(Filter(s, p), key, k) == Filter(s, pk)
  {
    if s != [] {
      SelectOfFilter(s[1..], p, key, k, pk);
      if p(s[0]) {
        assert Filter(s, p) == [s[0]] + Filter(s[1..], p);
        assert Filter(s, p)[1..] == Filter(s[1..], p);
      } else {
        assert Filter(s, p) == Filter(s[1..], p);
      }
    }
  }

  /** Filtering twice by the same test is filtering once. */
  lemma {:induction false} FilterIdempotent<T(!new)>(s: seq<T>, p: T -> bool)
    ensures Filter(Filter(s, p), p) == Filter(s, p)
  {
    if s != [] {
      FilterIdempotent(s[1..], p);
      var f := Filter(s, p);
      if p(s[0]) {
        assert f == [s[0]] + Filter(s[1..], p);
        assert f[0] == s[0] && f[1..] == Filter(s[1..], p);
        assert Filter(f, p) == [f[0]] + Filter(f[1..], p);
      } else {
        assert f == Filter(s[1..], p);
      }
    }
  }

  /** Filtering one group is filtering the whole table by the group key and the test together. */
  lemma {:induction false} FilterOfSelect<T(!new), K>(s: seq<T>, key: T -> K, k: K, p: T -> bool, pk: T -> bool)
    requires forall x :: pk(x) == (key(x) == k && p(x))
    ensures Filter(Select(s, key, k), p) == Filter(s, pk)
  {
    if s != [] {
      FilterOfSelect(s[1..], key, k, p, pk);
      if key(s[0]) == k {
        assert Select(s, key, k) == [s[0]] + Select(s[1..], key, k);
        assert Select(s, key, k)[1..] == Select(s[1..], key, k);
      } else {
        assert Select(s, key, k) == Select(s[1..], key, k);
      }
    }
  }

  /** The present cells of a column are as many as the rows whose cell is present. */
  lemma {:induction false} SomesCount<T(!new), U(!new)>(s: seq<T>, f: T -> Option<U>, p: T -> bool)
    requires forall x :: p(x) == f(x).Some?
    ensures |Somes(Project(s, f))| == |Filter(s, p)|
  {
    if s != [] {
      assert Project(s, f) == [f(s[0])] + Project(s[1..], f);
      assert (([f(s[0])] + Project(s[1..], f)))[1..] == Project(s[1..], f);
      SomesCount(s[1..], f, p);
    }
  }

  /** A filter keeps keys distinct. */
  lemma {:induction false} FilterKeysDistinct<T(!new), K>(s: seq<T>, p: T -> bool, key: T -> K)
    requires KeysDistinct(s, key)
    ensures KeysDistinct(Filter(s, p), key)
  {
    if s != [] {
      var rest := s[1..];
      assert KeysDistinct(rest, key) by {
        forall i, j | 0 <= i < j < |rest| ensures key(rest[i]) != key(rest[j]) {
          assert rest[i] == s[i + 1] && rest[j] == s[j + 1];
        }
      }
      FilterKeysDistinct(rest, p, key);
      var f := Filter(rest, p);
      forall y | y in f ensures key(y) != key(s[0]) {
        var k :| 0 <= k < |rest| && rest[k] == y;
        assert key(s[k + 1]) != key(s[0]);
      }
      var r := Filter(s, p);
      if p(s[0]) {
        forall i, j | 0 <= i < j < |r| ensures key(r[i]) != key(r[j]) {
          assert r[j] == f[j - 1] && r[j] in f;
          if i > 0 { assert r[i] == f[i - 1]; }
        }
      }
    }
  }

  /** The key of a member appears in the key column. */
  lemma InProject<T, K>(s: seq<T>, key: T -> K, x: T)
    requires x in s
    ensures key(x) in Project(s, key)
  {
    var i :| 0 <= i < |s| && s[i] == x;
    assert Project(s, key)[i] == key(x);
  }

  /** A permutation has the same members and the same key column members. */
  lemma PermutationProject<T, K>(a: seq<T>, b: seq<T>, key: T -> K)
    requires multiset(a) == multiset(b)
    ensures forall x :: x in a <==> x in b
    ensures forall k :: k in Project(a, key) <==> k in Project(b, key)
  {
    forall x ensures x in a <==> x in b {
      assert x in a <==> x in multiset(a);
      assert x in b <==> x in multiset(b);
    }
    forall k | k in Project(a, key) ensures k in Project(b, key) {
      var i :| 0 <= i < |a| && Project(a, key)[i] == k;
      assert a[i] in a;
      InProject(b, key, a[i]);
    }
    forall k | k in Project(b, key) ensures k in Project(a, key) {
      var i :| 0 <= i < |b| && Project(b, key)[i] == k;
      assert b[i] in b;
      InProject(a, key, b[i]);
    }
  }

  /** A value of the key column identifies a non-empty group. */
  lemma GroupNonEmpty<T(!new), K>(s: seq<T>, key: T -> K, k: K)
    requires k in Project(s, key)
    ensures |Select(s, key, k)| > 0
  {
    var i :| 0 <= i < |s| && Project(s, key)[i] == k;
    assert s[i] in Select(s, key, k);
  }

  /** A group with a row shows its key in the key column. */
  lemma GroupKeyPresent<T(!new), K>(s: seq<T>, key: T -> K, k: K)
    requires |Select(s, key, k)| > 0
    ensures k in Project(s, key)
  {
    var x := Select(s, key, k)[0];
    assert x in Select(s, key, k);
    var i :| 0 <= i < |s| && s[i] == x;
    assert Project(s, key)[i] == k;
  }

  /** A value that occurs at two positions occurs at least twice in the multiset. */
  lemma TwoPositions<T>(s: seq<T>, i: int, j: int)
    requires 0 <= i < j < |s| && s[i] == s[j]
    ensures multiset(s)[s[i]] >= 2
  {
    assert s == s[..j] + [s[j]] + s[j + 1..];
    assert s[i] in s[..j];
    assert multiset(s) == multiset(s[..j]) + multiset{s[j]} + multiset(s[j + 1..]);
  }

  /** In a list without repeats every value occurs at most once. */
  lemma {:induction false} NoDupMultiplicity<T>(s: seq<T>, x: T)
    requires NoDup(s)
    ensures multiset(s)[x] <= 1
  {
    if s != [] {
      assert s == [s[0]] + s[1..];
      assert NoDup(s[1..]) by {
        forall i, j | 0 <= i < j < |s[1..]| ensures s[1..][i] != s[1..][j] {
          assert s[1..][i] == s[i + 1] && s[1..][j] == s[j + 1];
        }
      }
      NoDupMultiplicity(s[1..], x);
      if x == s[0] {
        assert x !in s[1..];
      }
    }
  }

  /** Distinct keys survive any reordering of the rows (e.g. a sort). */
  lemma KeysDistinctPermutation<T, K>(a: seq<T>, b: seq<T>, key: T -> K)
    requires multiset(a) == multiset(b)
    requires KeysDistinct(a, key)
    ensures KeysDistinct(b, key)
  {
    assert NoDup(a) by {
      forall i, j | 0 <= i < j < |a| ensures a[i] != a[j] {
        assert key(a[i]) != key(a[j]);
      }
    }
    forall i, j | 0 <= i < j < |b| ensures key(b[i]) != key(b[j]) {
      if b[i] == b[j] {
        TwoPositions(b, i, j);
        NoDupMultiplicity(a, b[i]);
      } else {
        assert b[i] in multiset(a) && b[j] in multiset(a);
        var p :| 0 <= p < |a| && a[p] == b[i];
        var q :| 0 <= q < |a| && a[q] == b[j];
        assert p != q;
        if p < q { assert key(a[p]) != key(a[q]); } else { assert key(a[q]) != key(a[p]); }
      }
    }
  }

  /** Reordering a list without repeats leaves it without repeats. */
  lemma NoDupPermutation<T>(a: seq<T>, b: seq<T>)
    requires multiset(a) == multiset(b)
    requires NoDup(a)
    ensures NoDup(b)
  {
    forall i, j | 0 <= i < j < |b| ensures b[i] != b[j] {
      if b[i] == b[j] {
        TwoPositions(b, i, j);
        NoDupMultiplicity(a, b[i]);
      }
    }
  }

  /** A list without repeats has as many elements as the set of its values. */
  lemma {:induction false} NoDupCardinality<T>(s: seq<T>)
    requires NoDup(s)
    ensures |set x | x in s| == |s|
  {
    if s != [] {
      var rest := s[1..];
      assert NoDup(rest) by {
        forall i, j | 0 <= i < j < |rest| ensures rest[i] != rest[j] {
          assert rest[i] == s[i + 1] && rest[j] == s[j + 1];
        }
      }
      NoDupCardinality(rest);
      assert s[0] !in rest;
      assert (set x | x in s) == (set x | x in rest) + {s[0]};
    }
  }

  /** Counting over two disjoint key sets adds up. */
  lemma {:induction false} CountInUnion<T, K>(s: seq<T>, key: T -> K, a: set<K>, b: set<K>)
    requires a !! b
    ensures CountIn(s, key, a + b) == CountIn(s, key, a) + CountIn(s, key, b)
  {
    if s != [] {
      CountInUnion(s[1..], key, a, b);
    }
  }

  /** Two counts agree when their membership tests agree on every row. */
  lemma {:induction false} CountInAgree<T, K, J>(s: seq<T>, key: T -> K, a: set<K>, key': T -> J, b: set<J>)
    requires forall x :: x in s ==> (key(x) in a <==> key'(x) in b)
    ensures CountIn(s, key, a) == CountIn(s, key', b)
  {
    if s != [] {
      assert s[0] in s;
      assert forall x :: x in s[1..] ==> x in s;
      CountInAgree(s[1..], key, a, key', b);
    }
  }

  /** A count over one key is the size of that key's group. */
  lemma {:induction false} SelectSize<T(!new), K>(s: seq<T>, key: T -> K, k: K)
    ensures |Select(s, key, k)| == CountIn(s, key, {k})
  {
    if s != [] {
      SelectSize(s[1..], key, k);
    }
  }

  /** Counting with a key set that holds every row's key counts every row. */
  lemma {:induction false} CountInAll<T, K>(s: seq<T>, key: T -> K, ks: set<K>)
    requires forall x :: x in s ==> key(x) in ks
    ensures CountIn(s, key, ks) == |s|
  {
    if s != [] {
      assert s[0] in s;
      assert forall x :: x in s[1..] ==> x in s;
      CountInAll(s[1..], key, ks);
    }
  }

  /** The group sizes of distinct keys add up to the count over all of them. */
  lemma {:induction false} CountsSum<T, K>(s: seq<T>, key: T -> K, ks: seq<K>)
    requires NoDup(ks)
    ensures SumNat(Counts(s, key, ks)) == CountIn(s, key, set k | k in ks)
  {
    if ks != [] {
      var rest := ks[1..];
      assert NoDup(rest) by {
        forall i, j | 0 <= i < j < |rest| ensures rest[i] != rest[j] {
          assert rest[i] == ks[i + 1] && rest[j] == ks[j + 1];
        }
      }
      CountsSum(s, key, rest);
      assert Counts(s, key, ks)[1..] == Counts(s, key, rest);
      assert ks[0] !in rest;
      assert (set k | k in ks) == {ks[0]} + (set k | k in rest);
      CountInUnion(s, key, {ks[0]}, set k | k in rest);
    } else {
      assert (set k | k in ks) == {};
      assert Counts(s, key, ks) == [];
      CountInNone(s, key);
    }
  }

  /** No key set, no rows. */
  lemma {:induction false} CountInNone<T, K>(s: seq<T>, key: T -> K)
    ensures CountIn(s, key, {}) == 0
  {
    if s != [] {
      CountInNone(s[1..], key);
    }
  }

  /** A column total is the sum of the projected column. */
  lemma {:induction false} SumByProject<T>(s: seq<T>, f: T -> nat)
    ensures SumBy(s, f) == SumNat(Project(s, f))
  {
    if s != [] {
      assert Project(s, f)[1..] == Project(s[1..], f);
      SumByProject(s[1..], f);
    }
  }

  /** Taking one row out of a total. */
  lemma {:induction false} SumByRemove<T>(s: seq<T>, i: int, f: T -> nat)
    requires 0 <= i < |s|
    ensures SumBy(s, f) == f(s[i]) + SumBy(s[..i] + s[i + 1..], f)
  {
    if i > 0 {
      SumByRemove(s[1..], i - 1, f);
      assert s[1..][..i - 1] + s[1..][i..] == (s[..i] + s[i + 1..])[1..];
    } else {
      assert s[..i] + s[i + 1..] == s[1..];
    }
  }

  /** Reordering the rows does not change a column total. */
  lemma {:induction false} SumByPermutation<T>(a: seq<T>, b: seq<T>, f: T -> nat)
    requires multiset(a) == multiset(b)
    ensures SumBy(a, f) == SumBy(b, f)
    decreases |a|
  {
    if a != [] {
      assert a[0] in multiset(b);
      var i :| 0 <= i < |b| && b[i] == a[0];
      var b' := b[..i] + b[i + 1..];
      assert b == b[..i] + [b[i]] + b[i + 1..];
      assert a == [a[0]] + a[1..];
      assert multiset(b) == multiset(b[..i]) + multiset{b[i]} + multiset(b[i + 1..]);
      assert multiset(b') == multiset(b[..i]) + multiset(b[i + 1..]);
      assert multiset(a) == multiset{a[0]} + multiset(a[1..]);
      assert multiset(a[1..]) == multiset(a) - multiset{a[0]};
      assert multiset(b') == multiset(b) - multiset{b[i]};
      SumByPermutation(a[1..], b', f);
      SumByRemove(b, i, f);
    }
  }
}
