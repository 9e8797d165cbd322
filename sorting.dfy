/**
 * The one sort behind every `sort_values` call: a stable insertion sort by a
 * caller-given "comes no later than" relation. Only sortedness and being a
 * permutation are promised; the order among equal keys is not.
 */
module Sorting {

  /** `le` is total and transitive: a sort key order. */
  ghost predicate TotalPreorder<T(!new)>(le: (T, T) -> bool) {
    && (forall a, b :: le(a, b) || le(b, a))
    && (forall a, b, c :: le(a, b) && le(b, c) ==> le(a, c))
  }

  /** Every row comes no later than every row after it. */
  predicate Sorted<T>(s: seq<T>, le: (T, T) -> bool) {
    forall i, j :: 0 <= i < j < |s| ==> le(s[i], s[j])
  }

  /** A last-ranked element of a non-empty sequence under `le`: the column maximum for `<=`, the minimum for `>=`. */
  function Largest<T(!new)>(s: seq<T>, le: (T, T) -> bool): (m: T)
    requires |s| > 0 && TotalPreorder(le)
    ensures m in s
    ensures forall x :: x in s ==> le(x, m)
  {
    if |s| == 1 then s[0]
    else
      assert s == [s[0]] + s[1..];
      var rest := Largest(s[1..], le);
      if le(s[0], rest) then rest else s[0]
  }

  function Insert<T>(x: T, s: seq<T>, le: (T, T) -> bool): (r: seq<T>)
    ensures |r| == |s| + 1
    ensures multiset(r) == multiset(s) + multiset{x}
  {
    if s == [] then [x]
    else if le(x, s[0]) then [x] + s
    else
      assert s == [s[0]] + s[1..];
      [s[0]] + Insert(x, s[1..], le)
  }

  /** `s` reordered so that it is sorted by `le` (see SortBySorted). */
  function SortBy<T(!new)>(s: seq<T>, le: (T, T) -> bool): (r: seq<T>)
    ensures |r| == |s|
    ensures multiset(r) == multiset(s)
  {
    if s == [] then []
    else
      assert s == [s[0]] + s[1..];
      Insert(s[0], SortBy(s[1..], le), le)
  }

  /** A sort by a total preorder yields a sorted list. */
  lemma {:induction false} SortBySorted<T(!new)>(s: seq<T>, le: (T, T) -> bool)
    requires TotalPreorder(le)
    ensures Sorted(SortBy(s, le), le)
  {
    if s != [] {
      SortBySorted(s[1..], le);
      InsertSorted(s[0], SortBy(s[1..], le), le);
    }
  }

  lemma {:induction false} InsertSorted<T(!new)>(x: T, s: seq<T>, le: (T, T) -> bool)
    requires TotalPreorder(le) && Sorted(s, le)
    ensures Sorted(Insert(x, s, le), le)
  {
    if s != [] {
      var r := Insert(x, s, le);
      if le(x, s[0]) {
        forall i, j | 0 <= i < j < |r| ensures le(r[i], r[j]) {
          if i == 0 {
            if j > 1 { assert le(s[0], s[j - 1]); }
          } else {
            assert r[i] == s[i - 1] && r[j] == s[j - 1];
          }
        }
      } else {
        assert le(s[0], x);
        var tail := Insert(x, s[1..], le);
        assert Sorted(s[1..], le) by {
          forall i, j | 0 <= i < j < |s[1..]| ensures le(s[1..][i], s[1..][j]) {
            assert s[1..][i] == s[i + 1] && s[1..][j] == s[j + 1];
          }
        }
        InsertSorted(x, s[1..], le);
        assert r == [s[0]] + tail;
        forall j | 0 <= j < |tail| ensures le(s[0], tail[j]) {
          assert tail[j] in multiset(tail);
          if tail[j] != x {
            assert tail[j] in multiset(s[1..]);
            var k :| 0 <= k < |s[1..]| && s[1..][k] == tail[j];
            assert le(s[0], s[k + 1]);
          }
        }
        forall i, j | 0 <= i < j < |r| ensures le(r[i], r[j]) {
          if i == 0 {
            assert r[j] == tail[j - 1];
          } else {
            assert r[i] == tail[i - 1] && r[j] == tail[j - 1];
          }
        }
      }
    }
  }

  /** In a sorted list without repeats, a total preorder whose ties are equal values orders strictly. */
  lemma SortedDistinctStrict<T(!new)>(s: seq<T>, le: (T, T) -> bool, lt: (T, T) -> bool)
    requires Sorted(s, le)
    requires forall i, j :: 0 <= i < j < |s| ==> s[i] != s[j]
    requires forall a, b :: le(a, b) && a != b ==> lt(a, b)
    ensures forall i, j :: 0 <= i < j < |s| ==> lt(s[i], s[j])
  {
    forall i, j | 0 <= i < j < |s| ensures lt(s[i], s[j]) {
      assert le(s[i], s[j]) && s[i] != s[j];
    }
  }
}
