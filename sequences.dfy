/** Generic sequence operations standing in for the dataframe primitives the
    dashboard uses: boolean-mask selection (`df[mask]`) and sorting by an index
    key (what `pivot` and `groupby` do to their keys). */
module Sequences {

  /** `s[mask]`: the elements of `s` that satisfy `keep`, in their original order. */
  function Filter<T(!new)>(s: seq<T>, keep: T -> bool): (r: seq<T>)
    ensures |r| <= |s|
    ensures forall x :: x in r <==> x in s && keep(x)
    ensures forall x :: multiset(r)[x] == if keep(x) then multiset(s)[x] else 0
  {
    if s == [] then []
    else
      assert s == [s[0]] + s[1..];
      (if keep(s[0]) then [s[0]] else []) + Filter(s[1..], keep)
  }

  /** Selection distributes over concatenation: rows keep their relative order. */
  lemma {:induction false} FilterAppend<T(!new)>(a: seq<T>, b: seq<T>, keep: T -> bool)
    ensures Filter(a + b, keep) == Filter(a, keep) + Filter(b, keep)
  {
    if a == [] {
      assert a + b == b;
    } else {
      assert (a + b)[0] == a[0];
      assert (a + b)[1..] == a[1..] + b;
      FilterAppend(a[1..], b, keep);
    }
  }

  /** Two masks that agree on every element select the same rows. */
  lemma {:induction false} FilterExtensional<T(!new)>(s: seq<T>, p: T -> bool, q: T -> bool)
    requires forall x :: x in s ==> p(x) == q(x)
    ensures Filter(s, p) == Filter(s, q)
  {
    if s != [] {
      FilterExtensional(s[1..], p, q);
    }
  }

  /** Selecting by `p` and then by `q` is selecting by their conjunction. */
  lemma {:induction false} FilterFilter<T(!new)>(s: seq<T>, p: T -> bool, q: T -> bool, both: T -> bool)
    requires forall x :: x in s ==> both(x) == (p(x) && q(x))
    ensures Filter(Filter(s, p), q) == Filter(s, both)
  {
    if s != [] {
      var head := if p(s[0]) then [s[0]] else [];
      assert Filter(s, p) == head + Filter(s[1..], p);
      FilterAppend(head, Filter(s[1..], p), q);
      FilterFilter(s[1..], p, q, both);
      assert Filter(head, q) == if both(s[0]) then [s[0]] else [] by {
        if p(s[0]) {
          assert Filter(head, q) == (if q(s[0]) then [s[0]] else []) + Filter([], q);
        }
      }
    }
  }

  /** A mask that holds everywhere selects everything. */
  lemma {:induction false} FilterKeepsAll<T(!new)>(s: seq<T>, keep: T -> bool)
    requires forall x :: x in s ==> keep(x)
    ensures Filter(s, keep) == s
  {
    if s != [] {
      FilterKeepsAll(s[1..], keep);
    }
  }

  /** A mask that holds nowhere selects nothing. */
  lemma FilterDropsAll<T(!new)>(s: seq<T>, keep: T -> bool)
    requires forall x :: x in s ==> !keep(x)
    ensures Filter(s, keep) == []
  {
  }

  /** `less` is irreflexive, transitive and relates any two distinct keys. */
  ghost predicate StrictTotalOrder<K(!new)>(less: (K, K) -> bool)
  {
    && (forall a :: !less(a, a))
    && (forall a, b, c :: less(a, b) && less(b, c) ==> less(a, c))
    && (forall a, b :: a != b ==> less(a, b) || less(b, a))
  }

  /** The keys of `s` strictly increase from left to right. */
  ghost predicate SortedBy<T(!new), K(!new)>(s: seq<T>, key: T -> K, less: (K, K) -> bool)
  {
    forall i, j :: 0 <= i < j < |s| ==> less(key(s[i]), key(s[j]))
  }

  /** No key occurs twice in `s`. */
  ghost predicate KeysDistinct<T(!new), K(!new)>(s: seq<T>, key: T -> K)
  {
    forall i, j :: 0 <= i < j < |s| ==> key(s[i]) != key(s[j])
  }

  function Identity<T>(x: T): T
  {
    x
  }

  /** The elements of `s` without repetitions (the last occurrence of each is kept). */
  function Distinct<T(!new, ==)>(s: seq<T>): (r: seq<T>)
    ensures forall x :: x in r <==> x in s
    ensures |r| <= |s|
    ensures KeysDistinct(r, Identity)
  {
    if s == [] then []
    else
      assert s == [s[0]] + s[1..];
      var rest := Distinct(s[1..]);
      if s[0] in rest then rest
      else
        var r := [s[0]] + rest;
        assert forall i :: 1 <= i < |r| ==> r[i] == rest[i - 1] && r[i] in rest;
        r
  }

  /** Puts `x` in front of the first element whose key is not below `x`'s key. */
  function Insert<T(!new), K(!new)>(x: T, s: seq<T>, key: T -> K, less: (K, K) -> bool): (r: seq<T>)
    ensures multiset(r) == multiset(s) + multiset{x}
    ensures |r| == |s| + 1
  {
    if s == [] then [x]
    else if less(key(s[0]), key(x)) then
      assert s == [s[0]] + s[1..];
      [s[0]] + Insert(x, s[1..], key, less)
    else [x] + s
  }

  /** Insertion sort by key; with distinct keys this is the order of a sorted index. */
  function Sort<T(!new), K(!new)>(s: seq<T>, key: T -> K, less: (K, K) -> bool): (r: seq<T>)
    ensures multiset(r) == multiset(s)
    ensures forall x :: x in r <==> x in s
    ensures |r| == |s|
  {
    if s == [] then []
    else
      assert s == [s[0]] + s[1..];
      var r := Insert(s[0], Sort(s[1..], key, less), key, less);
      assert forall x :: x in r <==> x in multiset(r);
      r
  }

  lemma ConsSorted<T(!new), K(!new)>(x: T, s: seq<T>, key: T -> K, less: (K, K) -> bool)
    requires SortedBy(s, key, less)
    requires forall y :: y in s ==> less(key(x), key(y))
    ensures SortedBy([x] + s, key, less)
  {
    var t := [x] + s;
    forall i, j | 0 <= i < j < |t|
      ensures less(key(t[i]), key(t[j]))
    {
      if i == 0 {
        assert t[j] == s[j - 1];
      } else {
        assert t[i] == s[i - 1] && t[j] == s[j - 1];
      }
    }
  }

  lemma AppendSorted<T(!new), K(!new)>(a: seq<T>, b: seq<T>, key: T -> K, less: (K, K) -> bool)
    requires SortedBy(a, key, less) && SortedBy(b, key, less)
    requires forall x, y :: x in a && y in b ==> less(key(x), key(y))
    ensures SortedBy(a + b, key, less)
  {
    var t := a + b;
    forall i, j | 0 <= i < j < |t|
      ensures less(key(t[i]), key(t[j]))
    {
      if j < |a| {
        assert t[i] == a[i] && t[j] == a[j];
      } else if i < |a| {
        assert t[i] == a[i] && t[j] == b[j - |a|];
        assert a[i] in a && b[j - |a|] in b;
      } else {
        assert t[i] == b[i - |a|] && t[j] == b[j - |a|];
      }
    }
  }

  lemma {:induction false} InsertSorted<T(!new), K(!new)>(x: T, s: seq<T>, key: T -> K, less: (K, K) -> bool)
    requires StrictTotalOrder(less)
    requires SortedBy(s, key, less)
    requires forall y :: y in s ==> key(y) != key(x)
    ensures SortedBy(Insert(x, s, key, less), key, less)
  {
    if s == [] {
    } else if less(key(s[0]), key(x)) {
      var rest := s[1..];
      assert SortedBy(rest, key, less);
      InsertSorted(x, rest, key, less);
      var tail := Insert(x, rest, key, less);
      forall y | y in tail
        ensures less(key(s[0]), key(y))
      {
        assert y in multiset(tail);
        if y != x {
          assert y in rest;
          var j :| 0 <= j < |rest| && rest[j] == y;
          assert s[j + 1] == y;
        }
      }
      ConsSorted(s[0], tail, key, less);
    } else {
      assert key(s[0]) != key(x) by { assert s[0] in s; }
      assert less(key(x), key(s[0]));
      forall y | y in s
        ensures less(key(x), key(y))
      {
        var j :| 0 <= j < |s| && s[j] == y;
        if j > 0 {
          assert less(key(s[0]), key(s[j]));
        }
      }
      ConsSorted(x, s, key, less);
    }
  }

  /** Sorting keys that are distinct yields a strictly increasing sequence. */
  lemma {:induction false} SortSorted<T(!new), K(!new)>(s: seq<T>, key: T -> K, less: (K, K) -> bool)
    requires StrictTotalOrder(less)
    requires KeysDistinct(s, key)
    ensures SortedBy(Sort(s, key, less), key, less)
  {
    if s != [] {
      var rest := s[1..];
      assert KeysDistinct(rest, key);
      SortSorted(rest, key, less);
      forall y | y in Sort(rest, key, less)
        ensures key(y) != key(s[0])
      {
        var j :| 0 <= j < |rest| && rest[j] == y;
        assert s[j + 1] == y;
      }
      InsertSorted(s[0], Sort(rest, key, less), key, less);
    }
  }

  /** A strictly increasing sequence has no repeated key. */
  lemma SortedDistinct<T(!new), K(!new)>(s: seq<T>, key: T -> K, less: (K, K) -> bool)
    requires StrictTotalOrder(less)
    requires SortedBy(s, key, less)
    ensures KeysDistinct(s, key)
  {
  }

  /** Selection keeps a strictly increasing sequence strictly increasing. */
  lemma {:induction false} FilterSorted<T(!new), K(!new)>(s: seq<T>, keep: T -> bool, key: T -> K, less: (K, K) -> bool)
    requires SortedBy(s, key, less)
    ensures SortedBy(Filter(s, keep), key, less)
  {
    if s != [] {
      var rest := s[1..];
      assert SortedBy(rest, key, less);
      FilterSorted(rest, keep, key, less);
      var tail := Filter(rest, keep);
      forall y | y in tail
        ensures less(key(s[0]), key(y))
      {
        var j :| 0 <= j < |rest| && rest[j] == y;
        assert s[j + 1] == y;
      }
      if keep(s[0]) {
        ConsSorted(s[0], tail, key, less);
      }
    }
  }
}
