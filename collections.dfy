/**
 * Sequence helpers standing for the JavaScript array built-ins the application uses:
 * `filter`, `reduce` with a sum, `findIndex`, and `sort` with a numeric comparator.
 */
module Collections {

  /** `s.filter(p)`: the elements satisfying `p`, in their original order. */
  function Filter<T>(s: seq<T>, p: T -> bool): (r: seq<T>)
    ensures |r| <= |s|
    ensures forall i :: 0 <= i < |r| ==> r[i] in s && p(r[i])
    ensures forall i :: 0 <= i < |s| && p(s[i]) ==> s[i] in r
  {
    if |s| == 0 then []
    else
      assert s == [s[0]] + s[1..];
      (if p(s[0]) then [s[0]] else []) + Filter(s[1..], p)
  }

  /** Filtering by two predicates that agree on every element of `s` gives the same sequence. */
  lemma {:induction false} FilterAgree<T>(s: seq<T>, p: T -> bool, q: T -> bool)
    requires forall i :: 0 <= i < |s| ==> p(s[i]) == q(s[i])
    ensures Filter(s, p) == Filter(s, q)
  {
    if |s| > 0 {
      FilterAgree(s[1..], p, q);
    }
  }

  /** `s.filter((_, i) => i !== k)`: the sequence without its entry at `k`, the rest in order. */
  function RemoveAt<T>(s: seq<T>, k: nat): (r: seq<T>)
    requires k < |s|
    ensures |r| == |s| - 1
    ensures forall i :: 0 <= i < k ==> r[i] == s[i]
    ensures forall i :: k <= i < |r| ==> r[i] == s[i + 1]
    ensures multiset(r) == multiset(s) - multiset{s[k]}
  {
    assert s == s[..k] + [s[k]] + s[k + 1..];
    s[..k] + s[k + 1..]
  }

  lemma {:induction false} FilterConcat<T>(a: seq<T>, b: seq<T>, p: T -> bool)
    ensures Filter(a + b, p) == Filter(a, p) + Filter(b, p)
  {
    if |a| == 0 {
      assert a + b == b;
    } else {
      assert (a + b)[1..] == a[1..] + b;
      FilterConcat(a[1..], b, p);
    }
  }

  /** Filtering keeps every element it is given when all of them pass. */
  lemma {:induction false} FilterAll<T>(s: seq<T>, p: T -> bool)
    requires forall i :: 0 <= i < |s| ==> p(s[i])
    ensures Filter(s, p) == s
  {
    if |s| > 0 {
      FilterAll(s[1..], p);
    }
  }

  /** The first element of `a` sits somewhere in its permutation `b`; the rest match up. */
  lemma PickFrom<T>(a: seq<T>, b: seq<T>) returns (k: nat)
    requires |a| > 0 && multiset(a) == multiset(b)
    ensures k < |b| && b[k] == a[0]
    ensures multiset(a[1..]) == multiset(b[..k] + b[k + 1..])
  {
    var x := a[0];
    assert x in multiset(b);
    k :| 0 <= k < |b| && b[k] == x;
    var rest := b[..k] + b[k + 1..];
    assert b == b[..k] + [x] + b[k + 1..];
    assert a == [x] + a[1..];
    assert multiset(b) == multiset(b[..k]) + multiset{x} + multiset(b[k + 1..]);
    assert multiset(a) == multiset{x} + multiset(a[1..]);
    assert multiset(rest) == multiset(b[..k]) + multiset(b[k + 1..]);
    calc {
      multiset(a[1..]);
      multiset(a) - multiset{x};
      multiset(b) - multiset{x};
      multiset(rest);
    }
  }

  /** Filtering a sequence none of whose elements satisfies `q` keeps none that does. */
  lemma FilterKeepsNone<T>(s: seq<T>, p: T -> bool, q: T -> bool)
    requires forall j :: 0 <= j < |s| ==> !q(s[j])
    ensures forall k :: 0 <= k < |Filter(s, p)| ==> !q(Filter(s, p)[k])
  {
    forall k | 0 <= k < |Filter(s, p)|
      ensures !q(Filter(s, p)[k])
    {
      var j :| 0 <= j < |s| && s[j] == Filter(s, p)[k];
    }
  }

  /**
   * When the last element is the only one satisfying `q` and it passes the filter, it is also
   * the first element of the filtered sequence satisfying `q`, and the last one.
   */
  lemma LastStaysLastFiltered<T>(c: seq<T>, p: T -> bool, q: T -> bool)
    requires |c| > 0 && p(c[|c| - 1]) && q(c[|c| - 1])
    requires forall j :: 0 <= j < |c| - 1 ==> !q(c[j])
    ensures |Filter(c, p)| > 0 && IndexWhere(Filter(c, p), q) == |Filter(c, p)| - 1
  {
    var n := |c| - 1;
    assert c == c[..n] + [c[n]];
    FilterConcat(c[..n], [c[n]], p);
    var front := Filter(c[..n], p);
    var open := Filter(c, p);
    assert open == front + [c[n]];
    FilterKeepsNone(c[..n], p, q);
    IndexWhereFirst(open, q, |open| - 1);
  }

  /** Filtering a sequence all of whose elements satisfy `q` keeps only such elements. */
  lemma FilterKeepsAll<T>(s: seq<T>, p: T -> bool, q: T -> bool)
    requires forall j :: 0 <= j < |s| ==> q(s[j])
    ensures forall k :: 0 <= k < |Filter(s, p)| ==> q(Filter(s, p)[k])
  {
    forall k | 0 <= k < |Filter(s, p)|
      ensures q(Filter(s, p)[k])
    {
      var j :| 0 <= j < |s| && s[j] == Filter(s, p)[k];
    }
  }

  /** The complement of a predicate. */
  function Not<T>(p: T -> bool): T -> bool
  {
    x => !p(x)
  }

  /** One step of `Filter`: the head is kept exactly when it passes. */
  lemma FilterCons<T>(s: seq<T>, p: T -> bool)
    requires |s| > 0
    ensures Filter(s, p) == (if p(s[0]) then [s[0]] else []) + Filter(s[1..], p)
  {
  }

  /** Adding one element to either side of a split keeps it a split of the longer sequence. */
  lemma SplitGrows<T>(h: T, a: multiset<T>, b: multiset<T>, t: multiset<T>)
    requires a + b == t
    ensures (multiset{h} + a) + b == multiset{h} + t
    ensures a + (multiset{h} + b) == multiset{h} + t
  {
  }

  /** Two predicates that are each other's negation on `s` split it into parts that together hold every element. */
  lemma {:induction false} FilterSplitBy<T>(s: seq<T>, p: T -> bool, q: T -> bool)
    requires forall i :: 0 <= i < |s| ==> q(s[i]) == !p(s[i])
    ensures multiset(Filter(s, p)) + multiset(Filter(s, q)) == multiset(s)
  {
    if |s| > 0 {
      var h, t := s[0], s[1..];
      FilterSplitBy(t, p, q);
      FilterCons(s, p);
      FilterCons(s, q);
      assert multiset(s) == multiset{h} + multiset(t) by {
        assert s == [h] + t;
      }
      SplitGrows(h, multiset(Filter(t, p)), multiset(Filter(t, q)), multiset(t));
    }
  }

  /** `p` and its negation split a sequence into two parts that together hold every element. */
  lemma FilterSplit<T>(s: seq<T>, p: T -> bool)
    ensures multiset(Filter(s, p)) + multiset(Filter(s, Not(p))) == multiset(s)
  {
    FilterSplitBy(s, p, Not(p));
  }

  /** `R` holds of every pair of elements in list order. */
  ghost predicate Pairwise<T>(s: seq<T>, R: (T, T) -> bool)
  {
    forall i, j :: 0 <= i < j < |s| ==> R(s[i], s[j])
  }

  lemma PairwiseTail<T>(s: seq<T>, R: (T, T) -> bool)
    requires |s| > 0 && Pairwise(s, R)
    ensures Pairwise(s[1..], R) && forall k :: 0 <= k < |s[1..]| ==> R(s[0], s[1..][k])
  {
    forall i, j | 0 <= i < j < |s[1..]| ensures R(s[1..][i], s[1..][j]) {
      assert s[1..][i] == s[i + 1] && s[1..][j] == s[j + 1];
    }
  }

  lemma PairwiseCons<T>(h: T, t: seq<T>, R: (T, T) -> bool)
    requires Pairwise(t, R) && forall k :: 0 <= k < |t| ==> R(h, t[k])
    ensures Pairwise([h] + t, R)
  {
    var r := [h] + t;
    forall i, j | 0 <= i < j < |r| ensures R(r[i], r[j]) {
      assert r[j] == t[j - 1];
      if i > 0 {
        assert r[i] == t[i - 1];
      }
    }
  }

  /** Filtering keeps a pairwise relation: it only drops elements and keeps the rest in order. */
  lemma {:induction false} FilterPairwise<T>(s: seq<T>, p: T -> bool, R: (T, T) -> bool)
    requires Pairwise(s, R)
    ensures Pairwise(Filter(s, p), R)
  {
    if |s| > 0 {
      var tail := Filter(s[1..], p);
      PairwiseTail(s, R);
      FilterPairwise(s[1..], p, R);
      FilterCons(s, p);
      if p(s[0]) {
        var after := (y: T) => R(s[0], y);
        FilterKeepsAll(s[1..], p, after);
        PairwiseCons(s[0], tail, R);
      }
    }
  }

  /** `s.filter(x => x !== v)`. */
  function Without<T(==)>(s: seq<T>, v: T): seq<T>
  {
    if |s| == 0 then []
    else (if s[0] == v then [] else [s[0]]) + Without(s[1..], v)
  }

  /** `Without` keeps every element other than `v`, and nothing else. */
  lemma {:induction false} WithoutMembers<T>(s: seq<T>, v: T)
    ensures forall x :: x in Without(s, v) <==> x in s && x != v
  {
    if |s| > 0 {
      var h, t := s[0], s[1..];
      var x := if h == v then [] else [h];
      WithoutMembers(t, v);
      assert s == [h] + t;
      assert Without(s, v) == x + Without(t, v);
    }
  }

  /** `Without` keeps every element other than `v` as often as it occurs. */
  lemma {:induction false} WithoutMultiset<T>(s: seq<T>, v: T)
    ensures multiset(Without(s, v)) == multiset(s)[v := 0]
  {
    if |s| > 0 {
      var h, t := s[0], s[1..];
      var x := if h == v then [] else [h];
      WithoutMultiset(t, v);
      assert s == [h] + t;
      assert Without(s, v) == x + Without(t, v);
      assert multiset(s) == multiset{h} + multiset(t);
      DropFromGrown(h, multiset(t), v);
    }
  }

  lemma DropFromGrown<T>(h: T, m: multiset<T>, v: T)
    ensures (multiset{h} + m)[v := 0] == if h == v then m[v := 0] else multiset{h} + m[v := 0]
  {
  }

  /** Dropping a value keeps a list free of duplicates. */
  lemma {:induction false} WithoutDistinct<T>(s: seq<T>, v: T)
    requires forall i, j :: 0 <= i < j < |s| ==> s[i] != s[j]
    ensures forall i, j :: 0 <= i < j < |Without(s, v)| ==> Without(s, v)[i] != Without(s, v)[j]
  {
    if |s| > 0 {
      WithoutDistinct(s[1..], v);
      WithoutMembers(s[1..], v);
      var tail := Without(s[1..], v);
      assert s[0] !in s[1..];
      assert s[0] !in tail;
    }
  }

  /** One step of `Without`: the head is kept exactly when it differs from `v`. */
  lemma WithoutCons<T>(s: seq<T>, v: T)
    requires |s| > 0
    ensures Without(s, v) == (if s[0] == v then [] else [s[0]]) + Without(s[1..], v)
  {
  }

  /** A sequence without `v` is left as it is. */
  lemma {:induction false} WithoutAbsent<T>(s: seq<T>, v: T)
    requires v !in s
    ensures Without(s, v) == s
  {
    if |s| > 0 {
      WithoutCons(s, v);
      WithoutAbsent(s[1..], v);
      assert s == [s[0]] + s[1..];
    }
  }

  lemma {:induction false} WithoutConcat<T>(a: seq<T>, b: seq<T>, v: T)
    ensures Without(a + b, v) == Without(a, v) + Without(b, v)
  {
    if |a| == 0 {
      assert a + b == b;
    } else {
      var x := if a[0] == v then [] else [a[0]];
      var u, w := Without(a[1..], v), Without(b, v);
      assert (a + b)[0] == a[0] && (a + b)[1..] == a[1..] + b;
      WithoutCons(a + b, v);
      WithoutConcat(a[1..], b, v);
      assert Without(a + b, v) == x + (u + w);
      assert x + (u + w) == (x + u) + w;
    }
  }

  /** Removing a value just appended to a sequence without it gives the sequence back. */
  lemma WithoutAppended<T>(s: seq<T>, v: T)
    requires v !in s
    ensures Without(s + [v], v) == s
  {
    WithoutConcat(s, [v], v);
    WithoutAbsent(s, v);
    WithoutCons([v], v);
    assert [v][1..] == [];
  }

  /** Exchanging two positions keeps the multiset. */
  lemma SwapMultiset<T>(a: seq<T>, b: seq<T>, p: nat, q: nat)
    requires |a| == |b| && p < |a| && q < |a|
    requires b[p] == a[q] && b[q] == a[p]
    requires forall i :: 0 <= i < |a| && i != p && i != q ==> b[i] == a[i]
    ensures multiset(a) == multiset(b)
  {
    var c := a[p := a[q]][q := a[p]];
    assert b == c;
    assert multiset(a[p := a[q]]) == multiset(a) - multiset{a[p]} + multiset{a[q]};
  }

  /** An element of a filtered list satisfies the filter and comes from the list. */
  lemma FilterMember<T>(s: seq<T>, p: T -> bool, x: T)
    requires x in Filter(s, p)
    ensures p(x) && x in s
  {
    var r := Filter(s, p);
    var k :| 0 <= k < |r| && r[k] == x;
  }

  /** Number of elements satisfying `p` (`s.filter(p).length`). */
  function Count<T>(s: seq<T>, p: T -> bool): (n: nat)
    ensures n <= |s|
    ensures n == |Filter(s, p)|
  {
    |Filter(s, p)|
  }

  /** `s.reduce((acc, x) => acc + f(x), 0)`. */
  function SumOf<T>(s: seq<T>, f: T -> int): int
  {
    if |s| == 0 then 0 else f(s[0]) + SumOf(s[1..], f)
  }

  lemma {:induction false} SumOfConcat<T>(a: seq<T>, b: seq<T>, f: T -> int)
    ensures SumOf(a + b, f) == SumOf(a, f) + SumOf(b, f)
  {
    if |a| == 0 {
      assert a + b == b;
    } else {
      assert (a + b)[1..] == a[1..] + b;
      SumOfConcat(a[1..], b, f);
    }
  }

  /** A sum does not depend on the order of its summands. */
  lemma {:induction false} SumOfPermutation<T>(a: seq<T>, b: seq<T>, f: T -> int)
    requires multiset(a) == multiset(b)
    ensures SumOf(a, f) == SumOf(b, f)
    decreases |a|
  {
    if |a| == 0 {
      assert |multiset(b)| == 0;
      assert b == [];
    } else {
      var k := PickFrom(a, b);
      var x := a[0];
      SumOfPermutation(a[1..], b[..k] + b[k + 1..], f);
      assert b == b[..k] + ([x] + b[k + 1..]);
      SumOfConcat(b[..k], [x] + b[k + 1..], f);
      SumOfConcat([x], b[k + 1..], f);
      SumOfConcat(b[..k], b[k + 1..], f);
    }
  }

  /** Sums of pointwise-equal summands agree. */
  lemma {:induction false} SumOfPointwise<T>(s: seq<T>, f: T -> int, g: T -> int)
    requires forall i :: 0 <= i < |s| ==> f(s[i]) == g(s[i])
    ensures SumOf(s, f) == SumOf(s, g)
  {
    if |s| > 0 {
      SumOfPointwise(s[1..], f, g);
    }
  }

  /** Splitting a sum by a predicate. */
  lemma {:induction false} SumOfSplit<T>(s: seq<T>, f: T -> int, p: T -> bool)
    ensures SumOf(s, f) == SumOf(Filter(s, p), f) + SumOf(Filter(s, Not(p)), f)
  {
    if |s| > 0 {
      SumOfSplit(s[1..], f, p);
      var q := Not(p);
      assert Filter(s, p) == (if p(s[0]) then [s[0]] else []) + Filter(s[1..], p);
      assert Filter(s, q) == (if q(s[0]) then [s[0]] else []) + Filter(s[1..], q);
      SumOfConcat(if p(s[0]) then [s[0]] else [], Filter(s[1..], p), f);
      SumOfConcat(if q(s[0]) then [s[0]] else [], Filter(s[1..], q), f);
    }
  }

  /** `s.findIndex(p)`: the first index satisfying `p`, or -1. */
  function IndexWhere<T>(s: seq<T>, p: T -> bool): (r: int)
    ensures -1 <= r < |s|
    ensures r == -1 <==> forall i :: 0 <= i < |s| ==> !p(s[i])
    ensures r >= 0 ==> p(s[r]) && forall i :: 0 <= i < r ==> !p(s[i])
  {
    if |s| == 0 then -1
    else if p(s[0]) then 0
    else var k := IndexWhere(s[1..], p); if k == -1 then -1 else k + 1
  }

  /** The first position where `p` holds is the one `IndexWhere` finds. */
  lemma IndexWhereFirst<T>(s: seq<T>, p: T -> bool, k: nat)
    requires k < |s| && p(s[k]) && forall i :: 0 <= i < k ==> !p(s[i])
    ensures IndexWhere(s, p) == k
  {
  }

  /** Exchanging two cells and then exchanging them again restores the sequence. */
  lemma SwapBack<T>(s: seq<T>, i: nat, j: nat)
    requires i < |s| && j < |s|
    ensures var r := s[i := s[j]][j := s[i]];
            r[j := r[i]][i := r[j]] == s
  {
    var r := s[i := s[j]][j := s[i]];
    var back := r[j := r[i]][i := r[j]];
    assert forall k :: 0 <= k < |s| ==> back[k] == s[k];
  }

  /** Ascending by `key`, pairwise. */
  ghost predicate SortedBy<T>(s: seq<T>, key: T -> int)
  {
    forall i, j :: 0 <= i < j < |s| ==> key(s[i]) <= key(s[j])
  }

  /** Places `x` in front of the first element whose key is not smaller. */
  function Insert<T>(x: T, s: seq<T>, key: T -> int): (r: seq<T>)
    ensures multiset(r) == multiset(s) + multiset{x}
    ensures |r| == |s| + 1
  {
    if |s| == 0 || key(x) <= key(s[0]) then [x] + s
    else
      assert s == [s[0]] + s[1..];
      [s[0]] + Insert(x, s[1..], key)
  }

  /** Inserting an element no smaller than `b` into elements no smaller than `b` keeps them all so. */
  lemma {:induction false} InsertLowerBound<T>(x: T, t: seq<T>, key: T -> int, b: int)
    requires b <= key(x) && forall k :: 0 <= k < |t| ==> b <= key(t[k])
    ensures forall k :: 0 <= k < |Insert(x, t, key)| ==> b <= key(Insert(x, t, key)[k])
  {
    if |t| > 0 && key(t[0]) < key(x) {
      assert forall k :: 0 <= k < |t[1..]| ==> t[1..][k] == t[k + 1];
      InsertLowerBound(x, t[1..], key, b);
    }
  }

  lemma {:induction false} InsertSorted<T>(x: T, s: seq<T>, key: T -> int)
    requires SortedBy(s, key)
    ensures SortedBy(Insert(x, s, key), key)
  {
    if |s| == 0 || key(x) <= key(s[0]) {
    } else {
      var tail := Insert(x, s[1..], key);
      InsertSorted(x, s[1..], key);
      assert forall k :: 0 <= k < |s[1..]| ==> s[1..][k] == s[k + 1];
      InsertLowerBound(x, s[1..], key, key(s[0]));
      var r := [s[0]] + tail;
      assert r == Insert(x, s, key);
      forall i, j | 0 <= i < j < |r| ensures key(r[i]) <= key(r[j]) {
        if i > 0 {
          assert r[i] == tail[i - 1] && r[j] == tail[j - 1];
        } else {
          assert r[j] == tail[j - 1];
        }
      }
    }
  }

  /**
   * `[...s].sort((a, b) => key(a) - key(b))`. Insertion of each element in front of the
   * later elements with an equal key keeps equal keys in their original order, as the
   * stable `Array.prototype.sort` does.
   */
  function SortBy<T>(s: seq<T>, key: T -> int): (r: seq<T>)
    ensures multiset(r) == multiset(s)
    ensures |r| == |s|
    ensures SortedBy(r, key)
  {
    if |s| == 0 then []
    else
      assert s == [s[0]] + s[1..];
      var rest := SortBy(s[1..], key);
      InsertSorted(s[0], rest, key);
      Insert(s[0], rest, key)
  }

  /** Membership survives sorting, in both directions. */
  lemma SortByMembers<T>(s: seq<T>, key: T -> int)
    ensures forall x :: x in SortBy(s, key) <==> x in s
  {
    var r := SortBy(s, key);
    forall x ensures x in r <==> x in s {
      assert x in r <==> x in multiset(r);
      assert x in s <==> x in multiset(s);
    }
  }

  /** Sorting keeps any property every element has. */
  lemma SortByKeeps<T>(s: seq<T>, key: T -> int, p: T -> bool)
    requires forall i :: 0 <= i < |s| ==> p(s[i])
    ensures forall i :: 0 <= i < |SortBy(s, key)| ==> p(SortBy(s, key)[i])
  {
    var r := SortBy(s, key);
    forall i | 0 <= i < |r| ensures p(r[i]) {
      assert r[i] in multiset(s);
    }
  }

  /** The elements whose key is `k`. */
  function KeyIs<T>(key: T -> int, k: int): T -> bool
  {
    x => key(x) == k
  }

  /**
   * Inserting `x` passes only elements with a smaller key, so among the elements with any one
   * key `x` comes first and the others keep their order.
   */
  lemma {:induction false} InsertKeyOrder<T>(x: T, s: seq<T>, key: T -> int, k: int)
    ensures Filter(Insert(x, s, key), KeyIs(key, k))
            == (if key(x) == k then [x] else []) + Filter(s, KeyIs(key, k))
  {
    var p := KeyIs(key, k);
    var r := Insert(x, s, key);
    var xs := if p(x) then [x] else [];
    if |s| == 0 || key(x) <= key(s[0]) {
      assert r[0] == x && r[1..] == s;
      FilterCons(r, p);
    } else {
      var tail := Insert(x, s[1..], key);
      assert r[0] == s[0] && r[1..] == tail;
      InsertKeyOrder(x, s[1..], key, k);
      FilterCons(r, p);
      FilterCons(s, p);
      var h := if p(s[0]) then [s[0]] else [];
      var f := Filter(s[1..], p);
      assert Filter(r, p) == h + (xs + f);
      if xs == [] {
        assert xs + f == f && xs + (h + f) == h + f;
      } else {
        assert h == [];
        assert h + (xs + f) == xs + f && h + f == f;
      }
    }
  }

  /**
   * The sort is stable: the elements with any one key appear in the sorted sequence in the
   * order they had before.
   */
  lemma {:induction false} SortByStable<T>(s: seq<T>, key: T -> int, k: int)
    ensures Filter(SortBy(s, key), KeyIs(key, k)) == Filter(s, KeyIs(key, k))
  {
    if |s| > 0 {
      var rest := SortBy(s[1..], key);
      SortByStable(s[1..], key, k);
      InsertKeyOrder(s[0], rest, key, k);
      FilterCons(s, KeyIs(key, k));
    }
  }
}
