/**
 * Sequence helpers shared by the statistics engine: `Array.prototype.filter`,
 * the length-of-filter tallies built on it, removal of duplicates in
 * first-seen order (what iterating a JavaScript `Set` yields), sums, and the
 * stable insertion sort that stands in for `Array.prototype.sort`.
 */
module Seqs {

  /** `s.filter(p)`: the elements of `s` satisfying `p`, in their original order. */
  function Filter<T>(s: seq<T>, p: T -> bool): (r: seq<T>)
    ensures |r| <= |s|
    ensures forall i :: 0 <= i < |r| ==> r[i] in s && p(r[i])
    ensures forall i :: 0 <= i < |s| && p(s[i]) ==> s[i] in r
    decreases |s|
  {
    if |s| == 0 then []
    else (if p(s[0]) then [s[0]] else []) + Filter(s[1..], p)
  }

  /** No element occurs twice. */
  predicate Distinct<T(==)>(s: seq<T>)
  {
    forall i, j :: 0 <= i < j < |s| ==> s[i] != s[j]
  }

  /** `s.map(f)`. */
  function Map<T, U>(s: seq<T>, f: T -> U): (r: seq<U>)
    ensures |r| == |s|
    ensures forall i :: 0 <= i < |s| ==> r[i] == f(s[i])
  {
    seq(|s|, i requires 0 <= i < |s| => f(s[i]))
  }

  /** `s.reduce((acc, x) => acc + f(x), 0)`. */
  function SumBy<T>(s: seq<T>, f: T -> int): int
    decreases |s|
  {
    if |s| == 0 then 0 else f(s[0]) + SumBy(s[1..], f)
  }

  /** The elements of `s` in order of first occurrence, each once. */
  function Dedup<T(==)>(s: seq<T>): (r: seq<T>)
    ensures Distinct(r)
    ensures forall i :: 0 <= i < |r| ==> r[i] in s
    ensures forall i :: 0 <= i < |s| ==> s[i] in r
    ensures |r| <= |s|
    decreases |s|
  {
    if |s| == 0 then []
    else
      var d := Dedup(s[..|s| - 1]);
      assert forall x :: x in s[..|s| - 1] ==> x in s;
      assert forall x :: x in s ==> x in s[..|s| - 1] || x == s[|s| - 1];
      if s[|s| - 1] in d then d else d + [s[|s| - 1]]
  }

  // ---------------------------------------------------------------------
  // Filter lemmas
  // ---------------------------------------------------------------------

  lemma {:induction false} FilterConcat<T>(a: seq<T>, b: seq<T>, p: T -> bool)
    ensures Filter(a + b, p) == Filter(a, p) + Filter(b, p)
    decreases |a|
  {
    if |a| == 0 {
      assert a + b == b;
    } else {
      assert (a + b)[1..] == a[1..] + b;
      FilterConcat(a[1..], b, p);
    }
  }

  /** Filtering twice is filtering once by the conjunction (which need only agree on the elements of `s`). */
  lemma {:induction false} FilterFilter<T>(s: seq<T>, p: T -> bool, q: T -> bool, both: T -> bool)
    requires forall i :: 0 <= i < |s| ==> both(s[i]) == (p(s[i]) && q(s[i]))
    ensures Filter(Filter(s, p), q) == Filter(s, both)
    decreases |s|
  {
    if |s| != 0 {
      FilterFilter(s[1..], p, q, both);
      if p(s[0]) {
        assert Filter(s, p) == [s[0]] + Filter(s[1..], p);
        assert ([s[0]] + Filter(s[1..], p))[1..] == Filter(s[1..], p);
      } else {
        assert Filter(s, p) == Filter(s[1..], p);
      }
    }
  }

  /** Every element of `s` satisfies `P` together with its position. */
  ghost predicate AllIndexed<T>(s: seq<T>, P: (T, int) -> bool)
  {
    forall i :: 0 <= i < |s| ==> P(s[i], i)
  }

  lemma AllIndexedAppend<T>(s: seq<T>, x: T, P: (T, int) -> bool)
    requires AllIndexed(s, P) && P(x, |s|)
    ensures AllIndexed(s + [x], P)
  {
    var t := s + [x];
    forall i | 0 <= i < |t|
      ensures P(t[i], i)
    {
      if i < |s| {
        assert t[i] == s[i];
      }
    }
  }

  /** Two predicates that split every element of `s` split its length. */
  lemma {:induction false} FilterPartition<T>(s: seq<T>, p: T -> bool, q: T -> bool)
    requires forall i :: 0 <= i < |s| ==> (p(s[i]) <==> !q(s[i]))
    ensures |Filter(s, p)| + |Filter(s, q)| == |s|
    decreases |s|
  {
    if |s| != 0 {
      assert p(s[0]) <==> !q(s[0]);
      FilterPartition(s[1..], p, q);
    }
  }

  /** The tally of `p` does not depend on the order of `s`. */
  lemma {:induction false} FilterPermutation<T>(a: seq<T>, b: seq<T>, p: T -> bool)
    requires multiset(a) == multiset(b)
    ensures |Filter(a, p)| == |Filter(b, p)|
    decreases |a|
  {
    if |a| == 0 {
      assert |multiset(b)| == 0;
    } else {
      var x := a[0];
      assert x in multiset(b);
      var i :| 0 <= i < |b| && b[i] == x;
      var rest := b[..i] + b[i + 1..];
      assert b == b[..i] + [x] + b[i + 1..];
      assert a == [x] + a[1..];
      calc {
        multiset(rest) + multiset{x};
        multiset(b[..i]) + multiset(b[i + 1..]) + multiset{x};
        multiset(b[..i] + [x] + b[i + 1..]);
        multiset(b);
        multiset(a);
        multiset([x] + a[1..]);
        multiset(a[1..]) + multiset{x};
      }
      assert multiset(rest) == multiset(rest) + multiset{x} - multiset{x};
      assert multiset(a[1..]) == multiset(a[1..]) + multiset{x} - multiset{x};
      FilterPermutation(a[1..], rest, p);
      FilterConcat(b[..i] + [x], b[i + 1..], p);
      FilterConcat(b[..i], [x], p);
      FilterConcat(b[..i], b[i + 1..], p);
    }
  }

  /** A tally counts exactly the positions `lo..hi` when those are where `p` holds. */
  lemma {:induction false} FilterInterval<T>(s: seq<T>, p: T -> bool, lo: int, hi: int)
    requires 0 <= lo <= hi <= |s|
    requires forall i :: 0 <= i < |s| ==> (p(s[i]) <==> lo <= i < hi)
    ensures |Filter(s, p)| == hi - lo
    decreases |s|
  {
    if |s| != 0 {
      var last := |s| - 1;
      assert s == s[..last] + [s[last]];
      FilterConcat(s[..last], [s[last]], p);
      if hi == |s| && lo < hi {
        FilterInterval(s[..last], p, lo, hi - 1);
      } else if hi == |s| {
        FilterInterval(s[..last], p, lo - 1, hi - 1);
      } else {
        FilterInterval(s[..last], p, lo, hi);
      }
    }
  }

  // ---------------------------------------------------------------------
  // Distinctness and sets
  // ---------------------------------------------------------------------

  /** A duplicate-free sequence has as many elements as its set. */
  lemma {:induction false} DistinctCard<T>(s: seq<T>)
    requires Distinct(s)
    ensures |set x | x in s| == |s|
    decreases |s|
  {
    if |s| != 0 {
      var tail := s[1..];
      DistinctCard(tail);
      assert (set x | x in s) == {s[0]} + (set x | x in tail);
      assert s[0] !in tail;
    }
  }

  lemma {:induction false} FilterDistinct<T>(s: seq<T>, p: T -> bool)
    requires Distinct(s)
    ensures Distinct(Filter(s, p))
    decreases |s|
  {
    if |s| != 0 {
      FilterDistinct(s[1..], p);
      assert s[0] !in s[1..];
      assert s[0] !in Filter(s[1..], p);
    }
  }

  /** In a duplicate-free sequence, a tally is the size of the set selected. */
  lemma FilterDistinctCard<T>(s: seq<T>, p: T -> bool, selected: set<T>)
    requires Distinct(s)
    requires forall x :: x in selected <==> x in s && p(x)
    ensures |Filter(s, p)| == |selected|
  {
    FilterDistinct(s, p);
    DistinctCard(Filter(s, p));
    assert (set x | x in Filter(s, p)) == selected;
  }

  // ---------------------------------------------------------------------
  // Keyed tallies: one count per key, summed over a list of keys
  // ---------------------------------------------------------------------

  /** The predicate "`key(x)` is `k`". */
  function KeyIs<T, K(==)>(key: T -> K, k: K): T -> bool
  {
    x => key(x) == k
  }

  /** Sum, over the keys `ks`, of the number of elements of `s` with that key. */
  function CountsOver<T, K(==)>(s: seq<T>, key: T -> K, ks: seq<K>): nat
    decreases |ks|
  {
    if |ks| == 0 then 0 else |Filter(s, KeyIs(key, ks[0]))| + CountsOver(s, key, ks[1..])
  }

  /** How many elements have key `k` is the multiplicity of `k` among the keys. */
  lemma {:induction false} FilterKeyMultiset<T, K>(s: seq<T>, key: T -> K, k: K)
    ensures |Filter(s, KeyIs(key, k))| == multiset(Map(s, key))[k]
    decreases |s|
  {
    if |s| != 0 {
      FilterKeyMultiset(s[1..], key, k);
      assert Map(s, key) == [key(s[0])] + Map(s[1..], key);
    }
  }

  lemma {:induction false} CountsOverCons<T, K>(x: T, rest: seq<T>, key: T -> K, ks: seq<K>)
    requires Distinct(ks)
    ensures CountsOver([x] + rest, key, ks) == CountsOver(rest, key, ks) + (if key(x) in ks then 1 else 0)
    decreases |ks|
  {
    if |ks| != 0 {
      assert ([x] + rest)[1..] == rest;
      CountsOverCons(x, rest, key, ks[1..]);
      assert ks[0] !in ks[1..];
      assert key(x) in ks <==> key(x) == ks[0] || key(x) in ks[1..];
    }
  }

  /** Tallies over a duplicate-free list of keys covering every element add up to the length. */
  lemma {:induction false} CountsOverCover<T, K>(s: seq<T>, key: T -> K, ks: seq<K>)
    requires Distinct(ks)
    requires forall i :: 0 <= i < |s| ==> key(s[i]) in ks
    ensures CountsOver(s, key, ks) == |s|
    decreases |s|
  {
    if |s| == 0 {
      CountsOverEmpty(key, ks);
    } else {
      assert s == [s[0]] + s[1..];
      CountsOverCons(s[0], s[1..], key, ks);
      CountsOverCover(s[1..], key, ks);
    }
  }

  /** Sum, over the keys `ks`, of the number of elements of `s` that `q(k)` selects. */
  function TallyOver<T, K>(s: seq<T>, q: K -> T -> bool, ks: seq<K>): nat
    decreases |ks|
  {
    if |ks| == 0 then 0 else |Filter(s, q(ks[0]))| + TallyOver(s, q, ks[1..])
  }

  /** The keys whose predicate selects `x`. */
  function Hits<T, K>(q: K -> T -> bool, x: T): K -> bool
  {
    k => q(k)(x)
  }

  /** One more element adds to the tally once for every key that selects it. */
  lemma {:induction false} TallyOverCons<T, K>(x: T, rest: seq<T>, q: K -> T -> bool, ks: seq<K>)
    ensures TallyOver([x] + rest, q, ks) == TallyOver(rest, q, ks) + |Filter(ks, Hits(q, x))|
    decreases |ks|
  {
    if |ks| != 0 {
      assert ([x] + rest)[1..] == rest;
      TallyOverCons(x, rest, q, ks[1..]);
      assert Hits(q, x)(ks[0]) == q(ks[0])(x);
    }
  }

  lemma {:induction false} TallyOverEmpty<T, K>(q: K -> T -> bool, ks: seq<K>)
    ensures TallyOver([], q, ks) == 0
    decreases |ks|
  {
    if |ks| != 0 {
      TallyOverEmpty(q, ks[1..]);
    }
  }

  lemma {:induction false} CountsOverEmpty<T, K>(key: T -> K, ks: seq<K>)
    ensures CountsOver([], key, ks) == 0
    decreases |ks|
  {
    if |ks| != 0 {
      CountsOverEmpty(key, ks[1..]);
    }
  }

  // ---------------------------------------------------------------------
  // Stable insertion sort
  // ---------------------------------------------------------------------

  /** `before(a, b)`: `a` must be placed ahead of `b`; otherwise input order is kept. */
  ghost predicate StrictOrder<T(!new)>(before: (T, T) -> bool)
  {
    && (forall a, b :: before(a, b) ==> !before(b, a))
    && (forall a, b, c :: before(a, b) && before(b, c) ==> before(a, c))
  }

  /** No later element must come ahead of an earlier one. */
  ghost predicate SortedBy<T>(s: seq<T>, before: (T, T) -> bool)
  {
    forall i, j :: 0 <= i < j < |s| ==> !before(s[j], s[i])
  }

  /** Insert `x` just ahead of the first element it must precede. */
  function InsertBy<T>(x: T, s: seq<T>, before: (T, T) -> bool): (r: seq<T>)
    ensures multiset(r) == multiset(s) + multiset{x}
    ensures |r| == |s| + 1
    decreases |s|
  {
    if |s| == 0 then [x]
    else if before(x, s[0]) then [x] + s
    else
      var tail := InsertBy(x, s[1..], before);
      assert s == [s[0]] + s[1..];
      [s[0]] + tail
  }

  /** Insertion sort that feeds the elements in input order, so equal elements keep their order. */
  function SortBy<T>(s: seq<T>, before: (T, T) -> bool): (r: seq<T>)
    ensures multiset(r) == multiset(s)
    ensures |r| == |s|
    decreases |s|
  {
    if |s| == 0 then []
    else
      var sorted := SortBy(s[..|s| - 1], before);
      assert s == s[..|s| - 1] + [s[|s| - 1]];
      InsertBy(s[|s| - 1], sorted, before)
  }

  lemma {:induction false} InsertBySorted<T(!new)>(x: T, s: seq<T>, before: (T, T) -> bool)
    requires StrictOrder(before)
    requires SortedBy(s, before)
    ensures SortedBy(InsertBy(x, s, before), before)
    decreases |s|
  {
    if |s| != 0 && !before(x, s[0]) {
      InsertBySorted(x, s[1..], before);
      var tail := InsertBy(x, s[1..], before);
      forall j | 0 <= j < |tail|
        ensures !before(tail[j], s[0])
      {
        assert tail[j] in multiset(tail);
        assert tail[j] == x || tail[j] in s[1..];
      }
    }
  }

  lemma {:induction false} SortBySorted<T(!new)>(s: seq<T>, before: (T, T) -> bool)
    requires StrictOrder(before)
    ensures SortedBy(SortBy(s, before), before)
    decreases |s|
  {
    if |s| != 0 {
      SortBySorted(s[..|s| - 1], before);
      InsertBySorted(s[|s| - 1], SortBy(s[..|s| - 1], before), before);
    }
  }

  lemma {:induction false} InsertByDistinct<T>(x: T, s: seq<T>, before: (T, T) -> bool)
    requires Distinct(s)
    requires x !in s
    ensures Distinct(InsertBy(x, s, before))
    decreases |s|
  {
    if |s| != 0 && !before(x, s[0]) {
      InsertByDistinct(x, s[1..], before);
      var tail := InsertBy(x, s[1..], before);
      assert s[0] !in s[1..];
      assert s[0] !in multiset(tail);
    }
  }

  /** Removing duplicates keeps exactly the same elements. */
  lemma DedupMembers<T>(s: seq<T>)
    ensures forall x :: x in Dedup(s) <==> x in s
  {
    var d := Dedup(s);
    forall x
      ensures x in d <==> x in s
    {
      if x in d {
        var i :| 0 <= i < |d| && d[i] == x;
      }
      if x in s {
        var j :| 0 <= j < |s| && s[j] == x;
      }
    }
  }

  /** The position of the first occurrence of `x` in `s`. */
  function FirstIndex<T(==)>(s: seq<T>, x: T): (i: nat)
    requires x in s
    ensures i < |s| && s[i] == x && x !in s[..i]
    decreases |s|
  {
    if s[0] == x then 0
    else
      var i := 1 + FirstIndex(s[1..], x);
      assert s[..i] == [s[0]] + s[1..][..i - 1];
      i
  }

  /** Only one position is the first occurrence. */
  lemma FirstIndexUnique<T>(s: seq<T>, x: T, k: nat)
    requires k < |s| && s[k] == x && x !in s[..k]
    ensures FirstIndex(s, x) == k
  {
    var i := FirstIndex(s, x);
    OccursBefore(s, x, i, k);
    OccursBefore(s, x, k, i);
  }

  lemma OccursBefore<T>(s: seq<T>, x: T, i: nat, k: nat)
    requires i < |s| && s[i] == x
    ensures i < k <= |s| ==> x in s[..k]
  {
    if i < k <= |s| {
      assert s[..k][i] == x;
    }
  }

  /** Elements found before position `n` have the same first index in `s` as in its first `n` elements. */
  lemma FirstIndicesInPrefix<T>(s: seq<T>, n: nat, d: seq<T>)
    requires n <= |s|
    requires forall k :: 0 <= k < |d| ==> d[k] in s[..n]
    ensures forall k :: 0 <= k < |d| ==> FirstIndex(s, d[k]) == FirstIndex(s[..n], d[k]) < n
  {
    forall k | 0 <= k < |d|
      ensures FirstIndex(s, d[k]) == FirstIndex(s[..n], d[k]) < n
    {
      FirstIndexPrefix(s, n, d[k]);
    }
  }

  /** An element already in the prefix `s[..n]` first occurs where it first occurs in the prefix. */
  lemma FirstIndexPrefix<T>(s: seq<T>, n: nat, x: T)
    requires n <= |s| && x in s[..n]
    ensures FirstIndex(s, x) == FirstIndex(s[..n], x) < n
  {
    var k := FirstIndex(s[..n], x);
    assert s[..n][..k] == s[..k];
    FirstIndexUnique(s, x, k);
  }

  /**
   * `Dedup` lists the elements in the order of their first occurrence in `s`,
   * which is the order a JavaScript `Set` built from `s` iterates in.
   */
  lemma {:induction false} DedupFirstSeen<T>(s: seq<T>)
    ensures forall i, j :: 0 <= i < j < |Dedup(s)| ==>
      FirstIndex(s, Dedup(s)[i]) < FirstIndex(s, Dedup(s)[j])
    decreases |s|
  {
    if |s| != 0 {
      var n := |s| - 1;
      var init := s[..n];
      var d := Dedup(init);
      DedupFirstSeen(init);
      assert forall k :: 0 <= k < |d| ==> d[k] in init;
      assert s[n] in d <==> s[n] in init;
      FirstSeenStep(s, d, Dedup(s));
    }
  }

  /**
   * One step of `Dedup`: elements listed in first-seen order of the first
   * `|s| - 1` elements stay in first-seen order of `s`, also after appending
   * a last element that is new.
   */
  lemma FirstSeenStep<T>(s: seq<T>, d: seq<T>, r: seq<T>)
    requires |s| > 0
    requires forall k :: 0 <= k < |d| ==> d[k] in s[..|s| - 1]
    requires forall i, j :: 0 <= i < j < |d| ==>
      FirstIndex(s[..|s| - 1], d[i]) < FirstIndex(s[..|s| - 1], d[j])
    requires r == if s[|s| - 1] in s[..|s| - 1] then d else d + [s[|s| - 1]]
    ensures forall i, j :: 0 <= i < j < |r| ==> r[i] in s && r[j] in s && FirstIndex(s, r[i]) < FirstIndex(s, r[j])
  {
    var n := |s| - 1;
    var init, last := s[..n], s[n];
    FirstIndicesInPrefix(s, n, d);
    if last in init {
      forall i, j | 0 <= i < j < |r|
        ensures r[i] in s && r[j] in s && FirstIndex(s, r[i]) < FirstIndex(s, r[j])
      {
        assert FirstIndex(init, d[i]) < FirstIndex(init, d[j]);
      }
    } else {
      assert s[..n] == init;
      FirstIndexUnique(s, last, n);
      forall i, j | 0 <= i < j < |r|
        ensures r[i] in s && r[j] in s && FirstIndex(s, r[i]) < FirstIndex(s, r[j])
      {
        assert r[i] == d[i];
        if j < |d| {
          assert r[j] == d[j];
        } else {
          assert r[j] == last;
        }
      }
    }
  }

  /** Two lists with the same members as `s`, one through the other, list each element of `s`, and only those. */
  lemma SameMembers<T>(s: seq<T>, d: seq<T>, r: seq<T>)
    requires forall x :: x in r <==> x in d
    requires forall x :: x in d <==> x in s
    ensures forall i :: 0 <= i < |r| ==> r[i] in s
    ensures forall j :: 0 <= j < |s| ==> s[j] in r
  {
    forall i | 0 <= i < |r|
      ensures r[i] in s
    {
      assert r[i] in r;
    }
  }

  /** Sorting keeps exactly the same elements. */
  lemma SortByMembers<T>(s: seq<T>, before: (T, T) -> bool)
    ensures forall x :: x in SortBy(s, before) <==> x in s
  {
    forall x
      ensures x in SortBy(s, before) <==> x in s
    {
      assert x in SortBy(s, before) <==> x in multiset(SortBy(s, before));
      assert x in s <==> x in multiset(s);
    }
  }

  lemma {:induction false} SortByDistinct<T>(s: seq<T>, before: (T, T) -> bool)
    requires Distinct(s)
    ensures Distinct(SortBy(s, before))
    decreases |s|
  {
    if |s| != 0 {
      var init := s[..|s| - 1];
      SortByDistinct(init, before);
      assert s[|s| - 1] !in init;
      assert s[|s| - 1] !in multiset(SortBy(init, before));
      InsertByDistinct(s[|s| - 1], SortBy(init, before), before);
    }
  }

  lemma {:induction false} DistinctMultiplicity<T>(s: seq<T>, x: T)
    requires Distinct(s)
    ensures multiset(s)[x] <= 1
    decreases |s|
  {
    if |s| != 0 {
      assert s == [s[0]] + s[1..];
      assert s[0] !in s[1..];
      DistinctMultiplicity(s[1..], x);
    }
  }

  /**
   * When `before` orders by decreasing `rank`, the elements of any one rank
   * keep their input order: inserting `x` appends it to its rank's run.
   */
  lemma {:induction false} InsertByStable<T>(x: T, s: seq<T>, before: (T, T) -> bool, rank: T -> int, v: int)
    requires forall a, b :: before(a, b) <==> rank(a) > rank(b)
    requires SortedBy(s, before)
    ensures Filter(InsertBy(x, s, before), KeyIs(rank, v))
         == Filter(s, KeyIs(rank, v)) + (if rank(x) == v then [x] else [])
    decreases |s|
  {
    if |s| == 0 {
    } else if before(x, s[0]) {
      InsertAheadStable(x, s, before, rank, v);
    } else {
      assert SortedBy(s[1..], before);
      InsertByStable(x, s[1..], before, rank, v);
      InsertBehindStable(x, s, before, KeyIs(rank, v), if rank(x) == v then [x] else []);
    }
  }

  /** Inserting behind the head: the head's selection comes first, then the insertion into the tail. */
  lemma InsertBehindStable<T>(x: T, s: seq<T>, before: (T, T) -> bool, same: T -> bool, extra: seq<T>)
    requires |s| > 0 && !before(x, s[0])
    requires Filter(InsertBy(x, s[1..], before), same) == Filter(s[1..], same) + extra
    ensures Filter(InsertBy(x, s, before), same) == Filter(s, same) + extra
  {
    assert InsertBy(x, s, before) == [s[0]] + InsertBy(x, s[1..], before);
    FilterBehind(InsertBy(x, s, before), s, InsertBy(x, s[1..], before), same, extra);
  }

  /** Putting the head of `s` in front of a list whose selection extends that of `s`'s tail extends that of `s`. */
  lemma FilterBehind<T>(whole: seq<T>, s: seq<T>, tail: seq<T>, same: T -> bool, extra: seq<T>)
    requires |s| > 0 && whole == [s[0]] + tail
    requires Filter(tail, same) == Filter(s[1..], same) + extra
    ensures Filter(whole, same) == Filter(s, same) + extra
  {
    var head := Filter([s[0]], same);
    FilterConcat([s[0]], tail, same);
    assert Filter(s, same) == head + Filter(s[1..], same) by {
      assert s == [s[0]] + s[1..];
      FilterConcat([s[0]], s[1..], same);
    }
    AppendAssociative(head, Filter(s[1..], same), extra);
  }

  lemma AppendAssociative<T>(a: seq<T>, b: seq<T>, c: seq<T>)
    ensures a + (b + c) == (a + b) + c
  {
  }

  lemma InsertAheadStable<T>(x: T, s: seq<T>, before: (T, T) -> bool, rank: T -> int, v: int)
    requires forall a, b :: before(a, b) <==> rank(a) > rank(b)
    requires SortedBy(s, before)
    requires |s| > 0 && before(x, s[0])
    ensures Filter(InsertBy(x, s, before), KeyIs(rank, v))
         == Filter(s, KeyIs(rank, v)) + (if rank(x) == v then [x] else [])
  {
    var same := KeyIs(rank, v);
    assert InsertBy(x, s, before) == [x] + s;
    if rank(x) == v {
      forall j | 0 <= j < |s|
        ensures !same(s[j])
      {
        if j > 0 {
          assert !before(s[j], s[0]);
        }
      }
      NoneSelected(s, same);
    }
    FilterConcat([x], s, same);
  }

  lemma {:induction false} NoneSelected<T>(s: seq<T>, p: T -> bool)
    requires forall j :: 0 <= j < |s| ==> !p(s[j])
    ensures Filter(s, p) == []
    decreases |s|
  {
    if |s| != 0 {
      NoneSelected(s[1..], p);
    }
  }

  lemma RankOrderIsStrict<T(!new)>(before: (T, T) -> bool, rank: T -> int)
    requires forall a, b :: before(a, b) <==> rank(a) > rank(b)
    ensures StrictOrder(before)
  {
    forall a, b, c | before(a, b) && before(b, c)
      ensures before(a, c)
    {
      assert rank(a) > rank(b) > rank(c);
    }
  }

  /** Sorting by decreasing rank keeps each rank's elements in input order. */
  lemma {:induction false} SortByStable<T(!new)>(s: seq<T>, before: (T, T) -> bool, rank: T -> int, v: int)
    requires forall a, b :: before(a, b) <==> rank(a) > rank(b)
    ensures Filter(SortBy(s, before), KeyIs(rank, v)) == Filter(s, KeyIs(rank, v))
    decreases |s|
  {
    if |s| != 0 {
      var init, x := s[..|s| - 1], s[|s| - 1];
      var same := KeyIs(rank, v);
      var extra := if rank(x) == v then [x] else [];
      assert Filter(SortBy(s, before), same) == Filter(init, same) + extra by {
        SortByStable(init, before, rank, v);
        RankOrderIsStrict(before, rank);
        SortBySorted(init, before);
        InsertByStable(x, SortBy(init, before), before, rank, v);
        assert SortBy(s, before) == InsertBy(x, SortBy(init, before), before);
      }
      assert Filter(s, same) == Filter(init, same) + extra by {
        assert s == init + [x];
        FilterConcat(init, [x], same);
        assert Filter([x], same) == extra;
      }
    }
  }

  lemma {:induction false} SumByConcat<T>(a: seq<T>, b: seq<T>, f: T -> int)
    ensures SumBy(a + b, f) == SumBy(a, f) + SumBy(b, f)
    decreases |a|
  {
    if |a| == 0 {
      assert a + b == b;
    } else {
      assert (a + b)[1..] == a[1..] + b;
      SumByConcat(a[1..], b, f);
    }
  }

  lemma {:induction false} SumByInsert<T>(x: T, s: seq<T>, before: (T, T) -> bool, f: T -> int)
    ensures SumBy(InsertBy(x, s, before), f) == SumBy(s, f) + f(x)
    decreases |s|
  {
    if |s| != 0 && !before(x, s[0]) {
      SumByInsert(x, s[1..], before, f);
      assert ([s[0]] + InsertBy(x, s[1..], before))[1..] == InsertBy(x, s[1..], before);
    }
  }

  /** Sorting does not change a sum. */
  lemma {:induction false} SumBySort<T>(s: seq<T>, before: (T, T) -> bool, f: T -> int)
    ensures SumBy(SortBy(s, before), f) == SumBy(s, f)
    decreases |s|
  {
    if |s| != 0 {
      var init, x := s[..|s| - 1], s[|s| - 1];
      assert SumBy(SortBy(s, before), f) == SumBy(init, f) + f(x) by {
        SumBySort(init, before, f);
        SumByInsert(x, SortBy(init, before), before, f);
      }
      assert SumBy(s, f) == SumBy(init, f) + f(x) by {
        assert s == init + [x];
        SumByConcat(init, [x], f);
      }
    }
  }
}
