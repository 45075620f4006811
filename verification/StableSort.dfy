/** Stable sorting by a descending key, as `slice::sort_by` promises it. */
module StableSort {
  /** `x` placed behind every element whose key is at least its own. */
  function Insert<T>(xs: seq<T>, x: T, key: T -> int): (r: seq<T>)
    ensures |r| == |xs| + 1
  {
    if xs == [] || key(xs[|xs| - 1]) >= key(x) then xs + [x]
    else Insert(xs[..|xs| - 1], x, key) + [xs[|xs| - 1]]
  }

  function SortDesc<T>(xs: seq<T>, key: T -> int): (r: seq<T>)
    ensures |r| == |xs|
  {
    if xs == [] then [] else Insert(SortDesc(xs[..|xs| - 1], key), xs[|xs| - 1], key)
  }

  /** The elements with key `k`, in order. */
  function WithKey<T>(xs: seq<T>, k: int, key: T -> int): seq<T> {
    if xs == [] then []
    else WithKey(xs[..|xs| - 1], k, key) + (if key(xs[|xs| - 1]) == k then [xs[|xs| - 1]] else [])
  }

  ghost predicate Descending<T>(xs: seq<T>, key: T -> int) {
    forall i, j | 0 <= i < j < |xs| :: key(xs[i]) >= key(xs[j])
  }

  lemma {:induction false} InsertContents<T>(xs: seq<T>, x: T, key: T -> int)
    ensures multiset(Insert(xs, x, key)) == multiset(xs) + multiset{x}
  {
    if xs == [] || key(xs[|xs| - 1]) >= key(x) {
    } else {
      InsertContents(xs[..|xs| - 1], x, key);
      assert xs == xs[..|xs| - 1] + [xs[|xs| - 1]];
    }
  }

  lemma {:induction false} InsertDescends<T>(xs: seq<T>, x: T, key: T -> int)
    requires Descending(xs, key)
    ensures Descending(Insert(xs, x, key), key)
  {
    if xs == [] || key(xs[|xs| - 1]) >= key(x) {
    } else {
      var init, last := xs[..|xs| - 1], xs[|xs| - 1];
      InsertDescends(init, x, key);
      InsertContents(init, x, key);
      var r := Insert(init, x, key);
      forall i | 0 <= i < |r|
        ensures key(r[i]) >= key(last)
      {
        assert r[i] in multiset(r);
        assert r[i] == x || r[i] in init;
      }
    }
  }

  lemma {:induction false} InsertKeepsRuns<T>(xs: seq<T>, x: T, k: int, key: T -> int)
    requires Descending(xs, key)
    ensures WithKey(Insert(xs, x, key), k, key) == WithKey(xs, k, key) + (if key(x) == k then [x] else [])
  {
    var r := Insert(xs, x, key);
    if xs == [] || key(xs[|xs| - 1]) >= key(x) {
      assert r[..|r| - 1] == xs;
    } else {
      var init, last := xs[..|xs| - 1], xs[|xs| - 1];
      assert r[..|r| - 1] == Insert(init, x, key);
      InsertKeepsRuns(init, x, k, key);
    }
  }

  /** The result is a descending rearrangement that keeps elements of equal key in order. */
  lemma {:induction false} SortDescIsStable<T>(xs: seq<T>, key: T -> int)
    ensures Descending(SortDesc(xs, key), key)
    ensures multiset(SortDesc(xs, key)) == multiset(xs)
    ensures forall k :: WithKey(SortDesc(xs, key), k, key) == WithKey(xs, k, key)
  {
    if xs != [] {
      var init, last := xs[..|xs| - 1], xs[|xs| - 1];
      SortDescIsStable(init, key);
      assert xs == init + [last];
      InsertDescends(SortDesc(init, key), last, key);
      InsertContents(SortDesc(init, key), last, key);
      forall k
        ensures WithKey(SortDesc(xs, key), k, key) == WithKey(xs, k, key)
      {
        InsertKeepsRuns(SortDesc(init, key), last, k, key);
      }
    }
  }

  lemma {:induction false} WithKeyEmpty<T>(xs: seq<T>, k: int, key: T -> int)
    ensures WithKey(xs, k, key) == [] <==> forall x <- xs :: key(x) != k
  {
    if xs != [] {
      WithKeyEmpty(xs[..|xs| - 1], k, key);
      assert xs == xs[..|xs| - 1] + [xs[|xs| - 1]];
    }
  }

  lemma {:induction false} WithKeyPrefix<T>(xs: seq<T>, i: nat, k: int, key: T -> int)
    requires i <= |xs|
    ensures WithKey(xs[..i], k, key) <= WithKey(xs, k, key)
  {
    if i == |xs| {
      assert xs[..i] == xs;
    } else {
      assert xs[..|xs| - 1][..i] == xs[..i];
      WithKeyPrefix(xs[..|xs| - 1], i, k, key);
    }
  }

  lemma {:induction false} WithKeySubset<T>(xs: seq<T>, k: int, key: T -> int)
    ensures forall x <- WithKey(xs, k, key) :: x in xs && key(x) == k
  {
    if xs != [] { WithKeySubset(xs[..|xs| - 1], k, key); }
  }

  /** A key that occurs is no less than the last one. */
  lemma OccursAboveLast<T>(ys: seq<T>, k: int, key: T -> int)
    requires ys != [] && Descending(ys, key) && WithKey(ys, k, key) != []
    ensures key(ys[|ys| - 1]) <= k
  {
    WithKeyEmpty(ys, k, key);
    hide WithKey;
    var y :| y in ys && key(y) == k;
    var i :| 0 <= i < |ys| && ys[i] == y;
    assert i < |ys| - 1 ==> key(ys[i]) >= key(ys[|ys| - 1]);
  }

  lemma LastIsLeast<T>(xs: seq<T>, ys: seq<T>, key: T -> int)
    requires xs != [] && ys != [] && Descending(ys, key)
    requires forall k :: WithKey(xs, k, key) == WithKey(ys, k, key)
    ensures key(ys[|ys| - 1]) <= key(xs[|xs| - 1])
  {
    hide *;
    var k := key(xs[|xs| - 1]);
    LastOfRun(xs, key);
    assert WithKey(xs, k, key) == WithKey(ys, k, key);
    OccursAboveLast(ys, k, key);
  }

  /** The last elements of two descending arrangements with equal runs agree. */
  lemma SameLast<T>(xs: seq<T>, ys: seq<T>, key: T -> int)
    requires xs != [] && ys != [] && Descending(xs, key) && Descending(ys, key)
    requires forall k :: WithKey(xs, k, key) == WithKey(ys, k, key)
    ensures xs[|xs| - 1] == ys[|ys| - 1]
  {
    hide WithKey;
    var x, y := xs[|xs| - 1], ys[|ys| - 1];
    LastIsLeast(xs, ys, key);
    LastIsLeast(ys, xs, key);
    LastOfRun(xs, key);
    LastOfRun(ys, key);
    assert WithKey(xs, key(x), key) == WithKey(ys, key(x), key);
  }

  /** An arrangement's last element is the last of its run. */
  lemma LastOfRun<T>(xs: seq<T>, key: T -> int)
    requires xs != []
    ensures var x := xs[|xs| - 1];
            var run := WithKey(xs, key(x), key);
            run != [] && run[|run| - 1] == x
  {
  }

  /** Descending order and the runs of equal key leave only one arrangement, so any
      stable sort returns the same sequence. */
  lemma {:induction false} StableSortUnique<T>(xs: seq<T>, ys: seq<T>, key: T -> int)
    requires Descending(xs, key) && Descending(ys, key)
    requires forall k :: WithKey(xs, k, key) == WithKey(ys, k, key)
    ensures xs == ys
    decreases |xs|
  {
    if xs == [] {
      if ys != [] { WithKeyEmpty(ys, key(ys[0]), key); }
    } else {
      var x := xs[|xs| - 1];
      WithKeyEmpty(ys, key(x), key);
      SameLast(xs, ys, key);
      var a, b := xs[..|xs| - 1], ys[..|ys| - 1];
      forall k
        ensures WithKey(a, k, key) == WithKey(b, k, key)
      {
        assert WithKey(xs, k, key) == WithKey(ys, k, key);
        DropEqualTail(WithKey(a, k, key), WithKey(b, k, key), if key(x) == k then [x] else []);
      }
      StableSortUnique(a, b, key);
      assert xs == a + [x] && ys == b + [x];
    }
  }

  lemma DropEqualTail<T>(a: seq<T>, b: seq<T>, tail: seq<T>)
    requires a + tail == b + tail
    ensures a == b
  {
    assert |a| == |b|;
    assert a == (a + tail)[..|a|] == (b + tail)[..|b|] == b;
  }

  lemma SortTwo<T>(a: T, b: T, key: T -> int)
    requires key(a) >= key(b)
    ensures SortDesc([a, b], key) == [a, b]
  {
    assert [a, b][..1] == [a] && [a][..0] == [];
    assert SortDesc([a], key) == [a];
  }

  lemma LastGoesFirst<T>(a: T, b: T, c: T, key: T -> int)
    requires key(c) > key(a) >= key(b)
    ensures SortDesc([a, b, c], key) == [c, a, b]
  {
    SortTwo(a, b, key);
    assert [a, b, c][..2] == [a, b] && [a, b][..1] == [a] && [a][..0] == [];
    assert Insert([a], c, key) == Insert([], c, key) + [a];
    assert Insert([a, b], c, key) == Insert([a], c, key) + [b];
  }

  // ----- sorting and renaming -----

  /** `ys` holds the images of `xs` under `f`, in order. */
  ghost predicate Images<A, B>(xs: seq<A>, ys: seq<B>, f: A -> B) {
    |xs| == |ys| && forall i | 0 <= i < |xs| :: ys[i] == f(xs[i])
  }

  lemma {:induction false} InsertImages<A, B>(xs: seq<A>, ys: seq<B>, x: A, f: A -> B, ka: A -> int, kb: B -> int)
    requires Images(xs, ys, f)
    requires kb(f(x)) == ka(x) && forall a <- xs :: kb(f(a)) == ka(a)
    ensures Images(Insert(xs, x, ka), Insert(ys, f(x), kb), f)
  {
    if xs != [] {
      assert xs[|xs| - 1] in xs;
      if ka(xs[|xs| - 1]) < ka(x) {
        InsertImages(xs[..|xs| - 1], ys[..|ys| - 1], x, f, ka, kb);
      }
    }
  }

  /** Sorting the images by a key that `f` keeps is taking the images of the sorted. */
  lemma {:induction false} SortImages<A, B>(xs: seq<A>, ys: seq<B>, f: A -> B, ka: A -> int, kb: B -> int)
    requires Images(xs, ys, f)
    requires forall a <- xs :: kb(f(a)) == ka(a)
    ensures Images(SortDesc(xs, ka), SortDesc(ys, kb), f)
  {
    if xs != [] {
      var init, last := xs[..|xs| - 1], xs[|xs| - 1];
      SortImages(init, ys[..|ys| - 1], f, ka, kb);
      SortDescIsStable(init, ka);
      assert last in xs;
      forall a <- SortDesc(init, ka)
        ensures kb(f(a)) == ka(a)
      {
        assert a in multiset(init);
        assert a in xs;
      }
      InsertImages(SortDesc(init, ka), SortDesc(ys[..|ys| - 1], kb), last, f, ka, kb);
    }
  }
}
