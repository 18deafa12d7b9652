/**
 * Two generic sequence operations that several parts of the system share:
 * keeping the first element of every key (a `seen` set in a loop, or
 * `drop_duplicates(keep="first")`), and ordering by descending score
 * (`sort_values(ascending=False)`, `argsort(...)[::-1]`).
 */
module Collections {
  import opened Wrappers

  /** The elements that satisfy keep, in order (a list comprehension with an `if`). */
  function Filter<T>(xs: seq<T>, keep: T -> bool): (r: seq<T>)
    ensures |r| <= |xs|
    ensures forall x :: x in r ==> x in xs && keep(x)
    decreases |xs|
  {
    if xs == [] then []
    else
      assert xs == [xs[0]] + xs[1..];
      (if keep(xs[0]) then [xs[0]] else []) + Filter(xs[1..], keep)
  }

  /** Every element satisfying keep is kept. */
  lemma {:induction false} FilterIn<T>(xs: seq<T>, keep: T -> bool, x: T)
    ensures x in Filter(xs, keep) <==> x in xs && keep(x)
    decreases |xs|
  {
    if xs != [] {
      FilterIn(xs[1..], keep, x);
      assert xs == [xs[0]] + xs[1..];
    }
  }

  lemma {:induction false} FilterAll<T>(xs: seq<T>, keep: T -> bool)
    requires forall i :: 0 <= i < |xs| ==> keep(xs[i])
    ensures Filter(xs, keep) == xs
    decreases |xs|
  {
    if xs != [] {
      var t := xs[1..];
      forall i | 0 <= i < |t| ensures keep(t[i]) {
        assert t[i] == xs[i + 1];
      }
      FilterAll(t, keep);
      assert xs == [xs[0]] + t;
    }
  }

  lemma {:induction false} FilterNone<T>(xs: seq<T>, keep: T -> bool)
    requires forall i :: 0 <= i < |xs| ==> !keep(xs[i])
    ensures Filter(xs, keep) == []
    decreases |xs|
  {
    if xs != [] {
      FilterNone(xs[1..], keep);
    }
  }

  /** Filtering a concatenation filters each part: the order of the kept elements is the input order. */
  lemma {:induction false} FilterConcat<T>(a: seq<T>, b: seq<T>, keep: T -> bool)
    ensures Filter(a + b, keep) == Filter(a, keep) + Filter(b, keep)
    decreases |a|
  {
    if a == [] {
      assert a + b == b;
    } else {
      var head := if keep(a[0]) then [a[0]] else [];
      assert (a + b)[0] == a[0];
      assert (a + b)[1..] == a[1..] + b;
      FilterConcat(a[1..], b, keep);
      calc {
        Filter(a + b, keep);
        head + Filter(a[1..] + b, keep);
        head + (Filter(a[1..], keep) + Filter(b, keep));
        (head + Filter(a[1..], keep)) + Filter(b, keep);
      }
    }
  }

  /** The values of the elements for which f gives one, in order. */
  function Somes<A, B>(xs: seq<A>, f: A -> Option<B>): (r: seq<B>)
    ensures |r| <= |xs|
    decreases |xs|
  {
    if xs == [] then []
    else
      var tail := if f(xs[|xs| - 1]).Some? then [f(xs[|xs| - 1]).value] else [];
      Somes(xs[..|xs| - 1], f) + tail
  }

  lemma {:induction false} SomesConcat<A, B>(a: seq<A>, b: seq<A>, f: A -> Option<B>)
    ensures Somes(a + b, f) == Somes(a, f) + Somes(b, f)
    decreases |b|
  {
    if b == [] {
      assert a + b == a;
    } else {
      var b' := b[..|b| - 1];
      var x := b[|b| - 1];
      var tail := if f(x).Some? then [f(x).value] else [];
      assert (a + b)[..|a + b| - 1] == a + b';
      assert (a + b)[|a + b| - 1] == x;
      SomesConcat(a, b', f);
      calc {
        Somes(a + b, f);
        Somes(a + b', f) + tail;
        (Somes(a, f) + Somes(b', f)) + tail;
        Somes(a, f) + (Somes(b', f) + tail);
      }
    }
  }

  /** A value is produced exactly when some element produces it. */
  lemma {:induction false} SomesIn<A, B>(xs: seq<A>, f: A -> Option<B>, y: B)
    ensures y in Somes(xs, f) <==> exists i :: 0 <= i < |xs| && f(xs[i]) == Some(y)
    decreases |xs|
  {
    if xs != [] {
      var p, x := xs[..|xs| - 1], xs[|xs| - 1];
      SomesIn(p, f, y);
      if exists i :: 0 <= i < |xs| && f(xs[i]) == Some(y) {
        var i :| 0 <= i < |xs| && f(xs[i]) == Some(y);
        if i < |p| {
          assert f(p[i]) == Some(y);
        }
      }
      if exists i :: 0 <= i < |p| && f(p[i]) == Some(y) {
        var i :| 0 <= i < |p| && f(p[i]) == Some(y);
        assert f(xs[i]) == Some(y);
      }
    }
  }

  /** The key of every element, in order (the image of xs under key). */
  function Keys<T, K>(xs: seq<T>, key: T -> K): seq<K> {
    seq(|xs|, i requires 0 <= i < |xs| => key(xs[i]))
  }

  lemma KeysSnoc<T, K>(xs: seq<T>, x: T, key: T -> K)
    ensures Keys(xs + [x], key) == Keys(xs, key) + [key(x)]
  {
  }

  /** The image of a concatenation is the concatenation of the images. */
  lemma KeysConcat<T, K>(a: seq<T>, b: seq<T>, key: T -> K)
    ensures Keys(a + b, key) == Keys(a, key) + Keys(b, key)
  {
    var l, r := Keys(a + b, key), Keys(a, key) + Keys(b, key);
    forall i | 0 <= i < |l| ensures l[i] == r[i] {
      if i < |a| {
        assert (a + b)[i] == a[i];
      } else {
        assert (a + b)[i] == b[i - |a|];
      }
    }
  }

  /** No two elements share a key. */
  predicate DistinctKeys<T, K(==)>(xs: seq<T>, key: T -> K) {
    forall i, j :: 0 <= i < j < |xs| ==> key(xs[i]) != key(xs[j])
  }

  predicate Distinct<T(==)>(xs: seq<T>) {
    forall i, j :: 0 <= i < j < |xs| ==> xs[i] != xs[j]
  }

  /** Position of the first element whose key is k, or |xs| when there is none. */
  function FirstIndex<T, K(==)>(xs: seq<T>, key: T -> K, k: K): (i: nat)
    ensures i <= |xs|
    ensures i < |xs| <==> k in Keys(xs, key)
    ensures i < |xs| ==> key(xs[i]) == k
    ensures forall j :: 0 <= j < i ==> key(xs[j]) != k
  {
    if xs == [] then 0
    else if key(xs[0]) == k then
      assert Keys(xs, key)[0] == k;
      0
    else
      var i := 1 + FirstIndex(xs[1..], key, k);
      assert i < |xs| ==> Keys(xs, key)[i] == k;
      assert k in Keys(xs, key) ==> k in Keys(xs[1..], key) by {
        if k in Keys(xs, key) {
          var j :| 0 <= j < |xs| && Keys(xs, key)[j] == k;
          assert Keys(xs[1..], key)[j - 1] == k;
        }
      }
      i
  }

  /** The first occurrence of k in xs + [x] is the one in xs, or x itself when xs has none. */
  lemma FirstIndexSnoc<T, K>(xs: seq<T>, x: T, key: T -> K, k: K)
    ensures k in Keys(xs, key) ==> FirstIndex(xs + [x], key, k) == FirstIndex(xs, key, k)
    ensures k !in Keys(xs, key) && key(x) == k ==> FirstIndex(xs + [x], key, k) == |xs|
  {
    var ys := xs + [x];
    var i := FirstIndex(xs, key, k);
    var i' := FirstIndex(ys, key, k);
    if k in Keys(xs, key) {
      assert key(ys[i]) == k;
    } else if key(x) == k {
      assert key(ys[|xs|]) == k;
      assert forall j :: 0 <= j < |xs| ==> Keys(xs, key)[j] != k;
    }
  }

  /** Keep the first element of every key, in order of appearance. */
  function DedupBy<T, K(==)>(xs: seq<T>, key: T -> K): (d: seq<T>)
    ensures |d| <= |xs|
    decreases |xs|
  {
    if xs == [] then []
    else
      var d := DedupBy(xs[..|xs| - 1], key);
      if key(xs[|xs| - 1]) in Keys(d, key) then d else d + [xs[|xs| - 1]]
  }

  /** The result has one element per key, and exactly the keys of the input. */
  lemma {:induction false} DedupKeys<T, K>(xs: seq<T>, key: T -> K)
    ensures DistinctKeys(DedupBy(xs, key), key)
    ensures forall k :: k in Keys(DedupBy(xs, key), key) <==> k in Keys(xs, key)
    decreases |xs|
  {
    if xs != [] {
      var p, x := xs[..|xs| - 1], xs[|xs| - 1];
      assert xs == p + [x];
      DedupKeys(p, key);
      KeysSnoc(p, x, key);
      var d := DedupBy(p, key);
      if key(x) !in Keys(d, key) {
        KeysSnoc(d, x, key);
        forall i | 0 <= i < |d| ensures key(d[i]) != key(x) {
          assert Keys(d, key)[i] == key(d[i]);
        }
      }
    }
  }

  lemma DedupKeyIn<T, K>(xs: seq<T>, key: T -> K, k: K)
    ensures k in Keys(DedupBy(xs, key), key) <==> k in Keys(xs, key)
  {
    DedupKeys(xs, key);
  }

  /** Each kept element is the first element of the input with its key. */
  lemma {:induction false} DedupFirst<T, K>(xs: seq<T>, key: T -> K)
    ensures forall a :: 0 <= a < |DedupBy(xs, key)| ==>
      var k := key(DedupBy(xs, key)[a]);
      FirstIndex(xs, key, k) < |xs| && DedupBy(xs, key)[a] == xs[FirstIndex(xs, key, k)]
    decreases |xs|
  {
    if xs != [] {
      var p, x := xs[..|xs| - 1], xs[|xs| - 1];
      assert xs == p + [x];
      DedupFirst(p, key);
      DedupKeys(p, key);
      var d := DedupBy(p, key);
      forall a | 0 <= a < |d|
        ensures FirstIndex(xs, key, key(d[a])) < |xs| && d[a] == xs[FirstIndex(xs, key, key(d[a]))]
      {
        assert Keys(d, key)[a] == key(d[a]);
        assert key(d[a]) in Keys(d, key);
        DedupKeyIn(p, key, key(d[a]));
        FirstIndexSnoc(p, x, key, key(d[a]));
      }
      if key(x) !in Keys(d, key) {
        DedupKeyIn(p, key, key(x));
        FirstIndexSnoc(p, x, key, key(x));
        var d' := d + [x];
        forall a | 0 <= a < |d'|
          ensures FirstIndex(xs, key, key(d'[a])) < |xs| && d'[a] == xs[FirstIndex(xs, key, key(d'[a]))]
        {
          if a < |d| {
            assert d'[a] == d[a];
          } else {
            assert d'[a] == x;
          }
        }
      }
    }
  }

  /** Kept elements appear in the order in which their keys first appear. */
  lemma {:induction false} DedupOrder<T, K>(xs: seq<T>, key: T -> K)
    ensures forall a, b :: 0 <= a < b < |DedupBy(xs, key)| ==>
      FirstIndex(xs, key, key(DedupBy(xs, key)[a])) < FirstIndex(xs, key, key(DedupBy(xs, key)[b]))
    decreases |xs|
  {
    if xs != [] {
      var p, x := xs[..|xs| - 1], xs[|xs| - 1];
      assert xs == p + [x];
      DedupOrder(p, key);
      DedupKeys(p, key);
      var d := DedupBy(p, key);
      forall a | 0 <= a < |d|
        ensures FirstIndex(xs, key, key(d[a])) == FirstIndex(p, key, key(d[a])) < |p|
      {
        assert Keys(d, key)[a] == key(d[a]);
        assert key(d[a]) in Keys(d, key);
        DedupKeyIn(p, key, key(d[a]));
        FirstIndexSnoc(p, x, key, key(d[a]));
      }
      if key(x) !in Keys(d, key) {
        DedupKeyIn(p, key, key(x));
        FirstIndexSnoc(p, x, key, key(x));
        var d' := d + [x];
        forall a, b | 0 <= a < b < |d'|
          ensures FirstIndex(xs, key, key(d'[a])) < FirstIndex(xs, key, key(d'[b]))
        {
          if b < |d| {
            assert d'[a] == d[a] && d'[b] == d[b];
          } else {
            assert d'[a] == d[a] && d'[b] == x;
          }
        }
      }
    }
  }

  /** Deduplicating a rearrangement ys of xs: every key of xs is kept exactly once,
      on an element of xs. */
  lemma DedupPermutation<T, K>(xs: seq<T>, ys: seq<T>, key: T -> K, k: K)
    requires multiset(ys) == multiset(xs)
    ensures DistinctKeys(DedupBy(ys, key), key)
    ensures k in Keys(DedupBy(ys, key), key) <==> k in Keys(xs, key)
    ensures forall a :: 0 <= a < |DedupBy(ys, key)| ==> DedupBy(ys, key)[a] in xs
  {
    DedupKeys(ys, key);
    DedupKeyIn(ys, key, k);
    DedupFirst(ys, key);
    assert forall r :: r in ys <==> r in xs by {
      assert forall r :: r in ys <==> r in multiset(ys);
      assert forall r :: r in xs <==> r in multiset(xs);
    }
    if k in Keys(xs, key) {
      var j :| 0 <= j < |xs| && Keys(xs, key)[j] == k;
      assert xs[j] in ys;
      var q :| 0 <= q < |ys| && ys[q] == xs[j];
      assert Keys(ys, key)[q] == k;
    }
    if k in Keys(ys, key) {
      var q :| 0 <= q < |ys| && Keys(ys, key)[q] == k;
      assert ys[q] in xs;
      var j :| 0 <= j < |xs| && xs[j] == ys[q];
      assert Keys(xs, key)[j] == k;
    }
  }

  /** One more element through f and then first-of-each-key: a new key adds its value,
      an old key or no value changes nothing. */
  lemma DedupSomesStep<A, B, K>(xs: seq<A>, i: nat, f: A -> Option<B>, key: B -> K)
    requires i < |xs|
    ensures var d := DedupBy(Somes(xs[..i], f), key);
      DedupBy(Somes(xs[..i + 1], f), key)
        == if f(xs[i]).Some? && key(f(xs[i]).value) !in Keys(d, key) then d + [f(xs[i]).value] else d
  {
    var before := Somes(xs[..i], f);
    assert xs[..i + 1] == xs[..i] + [xs[i]];
    SomesConcat(xs[..i], [xs[i]], f);
    assert [xs[i]][..0] == [];
    if f(xs[i]).Some? {
      var after := before + [f(xs[i]).value];
      assert Somes(xs[..i + 1], f) == after;
      assert after[..|before|] == before;
    } else {
      assert Somes(xs[..i + 1], f) == before;
    }
  }

  /** The set of the keys of xs. */
  function KeySet<T, K>(xs: seq<T>, key: T -> K): set<K> {
    set k | k in Keys(xs, key)
  }

  lemma KeySetSnoc<T, K>(xs: seq<T>, x: T, key: T -> K)
    ensures KeySet(xs + [x], key) == KeySet(xs, key) + {key(x)}
  {
    KeysSnoc(xs, x, key);
  }

  /** The loop form of DedupSomesStep: a set `seen` of the keys kept so far decides
      whether the next value is new. */
  lemma DedupSeenStep<A, B, K>(xs: seq<A>, i: nat, f: A -> Option<B>, key: B -> K,
                               kept: seq<B>, seen: set<K>, k: K)
    requires i < |xs| && kept == DedupBy(Somes(xs[..i], f), key) && seen == KeySet(kept, key)
    requires f(xs[i]).Some? ==> key(f(xs[i]).value) == k
    ensures k in seen || f(xs[i]).None? ==> kept == DedupBy(Somes(xs[..i + 1], f), key)
    ensures !(k in seen || f(xs[i]).None?) ==>
      kept + [f(xs[i]).value] == DedupBy(Somes(xs[..i + 1], f), key) &&
      seen + {k} == KeySet(kept + [f(xs[i]).value], key)
  {
    DedupSomesStep(xs, i, f, key);
    if f(xs[i]).Some? {
      KeySetSnoc(kept, f(xs[i]).value, key);
    }
  }

  /** An element for which f gives nothing can be removed without changing the values. */
  lemma SomesSkipNone<A, B>(xs: seq<A>, i: nat, f: A -> Option<B>)
    requires i < |xs| && f(xs[i]).None?
    ensures Somes(xs, f) == Somes(xs[..i] + xs[i + 1..], f)
  {
    SplitAt(xs, i);
    SomesDropMiddle(xs[..i], xs[i], xs[i + 1..], f);
  }

  lemma SplitAt<T>(xs: seq<T>, i: nat)
    requires i < |xs|
    ensures xs == xs[..i] + [xs[i]] + xs[i + 1..]
  {
  }

  lemma SomesDropMiddle<A, B>(p: seq<A>, x: A, q: seq<A>, f: A -> Option<B>)
    requires f(x).None?
    ensures Somes(p + [x] + q, f) == Somes(p + q, f)
  {
    SomesConcat(p + [x], q, f);
    assert Somes(p + [x], f) == Somes(p, f) by {
      assert (p + [x])[..|p|] == p;
    }
    SomesConcat(p, q, f);
  }

  /** The keys kept are the keys of the values f gives. */
  lemma DedupSomesKeys<A, B, K>(xs: seq<A>, f: A -> Option<B>, key: B -> K, k: K)
    ensures k in Keys(DedupBy(Somes(xs, f), key), key) <==>
      exists i :: 0 <= i < |xs| && f(xs[i]).Some? && key(f(xs[i]).value) == k
  {
    var ys := Somes(xs, f);
    DedupKeyIn(ys, key, k);
    if k in Keys(ys, key) {
      var a :| 0 <= a < |ys| && Keys(ys, key)[a] == k;
      SomesIn(xs, f, ys[a]);
    }
    if exists i :: 0 <= i < |xs| && f(xs[i]).Some? && key(f(xs[i]).value) == k {
      var i :| 0 <= i < |xs| && f(xs[i]).Some? && key(f(xs[i]).value) == k;
      SomesIn(xs, f, f(xs[i]).value);
      var a :| 0 <= a < |ys| && ys[a] == f(xs[i]).value;
      assert Keys(ys, key)[a] == k;
    }
  }

  /** Dropping duplicates keeps a sequence sorted: the result is a subsequence. */
  lemma {:induction false} DedupSorted<T, K>(xs: seq<T>, key: T -> K, score: T -> int)
    requires SortedDesc(xs, score)
    ensures SortedDesc(DedupBy(xs, key), score)
    decreases |xs|
  {
    if xs != [] {
      var p, x := xs[..|xs| - 1], xs[|xs| - 1];
      assert SortedDesc(p, score);
      DedupSorted(p, key, score);
      var d := DedupBy(p, key);
      if key(x) !in Keys(d, key) {
        DedupFirst(p, key);
        var d' := d + [x];
        forall i, j | 0 <= i < j < |d'| ensures score(d'[i]) >= score(d'[j]) {
          if j == |d| {
            var q := FirstIndex(p, key, key(d[i]));
            assert d'[i] == p[q] == xs[q];
          }
        }
      }
    }
  }

  /** In a sequence sorted by descending score, the element kept for a key scores at least
      as high as every element with that key. */
  lemma DedupKeepsBest<T, K>(xs: seq<T>, key: T -> K, score: T -> int)
    requires SortedDesc(xs, score)
    ensures forall a, j ::
      (0 <= a < |DedupBy(xs, key)| && 0 <= j < |xs| && key(xs[j]) == key(DedupBy(xs, key)[a]))
      ==> score(DedupBy(xs, key)[a]) >= score(xs[j])
  {
    var d := DedupBy(xs, key);
    DedupFirst(xs, key);
    forall a, j | 0 <= a < |d| && 0 <= j < |xs| && key(xs[j]) == key(d[a])
      ensures score(d[a]) >= score(xs[j])
    {
      var q := FirstIndex(xs, key, key(d[a]));
      assert q <= j;
    }
  }

  /** Every score of an earlier element is at least every score of a later one. */
  predicate SortedDesc<T>(xs: seq<T>, score: T -> int) {
    forall i, j :: 0 <= i < j < |xs| ==> score(xs[i]) >= score(xs[j])
  }

  /** Insert x after every element that scores at least as high as x. */
  function InsertDesc<T>(x: T, ys: seq<T>, score: T -> int): seq<T>
    decreases |ys|
  {
    if ys == [] then [x]
    else if score(ys[0]) >= score(x) then [ys[0]] + InsertDesc(x, ys[1..], score)
    else [x] + ys
  }

  /** Inserting into a sorted sequence keeps it sorted; the result starts with x or with
      the old first element. */
  lemma {:induction false} InsertDescSorted<T>(x: T, ys: seq<T>, score: T -> int)
    requires SortedDesc(ys, score)
    ensures SortedDesc(InsertDesc(x, ys, score), score)
    ensures InsertDesc(x, ys, score)[0] == x || (ys != [] && InsertDesc(x, ys, score)[0] == ys[0])
    decreases |ys|
  {
    if ys != [] {
      if score(ys[0]) >= score(x) {
        SortedTail(ys, score);
        InsertDescSorted(x, ys[1..], score);
        ConsSorted(ys[0], InsertDesc(x, ys[1..], score), score);
      } else {
        ConsSorted(x, ys, score);
      }
    }
  }

  /** Inserting adds exactly x. */
  lemma {:induction false} InsertDescCount<T>(x: T, ys: seq<T>, score: T -> int)
    ensures multiset(InsertDesc(x, ys, score)) == multiset(ys) + multiset{x}
    ensures |InsertDesc(x, ys, score)| == |ys| + 1
    decreases |ys|
  {
    if ys != [] && score(ys[0]) >= score(x) {
      InsertDescCount(x, ys[1..], score);
      assert ys == [ys[0]] + ys[1..];
    }
  }

  /** The tail of a sorted sequence is sorted, and the head scores at least as high as
      the tail's first element. */
  lemma SortedTail<T>(ys: seq<T>, score: T -> int)
    requires ys != [] && SortedDesc(ys, score)
    ensures SortedDesc(ys[1..], score)
    ensures |ys| > 1 ==> score(ys[0]) >= score(ys[1..][0])
  {
    var t := ys[1..];
    forall i, j | 0 <= i < j < |t| ensures score(t[i]) >= score(t[j]) {
      assert t[i] == ys[i + 1] && t[j] == ys[j + 1];
    }
  }

  /** A head that scores at least as high as the first element keeps a sorted sequence sorted. */
  lemma ConsSorted<T>(h: T, xs: seq<T>, score: T -> int)
    requires SortedDesc(xs, score)
    requires xs != [] ==> score(h) >= score(xs[0])
    ensures SortedDesc([h] + xs, score)
  {
    var r := [h] + xs;
    forall i, j | 0 <= i < j < |r| ensures score(r[i]) >= score(r[j]) {
      if i == 0 && j > 1 {
        assert score(xs[0]) >= score(xs[j - 1]);
      }
    }
  }

  /** Stable sort by descending score: insertion sort that keeps equal scores in input order. */
  function SortDesc<T(==)>(xs: seq<T>, score: T -> int): (r: seq<T>)
    ensures SortedDesc(r, score)
    ensures multiset(r) == multiset(xs)
    decreases |xs|
  {
    if xs == [] then []
    else
      var p, x := xs[..|xs| - 1], xs[|xs| - 1];
      assert xs == p + [x];
      InsertDescSorted(x, SortDesc(p, score), score);
      InsertDescCount(x, SortDesc(p, score), score);
      InsertDesc(x, SortDesc(p, score), score)
  }

  lemma {:induction false} InsertDistinct<T>(x: T, ys: seq<T>, score: T -> int)
    requires Distinct(ys) && x !in ys
    ensures Distinct(InsertDesc(x, ys, score))
    decreases |ys|
  {
    if ys != [] && score(ys[0]) >= score(x) {
      InsertDistinct(x, ys[1..], score);
      InsertDescCount(x, ys[1..], score);
      var rest := InsertDesc(x, ys[1..], score);
      assert ys == [ys[0]] + ys[1..];
      assert ys[0] !in multiset(rest);
    }
  }

  /** Sorting a sequence without repetitions gives one without repetitions. */
  lemma {:induction false} SortDistinct<T>(xs: seq<T>, score: T -> int)
    requires Distinct(xs)
    ensures Distinct(SortDesc(xs, score))
    decreases |xs|
  {
    if xs != [] {
      var p, x := xs[..|xs| - 1], xs[|xs| - 1];
      assert Distinct(p);
      SortDistinct(p, score);
      assert x !in p;
      assert x !in multiset(SortDesc(p, score));
      InsertDistinct(x, SortDesc(p, score), score);
    }
  }

  /** The number of true flags. */
  function CountTrue(bs: seq<bool>): nat
  {
    if bs == [] then 0 else CountTrue(bs[..|bs| - 1]) + (if bs[|bs| - 1] then 1 else 0)
  }

  /** Counting one more flag. */
  lemma CountTrueSnoc(bs: seq<bool>, i: nat)
    requires i < |bs|
    ensures CountTrue(bs[..i + 1]) == CountTrue(bs[..i]) + (if bs[i] then 1 else 0)
  {
    assert bs[..i + 1][..i] == bs[..i];
  }

  /** The count is at most the number of flags; it equals it exactly when every flag is
      set, and is 0 exactly when none is. */
  lemma {:induction false} CountTrueBounds(bs: seq<bool>)
    ensures CountTrue(bs) <= |bs|
    ensures CountTrue(bs) == |bs| <==> forall i :: 0 <= i < |bs| ==> bs[i]
    ensures CountTrue(bs) == 0 <==> forall i :: 0 <= i < |bs| ==> !bs[i]
    decreases |bs|
  {
    if bs != [] {
      var p := bs[..|bs| - 1];
      CountTrueBounds(p);
      assert forall i :: 0 <= i < |p| ==> p[i] == bs[i];
    }
  }

  /** Setting more flags never lowers the count. */
  lemma {:induction false} CountTrueMonotone(a: seq<bool>, b: seq<bool>)
    requires |a| == |b| && forall i :: 0 <= i < |a| && a[i] ==> b[i]
    ensures CountTrue(a) <= CountTrue(b)
    decreases |a|
  {
    if a != [] {
      var a', b' := a[..|a| - 1], b[..|b| - 1];
      assert forall i :: 0 <= i < |a'| ==> a'[i] == a[i] && b'[i] == b[i];
      CountTrueMonotone(a', b');
    }
  }
}
