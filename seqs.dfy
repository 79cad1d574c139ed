/** Array operations the core uses: `filter`, `some`, occurrence counting and the
    stable descending `sort` that the corpus and the counters apply. */
module Seqs {

  /** `a` is `b` with some elements left out, the rest in their order. */
  predicate IsSubsequence<T(==)>(a: seq<T>, b: seq<T>)
    decreases |b|
  {
    if a == [] then true
    else if b == [] then false
    else (a[0] == b[0] && IsSubsequence(a[1..], b[1..])) || IsSubsequence(a, b[1..])
  }

  /** `xs.some(p)` */
  predicate Any<T>(xs: seq<T>, p: T -> bool) {
    exists i | 0 <= i < |xs| :: p(xs[i])
  }

  /** The predicate `x => !p(x)`. */
  function Not<T(!new)>(p: T -> bool): (q: T -> bool)
    ensures forall x :: q(x) == !p(x)
  {
    x => !p(x)
  }

  /** The predicate `y => y !== x`. */
  function Except<T(!new,==)>(x: T): (q: T -> bool)
    ensures forall y :: q(y) == (y != x)
  {
    y => y != x
  }

  /** Filtering a list extended by one element extends the filtered list by that
      element exactly when the filter keeps it. */
  lemma {:induction false} FilterAppend<T(!new)>(xs: seq<T>, x: T, p: T -> bool)
    ensures Filter(xs + [x], p) == Filter(xs, p) + (if p(x) then [x] else [])
  {
    if xs == [] {
      assert [x][1..] == [];
    } else {
      assert (xs + [x])[1..] == xs[1..] + [x];
      FilterAppend(xs[1..], x, p);
    }
  }

  /** Filters that agree on every element give the same result. */
  lemma {:induction false} FilterAgree<T(!new)>(xs: seq<T>, p: T -> bool, q: T -> bool)
    requires forall i :: 0 <= i < |xs| ==> p(xs[i]) == q(xs[i])
    ensures Filter(xs, p) == Filter(xs, q)
  {
    if xs != [] {
      assert forall i :: 0 <= i < |xs[1..]| ==> xs[1..][i] == xs[i + 1];
      FilterAgree(xs[1..], p, q);
    }
  }

  lemma {:induction false} FilterKeepsAll<T(!new)>(xs: seq<T>, p: T -> bool)
    requires forall i :: 0 <= i < |xs| ==> p(xs[i])
    ensures Filter(xs, p) == xs
  {
    if xs != [] {
      FilterKeepsAll(xs[1..], p);
    }
  }

  /** `xs.filter(p)`: exactly the elements that satisfy `p`, in their order. */
  function Filter<T(!new)>(xs: seq<T>, p: T -> bool): (r: seq<T>)
    ensures |r| <= |xs|
    ensures forall i :: 0 <= i < |r| ==> p(r[i])
    ensures forall x :: x in r <==> x in xs && p(x)
    ensures IsSubsequence(r, xs)
    ensures |r| == |xs| <==> forall i :: 0 <= i < |xs| ==> p(xs[i])
  {
    if xs == [] then []
    else
      var tail := Filter(xs[1..], p);
      assert forall x :: x in xs <==> x == xs[0] || x in xs[1..];
      assert forall i :: 1 <= i < |xs| ==> xs[i] == xs[1..][i - 1];
      if p(xs[0]) then [xs[0]] + tail else tail
  }

  lemma {:induction false} FilterDistinct<T(!new)>(xs: seq<T>, p: T -> bool)
    requires Distinct(xs)
    ensures Distinct(Filter(xs, p))
  {
    if xs != [] {
      assert Distinct(xs[1..]) by {
        forall i, j | 0 <= i < j < |xs[1..]| ensures xs[1..][i] != xs[1..][j] {
          assert xs[1..][i] == xs[i + 1] && xs[1..][j] == xs[j + 1];
        }
      }
      FilterDistinct(xs[1..], p);
      var tail := Filter(xs[1..], p);
      if p(xs[0]) {
        assert xs[0] !in xs[1..] by {
          forall k | 0 <= k < |xs[1..]| ensures xs[1..][k] != xs[0] {
            assert xs[1..][k] == xs[k + 1];
          }
        }
        forall i, j | 0 <= i < j < |tail| + 1 ensures ([xs[0]] + tail)[i] != ([xs[0]] + tail)[j] {
          assert ([xs[0]] + tail)[j] == tail[j - 1];
          if i > 0 {
            assert ([xs[0]] + tail)[i] == tail[i - 1];
          } else {
            assert tail[j - 1] in tail;
          }
        }
      }
    }
  }

  /** `f` applied to each element that satisfies `p`, in order: a loop that pushes
      `f(x)` for every `x` it keeps. */
  function MapKept<T(!new), U>(xs: seq<T>, p: T -> bool, f: T --> U): seq<U>
    requires forall x :: p(x) ==> f.requires(x)
  {
    if xs == [] then []
    else
      var last := xs[|xs| - 1];
      MapKept(xs[..|xs| - 1], p, f) + (if p(last) then [f(last)] else [])
  }

  /** `MapKept` is `xs.filter(p).map(f)`. */
  lemma {:induction false} MapKeptIsMapOfFilter<T(!new), U>(xs: seq<T>, p: T -> bool, f: T --> U)
    requires forall x :: p(x) ==> f.requires(x)
    ensures |MapKept(xs, p, f)| == |Filter(xs, p)|
    ensures forall k :: 0 <= k < |MapKept(xs, p, f)| ==> MapKept(xs, p, f)[k] == f(Filter(xs, p)[k])
  {
    if xs != [] {
      var init := xs[..|xs| - 1];
      var last := xs[|xs| - 1];
      MapKeptIsMapOfFilter(init, p, f);
      assert xs == init + [last];
      FilterAppend(init, last, p);
    }
  }

  /** Every element stands in relation `before` to every later one. */
  predicate Pairwise<T>(xs: seq<T>, before: (T, T) -> bool) {
    forall i, j :: 0 <= i < j < |xs| ==> before(xs[i], xs[j])
  }

  lemma {:induction false} FilterPairwise<T(!new)>(xs: seq<T>, p: T -> bool, before: (T, T) -> bool)
    requires Pairwise(xs, before)
    ensures Pairwise(Filter(xs, p), before)
  {
    if xs != [] {
      assert Pairwise(xs[1..], before) by {
        forall i, j | 0 <= i < j < |xs[1..]| ensures before(xs[1..][i], xs[1..][j]) {
          assert xs[1..][i] == xs[i + 1] && xs[1..][j] == xs[j + 1];
        }
      }
      FilterPairwise(xs[1..], p, before);
      var tail := Filter(xs[1..], p);
      if p(xs[0]) {
        forall i, j | 0 <= i < j < |tail| + 1 ensures before(([xs[0]] + tail)[i], ([xs[0]] + tail)[j]) {
          assert ([xs[0]] + tail)[j] == tail[j - 1];
          if i > 0 {
            assert ([xs[0]] + tail)[i] == tail[i - 1];
          } else {
            assert tail[j - 1] in xs[1..];
            var k :| 0 <= k < |xs[1..]| && xs[1..][k] == tail[j - 1];
            assert xs[k + 1] == tail[j - 1];
          }
        }
      }
    }
  }

  /** `xs.slice(0, end)`: a negative `end` counts back from the end of `xs`. */
  function Slice<T>(xs: seq<T>, end: int): (r: seq<T>)
    ensures |r| <= |xs| && r == xs[..|r|]
    ensures 0 <= end ==> |r| == if end < |xs| then end else |xs|
    ensures end < 0 ==> |r| == if |xs| + end < 0 then 0 else |xs| + end
  {
    if end < 0 then xs[..if |xs| + end < 0 then 0 else |xs| + end]
    else if end < |xs| then xs[..end]
    else xs
  }

  /** A prefix of a list keeps the order of its elements. */
  lemma PrefixPairwise<T>(xs: seq<T>, n: nat, before: (T, T) -> bool)
    requires n <= |xs| && Pairwise(xs, before)
    ensures Pairwise(xs[..n], before)
  {
    assert forall i :: 0 <= i < n ==> xs[..n][i] == xs[i];
  }

  /** The sum of `f` over the elements. */
  function SumOf<T>(xs: seq<T>, f: T -> nat): nat {
    if xs == [] then 0 else SumOf(xs[..|xs| - 1], f) + f(xs[|xs| - 1])
  }

  lemma {:induction false} SumOfZeroIff<T>(xs: seq<T>, f: T -> nat)
    ensures SumOf(xs, f) == 0 <==> forall i :: 0 <= i < |xs| ==> f(xs[i]) == 0
  {
    if xs != [] {
      var init := xs[..|xs| - 1];
      SumOfZeroIff(init, f);
      assert forall i :: 0 <= i < |init| ==> init[i] == xs[i];
    }
  }

  /** Number of occurrences of `x` in `xs`. */
  function Count<T(==)>(xs: seq<T>, x: T): nat
  {
    if xs == [] then 0 else Count(xs[..|xs| - 1], x) + (if xs[|xs| - 1] == x then 1 else 0)
  }

  lemma CountAppend<T>(xs: seq<T>, y: T, x: T)
    ensures Count(xs + [y], x) == Count(xs, x) + (if y == x then 1 else 0)
  {
    assert (xs + [y])[..|xs|] == xs;
  }

  /** Filtering keeps every occurrence of an element that satisfies `p` and none of one
      that does not. */
  lemma {:induction false} FilterCount<T(!new)>(xs: seq<T>, p: T -> bool, x: T)
    ensures Count(Filter(xs, p), x) == if p(x) then Count(xs, x) else 0
  {
    if xs != [] {
      var init, last := xs[..|xs| - 1], xs[|xs| - 1];
      assert init + [last] == xs;
      FilterAppend(init, last, p);
      FilterCount(init, p, x);
      var kept := Filter(init, p);
      if p(last) {
        assert Filter(xs, p) == kept + [last];
        CountAppend(kept, last, x);
      } else {
        assert Filter(xs, p) == kept + [] == kept;
      }
      assert Count(xs, x) == Count(init, x) + (if last == x then 1 else 0);
    }
  }

  lemma {:induction false} CountPositive<T>(xs: seq<T>, x: T)
    ensures Count(xs, x) > 0 <==> x in xs
  {
    if xs != [] {
      CountPositive(xs[..|xs| - 1], x);
      assert xs == xs[..|xs| - 1] + [xs[|xs| - 1]];
    }
  }

  /** No element occurs twice. */
  predicate Distinct<T(==)>(xs: seq<T>) {
    forall i, j :: 0 <= i < j < |xs| ==> xs[i] != xs[j]
  }

  lemma {:induction false} DistinctMultiplicity<T>(xs: seq<T>, x: T)
    requires Distinct(xs)
    ensures multiset(xs)[x] <= 1
  {
    if xs != [] {
      assert Distinct(xs[1..]) by {
        forall i, j | 0 <= i < j < |xs[1..]| ensures xs[1..][i] != xs[1..][j] {
          assert xs[1..][i] == xs[i + 1] && xs[1..][j] == xs[j + 1];
        }
      }
      DistinctMultiplicity(xs[1..], x);
      assert xs == [xs[0]] + xs[1..];
      if x == xs[0] {
        assert x !in xs[1..] by {
          forall k | 0 <= k < |xs[1..]| ensures xs[1..][k] != x {
            assert xs[1..][k] == xs[k + 1];
          }
        }
      }
    }
  }

  /** A rearrangement of a sequence without repetitions has none either. */
  lemma DistinctPermutation<T>(a: seq<T>, b: seq<T>)
    requires multiset(a) == multiset(b)
    requires Distinct(a)
    ensures Distinct(b)
  {
    forall i, j | 0 <= i < j < |b| ensures b[i] != b[j] {
      if b[i] == b[j] {
        var x := b[i];
        assert b == b[..j] + [b[j]] + b[j + 1..];
        assert x in b[..j];
        assert multiset(b)[x] >= 2 by {
          assert multiset(b) == multiset(b[..j]) + multiset{x} + multiset(b[j + 1..]);
        }
        DistinctMultiplicity(a, x);
      }
    }
  }

  /** A rearrangement has the same elements. */
  lemma PermutationMembers<T>(a: seq<T>, b: seq<T>)
    requires multiset(a) == multiset(b)
    ensures forall x :: x in a <==> x in b
  {
    forall x ensures x in a <==> x in b {
      assert x in a <==> x in multiset(a);
      assert x in b <==> x in multiset(b);
    }
  }

  /** The elements of `xs` are in non-increasing order of `key`. */
  predicate SortedDesc<T>(xs: seq<T>, key: T -> int) {
    forall i, j :: 0 <= i < j < |xs| ==> key(xs[j]) <= key(xs[i])
  }

  /** An element whose key is at least every key of a sorted list can go in front. */
  lemma ConsSortedDesc<T>(y: T, xs: seq<T>, key: T -> int)
    requires SortedDesc(xs, key)
    requires forall i :: 0 <= i < |xs| ==> key(xs[i]) <= key(y)
    ensures SortedDesc([y] + xs, key)
  {
    forall i, j | 0 <= i < j < |xs| + 1 ensures key(([y] + xs)[j]) <= key(([y] + xs)[i]) {
      assert ([y] + xs)[j] == xs[j - 1];
      if i > 0 {
        assert ([y] + xs)[i] == xs[i - 1];
      }
    }
  }

  lemma TailSortedDesc<T>(xs: seq<T>, key: T -> int)
    requires xs != [] && SortedDesc(xs, key)
    ensures SortedDesc(xs[1..], key)
    ensures forall i :: 0 <= i < |xs[1..]| ==> key(xs[1..][i]) <= key(xs[0])
  {
    forall i, j | 0 <= i < j < |xs[1..]| ensures key(xs[1..][j]) <= key(xs[1..][i]) {
      assert xs[1..][i] == xs[i + 1] && xs[1..][j] == xs[j + 1];
    }
    assert forall i :: 0 <= i < |xs[1..]| ==> xs[1..][i] == xs[i + 1];
  }

  /** Places `x` before the first element whose key is not greater than its own. */
  function Insert<T(!new)>(x: T, xs: seq<T>, key: T -> int): (r: seq<T>)
    ensures multiset(r) == multiset(xs) + multiset{x}
    ensures |r| == |xs| + 1
    ensures SortedDesc(xs, key) ==> SortedDesc(r, key)
  {
    if xs == [] then [x]
    else if key(xs[0]) <= key(x) then
      assert SortedDesc(xs, key) ==> SortedDesc([x] + xs, key) by {
        if SortedDesc(xs, key) {
          TailSortedDesc(xs, key);
          ConsSortedDesc(x, xs, key);
        }
      }
      [x] + xs
    else
      var tail := Insert(x, xs[1..], key);
      assert xs == [xs[0]] + xs[1..];
      assert SortedDesc(xs, key) ==> SortedDesc([xs[0]] + tail, key) by {
        if SortedDesc(xs, key) {
          TailSortedDesc(xs, key);
          assert forall i :: 0 <= i < |tail| ==> key(tail[i]) <= key(xs[0]) by {
            forall i | 0 <= i < |tail| ensures key(tail[i]) <= key(xs[0]) {
              var y := tail[i];
              assert y in multiset(tail);
              if y != x {
                assert y in multiset(xs[1..]);
                var k :| 0 <= k < |xs[1..]| && xs[1..][k] == y;
              }
            }
          }
          ConsSortedDesc(xs[0], tail, key);
        }
      }
      [xs[0]] + tail
  }

  /** `xs.sort((a, b) => key(b) - key(a))`: an insertion sort into non-increasing key order. */
  function SortDesc<T(!new)>(xs: seq<T>, key: T -> int): (r: seq<T>)
    ensures multiset(r) == multiset(xs)
    ensures |r| == |xs|
    ensures SortedDesc(r, key)
  {
    if xs == [] then []
    else
      var tail := SortDesc(xs[1..], key);
      assert xs == [xs[0]] + xs[1..];
      Insert(xs[0], tail, key)
  }

  /** The predicate `y => key(y) === k`. */
  function KeyIs<T(!new)>(key: T -> int, k: int): (q: T -> bool)
    ensures forall y :: q(y) == (key(y) == k)
  {
    y => key(y) == k
  }

  lemma FilterCons<T(!new)>(y: T, ys: seq<T>, p: T -> bool)
    ensures Filter([y] + ys, p) == (if p(y) then [y] else []) + Filter(ys, p)
  {
    assert ([y] + ys)[1..] == ys;
  }

  /** Inserting `x` puts it ahead of every element already present with the same key. */
  lemma {:induction false} InsertTies<T(!new)>(x: T, xs: seq<T>, key: T -> int, k: int)
    ensures Filter(Insert(x, xs, key), KeyIs(key, k)) == (if key(x) == k then [x] else []) + Filter(xs, KeyIs(key, k))
  {
    var p := KeyIs(key, k);
    if xs == [] {
      FilterCons(x, xs, p);
    } else if key(xs[0]) <= key(x) {
      FilterCons(x, xs, p);
    } else {
      var tail := Insert(x, xs[1..], key);
      assert Insert(x, xs, key) == [xs[0]] + tail;
      InsertTies(x, xs[1..], key, k);
      FilterCons(xs[0], tail, p);
      FilterCons(xs[0], xs[1..], p);
      assert [xs[0]] + xs[1..] == xs;
    }
  }

  /** The sort is stable: the elements of one key keep their relative order. */
  lemma {:induction false} SortDescStable<T(!new)>(xs: seq<T>, key: T -> int, k: int)
    ensures Filter(SortDesc(xs, key), KeyIs(key, k)) == Filter(xs, KeyIs(key, k))
  {
    if xs != [] {
      SortDescStable(xs[1..], key, k);
      InsertTies(xs[0], SortDesc(xs[1..], key), key, k);
    }
  }

  /** `seen` followed by each element of `xs` that is neither in `seen` nor earlier in
      `xs`, at the place where it first occurs. */
  function AppendNew<T(==)>(seen: seq<T>, xs: seq<T>): seq<T>
    decreases |xs|
  {
    if xs == [] then seen
    else
      var before := AppendNew(seen, xs[..|xs| - 1]);
      if xs[|xs| - 1] in before then before else before + [xs[|xs| - 1]]
  }

  /** Appending a run of elements is appending its halves one after the other. */
  lemma {:induction false} AppendNewAppend<T>(seen: seq<T>, a: seq<T>, b: seq<T>)
    ensures AppendNew(seen, a + b) == AppendNew(AppendNew(seen, a), b)
    decreases |b|
  {
    if b == [] {
      assert a + b == a;
    } else {
      var init := b[..|b| - 1];
      assert (a + b)[..|a + b| - 1] == a + init;
      assert (a + b)[|a + b| - 1] == b[|b| - 1];
      AppendNewAppend(seen, a, init);
    }
  }

  /** `seen` stays in front; the result holds each element of `seen` and `xs`, once
      when `seen` has no repeats. */
  lemma {:induction false} AppendNewMembers<T>(seen: seq<T>, xs: seq<T>)
    ensures var r := AppendNew(seen, xs);
      && |seen| <= |r| && r[..|seen|] == seen
      && (forall x :: x in r <==> x in seen || x in xs)
      && (Distinct(seen) ==> Distinct(r))
    decreases |xs|
  {
    if xs != [] {
      var init := xs[..|xs| - 1];
      var x := xs[|xs| - 1];
      var before := AppendNew(seen, init);
      AppendNewMembers(seen, init);
      assert xs == init + [x];
      if x !in before {
        assert (before + [x])[..|seen|] == before[..|seen|];
        if Distinct(seen) {
          forall k, l | 0 <= k < l < |before| + 1 ensures (before + [x])[k] != (before + [x])[l] {
            assert (before + [x])[k] == before[k];
            if l < |before| {
              assert (before + [x])[l] == before[l];
            }
          }
        }
      }
    }
  }
}
