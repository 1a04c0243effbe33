/**
 * Generic sequence operations the keyword engine is built from: the
 * order-preserving filter behind `Array.prototype.filter`, the prefix behind
 * `slice(0, n)`, and the first-occurrence de-duplication behind
 * `[...new Set(xs)]`.
 */
module Seqs {

  /** The elements of `xs` satisfying `f`, in their original order. */
  function Filter<T(!new)>(f: T -> bool, xs: seq<T>): (r: seq<T>)
    ensures |r| <= |xs|
    ensures forall i :: 0 <= i < |r| ==> f(r[i])
    ensures forall x :: x in r <==> x in xs && f(x)
  {
    if |xs| == 0 then []
    else (if f(xs[0]) then [xs[0]] else []) + Filter(f, xs[1..])
  }

  /** `f` applied to every element: `xs.map(f)`. */
  function Map<A, B>(f: A -> B, xs: seq<A>): (r: seq<B>)
    ensures |r| == |xs|
    ensures forall i :: 0 <= i < |xs| ==> r[i] == f(xs[i])
  {
    seq(|xs|, i requires 0 <= i < |xs| => f(xs[i]))
  }

  /** Filtering distributes over concatenation. */
  lemma {:induction false} FilterConcat<T(!new)>(f: T -> bool, a: seq<T>, b: seq<T>)
    ensures Filter(f, a + b) == Filter(f, a) + Filter(f, b)
  {
    if |a| == 0 {
      assert a + b == b;
    } else {
      assert (a + b)[1..] == a[1..] + b;
      FilterConcat(f, a[1..], b);
    }
  }

  /** A filter keeps everything exactly when every element passes. */
  lemma {:induction false} FilterKeepsAll<T(!new)>(f: T -> bool, xs: seq<T>)
    requires forall i :: 0 <= i < |xs| ==> f(xs[i])
    ensures Filter(f, xs) == xs
  {
    if |xs| > 0 {
      FilterKeepsAll(f, xs[1..]);
    }
  }

  /** A filter keeps nothing when no element passes. */
  lemma {:induction false} FilterDropsAll<T(!new)>(f: T -> bool, xs: seq<T>)
    requires forall i :: 0 <= i < |xs| ==> !f(xs[i])
    ensures Filter(f, xs) == []
  {
    if |xs| > 0 {
      FilterDropsAll(f, xs[1..]);
    }
  }

  /** Two filters whose predicates are complementary split the input between them. */
  lemma {:induction false} FilterPartition<T(!new)>(f: T -> bool, g: T -> bool, xs: seq<T>)
    requires forall x :: g(x) <==> !f(x)
    ensures |Filter(f, xs)| + |Filter(g, xs)| == |xs|
  {
    if |xs| > 0 {
      FilterPartition(f, g, xs[1..]);
    }
  }

  /** A weaker predicate keeps at least as many elements. */
  lemma {:induction false} FilterMonotone<T(!new)>(f: T -> bool, g: T -> bool, xs: seq<T>)
    requires forall x :: f(x) ==> g(x)
    ensures |Filter(f, xs)| <= |Filter(g, xs)|
  {
    if |xs| > 0 {
      FilterMonotone(f, g, xs[1..]);
    }
  }

  /** The first `n` elements of `xs`, or all of them when there are fewer: `xs.slice(0, n)`. */
  function Take<T>(xs: seq<T>, n: nat): (r: seq<T>)
    ensures |r| <= n && |r| <= |xs|
    ensures |r| == n || |r| == |xs|
    ensures r == xs[..|r|]
  {
    if |xs| <= n then xs else xs[..n]
  }

  /** No element occurs twice. */
  predicate Distinct<T(==)>(xs: seq<T>) {
    forall i, j :: 0 <= i < j < |xs| ==> xs[i] != xs[j]
  }

  /** The position of the first occurrence of `x` in `xs`. */
  function FirstIndex<T(==)>(xs: seq<T>, x: T): (k: nat)
    requires x in xs
    ensures k < |xs| && xs[k] == x
    ensures forall j :: 0 <= j < k ==> xs[j] != x
  {
    if xs[0] == x then 0 else 1 + FirstIndex(xs[1..], x)
  }

  /**
   * The distinct elements of `xs` in order of first occurrence. Written as the
   * insertion sequence of a JavaScript `Set`: each element is appended unless
   * it was already seen.
   */
  function Dedup<T(==,!new)>(xs: seq<T>): (r: seq<T>)
    ensures |r| <= |xs|
    ensures Distinct(r)
    ensures forall x :: x in r <==> x in xs
  {
    if |xs| == 0 then []
    else
      var d := Dedup(xs[..|xs| - 1]);
      var x := xs[|xs| - 1];
      assert forall y :: y in xs <==> y in xs[..|xs| - 1] || y == x by {
        assert xs == xs[..|xs| - 1] + [x];
      }
      if x in d then d else d + [x]
  }

  /** Extending a sequence does not move the first occurrence of anything already in it. */
  lemma {:induction false} FirstIndexOfPrefix<T>(xs: seq<T>, n: nat, x: T)
    requires n <= |xs| && x in xs[..n]
    ensures x in xs && FirstIndex(xs, x) == FirstIndex(xs[..n], x)
  {
    if xs[0] != x {
      assert xs[1..][..n - 1] == xs[..n][1..];
      FirstIndexOfPrefix(xs[1..], n - 1, x);
    }
  }

  /** The element at a position where it occurs for the first time is found there. */
  lemma {:induction false} FirstIndexAt<T>(xs: seq<T>, k: nat)
    requires k < |xs| && xs[k] !in xs[..k]
    ensures FirstIndex(xs, xs[k]) == k
  {
  }

  /** `Dedup` lists elements in the order of their first occurrences in the input. */
  lemma {:induction false} DedupKeepsFirstOccurrenceOrder<T(!new)>(xs: seq<T>)
    ensures forall i, j :: 0 <= i < j < |Dedup(xs)| ==>
      FirstIndex(xs, Dedup(xs)[i]) < FirstIndex(xs, Dedup(xs)[j])
  {
    if |xs| > 0 {
      var n := |xs| - 1;
      var p := xs[..n];
      var d := Dedup(p);
      var x := xs[n];
      assert xs[..n] == p;
      DedupKeepsFirstOccurrenceOrder(p);
      forall y | y in d
        ensures FirstIndex(xs, y) == FirstIndex(p, y) < n
      {
        FirstIndexOfPrefix(xs, n, y);
      }
      if x !in d {
        FirstIndexAt(xs, n);
        var r := d + [x];
        assert Dedup(xs) == r;
        forall i, j | 0 <= i < j < |r|
          ensures FirstIndex(xs, r[i]) < FirstIndex(xs, r[j])
        {
          assert r[i] == d[i] && r[i] in d;
          if j < |d| {
            assert r[j] == d[j] && r[j] in d;
          }
        }
      } else {
        assert Dedup(xs) == d;
        forall i, j | 0 <= i < j < |d|
          ensures FirstIndex(xs, d[i]) < FirstIndex(xs, d[j])
        {
          assert d[i] in d && d[j] in d;
        }
      }
    }
  }

  /** `l` holds elements of `xs` only, listed in the order of their first occurrences in `xs`. */
  ghost predicate InFirstOccurrenceOrder<T(!new)>(l: seq<T>, xs: seq<T>) {
    && (forall i :: 0 <= i < |l| ==> l[i] in xs)
    && (forall i, j :: 0 <= i < j < |l| ==>
          l[i] in xs && l[j] in xs && FirstIndex(xs, l[i]) < FirstIndex(xs, l[j]))
  }

  /** `[...new Set(xs)].slice(0, n)` is in first-occurrence order. */
  lemma DedupPrefixInOrder<T(!new)>(xs: seq<T>, n: nat)
    ensures InFirstOccurrenceOrder(Take(Dedup(xs), n), xs)
  {
    var d := Dedup(xs);
    var kept := Take(d, n);
    DedupKeepsFirstOccurrenceOrder(xs);
    assert forall i :: 0 <= i < |kept| ==> kept[i] == d[i] && d[i] in d;
  }

  /**
   * `[...new Set(xs)].slice(0, n)` keeps the first `n` distinct elements: an
   * element of `xs` left out was cut off by the cap, and every kept element
   * first occurs before it.
   */
  lemma DedupPrefixKeepsEarliest<T(!new)>(xs: seq<T>, n: nat, w: T)
    requires w in xs && w !in Take(Dedup(xs), n)
    ensures |Take(Dedup(xs), n)| == n
    ensures forall i :: 0 <= i < |Take(Dedup(xs), n)| ==>
      FirstIndex(xs, Take(Dedup(xs), n)[i]) < FirstIndex(xs, w)
  {
    var d := Dedup(xs);
    var kept := Take(d, n);
    var j :| 0 <= j < |d| && d[j] == w;
    assert forall i :: 0 <= i < |kept| ==> d[i] == kept[i] && kept[i] != w;
    assert j >= |kept|;
    DedupKeepsFirstOccurrenceOrder(xs);
    forall i | 0 <= i < |kept|
      ensures FirstIndex(xs, kept[i]) < FirstIndex(xs, w)
    {
      assert kept[i] == d[i];
    }
  }

  /** A sequence that is already duplicate-free is left as it is. */
  lemma {:induction false} DedupOfDistinct<T(!new)>(xs: seq<T>)
    requires Distinct(xs)
    ensures Dedup(xs) == xs
  {
    if |xs| > 0 {
      var n := |xs| - 1;
      DedupOfDistinct(xs[..n]);
      assert xs[n] !in xs[..n];
    }
  }

  /**
   * `[...new Set(xs)]` as the JavaScript engine runs it: one pass that appends
   * an element when the set of elements seen so far does not hold it yet.
   */
  method UniqueInOrder<T(==,!new)>(xs: seq<T>) returns (r: seq<T>)
    ensures r == Dedup(xs)
  {
    var seen: set<T> := {};
    r := [];
    for i := 0 to |xs|
      invariant r == Dedup(xs[..i])
      invariant forall x :: x in seen <==> x in r
    {
      assert xs[..i + 1][..i] == xs[..i];
      if xs[i] !in seen {
        seen := seen + {xs[i]};
        r := r + [xs[i]];
      }
    }
    assert xs[..|xs|] == xs;
  }
}
