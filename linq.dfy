/**
 * The LINQ operators the core composes its queries from, over sequences, with the semantics
 * .NET gives them: `Skip` and `Take` accept any `int` (a negative count skips or takes nothing,
 * a count past the end stops at the end), `FirstOrDefault` yields the default (`null`) when
 * nothing matches.
 */
module Linq {
  import opened Common

  /** `Where(p)`: the elements satisfying `p`, in their original order. */
  function Where<T>(s: seq<T>, p: T -> bool): (r: seq<T>)
    ensures |r| <= |s|
    ensures forall i :: 0 <= i < |r| ==> r[i] in s && p(r[i])
    ensures forall i :: 0 <= i < |s| && p(s[i]) ==> s[i] in r
  {
    if s == [] then []
    else if p(s[0]) then [s[0]] + Where(s[1..], p)
    else Where(s[1..], p)
  }

  /** Filtering distributes over concatenation, so it keeps the relative order of elements. */
  lemma {:induction false} WhereAppend<T>(a: seq<T>, b: seq<T>, p: T -> bool)
    ensures Where(a + b, p) == Where(a, p) + Where(b, p)
  {
    if a == [] {
      assert a + b == b;
    } else {
      assert (a + b)[1..] == a[1..] + b;
      WhereAppend(a[1..], b, p);
    }
  }

  /** Nothing is filtered out when every element passes. */
  lemma {:induction false} WhereAll<T>(s: seq<T>, p: T -> bool)
    requires forall i :: 0 <= i < |s| ==> p(s[i])
    ensures Where(s, p) == s
  {
    if s != [] {
      WhereAll(s[1..], p);
    }
  }

  /** The complement of a filter. */
  function Not<T>(p: T -> bool): T -> bool
  {
    x => !p(x)
  }

  /** A filter and its complement split the sequence: their results together are as long as it. */
  lemma {:induction false} WherePartition<T>(s: seq<T>, p: T -> bool)
    ensures |Where(s, p)| + |Where(s, Not(p))| == |s|
  {
    if s != [] {
      WherePartition(s[1..], p);
    }
  }

  /** Two filters that agree on every element select the same elements. */
  lemma {:induction false} WhereAgree<T>(s: seq<T>, p: T -> bool, q: T -> bool)
    requires forall i :: 0 <= i < |s| ==> p(s[i]) == q(s[i])
    ensures Where(s, p) == Where(s, q)
  {
    if s != [] {
      WhereAgree(s[1..], p, q);
    }
  }

  /** Position by position the filter gives the same verdict on `a` as on `b`: as many elements pass. */
  lemma {:induction false} WhereCountAgree<T>(a: seq<T>, b: seq<T>, p: T -> bool)
    requires |a| == |b|
    requires forall i :: 0 <= i < |a| ==> p(a[i]) == p(b[i])
    ensures |Where(a, p)| == |Where(b, p)|
  {
    if a != [] {
      WhereCountAgree(a[1..], b[1..], p);
    }
  }

  /** Both filters at once. */
  function Both<T>(p: T -> bool, q: T -> bool): T -> bool
  {
    x => p(x) && q(x)
  }

  /** Filtering twice is filtering once by both filters. */
  lemma {:induction false} WhereWhere<T>(s: seq<T>, p: T -> bool, q: T -> bool)
    ensures Where(Where(s, p), q) == Where(s, Both(p, q))
  {
    if s != [] {
      WhereWhere(s[1..], p, q);
      if p(s[0]) {
        assert Where(s, p)[1..] == Where(s[1..], p);
      }
    }
  }

  /** The index of the first element satisfying `p`, or `|s|` when there is none. */
  function FirstIndex<T>(s: seq<T>, p: T -> bool): (i: nat)
    ensures i <= |s|
    ensures forall j :: 0 <= j < i ==> !p(s[j])
    ensures i < |s| ==> p(s[i])
  {
    if s == [] then 0
    else if p(s[0]) then 0
    else 1 + FirstIndex(s[1..], p)
  }

  /**
   * The first matching index is fixed by where the matches are: two sequences of the same length
   * on which the predicate gives the same verdict position by position have the same one.
   */
  lemma FirstIndexAgree<T>(a: seq<T>, b: seq<T>, p: T -> bool)
    requires |a| == |b|
    requires forall i :: 0 <= i < |a| ==> p(a[i]) == p(b[i])
    ensures FirstIndex(a, p) == FirstIndex(b, p)
  {
  }

  /** In a concatenation the first match is the head part's, if it has one, else the tail part's. */
  lemma {:induction false} FirstIndexAppend<T>(a: seq<T>, b: seq<T>, p: T -> bool)
    ensures FirstIndex(a + b, p) == if FirstIndex(a, p) < |a| then FirstIndex(a, p) else |a| + FirstIndex(b, p)
  {
    if a == [] {
      assert a + b == b;
    } else {
      assert (a + b)[1..] == a[1..] + b;
      FirstIndexAppend(a[1..], b, p);
    }
  }

  /** `FirstOrDefault(p)`: the first element satisfying `p`, or `null`. */
  function FirstOrDefault<T>(s: seq<T>, p: T -> bool): (r: Option<T>)
    ensures r.None? <==> forall i :: 0 <= i < |s| ==> !p(s[i])
    ensures r.Some? ==> r.value in s && p(r.value)
    ensures r.Some? ==> exists i :: 0 <= i < |s| && s[i] == r.value && forall j :: 0 <= j < i ==> !p(s[j])
  {
    var i := FirstIndex(s, p);
    if i < |s| then Some(s[i]) else None
  }

  /** `Where(p).FirstOrDefault()` is the first element of the whole sequence that satisfies `p`. */
  lemma {:induction false} FirstOfWhere<T>(s: seq<T>, p: T -> bool)
    ensures FirstOrDefault(Where(s, p), _ => true) == FirstOrDefault(s, p)
  {
    if s != [] {
      FirstOfWhere(s[1..], p);
    }
  }

  /** `Select(f)`: `f` applied to every element, in order. */
  function Select<T, U>(s: seq<T>, f: T -> U): (r: seq<U>)
    ensures |r| == |s|
    ensures forall i :: 0 <= i < |s| ==> r[i] == f(s[i])
  {
    seq(|s|, i requires 0 <= i < |s| => f(s[i]))
  }

  /** `Skip(n)`: everything after the first `n` elements; nothing is skipped when `n <= 0`. */
  function Skip<T>(s: seq<T>, n: int): (r: seq<T>)
    ensures |r| == |s| - Min(Max(n, 0), |s|)
    ensures forall i :: 0 <= i < |r| ==> r[i] == s[Min(Max(n, 0), |s|) + i]
  {
    if n <= 0 then s else if n >= |s| then [] else s[n..]
  }

  /** `Take(n)`: the first `n` elements (all of them when there are fewer, none when `n <= 0`). */
  function Take<T>(s: seq<T>, n: int): (r: seq<T>)
    ensures |r| == Min(Max(n, 0), |s|)
    ensures r == s[..|r|]
  {
    if n <= 0 then [] else if n >= |s| then s else s[..n]
  }
}
