/**
 * Order-preserving queries over sequences: the LINQ `Where(...).ToList()` and
 * `FirstOrDefault(...)` operators that the repositories and the service apply
 * to the store's lists.
 */
module Sequences {
  import opened Wrappers

  /** `a` is obtained from `b` by deleting elements, keeping the order of the rest. */
  ghost predicate Subseq<T>(a: seq<T>, b: seq<T>)
    decreases |b|
  {
    a == [] || (b != [] && ((a[0] == b[0] && Subseq(a[1..], b[1..])) || Subseq(a, b[1..])))
  }

  /** The elements of `s` that satisfy `p`, in the order of `s` (LINQ `Where`). */
  function Filter<T>(p: T -> bool, s: seq<T>): (r: seq<T>)
    ensures |r| <= |s|
    ensures forall x :: x in r ==> x in s && p(x)
    decreases |s|
  {
    if s == [] then []
    else
      var init := Filter(p, s[..|s| - 1]);
      if p(s[|s| - 1]) then init + [s[|s| - 1]] else init
  }

  /** Filtering a sequence extended at the end filters the new last element on its own. */
  lemma FilterSnoc<T>(p: T -> bool, s: seq<T>, x: T)
    ensures Filter(p, s + [x]) == if p(x) then Filter(p, s) + [x] else Filter(p, s)
  {
    assert (s + [x])[..|s + [x]| - 1] == s;
  }

  /** One step of a loop that filters `s` from the front, appending each kept element. */
  lemma FilterStep<T>(p: T -> bool, s: seq<T>, i: int, kept: seq<T>, keep: bool)
    requires 0 <= i < |s| && kept == Filter(p, s[..i]) && keep == p(s[i])
    ensures (if keep then kept + [s[i]] else kept) == Filter(p, s[..i + 1])
  {
    assert s[..i + 1] == s[..i] + [s[i]];
    FilterSnoc(p, s[..i], s[i]);
  }

  /** Every element of `s` satisfying `p` is kept. */
  lemma {:induction false} FilterKeeps<T>(p: T -> bool, s: seq<T>, x: T)
    requires x in s && p(x)
    ensures x in Filter(p, s)
    decreases |s|
  {
    if s[|s| - 1] != x {
      var init := s[..|s| - 1];
      assert s == init + [s[|s| - 1]];
      assert x in init;
      FilterKeeps(p, init, x);
    }
  }

  /** The result of a filter is an order-preserving subsequence of its input. */
  lemma {:induction false} FilterIsSubseq<T>(p: T -> bool, s: seq<T>)
    ensures Subseq(Filter(p, s), s)
    decreases |s|
  {
    if s != [] {
      var init := s[..|s| - 1];
      var x := s[|s| - 1];
      assert s == init + [x];
      FilterIsSubseq(p, init);
      if p(x) {
        SubseqSnoc(Filter(p, init), init, x);
      } else {
        SubseqExtend(Filter(p, init), init, [x]);
      }
    }
  }

  lemma {:induction false} SubseqExtend<T>(a: seq<T>, b: seq<T>, t: seq<T>)
    requires Subseq(a, b)
    ensures Subseq(a, b + t)
    decreases |b|
  {
    if a != [] {
      assert b != [];
      assert (b + t)[1..] == b[1..] + t;
      if a[0] == b[0] && Subseq(a[1..], b[1..]) {
        SubseqExtend(a[1..], b[1..], t);
      } else {
        SubseqExtend(a, b[1..], t);
      }
    }
  }

  lemma {:induction false} SubseqSnoc<T>(a: seq<T>, b: seq<T>, x: T)
    requires Subseq(a, b)
    ensures Subseq(a + [x], b + [x])
    decreases |b|
  {
    if a == [] {
      assert a + [x] == [x];
      SubseqSingleton(b, x);
    } else {
      assert b != [];
      assert (a + [x])[0] == a[0];
      assert (a + [x])[1..] == a[1..] + [x];
      assert (b + [x])[1..] == b[1..] + [x];
      if a[0] == b[0] && Subseq(a[1..], b[1..]) {
        SubseqSnoc(a[1..], b[1..], x);
      } else {
        SubseqSnoc(a, b[1..], x);
      }
    }
  }

  lemma {:induction false} SubseqSingleton<T>(b: seq<T>, x: T)
    ensures Subseq([x], b + [x])
    decreases |b|
  {
    if b == [] {
      assert [x][1..] == [];
    } else {
      assert (b + [x])[1..] == b[1..] + [x];
      SubseqSingleton(b[1..], x);
    }
  }

  /** Each value occurs in the result exactly as often as in the input if it satisfies `p`, else never. */
  lemma {:induction false} FilterCounts<T>(p: T -> bool, s: seq<T>, x: T)
    ensures multiset(Filter(p, s))[x] == if p(x) then multiset(s)[x] else 0
    decreases |s|
  {
    if s != [] {
      var init := s[..|s| - 1];
      assert s == init + [s[|s| - 1]];
      FilterCounts(p, init, x);
    }
  }

  /** The complete characterisation of `Filter` used by the queries below. */
  lemma FilterSpec<T>(p: T -> bool, s: seq<T>)
    ensures forall x :: x in Filter(p, s) <==> x in s && p(x)
    ensures forall x :: multiset(Filter(p, s))[x] == if p(x) then multiset(s)[x] else 0
    ensures Subseq(Filter(p, s), s)
  {
    forall x | x in s && p(x) ensures x in Filter(p, s) {
      FilterKeeps(p, s, x);
    }
    forall x ensures multiset(Filter(p, s))[x] == if p(x) then multiset(s)[x] else 0 {
      FilterCounts(p, s, x);
    }
    FilterIsSubseq(p, s);
  }

  /** Filtering by `p` and then by `q` is filtering once by their conjunction `pq`. */
  lemma {:induction false} FilterFilter<T>(p: T -> bool, q: T -> bool, pq: T -> bool, s: seq<T>)
    requires forall x :: pq(x) == (p(x) && q(x))
    ensures Filter(q, Filter(p, s)) == Filter(pq, s)
    decreases |s|
  {
    if s != [] {
      var init := s[..|s| - 1];
      var x := s[|s| - 1];
      FilterFilter(p, q, pq, init);
      if p(x) {
        FilterSnoc(q, Filter(p, init), x);
      }
    }
  }

  /** The position of the first element of `s` satisfying `p`, or `|s|` when there is none. */
  function FirstIndex<T>(p: T -> bool, s: seq<T>): (k: nat)
    ensures k <= |s|
    ensures k < |s| ==> p(s[k])
    ensures forall j :: 0 <= j < k ==> !p(s[j])
  {
    if s == [] then 0
    else if p(s[0]) then 0
    else 1 + FirstIndex(p, s[1..])
  }

  /** The first element of `s` satisfying `p`, if any (LINQ `FirstOrDefault`). */
  function Find<T>(p: T -> bool, s: seq<T>): (r: Option<T>)
    ensures r.None? <==> forall i :: 0 <= i < |s| ==> !p(s[i])
    ensures r.Some? ==> exists k :: 0 <= k < |s| && s[k] == r.value && p(s[k]) &&
                          forall j :: 0 <= j < k ==> !p(s[j])
  {
    var k := FirstIndex(p, s);
    if k < |s| then Some(s[k]) else None
  }

  /** Two predicates that agree on every element find the same first element. */
  lemma {:induction false} FindCongruent<T>(p: T -> bool, q: T -> bool, s: seq<T>)
    requires forall i :: 0 <= i < |s| ==> p(s[i]) == q(s[i])
    ensures Find(p, s) == Find(q, s)
  {
    FirstIndexCongruent(p, q, s);
  }

  lemma {:induction false} FirstIndexCongruent<T>(p: T -> bool, q: T -> bool, s: seq<T>)
    requires forall i :: 0 <= i < |s| ==> p(s[i]) == q(s[i])
    ensures FirstIndex(p, s) == FirstIndex(q, s)
    decreases |s|
  {
    if s != [] && !p(s[0]) {
      FirstIndexCongruent(p, q, s[1..]);
    }
  }
}
