/** Sequences as JavaScript arrays: `Array.prototype.filter` and the
    subsequence relation that characterises it. The pipeline uses `filter`
    three times (dropping steps by id, dropping rows that fail a filter
    step, dropping CSV lines of the wrong width), so it is defined once
    here, generically. */
module Seqs {

  /** `s.filter(p)`: the elements of `s` that satisfy `p`, in their order. */
  function Filter<T>(s: seq<T>, p: T -> bool): (r: seq<T>)
    ensures |r| <= |s|
    ensures forall x :: x in r ==> x in s && p(x)
  {
    if s == [] then []
    else if p(s[0]) then [s[0]] + Filter(s[1..], p)
    else Filter(s[1..], p)
  }

  /** `r` can be obtained from `s` by deleting elements: it keeps their
      relative order and never repeats one. */
  predicate IsSubsequence<T(==)>(r: seq<T>, s: seq<T>)
    decreases |s|
  {
    r == [] ||
    (s != [] &&
      ((r[0] == s[0] && IsSubsequence(r[1..], s[1..])) || IsSubsequence(r, s[1..])))
  }

  /** The number of occurrences of `x` in `s` that survive filtering by `p`. */
  function Kept<T(==)>(s: seq<T>, p: T -> bool, x: T): nat
  {
    if p(x) then multiset(s)[x] else 0
  }

  lemma {:induction false} SubsequenceRefl<T>(s: seq<T>)
    ensures IsSubsequence(s, s)
    decreases |s|
  {
    if s != [] {
      SubsequenceRefl(s[1..]);
    }
  }

  lemma {:induction false} SubsequenceMultiset<T>(r: seq<T>, s: seq<T>)
    requires IsSubsequence(r, s)
    ensures multiset(r) <= multiset(s)
    decreases |s|
  {
    if r != [] {
      assert s == [s[0]] + s[1..];
      if r[0] == s[0] && IsSubsequence(r[1..], s[1..]) {
        SubsequenceMultiset(r[1..], s[1..]);
        assert r == [r[0]] + r[1..];
      } else {
        SubsequenceMultiset(r, s[1..]);
      }
    }
  }

  /** Filtering deletes elements and never reorders the survivors. */
  lemma {:induction false} FilterIsSubsequence<T>(s: seq<T>, p: T -> bool)
    ensures IsSubsequence(Filter(s, p), s)
    decreases |s|
  {
    if s != [] {
      FilterIsSubsequence(s[1..], p);
      if p(s[0]) {
        assert Filter(s, p)[1..] == Filter(s[1..], p);
      }
    }
  }

  /** Every element that satisfies `p` survives, as often as it occurs. */
  lemma {:induction false} FilterMultiset<T>(s: seq<T>, p: T -> bool)
    ensures forall x :: multiset(Filter(s, p))[x] == Kept(s, p, x)
    decreases |s|
  {
    if s != [] {
      FilterMultiset(s[1..], p);
      assert s == [s[0]] + s[1..];
      forall x ensures multiset(Filter(s, p))[x] == Kept(s, p, x) {
        assert Kept(s[1..], p, x) == multiset(Filter(s[1..], p))[x];
      }
    }
  }

  /** `Filter(s, p)` is the ONLY subsequence of `s` that keeps exactly the
      elements satisfying `p`: the two lemmas above determine it. */
  lemma {:induction false} FilterUnique<T>(s: seq<T>, p: T -> bool, r: seq<T>)
    requires IsSubsequence(r, s)
    requires forall x :: multiset(r)[x] == Kept(s, p, x)
    ensures r == Filter(s, p)
    decreases |s|
  {
    if s == [] {
      if r != [] {
        assert false;
      }
    } else {
      var x, rest := s[0], s[1..];
      assert s == [x] + rest;
      if p(x) {
        assert r != [] by {
          assert multiset(r)[x] == multiset(s)[x] > 0;
        }
        if !(r[0] == x && IsSubsequence(r[1..], rest)) {
          SubsequenceMultiset(r, rest);
          assert false;
        }
        assert r == [x] + r[1..];
        {
          forall y ensures multiset(r[1..])[y] == Kept(rest, p, y) {
            assert multiset(r)[y] == multiset(r[1..])[y] + (if y == x then 1 else 0);
          }
          FilterUnique(rest, p, r[1..]);
        }
      } else {
        assert x !in r by {
          assert multiset(r)[x] == 0;
        }
        assert IsSubsequence(r, rest) by {
          if r != [] {
            assert r[0] in r;
          }
        }
        forall y ensures multiset(r)[y] == Kept(rest, p, y) {
          if p(y) {
            assert y != x;
          }
        }
        FilterUnique(rest, p, r);
      }
    }
  }

  /** Filtering an already filtered sequence with the same test changes nothing. */
  lemma {:induction false} FilterIdempotent<T>(s: seq<T>, p: T -> bool)
    ensures Filter(Filter(s, p), p) == Filter(s, p)
  {
    FilterAllKept(Filter(s, p), p);
  }

  /** When every element passes, filtering is the identity. */
  lemma {:induction false} FilterAllKept<T>(s: seq<T>, p: T -> bool)
    requires forall x :: x in s ==> p(x)
    ensures Filter(s, p) == s
    decreases |s|
  {
    if s != [] {
      assert s == [s[0]] + s[1..];
      FilterAllKept(s[1..], p);
    }
  }

  /** Filtering depends only on the values of the test, not on how it is written. */
  lemma {:induction false} FilterExt<T>(s: seq<T>, p: T -> bool, q: T -> bool)
    requires forall x :: x in s ==> p(x) == q(x)
    ensures Filter(s, p) == Filter(s, q)
    decreases |s|
  {
    if s != [] {
      FilterExt(s[1..], p, q);
    }
  }

  /** The test that passes what both `p` and `q` pass. */
  function Both<T>(p: T -> bool, q: T -> bool): T -> bool
  {
    x => p(x) && q(x)
  }

  /** Two filters in a row are one filter by the conjunction of their tests. */
  lemma {:induction false} FilterFusion<T>(s: seq<T>, p: T -> bool, q: T -> bool)
    ensures Filter(Filter(s, p), q) == Filter(s, Both(p, q))
    decreases |s|
  {
    if s != [] {
      FilterFusion(s[1..], p, q);
      if p(s[0]) {
        assert Filter(s, p) == [s[0]] + Filter(s[1..], p);
        assert Filter(s, p)[1..] == Filter(s[1..], p);
      }
    }
  }

  /** Filtering distributes over concatenation. */
  lemma {:induction false} FilterConcat<T>(a: seq<T>, b: seq<T>, p: T -> bool)
    ensures Filter(a + b, p) == Filter(a, p) + Filter(b, p)
    decreases |a|
  {
    if a == [] {
      assert a + b == b;
    } else {
      assert (a + b)[0] == a[0];
      assert (a + b)[1..] == a[1..] + b;
      FilterConcat(a[1..], b, p);
    }
  }
}
