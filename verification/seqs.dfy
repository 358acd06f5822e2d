/** Order-preserving selection over sequences: `Array.prototype.filter` and the
    relations that say what a filter keeps. */
module Seqs {

  /** The elements of `s` that satisfy `p`, in their original order. */
  function Filter<T>(s: seq<T>, p: T -> bool): (r: seq<T>)
    ensures |r| <= |s|
    ensures forall i :: 0 <= i < |r| ==> r[i] in s && p(r[i])
    ensures forall i :: 0 <= i < |s| && p(s[i]) ==> s[i] in r
  {
    if s == [] then [] else (if p(s[0]) then [s[0]] else []) + Filter(s[1..], p)
  }

  /** `a` can be obtained from `b` by deleting elements: `a` keeps `b`'s order. */
  ghost predicate Subseq<T>(a: seq<T>, b: seq<T>)
    decreases |b|
  {
    if a == [] then true
    else if b == [] then false
    else (a[0] == b[0] && Subseq(a[1..], b[1..])) || Subseq(a, b[1..])
  }

  /** `s` is an order-preserving merge of `a` and `b`: every element of `s` comes
      from exactly one of them, and each keeps its relative order. */
  ghost predicate Interleaves<T>(s: seq<T>, a: seq<T>, b: seq<T>)
    decreases |s|
  {
    if s == [] then a == [] && b == []
    else
      || (a != [] && a[0] == s[0] && Interleaves(s[1..], a[1..], b))
      || (b != [] && b[0] == s[0] && Interleaves(s[1..], a, b[1..]))
  }

  function Not<T>(p: T -> bool): T -> bool {
    x => !p(x)
  }

  lemma {:induction false} AppendAssoc<T>(a: seq<T>, b: seq<T>, c: seq<T>)
    ensures (a + b) + c == a + (b + c)
  {
  }

  lemma {:induction false} SubseqRefl<T>(s: seq<T>)
    ensures Subseq(s, s)
  {
    if s != [] {
      SubseqRefl(s[1..]);
    }
  }

  lemma {:induction false} FilterIsSubseq<T>(s: seq<T>, p: T -> bool)
    ensures Subseq(Filter(s, p), s)
  {
    if s != [] {
      FilterIsSubseq(s[1..], p);
      var r := Filter(s, p);
      if p(s[0]) {
        assert r[0] == s[0] && r[1..] == Filter(s[1..], p);
      } else {
        assert r == Filter(s[1..], p);
      }
    }
  }

  /** Splitting by a predicate and its negation loses nothing and reorders
      nothing: `s` is a merge of the two parts. */
  lemma {:induction false} FilterSplitInterleaves<T>(s: seq<T>, p: T -> bool)
    ensures Interleaves(s, Filter(s, p), Filter(s, Not(p)))
  {
    if s != [] {
      FilterSplitInterleaves(s[1..], p);
      var a, b := Filter(s, p), Filter(s, Not(p));
      if p(s[0]) {
        assert a[0] == s[0] && a[1..] == Filter(s[1..], p);
        assert b == Filter(s[1..], Not(p));
      } else {
        assert b[0] == s[0] && b[1..] == Filter(s[1..], Not(p));
        assert a == Filter(s[1..], p);
      }
    }
  }

  /** The two parts of a split together hold exactly the elements of `s`. */
  lemma {:induction false} FilterSplitMultiset<T>(s: seq<T>, p: T -> bool)
    ensures multiset(Filter(s, p)) + multiset(Filter(s, Not(p))) == multiset(s)
  {
    if s != [] {
      var x, rest := s[0], s[1..];
      var a, b := Filter(rest, p), Filter(rest, Not(p));
      assert multiset(a) + multiset(b) == multiset(rest) by {
        FilterSplitMultiset(rest, p);
      }
      assert multiset(s) == multiset{x} + multiset(rest) by {
        assert s == [x] + rest;
      }
      assert Not(p)(x) == !p(x);
      if p(x) {
        assert multiset(Filter(s, p)) == multiset{x} + multiset(a) by {
          assert Filter(s, p) == [x] + a;
        }
        assert Filter(s, Not(p)) == b;
      } else {
        assert Filter(s, p) == a;
        assert multiset(Filter(s, Not(p))) == multiset{x} + multiset(b) by {
          assert Filter(s, Not(p)) == [x] + b;
        }
      }
    }
  }

  lemma {:induction false} FilterAppend<T>(a: seq<T>, b: seq<T>, p: T -> bool)
    ensures Filter(a + b, p) == Filter(a, p) + Filter(b, p)
  {
    if a == [] {
      assert a + b == b;
    } else {
      assert (a + b)[1..] == a[1..] + b;
      FilterAppend(a[1..], b, p);
    }
  }

  /** Filtering keeps a sequence unchanged when every element passes. */
  lemma {:induction false} FilterKeepsAll<T>(s: seq<T>, p: T -> bool)
    requires forall i :: 0 <= i < |s| ==> p(s[i])
    ensures Filter(s, p) == s
  {
    if s != [] {
      FilterKeepsAll(s[1..], p);
    }
  }
}
