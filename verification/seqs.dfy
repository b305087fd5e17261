/**
 Order-preserving filtering over sequences, the shape of JavaScript's
 `Array.prototype.filter`, with the facts the record engine relies on:
 the result is a subsequence, membership is exactly "in the input and kept",
 multiplicities are preserved, and filtering twice equals filtering once.
 */
module Seqs {

  /** No element occurs twice. */
  predicate NoDup<T(==)>(s: seq<T>) {
    forall i, j :: 0 <= i < j < |s| ==> s[i] != s[j]
  }

  /** `a` is obtained from `b` by deleting elements (greedy matching is complete). */
  predicate IsSubsequence<T(==)>(a: seq<T>, b: seq<T>)
    decreases |b|
  {
    if |a| == 0 then true
    else if |b| == 0 then false
    else if a[0] == b[0] then IsSubsequence(a[1..], b[1..])
    else IsSubsequence(a, b[1..])
  }

  /** Keeps, in order, the elements that satisfy `keep`. */
  function Filter<T(!new)>(s: seq<T>, keep: T -> bool): (r: seq<T>)
    ensures |r| <= |s|
    ensures forall x :: x in r <==> x in s && keep(x)
  {
    if |s| == 0 then []
    else (if keep(s[0]) then [s[0]] else []) + Filter(s[1..], keep)
  }

  lemma {:induction false} FilterIsSubsequence<T(!new)>(s: seq<T>, keep: T -> bool)
    ensures IsSubsequence(Filter(s, keep), s)
  {
    if |s| > 0 {
      FilterIsSubsequence(s[1..], keep);
      var r := Filter(s, keep);
      if keep(s[0]) {
        assert r[0] == s[0] && r[1..] == Filter(s[1..], keep);
      } else {
        assert r == Filter(s[1..], keep);
        SubsequenceDropHead(r, s);
      }
    }
  }

  lemma {:induction false} SubsequenceReflexive<T>(s: seq<T>)
    ensures IsSubsequence(s, s)
  {
    if |s| > 0 {
      SubsequenceReflexive(s[1..]);
    }
  }

  /** Skipping a head element of the larger sequence keeps a subsequence a subsequence. */
  lemma {:induction false} SubsequenceDropHead<T>(a: seq<T>, b: seq<T>)
    requires |b| > 0 && IsSubsequence(a, b[1..])
    ensures IsSubsequence(a, b)
    decreases |b|, 0
  {
    if |a| > 0 && a[0] == b[0] {
      if |b| > 1 {
        SubsequenceTail(a, b[1..]);
      }
      assert IsSubsequence(a[1..], b[1..]);
    }
  }

  /** Dropping the head of a subsequence keeps it a subsequence. */
  lemma {:induction false} SubsequenceTail<T>(a: seq<T>, b: seq<T>)
    requires |a| > 0 && IsSubsequence(a, b)
    ensures IsSubsequence(a[1..], b)
    decreases |b|, 1
  {
    assert |b| > 0;
    if a[0] == b[0] {
      SubsequenceDropHead(a[1..], b);
    } else {
      SubsequenceTail(a, b[1..]);
      SubsequenceDropHead(a[1..], b);
    }
  }

  /** Each element keeps its multiplicity when kept and vanishes otherwise. */
  lemma {:induction false} FilterMultiset<T(!new)>(s: seq<T>, keep: T -> bool, x: T)
    ensures multiset(Filter(s, keep))[x] == if keep(x) then multiset(s)[x] else 0
  {
    if |s| > 0 {
      FilterMultiset(s[1..], keep, x);
      assert s == [s[0]] + s[1..];
      assert multiset(s) == multiset([s[0]]) + multiset(s[1..]);
    }
  }

  /** When every element is kept, the filter is the identity. */
  lemma {:induction false} FilterKeepAll<T(!new)>(s: seq<T>, keep: T -> bool)
    requires forall i :: 0 <= i < |s| ==> keep(s[i])
    ensures Filter(s, keep) == s
  {
    if |s| > 0 {
      FilterKeepAll(s[1..], keep);
    }
  }

  /** Tests that agree on every element select the same elements. */
  lemma {:induction false} FilterCongruent<T(!new)>(s: seq<T>, keep: T -> bool, keep': T -> bool)
    requires forall i :: 0 <= i < |s| ==> keep(s[i]) == keep'(s[i])
    ensures Filter(s, keep) == Filter(s, keep')
  {
    if |s| > 0 {
      FilterCongruent(s[1..], keep, keep');
    }
  }

  /** Filtering distributes over concatenation. */
  lemma {:induction false} FilterAppend<T(!new)>(s: seq<T>, t: seq<T>, keep: T -> bool)
    ensures Filter(s + t, keep) == Filter(s, keep) + Filter(t, keep)
  {
    if |s| > 0 {
      FilterAppend(s[1..], t, keep);
      var head := if keep(s[0]) then [s[0]] else [];
      assert (s + t)[0] == s[0] && (s + t)[1..] == s[1..] + t;
      assert Filter(s + t, keep) == head + Filter(s[1..] + t, keep);
      assert Filter(s, keep) == head + Filter(s[1..], keep);
    } else {
      assert s + t == t;
    }
  }

  /** Filtering twice with the same test equals filtering once. */
  lemma FilterIdempotent<T(!new)>(s: seq<T>, keep: T -> bool)
    ensures Filter(Filter(s, keep), keep) == Filter(s, keep)
  {
    var r := Filter(s, keep);
    assert forall i :: 0 <= i < |r| ==> keep(r[i]) by {
      forall i | 0 <= i < |r| ensures keep(r[i]) {
        assert r[i] in r;
      }
    }
    FilterKeepAll(r, keep);
  }

  /** The tail of a sequence without repetitions has none and lacks the head. */
  lemma NoDupTail<T>(s: seq<T>)
    requires |s| > 0 && NoDup(s)
    ensures NoDup(s[1..]) && s[0] !in s[1..]
  {
    forall i | 0 <= i < |s| - 1 ensures s[1..][i] != s[0] {
      assert s[1..][i] == s[i + 1];
    }
  }

  /** The elements of a sequence, as a set. */
  function ToSet<T>(s: seq<T>): set<T> {
    set x | x in s
  }

  /** A sequence without repetitions has as many elements as its set. */
  lemma {:induction false} NoDupCardinality<T>(s: seq<T>)
    requires NoDup(s)
    ensures |ToSet(s)| == |s|
  {
    if |s| > 0 {
      var t := s[..|s| - 1];
      assert NoDup(t);
      NoDupCardinality(t);
      assert s == t + [s[|s| - 1]];
      assert ToSet(s) == ToSet(t) + {s[|s| - 1]};
      assert s[|s| - 1] !in ToSet(t);
    }
  }

  /** The index of the first occurrence of `x`, or |s| when absent. */
  function IndexOf<T(==)>(s: seq<T>, x: T): (i: nat)
    ensures i <= |s|
    ensures i < |s| ==> s[i] == x
    ensures forall k :: 0 <= k < i ==> s[k] != x
    ensures i == |s| <==> x !in s
  {
    if |s| == 0 then 0
    else if s[0] == x then 0
    else 1 + IndexOf(s[1..], x)
  }
}
