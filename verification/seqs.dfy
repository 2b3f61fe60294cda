/** Order-preserving filtering of sequences, the model of JavaScript's
    `Array.prototype.filter` with a pure predicate. */
module Seqs {

  /** `a` can be obtained from `b` by deleting elements, keeping the order of
      the rest. */
  predicate IsSubsequence<T(==)>(a: seq<T>, b: seq<T>)
    decreases |b|
  {
    || |a| == 0
    || (&& |b| > 0
        && ((a[0] == b[0] && IsSubsequence(a[1..], b[1..])) || IsSubsequence(a, b[1..])))
  }

  /** Every element of `s` satisfies `p`. */
  ghost predicate All<T>(s: seq<T>, p: T -> bool)
  {
    forall i :: 0 <= i < |s| ==> p(s[i])
  }

  /** The elements of `s` that satisfy `p`, in their original order.
      The two postconditions together determine the result: a subsequence of
      `s` holding every element that satisfies `p`, as often as it occurs in
      `s`, and no other element. */
  function Filter<T(==,!new)>(s: seq<T>, p: T -> bool): (r: seq<T>)
    ensures IsSubsequence(r, s)
    ensures forall x :: multiset(r)[x] == if p(x) then multiset(s)[x] else 0
  {
    if |s| == 0 then []
    else
      var rest := Filter(s[1..], p);
      assert s == [s[0]] + s[1..];
      if p(s[0]) then
        var r := [s[0]] + rest;
        assert r[1..] == rest;
        r
      else
        rest
  }

  /** A subsequence holds no element more often than the sequence it was
      taken from. */
  lemma {:induction false} SubsequenceSubMultiset<T>(a: seq<T>, b: seq<T>)
    requires IsSubsequence(a, b)
    ensures multiset(a) <= multiset(b)
    decreases |b|
  {
    if |a| > 0 {
      assert b == [b[0]] + b[1..];
      if a[0] == b[0] && IsSubsequence(a[1..], b[1..]) {
        SubsequenceSubMultiset(a[1..], b[1..]);
        assert a == [a[0]] + a[1..];
      } else {
        SubsequenceSubMultiset(a, b[1..]);
      }
    }
  }

  /** The contract of `Filter` pins its result down: any subsequence of `s`
      with the multiplicities `Filter` promises is the filtered sequence. */
  lemma {:induction false} FilterUnique<T(!new)>(s: seq<T>, p: T -> bool, t: seq<T>)
    requires IsSubsequence(t, s)
    requires forall x :: multiset(t)[x] == if p(x) then multiset(s)[x] else 0
    ensures t == Filter(s, p)
    decreases |s|
  {
    if |s| > 0 {
      var x := s[0];
      assert s == [x] + s[1..];
      if p(x) {
        assert multiset(t)[x] == multiset(s[1..])[x] + 1;
        if !(|t| > 0 && t[0] == x && IsSubsequence(t[1..], s[1..])) {
          SubsequenceSubMultiset(t, s[1..]);
          assert false;
        }
        assert t == [x] + t[1..];
        FilterUnique(s[1..], p, t[1..]);
      } else {
        assert x !in multiset(t);
        FilterUnique(s[1..], p, t);
      }
    }
  }

  /** An element survives filtering exactly when it was there and satisfies `p`. */
  lemma FilterMembership<T(!new)>(s: seq<T>, p: T -> bool, x: T)
    ensures x in Filter(s, p) <==> x in s && p(x)
  {
  }

  /** `All` on a non-empty sequence splits into its head and its tail. */
  lemma AllCons<T>(s: seq<T>, p: T -> bool)
    requires |s| > 0
    ensures All(s, p) <==> p(s[0]) && All(s[1..], p)
  {
  }

  /** Filtering never grows a sequence, keeps its length exactly when every
      element satisfies `p`, and is then the identity. */
  lemma {:induction false} FilterLength<T(!new)>(s: seq<T>, p: T -> bool)
    ensures |Filter(s, p)| <= |s|
    ensures |Filter(s, p)| == |s| <==> All(s, p)
    ensures All(s, p) ==> Filter(s, p) == s
  {
    if |s| > 0 {
      FilterLength(s[1..], p);
      AllCons(s, p);
      if All(s, p) {
        assert s == [s[0]] + s[1..];
      }
    }
  }

  /** Filtering a two-element sequence keeps each element exactly when it
      satisfies `p`. */
  lemma FilterPair<T(!new)>(a: T, b: T, p: T -> bool)
    ensures Filter([a, b], p) == (if p(a) then [a] else []) + (if p(b) then [b] else [])
  {
    assert [a, b][1..] == [b];
    assert [b][1..] == [];
  }

  /** Filtering distributes over concatenation. */
  lemma {:induction false} FilterConcat<T(!new)>(a: seq<T>, b: seq<T>, p: T -> bool)
    ensures Filter(a + b, p) == Filter(a, p) + Filter(b, p)
  {
    if |a| == 0 {
      assert a + b == b;
    } else {
      assert (a + b)[1..] == a[1..] + b;
      FilterConcat(a[1..], b, p);
    }
  }
}
