/** Facts about integer sequences used for the finish log and its reverse. */
module Sequences {

  /** No element occurs twice. */
  predicate Distinct(s: seq<int>) {
    forall i, j :: 0 <= i < j < |s| ==> s[i] != s[j]
  }

  /** The sequence read back to front. */
  function Reverse(s: seq<int>): (r: seq<int>)
    ensures |r| == |s|
  {
    if s == [] then [] else [s[|s| - 1]] + Reverse(s[..|s| - 1])
  }

  /** Position i of the reverse holds position |s|-1-i of the original. */
  lemma {:induction false} ReverseIndex(s: seq<int>)
    ensures forall i :: 0 <= i < |s| ==> Reverse(s)[i] == s[|s| - 1 - i]
  {
    if s != [] {
      ReverseIndex(s[..|s| - 1]);
    }
  }

  /** Reversing a concatenation swaps and reverses the parts. */
  lemma {:induction false} ReverseAppend(a: seq<int>, b: seq<int>)
    ensures Reverse(a + b) == Reverse(b) + Reverse(a)
  {
    if b == [] {
      assert a + b == a;
    } else {
      var b' := b[..|b| - 1];
      assert (a + b)[..|a + b| - 1] == a + b';
      assert (a + b)[|a + b| - 1] == b[|b| - 1];
      ReverseAppend(a, b');
    }
  }

  /** The set of elements of a duplicate-free sequence has one member per position. */
  lemma {:induction false} DistinctCard(s: seq<int>)
    requires Distinct(s)
    ensures |set x | x in s| == |s|
  {
    if s != [] {
      var t := s[..|s| - 1];
      DistinctCard(t);
      assert (set x | x in s) == (set x | x in t) + {s[|s| - 1]};
      assert s[|s| - 1] !in t;
    }
  }

  /** The vertices 0 .. n-1 as a set; there are exactly n of them. */
  function Below(n: nat): (r: set<int>)
    ensures forall x :: x in r <==> 0 <= x < n
    ensures |r| == n
  {
    if n == 0 then {} else Below(n - 1) + {n - 1}
  }

  /** A duplicate-free sequence of vertices 0 .. n-1 that contains every one
      of them has length n: it is a permutation of 0 .. n-1. */
  lemma CoveringLength(s: seq<int>, n: nat)
    requires Distinct(s)
    requires forall i :: 0 <= i < |s| ==> 0 <= s[i] < n
    requires forall v :: 0 <= v < n ==> v in s
    ensures |s| == n
  {
    DistinctCard(s);
    assert (set x | x in s) == Below(n);
  }

  /** Being a prefix is transitive, and the parts added in two steps are
      the part added overall. */
  lemma PrefixTrans(p0: seq<int>, p1: seq<int>, p2: seq<int>)
    requires |p0| <= |p1| && p1[..|p0|] == p0
    requires |p1| <= |p2| && p2[..|p1|] == p1
    ensures |p0| <= |p2| && p2[..|p0|] == p0
    ensures p2[|p0|..] == p1[|p0|..] + p2[|p1|..]
  {
  }

  /** Prepending the reverse of what was appended composes over two steps. */
  lemma PrependReverseTrans(p0: seq<int>, p1: seq<int>, p2: seq<int>, t0: seq<int>, t1: seq<int>, t2: seq<int>)
    requires |p0| <= |p1| && p1[..|p0|] == p0
    requires |p1| <= |p2| && p2[..|p1|] == p1
    requires t1 == Reverse(p1[|p0|..]) + t0
    requires t2 == Reverse(p2[|p1|..]) + t1
    ensures t2 == Reverse(p2[|p0|..]) + t0
  {
    PrefixTrans(p0, p1, p2);
    ReverseAppend(p1[|p0|..], p2[|p1|..]);
  }
}
