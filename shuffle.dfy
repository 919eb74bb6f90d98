/**
  The in-place shuffle the random-sample operation applies to the fetched
  movie list (java.util.Collections.shuffle). For a list of size n it swaps,
  for every bound i from n down to 2, the element at i - 1 with the element
  at a position drawn from [0, i). The random source is a parameter: the
  draw made for bound i is nextInt(i). No claim about uniformity is made.
 */
module Shuffle {

  /** What the random source promises: a draw for bound i lies in [0, i). */
  ghost predicate ValidRandom(nextInt: nat -> nat)
  {
    forall bound: nat :: 0 < bound ==> nextInt(bound) < bound
  }

  /** s with the elements at i and j exchanged. */
  function Swap<T>(s: seq<T>, i: nat, j: nat): (r: seq<T>)
    requires i < |s| && j < |s|
    ensures |r| == |s| && r[i] == s[j] && r[j] == s[i]
    ensures forall k :: 0 <= k < |s| && k != i && k != j ==> r[k] == s[k]
    ensures multiset(r) == multiset(s)
  {
    s[i := s[j]][j := s[i]]
  }

  /** s after the swap steps for bounds i, i - 1, ..., 2. The steps only
      touch positions below i, and together they permute s. */
  function ShuffleSteps<T>(s: seq<T>, i: nat, nextInt: nat -> nat): (r: seq<T>)
    requires i <= |s|
    requires ValidRandom(nextInt)
    ensures |r| == |s|
    ensures forall k :: i <= k < |s| ==> r[k] == s[k]
    ensures multiset(r) == multiset(s)
    decreases i
  {
    if i <= 1 then s else ShuffleSteps(Swap(s, i - 1, nextInt(i)), i - 1, nextInt)
  }

  /** The whole shuffle of s: every step, starting from bound |s|. */
  function Shuffled<T>(s: seq<T>, nextInt: nat -> nat): (r: seq<T>)
    requires ValidRandom(nextInt)
    ensures |r| == |s| && multiset(r) == multiset(s)
  {
    ShuffleSteps(s, |s|, nextInt)
  }

  /** Shuffles a in place, one swap per bound, from a.Length down to 2. */
  method ShuffleInPlace<T>(a: array<T>, nextInt: nat -> nat)
    requires ValidRandom(nextInt)
    modifies a
    ensures a[..] == Shuffled(old(a[..]), nextInt)
    ensures multiset(a[..]) == multiset(old(a[..]))
  {
    var i := a.Length;
    while i > 1
      invariant 0 <= i <= a.Length
      invariant ShuffleSteps(a[..], i, nextInt) == Shuffled(old(a[..]), nextInt)
    {
      var j := nextInt(i);
      ghost var before := a[..];
      var tmp := a[i - 1];
      a[i - 1] := a[j];
      a[j] := tmp;
      assert a[..] == Swap(before, i - 1, j);
      i := i - 1;
    }
  }
}
