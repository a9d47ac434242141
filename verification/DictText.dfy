/**
  Text as the dictionary code of source/common/dictbe.cpp and source/common/dictionarydata.cpp sees it through UText:
  characters, each of which takes one or more native units. Positions are counted in characters here; the native
  index of a position is the native length of what stands before it.
 */
module DictText {

  /** How many native units each character takes. */
  type Sizes = int -> nat

  ghost predicate Positive(size: Sizes) { forall c :: size(c) >= 1 }

  /** The length of s in native units. */
  function Native(size: Sizes, s: seq<int>): nat {
    if |s| == 0 then 0 else Native(size, s[..|s| - 1]) + size(s[|s| - 1])
  }

  lemma NativeStep(size: Sizes, s: seq<int>, n: nat)
    requires n < |s|
    ensures Native(size, s[..n + 1]) == Native(size, s[..n]) + size(s[n])
  {
    assert s[..n + 1][..n] == s[..n];
  }

  lemma {:induction false} NativeAppend(size: Sizes, a: seq<int>, b: seq<int>)
    ensures Native(size, a + b) == Native(size, a) + Native(size, b)
    decreases |b|
  {
    if |b| == 0 {
      assert a + b == a;
    } else {
      assert (a + b)[..|a + b| - 1] == a + b[..|b| - 1];
      NativeAppend(size, a, b[..|b| - 1]);
    }
  }

  lemma {:induction false} NativeAtLeast(size: Sizes, s: seq<int>)
    requires Positive(size)
    ensures Native(size, s) >= |s|
  {
    if |s| > 0 {
      NativeAtLeast(size, s[..|s| - 1]);
      var last := s[|s| - 1];
      assert size(last) >= 1;
    }
  }

  /** Native indexes are in the order of the positions. */
  lemma NativeOrder(size: Sizes, s: seq<int>, i: nat, j: nat)
    requires Positive(size) && i < j <= |s|
    ensures Native(size, s[..i]) < Native(size, s[..j])
  {
    assert s[..j] == s[..i] + s[i..j];
    NativeAppend(size, s[..i], s[i..j]);
    NativeAtLeast(size, s[i..j]);
  }

  /** The native indexes of positions in s. */
  function NativeAll(size: Sizes, s: seq<int>, positions: seq<nat>): (r: seq<nat>)
    requires forall i :: 0 <= i < |positions| ==> positions[i] <= |s|
    ensures |r| == |positions| && forall i :: 0 <= i < |r| ==> r[i] == Native(size, s[..positions[i]])
  {
    seq(|positions|, i requires 0 <= i < |positions| => Native(size, s[..positions[i]]))
  }
}
