/**
  How CjkBreakEngine::divideUpDictionaryRange() in source/common/dictbe.cpp gets its text: the characters of the
  range, put into NFKC (Unicode Standard Annex #15) fragment by fragment if they are not in it, with a map from the
  characters of the result back to native indexes.
 */
module DictCjkText {
  import opened Basics
  import opened DictText

  /** The characters of the range, how many native units each takes, and whether they are one chunk of UTF-16. */
  datatype Input = Input(chars: seq<int>, size: Sizes, rangeStart: nat, contiguous: bool)

  datatype Normalizer = Normalizer(isNormalized: seq<int> -> bool, normalize: seq<int> -> seq<int>,
                                   hasBoundaryBefore: int -> bool)

  /** The code unit index of a position in s. */
  function UnitIndex(s: seq<int>, k: nat): nat
    requires k <= |s|
  {
    Native(Units, s[..k])
  }

  /** Characters take native units, and in a chunk of UTF-16 these are its code units. */
  ghost predicate Proper(inp: Input) {
    Positive(inp.size) && (inp.contiguous ==> forall c :: inp.size(c) == Units(c))
  }

  /** The native index of a position in the range. */
  function Position(inp: Input, k: nat): nat
    requires k <= |inp.chars|
  {
    inp.rangeStart + Native(inp.size, inp.chars[..k])
  }

  function RangeEnd(inp: Input): nat { Position(inp, |inp.chars|) }

  // ---------- what the text and the map should be ----------

  /** The first boundary at or after j, or the end. */
  function NextBoundary(nz: Normalizer, s: seq<int>, j: nat): (e: nat)
    requires j <= |s|
    ensures j <= e <= |s|
    decreases |s| - j
  {
    if j == |s| || nz.hasBoundaryBefore(s[j]) then j else NextBoundary(nz, s, j + 1)
  }

  /** The NFKC of the fragment that starts at k. */
  function Fragment(nz: Normalizer, s: seq<int>, k: nat): seq<int>
    requires k < |s|
  {
    nz.normalize(s[k..NextBoundary(nz, s, k + 1)])
  }

  /** The NFKC of all fragments from k on. */
  function NormalText(nz: Normalizer, s: seq<int>, k: nat): seq<int>
    requires k <= |s|
    decreases |s| - k
  {
    if k == |s| then [] else Fragment(nz, s, k) + NormalText(nz, s, NextBoundary(nz, s, k + 1))
  }

  function Repeat(v: int, n: nat): (r: seq<int>)
    ensures |r| == n && forall i :: 0 <= i < n ==> r[i] == v
  {
    seq(n, _ => v)
  }

  /** For each character of that text, the native index of the fragment it comes from. */
  function Origins(nz: Normalizer, inp: Input, k: nat): (r: seq<int>)
    requires k <= |inp.chars|
    ensures |r| == |NormalText(nz, inp.chars, k)|
    decreases |inp.chars| - k
  {
    if k == |inp.chars| then []
    else Repeat(Position(inp, k), |Fragment(nz, inp.chars, k)|)
         + Origins(nz, inp, NextBoundary(nz, inp.chars, k + 1))
  }

  /** The text that is segmented. */
  function Text(nz: Normalizer, inp: Input): seq<int> {
    if nz.isNormalized(inp.chars) then inp.chars else NormalText(nz, inp.chars, 0)
  }

  function Starts(inp: Input): (r: seq<int>)
    ensures |r| == |inp.chars| && forall k :: 0 <= k < |r| ==> r[k] == Position(inp, k)
  {
    seq(|inp.chars|, k requires 0 <= k < |inp.chars| => Position(inp, k))
  }

  /** The native index to report for each position of that text. */
  function Places(nz: Normalizer, inp: Input): (r: seq<int>)
    ensures |r| == |Text(nz, inp)| + 1
  {
    (if nz.isNormalized(inp.chars) then Starts(inp) else Origins(nz, inp, 0)) + [RangeEnd(inp)]
  }

  /** A fragment starts at position p of the NFKC of the fragments from k on, or that text ends there. */
  predicate AtFragment(nz: Normalizer, s: seq<int>, k: nat, p: nat)
    requires k <= |s|
    decreases |s| - k
  {
    || p == 0
    || (k < |s| && p >= |Fragment(nz, s, k)|
        && AtFragment(nz, s, NextBoundary(nz, s, k + 1), p - |Fragment(nz, s, k)|))
  }

  /** A position of the text that stands for a position of the range. */
  predicate Represented(nz: Normalizer, inp: Input, p: nat) {
    nz.isNormalized(inp.chars) || AtFragment(nz, inp.chars, 0, p)
  }

  // ---------- code unit maps ----------

  /** A value for each character, given once for each of its code units. */
  function Spread(s: seq<int>, at: seq<int>): seq<int>
    requires |s| == |at|
    decreases |s|
  {
    if |s| == 0 then [] else Spread(s[..|s| - 1], at[..|s| - 1]) + Repeat(at[|s| - 1], Units(s[|s| - 1]))
  }

  lemma {:induction false} SpreadLength(s: seq<int>, at: seq<int>)
    requires |s| == |at|
    ensures |Spread(s, at)| == Native(Units, s)
  {
    if |s| > 0 { SpreadLength(s[..|s| - 1], at[..|s| - 1]); }
  }

  lemma SpreadStep(s: seq<int>, at: seq<int>, n: nat)
    requires n < |s| == |at|
    ensures Spread(s[..n + 1], at[..n + 1]) == Spread(s[..n], at[..n]) + Repeat(at[n], Units(s[n]))
  {
    assert s[..n + 1][..n] == s[..n] && at[..n + 1][..n] == at[..n];
  }

  /** The value of a character stands at its code unit index. */
  lemma {:induction false} SpreadAt(s: seq<int>, at: seq<int>, k: nat)
    requires k < |s| == |at|
    ensures UnitIndex(s, k) < |Spread(s, at)| && Spread(s, at)[UnitIndex(s, k)] == at[k]
    decreases |s|
  {
    hide Native;
    var n := |s| - 1;
    SpreadLength(s[..n], at[..n]);
    if k < n {
      SpreadAt(s[..n], at[..n], k);
      assert s[..n][..k] == s[..k];
    }
  }

  lemma {:induction false} SpreadAppend(a: seq<int>, x: seq<int>, b: seq<int>, y: seq<int>)
    requires |a| == |x| && |b| == |y|
    ensures Spread(a + b, x + y) == Spread(a, x) + Spread(b, y)
    decreases |b|
  {
    if |b| == 0 {
      assert a + b == a && x + y == x;
      assert Spread(a, x) + [] == Spread(a, x);
    } else {
      var n := |b| - 1;
      assert (a + b)[..|a + b| - 1] == a + b[..n] && (x + y)[..|a + b| - 1] == x + y[..n];
      SpreadAppend(a, x, b[..n], y[..n]);
    }
  }

  lemma {:induction false} SpreadSame(s: seq<int>, v: int)
    ensures Spread(s, Repeat(v, |s|)) == Repeat(v, Native(Units, s))
  {
    if |s| > 0 {
      var n := |s| - 1;
      assert Repeat(v, |s|)[..n] == Repeat(v, n);
      SpreadSame(s[..n], v);
    }
  }

  /** A map from code unit indexes that knows the characters of s to stand at the values of at. */
  ghost predicate Maps(inputMap: seq<int>, s: seq<int>, at: seq<int>) {
    |at| == |s| + 1 && inputMap == Spread(s, at[..|s|]) + [at[|s|]]
  }

  lemma MapsAt(inputMap: seq<int>, s: seq<int>, at: seq<int>, k: nat)
    requires Maps(inputMap, s, at) && k <= |s|
    ensures |inputMap| == Native(Units, s) + 1 && UnitIndex(s, k) < |inputMap| && inputMap[UnitIndex(s, k)] == at[k]
  {
    hide Native, Spread;
    SpreadLength(s, at[..|s|]);
    if k < |s| { SpreadAt(s, at[..|s|], k); } else { assert s[..k] == s; }
  }

  // ---------- the loops ----------

  /** Adds v until the map is as long as the string. */
  method Fill(inputMap: seq<int>, length: nat, v: int) returns (r: seq<int>)
    requires |inputMap| <= length
    ensures r == inputMap + Repeat(v, length - |inputMap|)
  {
    r := inputMap;
    while |r| < length
      invariant |inputMap| <= |r| <= length && r == inputMap + Repeat(v, |r| - |inputMap|)
    {
      r := r + [v];
    }
  }

  /** The map for text that is not a chunk of UTF-16. */
  method CopyText(inp: Input) returns (inputMap: seq<int>)
    ensures Maps(inputMap, inp.chars, Starts(inp) + [RangeEnd(inp)])
  {
    hide Native, Spread;
    ghost var at := Starts(inp);
    var length, nativePosition := 0, inp.rangeStart;
    inputMap := [];
    NothingYet(inp);
    for k := 0 to |inp.chars|
      invariant length == |inputMap| && nativePosition == Position(inp, k)
      invariant inputMap == Spread(inp.chars[..k], at[..k])
    {
      var c := inp.chars[k];
      SpreadStep(inp.chars, at, k);
      NativeStep(inp.size, inp.chars, k);
      length := length + Units(c);
      inputMap := Fill(inputMap, length, nativePosition);
      nativePosition := nativePosition + inp.size(c);
    }
    inputMap := inputMap + [RangeEnd(inp)];
    ghost var all := at + [RangeEnd(inp)];
    assert inp.chars[..|inp.chars|] == inp.chars && at[..|inp.chars|] == all[..|inp.chars|];
  }

  lemma NothingYet(inp: Input)
    ensures Position(inp, 0) == inp.rangeStart && Spread(inp.chars[..0], Starts(inp)[..0]) == []
    ensures UnitIndex(inp.chars, 0) == 0
  {
  }

  lemma {:induction false} SameSizes(a: Sizes, b: Sizes, s: seq<int>)
    requires forall c :: a(c) == b(c)
    ensures Native(a, s) == Native(b, s)
  {
    if |s| > 0 { SameSizes(a, b, s[..|s| - 1]); }
  }

  /** The map from code unit indexes of the characters, or none if native indexes are code unit indexes. */
  ghost predicate InputMap(inp: Input, inputMap: Option<seq<int>>) {
    match inputMap
    case Some(m) => Maps(m, inp.chars, Starts(inp) + [RangeEnd(inp)])
    case None => Proper(inp) && inp.contiguous
  }

  /** Looks a code unit index up. */
  function Lookup(inputMap: Option<seq<int>>, rangeStart: nat, index: nat): int
    requires inputMap.Some? ==> index < |inputMap.value|
  {
    if inputMap.Some? then inputMap.value[index] else index + rangeStart
  }

  lemma LookupIs(inp: Input, inputMap: Option<seq<int>>, k: nat)
    requires InputMap(inp, inputMap) && k <= |inp.chars|
    ensures inputMap.Some? ==> UnitIndex(inp.chars, k) < |inputMap.value|
    ensures Lookup(inputMap, inp.rangeStart, UnitIndex(inp.chars, k)) == Position(inp, k)
  {
    hide Native;
    match inputMap
    case Some(m) => MapsAt(m, inp.chars, Starts(inp) + [RangeEnd(inp)], k);
    case None => SameSizes(inp.size, Units, inp.chars[..k]);
  }

  /** The end of the fragment that starts at k, and its code unit index. */
  method ReadFragment(nz: Normalizer, s: seq<int>, k: nat, unit: nat) returns (fragment: seq<int>, e: nat, srcI: nat)
    requires k < |s| && unit == UnitIndex(s, k)
    ensures e == NextBoundary(nz, s, k + 1) && fragment == s[k..e] && srcI == UnitIndex(s, e)
  {
    hide Native;
    NativeStep(Units, s, k);
    fragment, e, srcI := [s[k]], k + 1, unit + Units(s[k]);
    while e < |s| && !nz.hasBoundaryBefore(s[e])
      invariant k < e <= |s| && fragment == s[k..e] && srcI == UnitIndex(s, e)
      invariant NextBoundary(nz, s, k + 1) == NextBoundary(nz, s, e)
      decreases |s| - e
    {
      NativeStep(Units, s, e);
      fragment := fragment + [s[e]];
      srcI := srcI + Units(s[e]);
      e := e + 1;
    }
  }

  /** Puts the text into NFKC, fragment by fragment. */
  method NormalizeText(nz: Normalizer, inp: Input, inputMap: Option<seq<int>>)
    returns (text: seq<int>, normalizedMap: seq<int>)
    requires InputMap(inp, inputMap)
    ensures text == NormalText(nz, inp.chars, 0)
    ensures Maps(normalizedMap, text, Origins(nz, inp, 0) + [RangeEnd(inp)])
  {
    hide Native, Spread, NormalText, Origins, Maps, InputMap, Fragment, Lookup;
    var k, srcI := 0, 0;
    text, normalizedMap := [], [];
    ghost var at := [];
    NothingYet(inp);
    NothingSpread();
    assert [] + NormalText(nz, inp.chars, 0) == NormalText(nz, inp.chars, 0);
    assert [] + Origins(nz, inp, 0) == Origins(nz, inp, 0);
    while k < |inp.chars|
      invariant k <= |inp.chars| && srcI == UnitIndex(inp.chars, k) && |at| == |text|
      invariant normalizedMap == Spread(text, at)
      invariant text + NormalText(nz, inp.chars, k) == NormalText(nz, inp.chars, 0)
      invariant at + Origins(nz, inp, k) == Origins(nz, inp, 0)
      decreases |inp.chars| - k
    {
      LookupIs(inp, inputMap, k);
      var fragmentOriginalStart := Lookup(inputMap, inp.rangeStart, srcI);
      var fragment, e, next := ReadFragment(nz, inp.chars, k, srcI);
      var normalized := nz.normalize(fragment);
      OneFragment(nz, inp, k);
      ghost var t0, a0 := text, at;
      text := text + normalized;
      at := at + Repeat(fragmentOriginalStart, |normalized|);
      LongerMap(t0, a0, normalized, fragmentOriginalStart);
      normalizedMap := Fill(normalizedMap, Native(Units, text), fragmentOriginalStart);
      Reassociate(t0, normalized, NormalText(nz, inp.chars, e));
      Reassociate(a0, Repeat(fragmentOriginalStart, |normalized|), Origins(nz, inp, e));
      k, srcI := e, next;
    }
    NoFragment(nz, inp);
    assert at + [] == at && text + [] == text;
    LookupIs(inp, inputMap, k);
    normalizedMap := normalizedMap + [Lookup(inputMap, inp.rangeStart, srcI)];
    MapsIs(normalizedMap, text, at, RangeEnd(inp));
  }

  lemma MapsIs(inputMap: seq<int>, s: seq<int>, at: seq<int>, end: int)
    requires |s| == |at| && inputMap == Spread(s, at) + [end]
    ensures Maps(inputMap, s, at + [end])
  {
    hide Spread;
    assert (at + [end])[..|s|] == at;
  }

  lemma Reassociate(a: seq<int>, b: seq<int>, c: seq<int>)
    ensures a + (b + c) == (a + b) + c
  {
  }

  lemma NothingSpread()
    ensures Spread([], []) == []
  {
  }

  lemma NoFragment(nz: Normalizer, inp: Input)
    ensures NormalText(nz, inp.chars, |inp.chars|) == [] && Origins(nz, inp, |inp.chars|) == []
  {
  }

  lemma OneFragment(nz: Normalizer, inp: Input, k: nat)
    requires k < |inp.chars|
    ensures var e, f := NextBoundary(nz, inp.chars, k + 1), Fragment(nz, inp.chars, k);
            && f == nz.normalize(inp.chars[k..e])
            && NormalText(nz, inp.chars, k) == f + NormalText(nz, inp.chars, e)
            && Origins(nz, inp, k) == Repeat(Position(inp, k), |f|) + Origins(nz, inp, e)
  {
  }

  lemma LongerMap(s: seq<int>, at: seq<int>, more: seq<int>, v: int)
    requires |s| == |at|
    ensures |Spread(s, at)| <= Native(Units, s + more)
    ensures Spread(s + more, at + Repeat(v, |more|))
            == Spread(s, at) + Repeat(v, Native(Units, s + more) - |Spread(s, at)|)
  {
    hide Native, Spread;
    SpreadLength(s, at);
    NativeAppend(Units, s, more);
    SpreadAppend(s, at, more, Repeat(v, |more|));
    SpreadSame(more, v);
  }

  /** The map gives the values of at. */
  ghost predicate Gives(inputMap: Option<seq<int>>, rangeStart: nat, at: seq<int>) {
    forall k :: 0 <= k < |at| ==>
      (inputMap.Some? ==> k < |inputMap.value|) && Lookup(inputMap, rangeStart, k) == at[k]
  }

  /** It gives them at the code unit indexes of the positions of s. */
  ghost predicate GivesUnits(inputMap: Option<seq<int>>, rangeStart: nat, s: seq<int>, at: seq<int>) {
    && |at| == |s| + 1 && (inputMap.Some? ==> |inputMap.value| == Native(Units, s) + 1)
    && forall k :: 0 <= k < |at| ==>
         (inputMap.Some? ==> UnitIndex(s, k) < |inputMap.value|)
         && Lookup(inputMap, rangeStart, UnitIndex(s, k)) == at[k]
  }

  /** Turns a map from code unit indexes into one from positions, in place, if they differ. */
  method MapPositions(s: seq<int>, inputMap: Option<seq<int>>, rangeStart: nat, ghost at: seq<int>)
    returns (r: Option<seq<int>>)
    requires GivesUnits(inputMap, rangeStart, s, at)
    ensures Gives(r, rangeStart, at)
  {
    hide Native;
    if Native(Units, s) == |s| {
      forall k | 0 <= k < |at|
        ensures (inputMap.Some? ==> k < |inputMap.value|) && Lookup(inputMap, rangeStart, k) == at[k]
      {
        NoPairs(s, k);
      }
      return inputMap;
    }
    var m := if inputMap.Some? then inputMap.value else [];
    var cuIdx, cpIdx := 0, 0;
    StartOf(s);
    while true
      invariant cpIdx <= |s| && cuIdx == UnitIndex(s, cpIdx)
      invariant |m| == if inputMap.Some? then |inputMap.value| else cpIdx
      invariant cpIdx <= |m| && forall k :: 0 <= k < cpIdx ==> m[k] == at[k]
      invariant inputMap.Some? ==> forall x :: cpIdx <= x < |m| ==> m[x] == inputMap.value[x]
      decreases |s| - cpIdx
    {
      UnitsBelow(s, cpIdx);
      assert at[cpIdx] == Lookup(inputMap, rangeStart, cuIdx);
      if inputMap.Some? {
        m := m[cpIdx := m[cuIdx]];
      } else {
        m := m + [cuIdx + rangeStart];
      }
      if cpIdx == |s| { break; }
      NativeStep(Units, s, cpIdx);
      cuIdx := cuIdx + Units(s[cpIdx]);
      cpIdx := cpIdx + 1;
    }
    r := Some(m);
  }

  lemma StartOf(s: seq<int>)
    ensures UnitIndex(s, 0) == 0
  {
  }

  /** A position is not beyond its code unit index. */
  lemma UnitsBelow(s: seq<int>, k: nat)
    requires k <= |s|
    ensures k <= UnitIndex(s, k) <= Native(Units, s)
  {
    hide Native;
    NativeAtLeast(Units, s[..k]);
    assert s == s[..k] + s[k..];
    NativeAppend(Units, s[..k], s[k..]);
  }

  lemma NoPairs(s: seq<int>, k: nat)
    requires k <= |s| == Native(Units, s)
    ensures UnitIndex(s, k) == k
  {
    hide Native;
    UnitsBelow(s, k);
    assert s == s[..k] + s[k..];
    NativeAppend(Units, s[..k], s[k..]);
    NativeAtLeast(Units, s[k..]);
  }

  /** The text to segment, and the map from its positions to native indexes; no map stands for an offset. */
  method Prepare(nz: Normalizer, inp: Input) returns (text: seq<int>, inputMap: Option<seq<int>>)
    requires Proper(inp)
    ensures text == Text(nz, inp)
    ensures Gives(inputMap, inp.rangeStart, Places(nz, inp))
  {
    hide Native, Spread, NormalText, Origins, Maps, Starts;
    text, inputMap := inp.chars, None;
    ghost var at := Starts(inp) + [RangeEnd(inp)];
    if !inp.contiguous {
      var copied := CopyText(inp);
      inputMap := Some(copied);
    }
    if !nz.isNormalized(text) {
      var normalizedMap;
      text, normalizedMap := NormalizeText(nz, inp, inputMap);
      inputMap := Some(normalizedMap);
      at := Origins(nz, inp, 0) + [RangeEnd(inp)];
    }
    if inputMap.Some? { MapsGives(inputMap.value, text, at, inp.rangeStart); } else { OffsetGives(inp); }
    inputMap := MapPositions(text, inputMap, inp.rangeStart, at);
  }

  lemma MapsGives(inputMap: seq<int>, s: seq<int>, at: seq<int>, rangeStart: nat)
    requires Maps(inputMap, s, at)
    ensures GivesUnits(Some(inputMap), rangeStart, s, at)
  {
    hide Native, Maps;
    MapsSize(inputMap, s, at);
    forall k | 0 <= k < |at|
      ensures UnitIndex(s, k) < |inputMap| && inputMap[UnitIndex(s, k)] == at[k]
    {
      MapsAt(inputMap, s, at, k);
    }
  }

  lemma MapsSize(inputMap: seq<int>, s: seq<int>, at: seq<int>)
    requires Maps(inputMap, s, at)
    ensures |at| == |s| + 1 && |inputMap| == Native(Units, s) + 1
  {
    hide Native;
    MapsAt(inputMap, s, at, 0);
  }

  lemma OffsetGives(inp: Input)
    requires Proper(inp) && inp.contiguous
    ensures GivesUnits(None, inp.rangeStart, inp.chars, Starts(inp) + [RangeEnd(inp)])
  {
    hide Native;
    var at := Starts(inp) + [RangeEnd(inp)];
    forall k | 0 <= k < |at|
      ensures Lookup(None, inp.rangeStart, UnitIndex(inp.chars, k)) == at[k]
    {
      LookupIs(inp, None, k);
    }
  }

  // ---------- order ----------

  lemma PositionOrder(inp: Input, i: nat, j: nat)
    requires Positive(inp.size) && i < j <= |inp.chars|
    ensures Position(inp, i) < Position(inp, j)
  {
    hide Native;
    NativeOrder(inp.size, inp.chars, i, j);
  }

  /** The fragments from k on lie behind position k, and before the end of the range. */
  lemma {:induction false} OriginsInRange(nz: Normalizer, inp: Input, k: nat, x: nat)
    requires Positive(inp.size) && k <= |inp.chars| && x < |Origins(nz, inp, k)|
    ensures Position(inp, k) <= Origins(nz, inp, k)[x] < RangeEnd(inp)
    decreases |inp.chars| - k
  {
    hide Position, Fragment;
    var e, f := NextBoundary(nz, inp.chars, k + 1), |Fragment(nz, inp.chars, k)|;
    if x < f {
      PositionOrder(inp, k, |inp.chars|);
    } else {
      PositionOrder(inp, k, e);
      OriginsInRange(nz, inp, e, x - f);
    }
  }

  ghost predicate FragmentBetween(nz: Normalizer, s: seq<int>, k: nat, a: int, b: int)
    requires k <= |s|
  {
    exists x: nat :: a < x <= b && AtFragment(nz, s, k, x)
  }

  lemma AtFragmentStep(nz: Normalizer, s: seq<int>, k: nat, x: nat)
    requires k < |s| && 0 < x
    ensures var f := |Fragment(nz, s, k)|;
            AtFragment(nz, s, k, x) <==> x >= f && AtFragment(nz, s, NextBoundary(nz, s, k + 1), x - f)
  {
    hide Fragment;
  }

  lemma BetweenStep(nz: Normalizer, s: seq<int>, k: nat, a: nat, b: nat)
    requires k < |s| && a < b
    ensures var e, f := NextBoundary(nz, s, k + 1), |Fragment(nz, s, k)|;
            && (b < f ==> !FragmentBetween(nz, s, k, a, b))
            && (a < f <= b ==> FragmentBetween(nz, s, k, a, b))
            && (f <= a ==> (FragmentBetween(nz, s, k, a, b) <==> FragmentBetween(nz, s, e, a - f, b - f)))
  {
    hide Fragment, AtFragment;
    var e, f := NextBoundary(nz, s, k + 1), |Fragment(nz, s, k)|;
    if FragmentBetween(nz, s, k, a, b) {
      var x: nat :| a < x <= b && AtFragment(nz, s, k, x);
      AtFragmentStep(nz, s, k, x);
      if f <= a { assert AtFragment(nz, s, e, x - f); }
    }
    if a < f <= b {
      AtFragmentStep(nz, s, k, f);
      FirstFragment(nz, s, e);
      assert AtFragment(nz, s, k, f);
    }
    if f <= a && FragmentBetween(nz, s, e, a - f, b - f) {
      var x: nat :| a - f < x <= b - f && AtFragment(nz, s, e, x);
      AtFragmentStep(nz, s, k, x + f);
      assert AtFragment(nz, s, k, x + f);
    }
  }

  lemma FirstFragment(nz: Normalizer, s: seq<int>, k: nat)
    requires k <= |s|
    ensures AtFragment(nz, s, k, 0)
  {
  }

  /** Native indexes never decrease, and increase exactly where a fragment starts. */
  lemma {:induction false} OriginsOrder(nz: Normalizer, inp: Input, k: nat, a: nat, b: nat)
    requires Positive(inp.size) && k <= |inp.chars| && a < b <= |Origins(nz, inp, k)|
    ensures var m := Origins(nz, inp, k) + [RangeEnd(inp)];
            m[a] <= m[b] && (m[a] < m[b] <==> FragmentBetween(nz, inp.chars, k, a, b))
    decreases |inp.chars| - k
  {
    hide Position, Fragment, FragmentBetween, NormalText;
    var e, f := NextBoundary(nz, inp.chars, k + 1), |Fragment(nz, inp.chars, k)|;
    BetweenStep(nz, inp.chars, k, a, b);
    if f <= a {
      OriginsOrder(nz, inp, e, a - f, b - f);
    } else if f <= b {
      PositionOrder(inp, k, e);
      if b < |Origins(nz, inp, k)| { OriginsInRange(nz, inp, e, b - f); } else { OriginsInRange(nz, inp, k, a); }
    }
  }

  /** The native indexes of two positions differ exactly if some position between them stands for one of the range. */
  lemma PlacesOrder(nz: Normalizer, inp: Input, a: nat, b: nat)
    requires Positive(inp.size) && a < b <= |Text(nz, inp)|
    ensures Places(nz, inp)[a] <= Places(nz, inp)[b]
    ensures Places(nz, inp)[a] < Places(nz, inp)[b] <==> exists x: nat :: a < x <= b && Represented(nz, inp, x)
  {
    hide Position, Origins, NormalText, AtFragment;
    if nz.isNormalized(inp.chars) {
      PositionOrder(inp, a, b);
      assert Represented(nz, inp, b);
    } else {
      OriginsOrder(nz, inp, 0, a, b);
      assert forall x: nat :: Represented(nz, inp, x) == AtFragment(nz, inp.chars, 0, x);
    }
  }

  /** They lie in the range, and only the last one at its end. */
  lemma PlacesInRange(nz: Normalizer, inp: Input, a: nat)
    requires Positive(inp.size) && a <= |Text(nz, inp)|
    ensures inp.rangeStart <= Places(nz, inp)[a] <= RangeEnd(inp)
    ensures Places(nz, inp)[a] == RangeEnd(inp) <==> a == |Text(nz, inp)|
  {
    hide Native, Origins, NormalText;
    NothingYet(inp);
    if a < |Text(nz, inp)| {
      if nz.isNormalized(inp.chars) {
        PositionOrder(inp, a, |inp.chars|);
      } else {
        OriginsInRange(nz, inp, 0, a);
      }
    }
  }
}
