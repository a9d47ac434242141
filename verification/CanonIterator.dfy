/**
  CanonicalIterator of source/common/caniter.cpp: segments of the NFD source, the equivalents of each segment, and
  the odometer over them.
 */
module CanonIterator {
  import opened Basics
  import opened DictText
  import opened CanonPermute
  import opened CanonOdometer
  import opened CanonEquivalents

  // ---------- the equivalents of a segment ----------

  /** s is a rearrangement of a derived string, and canonically equivalent to the segment. */
  ghost predicate IsEquivalent(d: Data, segment: Text, s: Text) {
    d.nfd(s) == segment && exists b: Text :: Derives(d, segment, b) && Rearranged(d.ccc, b, s, true)
  }

  ghost predicate HasAll(d: Data, segment: Text, piece: seq<Text>) {
    && (forall s :: s in piece <==> IsEquivalent(d, segment, s))
    && (forall i, j :: 0 <= i < j < |piece| ==> piece[i] != piece[j])
  }

  /** A segment in NFD is one of its own equivalents. */
  lemma SegmentItself(d: Data, segment: Text)
    requires d.nfd(segment) == segment
    ensures IsEquivalent(d, segment, segment)
  {
    hide Rearranged;
    SameOrder(d.ccc, segment);
    assert Derives(d, segment, segment);
  }

  lemma SameOrder(ccc: int -> int, s: Text)
    ensures Rearranged(ccc, s, s, true)
  {
    var order := seq(|s|, i => i);
    forall v | 0 <= v < |s| ensures v in order { assert order[v] == v; }
    assert RearrangedBy(ccc, s, s, true, order);
  }

  /** UTF-16 length */
  function Length16(s: Text): nat { Native(Units, s) }

  const SEGMENT_CAPACITY := 256

  datatype Equivalents = Found(strings: seq<Text>) | BufferOverflow | IllegalArgument

  /**
    getEquivalents(): all of them, each once; an error exactly if the segment does not fit the buffer, or there is
    none.
   */
  method GetEquivalents(d: Data, segment: Text) returns (r: Equivalents)
    requires IsNfd(d.nfd)
    ensures r.BufferOverflow? <==> Length16(segment) > SEGMENT_CAPACITY
    ensures r.Found? ==> |r.strings| > 0 && HasAll(d, segment, r.strings)
    ensures r.IllegalArgument? ==> forall s :: !IsEquivalent(d, segment, s)
    ensures d.nfd(segment) == segment ==> !r.IllegalArgument?
  {
    hide Derives, Rearranged, IsNfd;
    if Length16(segment) > SEGMENT_CAPACITY { return BufferOverflow; }
    var basic := GetEquivalents2(d, segment);
    var result: set<Text> := {};
    var left := basic;
    while left != {}
      invariant left <= basic
      invariant forall s :: s in result <==>
                  d.nfd(s) == segment && exists b: Text :: b in basic - left && Rearranged(d.ccc, b, s, true)
      decreases |left|
    {
      var item :| item in left;
      left := left - {item};
      var permutations := Permute(d.ccc, item, true, {});
      result := AddEquivalent(d, segment, permutations, result);
    }
    assert forall s :: s in result <==> IsEquivalent(d, segment, s);
    if d.nfd(segment) == segment { SegmentItself(d, segment); }
    if result == {} { return IllegalArgument; }
    var list := ListOf(result);
    return Found(list);
  }

  method AddEquivalent(d: Data, segment: Text, permutations: set<Text>, result0: set<Text>) returns (result: set<Text>)
    ensures forall s :: s in result <==> s in result0 || (s in permutations && d.nfd(s) == segment)
  {
    result := result0;
    var left := permutations;
    while left != {}
      invariant left <= permutations
      invariant forall s :: s in result <==> s in result0 || (s in permutations - left && d.nfd(s) == segment)
      decreases |left|
    {
      var possible :| possible in left;
      left := left - {possible};
      if d.nfd(possible) == segment { result := result + {possible}; }
    }
  }

  /** The elements of a set in some order. */
  method ListOf(all: set<Text>) returns (list: seq<Text>)
    ensures |list| == |all| && (forall s :: s in list <==> s in all)
    ensures forall i, j :: 0 <= i < j < |list| ==> list[i] != list[j]
  {
    list := [];
    var left := all;
    while left != {}
      invariant left <= all && |list| + |left| == |all| && (forall s :: s in list <==> s in all - left)
      invariant forall i, j :: 0 <= i < j < |list| ==> list[i] != list[j]
      decreases |left|
    {
      var s :| s in left;
      assert s !in list;
      left := left - {s};
      list := list + [s];
    }
  }

  // ---------- segments ----------

  function Concat(list: seq<Text>): Text {
    if |list| == 0 then [] else Concat(list[..|list| - 1]) + list[|list| - 1]
  }

  /** A segment starts where a segment starter is, unless it is the first, and contains no other. */
  ghost predicate IsSegment(d: Data, source: Text, segment: Text, isFirst: bool) {
    && |segment| > 0 && (isFirst || d.isSegmentStarter(segment[0])) && IsPart(source, segment)
    && forall j :: 0 < j < |segment| ==> !d.isSegmentStarter(segment[j])
  }

  /** Where the segment that contains the character before i ends. */
  function SegmentEnd(d: Data, s: Text, i: nat): (e: nat)
    requires i <= |s|
    ensures i <= e <= |s| && (e < |s| ==> d.isSegmentStarter(s[e]))
    ensures forall j :: i <= j < e ==> !d.isSegmentStarter(s[j])
    decreases |s| - i
  {
    if i < |s| && !d.isSegmentStarter(s[i]) then SegmentEnd(d, s, i + 1) else i
  }

  /** The source cut before every character, other than its first, that starts a segment. */
  function Segments(d: Data, s: Text): seq<Text> {
    if |s| == 0 then [] else var e := SegmentEnd(d, s, 1); [s[..e]] + Segments(d, s[e..])
  }

  lemma {:induction false} EndIs(d: Data, s: Text, i: nat, e: nat)
    requires i <= e <= |s| && (e < |s| ==> d.isSegmentStarter(s[e])) && forall j :: i <= j < e ==>
             !d.isSegmentStarter(s[j])
    ensures SegmentEnd(d, s, i) == e
    decreases e - i
  {
    if i < e { EndIs(d, s, i + 1, e); }
  }

  /** The first segment of what starts at start ends at i. */
  lemma NextSegment(d: Data, source: Text, start: nat, i: nat)
    requires start < i <= |source| && (i < |source| ==> d.isSegmentStarter(source[i]))
    requires forall j :: start < j < i ==> !d.isSegmentStarter(source[j])
    ensures Segments(d, source[start..]) == [source[start..i]] + Segments(d, source[i..])
  {
    var s := source[start..];
    EndIs(d, s, 1, i - start);
    assert s[..i - start] == source[start..i] && s[i - start..] == source[i..];
  }

  method FindSegments(d: Data, source: Text) returns (list: seq<Text>)
    requires |source| > 0
    ensures list == Segments(d, source)
    ensures |list| > 0 && Concat(list) == source
    ensures forall k :: 0 <= k < |list| ==> IsSegment(d, source, list[k], k == 0)
  {
    hide IsPart, Concat, IsSegment, Segments;
    list := [];
    NothingYet(d, source);
    var start, i := 0, 1;
    while i < |source|
      invariant 0 <= start < i <= |source| && Concat(list) == source[..start] && (|list| == 0 <==> start == 0)
      invariant Segments(d, source) == list + Segments(d, source[start..])
      invariant start > 0 ==> d.isSegmentStarter(source[start])
      invariant forall j :: start < j < i ==> !d.isSegmentStarter(source[j])
      invariant forall k :: 0 <= k < |list| ==> IsSegment(d, source, list[k], k == 0)
    {
      if d.isSegmentStarter(source[i]) {
        Cut(d, source, start, i, list);
        NextSegment(d, source, start, i);
        list := list + [source[start..i]];
        start := i;
      }
      i := i + 1;
    }
    Cut(d, source, start, i, list);
    NextSegment(d, source, start, i);
    list := list + [source[start..i]];
    NothingLeft(d, source);
  }

  lemma NothingYet(d: Data, source: Text)
    ensures Concat([]) == source[..0] && Segments(d, source) == [] + Segments(d, source[0..])
  {
    assert source[0..] == source;
  }

  lemma NothingLeft(d: Data, source: Text)
    ensures Segments(d, source[|source|..]) == [] && source[..|source|] == source
  {
  }

  ghost predicate IsPart(source: Text, part: Text) {
    exists i: nat, j: nat :: i <= j <= |source| && part == source[i..j]
  }

  lemma Cut(d: Data, source: Text, start: nat, i: nat, list: seq<Text>)
    requires start < i <= |source| && Concat(list) == source[..start]
    requires start > 0 ==> d.isSegmentStarter(source[start])
    requires forall j :: start < j < i ==> !d.isSegmentStarter(source[j])
    ensures Concat(list + [source[start..i]]) == source[..i] && IsSegment(d, source, source[start..i], start == 0)
  {
    assert (list + [source[start..i]])[..|list|] == list;
    assert source[..start] + source[start..i] == source[..i];
  }

  lemma PartIsNormal(nfd: Text -> Text, source: Text, part: Text)
    requires ClosedUnderSubstring(nfd) && nfd(source) == source && IsPart(source, part)
    ensures nfd(part) == part
  {
    var i: nat, j: nat :| i <= j <= |source| && part == source[i..j];
    assert IsNormal(nfd, source[i..j]);
  }

  // ---------- the iterator ----------

  function Lengths(pieces: seq<seq<Text>>): (r: seq<nat>)
    ensures |r| == |pieces| && forall i :: 0 <= i < |r| ==> r[i] == |pieces[i]|
  {
    seq(|pieces|, i requires 0 <= i < |pieces| => |pieces[i]|)
  }

  /** The strings that an index vector selects. */
  function Chosen(pieces: seq<seq<Text>>, v: seq<nat>): (r: seq<Text>)
    requires IsVector(Lengths(pieces), v)
    ensures |r| == |v| && forall i :: 0 <= i < |r| ==> r[i] == pieces[i][v[i]]
  {
    seq(|v|, i requires 0 <= i < |v| => pieces[i][v[i]])
  }

  /** The pieces hold all equivalents of the segments of source. */
  ghost predicate Covers(d: Data, source: Text, segments: seq<Text>, pieces: seq<seq<Text>>) {
    && |segments| == |pieces| && Concat(segments) == source
    && forall k :: 0 <= k < |pieces| ==>
         |pieces[k]| > 0 && HasAll(d, segments[k], pieces[k]) && d.nfd(segments[k]) == segments[k]
  }

  predicate AllFit(segments: seq<Text>) {
    forall k :: 0 <= k < |segments| ==> Length16(segments[k]) <= SEGMENT_CAPACITY
  }

  ghost predicate AllFound(d: Data, segments: seq<Text>, found: seq<seq<Text>>) {
    && |found| <= |segments|
    && forall k :: 0 <= k < |found| ==>
         |found[k]| > 0 && HasAll(d, segments[k], found[k]) && d.nfd(segments[k]) == segments[k]
  }

  /** The equivalents of all segments; from one that does not fit on, none. */
  method FindPieces(d: Data, normal: Text, list: seq<Text>) returns (ok: bool, found: seq<seq<Text>>)
    requires IsNfd(d.nfd) && d.nfd(normal) == normal
    requires forall k :: 0 <= k < |list| ==> IsSegment(d, normal, list[k], k == 0)
    ensures |found| == |list| && (ok <==> AllFit(list))
    ensures ok ==> AllFound(d, list, found)
    ensures !ok ==> exists k :: 0 <= k < |found| && found[k] == []
  {
    hide HasAll, IsNfd, IsSegment, Length16;
    found, ok := [], true;
    ghost var missing := 0;
    for i := 0 to |list|
      invariant |found| == i && (ok <==> AllFit(list[..i]))
      invariant if ok then AllFound(d, list, found) else 0 <= missing < i && found[missing] == []
    {
      assert list[..i + 1] == list[..i] + [list[i]];
      if ok {
        SegmentNormal(d, normal, list[i], i == 0);
        var r := GetEquivalents(d, list[i]);
        ok, missing := r.Found?, i;
        found := found + [if ok then r.strings else []];
      } else {
        found := found + [[]];
      }
    }
    assert list[..|list|] == list;
  }

  class CanonicalIterator {
    const d: Data
    var source: Text
    var pieces: seq<seq<Text>>
    var current: array<nat>
    var done: bool

    ghost predicate Valid()
      reads this, current
    {
      current.Length == |pieces| && IsVector(Lengths(pieces), current[..])
    }

    constructor (d: Data)
      ensures this.d == d && Valid() && done
    {
      this.d, source, pieces, done := d, [], [], true;
      current := new nat[0];
    }

    /**
      setSource(): an error exactly if some segment of the NFD source does not fit the buffer; then the pieces
      of that segment and of all later ones are missing, and the object must not be used.
     */
    method SetSource(newSource: Text) returns (ok: bool)
      requires IsNfd(d.nfd)
      modifies this
      ensures ok <==> AllFit(Segments(d, d.nfd(newSource))) || newSource == []
      ensures source == d.nfd(newSource) && !done && fresh(current) && (Valid() <==> ok)
      ensures ok ==> current[..] == Zeros(|pieces|) && AllPositive(Lengths(pieces))
      ensures ok ==> if newSource == [] then pieces == [[[]]] else Covers(d, source, Segments(d, source), pieces)
    {
      hide HasAll, IsNfd, IsSegment, Concat, Segments, Length16;
      var normal := d.nfd(newSource);
      source := normal;
      done := false;
      ok := true;
      if |newSource| == 0 {
        pieces := [[[]]];
        current := new nat[1](_ => 0);
        return;
      }
      SourceNormal(d, newSource);
      var list := FindSegments(d, normal);
      ok, pieces := FindPieces(d, normal, list);
      current := new nat[|pieces|](_ => 0);
    }

    /** reset() */
    method Reset()
      requires Valid() && AllPositive(Lengths(pieces))
      modifies current, this`done
      ensures Valid() && !done && current[..] == Zeros(|pieces|)
    {
      done := false;
      for i := 0 to current.Length
        invariant !done && forall k :: 0 <= k < i ==> current[k] == 0
      {
        current[i] := 0;
      }
    }

    /** next(): the string at the current index vector; the vector counts up by one, or the iteration is done. */
    method Next() returns (r: Option<Text>)
      requires Valid()
      modifies this`done, current
      ensures Valid()
      ensures old(done) ==> r == None && done && current[..] == old(current[..])
      ensures !old(done) ==>
                && r == Some(Concat(Chosen(pieces, old(current[..]))))
                && done == IsLast(Lengths(pieces), old(current[..]))
                && current[..] == Increment(Lengths(pieces), old(current[..]))
    {
      hide Increment, Concat, IsVector;
      if done { return None; }
      IncrementIsVector(Lengths(pieces), current[..]);
      var buffer := Collect();
      r := Some(buffer);
      var overflow := CountUp();
      if overflow { done := true; }
    }

    /** Finds the next value of the index vector for next time. */
    method CountUp() returns (overflow: bool)
      requires Valid()
      modifies current
      ensures current[..] == Increment(Lengths(pieces), old(current[..]))
              && overflow == IsLast(Lengths(pieces), old(current[..]))
    {
      hide Increment, IsVector, IsLast;
      ghost var v, radices := current[..], Lengths(pieces);
      DigitsBelow(radices, v);
      var i := current.Length - 1;
      WholeIncrement(radices, v);
      assert current[current.Length..] == [] && current[..current.Length] == v;
      while true
        invariant -1 <= i < current.Length && current[..i + 1] == v[..i + 1]
        invariant forall k :: i < k < |v| ==> v[k] + 1 >= radices[k]
        invariant Increment(radices, v) == Increment(radices[..i + 1], v[..i + 1]) + current[i + 1..]
        decreases i
      {
        if i < 0 {
          NoIncrement(radices, v);
          LastMeans(radices, v);
          assert current[0..] == current[..] && [] + current[..] == current[..];
          return true;
        }
        CountStep(radices, v, i, current[..]);
        ghost var was := current[..];
        assert current[i + 1..] == was[i + 1..] && current[..i + 1] == was[..i + 1];
        var fits := Bump(i);
        if fits {
          LastMeans(radices, v);
          return false;
        }
        assert current[i..] == was[i := 0][i..] && current[..i] == was[i := 0][..i];
        i := i - 1;
      }
    }

    /** Counts digit i up, or sets it back to 0. */
    method Bump(i: nat) returns (fits: bool)
      requires current.Length == |pieces| && i < |pieces|
      modifies current
      ensures fits == (old(current[i]) + 1 < |pieces[i]|)
      ensures current[..] == old(current[..])[i := if fits then old(current[i]) + 1 else 0]
    {
      current[i] := current[i] + 1;
      fits := current[i] < |pieces[i]|;
      if !fits { current[i] := 0; }
    }

    /** The return value: the selected strings, one after the other. */
    method Collect() returns (buffer: Text)
      requires Valid()
      ensures buffer == Concat(Chosen(pieces, current[..]))
    {
      buffer := [];
      ghost var chosen := Chosen(pieces, current[..]);
      for i := 0 to |pieces|
        invariant buffer == Concat(chosen[..i])
      {
        buffer := buffer + pieces[i][current[i]];
        assert chosen[..i + 1][..i] == chosen[..i];
      }
      assert chosen[..|pieces|] == chosen;
    }

    /** Calls next() until it is done: one string for every index vector, in lexicographic order of the vectors. */
    method Drain() returns (all: seq<Text>)
      requires Valid() && AllPositive(Lengths(pieces)) && !done && current[..] == Zeros(|pieces|)
      modifies this`done, current
      ensures Valid() && done && |all| == Total(Lengths(pieces))
      ensures forall r :: 0 <= r < |all| ==>
              IsVector(Lengths(pieces), Nth(Lengths(pieces), r))
                && all[r] == Concat(Chosen(pieces, Nth(Lengths(pieces), r)))
    {
      hide Increment, Total, Rank, IsLast, IsVector, Concat, AllPositive, Nth, Zeros;
      ghost var radices := Lengths(pieces);
      all := [];
      TotalPositive(radices);
      NthZero(radices);
      while !done
        invariant Valid() && |all| <= Total(radices)
        invariant if done then |all| == Total(radices) else |all| < Total(radices) && current[..] == Nth(radices, |all|)
        invariant forall r :: 0 <= r < |all| ==>
                  IsVector(radices, Nth(radices, r)) && all[r] == Concat(Chosen(pieces, Nth(radices, r)))
        decreases Total(radices) - |all|, if done then 0 else 1
      {
        ghost var v := current[..];
        NthRank(radices, |all|);
        NthNext(radices, |all|);
        IncrementCounts(radices, v);
        var r := Next();
        all := all + [r.value];
        RankBelow(radices, v);
      }
    }
  }

  lemma NthZero(radices: seq<nat>)
    ensures Nth(radices, 0) == Zeros(|radices|)
  {
  }

  lemma NthNext(radices: seq<nat>, r: nat)
    ensures Nth(radices, r + 1) == Increment(radices, Nth(radices, r))
  {
  }

  lemma SourceNormal(d: Data, newSource: Text)
    requires IsNfd(d.nfd) && newSource != []
    ensures d.nfd(d.nfd(newSource)) == d.nfd(newSource) && |d.nfd(newSource)| > 0
  {
  }

  lemma SegmentNormal(d: Data, source: Text, segment: Text, isFirst: bool)
    requires IsNfd(d.nfd) && d.nfd(source) == source && IsSegment(d, source, segment, isFirst)
    ensures d.nfd(segment) == segment
  {
    PartIsNormal(d.nfd, source, segment);
  }

  lemma WholeIncrement(radices: seq<nat>, v: seq<nat>)
    requires |v| == |radices|
    ensures Increment(radices, v) == Increment(radices[..|v|], v[..|v|]) + []
  {
    hide Increment;
    assert radices[..|v|] == radices && v[..|v|] == v;
    var r := Increment(radices, v);
    assert r + [] == r;
  }

  lemma DigitsBelow(radices: seq<nat>, v: seq<nat>)
    requires IsVector(radices, v)
    ensures |v| == |radices| && forall i :: 0 <= i < |v| ==> v[i] < radices[i]
  {
  }

  lemma LastMeans(radices: seq<nat>, v: seq<nat>)
    requires IsVector(radices, v)
    ensures |v| == |radices|
    ensures IsLast(radices, v) <==> forall k :: 0 <= k < |v| ==> v[k] + 1 >= radices[k]
  {
  }

  /** Counting up at digit i of a vector that agrees with v up to i. */
  lemma CountStep(radices: seq<nat>, v: seq<nat>, i: nat, was: seq<nat>)
    requires i < |was| == |v| == |radices| && was[..i + 1] == v[..i + 1]
    requires Increment(radices, v) == Increment(radices[..i + 1], v[..i + 1]) + was[i + 1..]
    ensures was[i] == v[i]
    ensures v[i] + 1 < radices[i] ==> Increment(radices, v) == was[i := v[i] + 1]
    ensures v[i] + 1 >= radices[i] ==>
              Increment(radices, v) == Increment(radices[..i], v[..i]) + was[i := 0][i..] && was[i := 0][..i] == v[..i]
  {
    hide Increment;
    IncrementStep(radices, v, i);
    assert was[i] == was[..i + 1][i] == v[i];
    assert was[..i] == was[..i + 1][..i] == v[..i + 1][..i] == v[..i];
    assert was[i := 0][i..] == [0] + was[i + 1..];
    assert was[i := v[i] + 1] == v[..i] + [v[i] + 1] + was[i + 1..];
  }

  lemma NoIncrement(radices: seq<nat>, v: seq<nat>)
    requires |v| == |radices|
    ensures Increment(radices[..0], v[..0]) == []
  {
  }

  lemma IncrementStep(radices: seq<nat>, v: seq<nat>, i: nat)
    requires |v| == |radices| && i < |v|
    ensures Increment(radices[..i + 1], v[..i + 1])
            == if v[i] + 1 < radices[i] then v[..i] + [v[i] + 1] else Increment(radices[..i], v[..i]) + [0]
  {
    assert v[..i + 1][..i] == v[..i] && radices[..i + 1][..i] == radices[..i];
  }

  lemma TotalPositive(radices: seq<nat>)
    requires AllPositive(radices)
    ensures Total(radices) > 0
  {
    ZeroRank(radices, Zeros(|radices|));
    RankBelow(radices, Zeros(|radices|));
  }

  // ---------- what the iterator delivers ----------

  lemma {:induction false} ConcatEquivalent(nfd: Text -> Text, xs: seq<Text>, ys: seq<Text>)
    requires RespectsConcatenation(nfd) && |xs| == |ys| && forall i :: 0 <= i < |xs| ==> nfd(xs[i]) == nfd(ys[i])
    ensures nfd(Concat(xs)) == nfd(Concat(ys))
    decreases |xs|
  {
    if |xs| > 0 {
      var k := |xs| - 1;
      ConcatEquivalent(nfd, xs[..k], ys[..k]);
      Congruence(nfd, Concat(xs[..k]), xs[k], Concat(ys[..k]), ys[k]);
    }
  }

  /** Every string that an index vector selects is canonically equivalent to the source. */
  lemma EverythingEquivalent(d: Data, source: Text, segments: seq<Text>, pieces: seq<seq<Text>>, v: seq<nat>)
    requires IsNfd(d.nfd) && d.nfd(source) == source && Covers(d, source, segments, pieces)
             && IsVector(Lengths(pieces), v)
    ensures d.nfd(Concat(Chosen(pieces, v))) == source
  {
    hide Concat;
    var xs := Chosen(pieces, v);
    forall i | 0 <= i < |xs|
      ensures d.nfd(xs[i]) == d.nfd(segments[i])
    {
      assert xs[i] in pieces[i];
      assert IsEquivalent(d, segments[i], xs[i]);
    }
    ConcatEquivalent(d.nfd, xs, segments);
  }

  /** The source itself, in NFD, is selected by some index vector. */
  lemma SourceDelivered(d: Data, source: Text, segments: seq<Text>, pieces: seq<seq<Text>>) returns (v: seq<nat>)
    requires Covers(d, source, segments, pieces)
    ensures IsVector(Lengths(pieces), v) && Concat(Chosen(pieces, v)) == source
  {
    hide Concat, IsEquivalent;
    v := [];
    while |v| < |pieces|
      invariant |v| <= |pieces| && forall k :: 0 <= k < |v| ==> v[k] < |pieces[k]| && pieces[k][v[k]] == segments[k]
    {
      var k := |v|;
      SegmentItself(d, segments[k]);
      assert segments[k] in pieces[k];
      var j: nat :| j < |pieces[k]| && pieces[k][j] == segments[k];
      v := v + [j];
    }
    assert Chosen(pieces, v) == segments;
  }

  // ---------- a source that does not fit ----------

  lemma {:induction false} ShortUnits(s: Text)
    requires forall i :: 0 <= i < |s| ==> 0 <= s[i] <= 0xffff
    ensures Length16(s) == |s|
  {
    if |s| > 0 { ShortUnits(s[..|s| - 1]); }
  }

  /**
    U+0041 and 256 times U+0301, where only U+0041 starts segments and all of it is in NFD: one segment of 257 units.
   */
  lemma LongSegmentFails()
    ensures var d := Data(x => x, (c: int) => if c == 0x41 then 0 else 230, (c: int) => [], c => c == 0x41);
            var source := [0x41] + seq(256, _ => 0x301);
            IsNfd(d.nfd) && !AllFit(Segments(d, d.nfd(source)))
  {
    var d := Data(x => x, (c: int) => if c == 0x41 then 0 else 230, (c: int) => [], c => c == 0x41);
    var source := [0x41] + seq(256, _ => 0x301);
    EndIs(d, source, 1, 257);
    assert source[..257] == source && source[257..] == [];
    assert Segments(d, source)[0] == source;
    ShortUnits(source);
  }
}
