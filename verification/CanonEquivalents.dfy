/**
  The recursive search for canonically equivalent strings of source/common/caniter.cpp, over an abstract NFD
  (Unicode Standard Annex #15), on strings of code points.
 */
module CanonEquivalents {
  import opened CanonPermute

  /** The Unicode data: NFD, combining classes, the characters whose decomposition starts with c, segment starters. */
  datatype Data = Data(nfd: Text -> Text, ccc: int -> int, starts: int -> seq<int>, isSegmentStarter: int -> bool)

  // ---------- what is assumed of NFD ----------

  ghost predicate IsIdempotent(nfd: Text -> Text) { forall x :: nfd(nfd(x)) == nfd(x) }

  ghost predicate RespectsConcatenation(nfd: Text -> Text) { forall x, y :: nfd(x + y) == nfd(nfd(x) + nfd(y)) }

  ghost predicate KeepsNonEmpty(nfd: Text -> Text) { forall x :: x != [] ==> nfd(x) != [] }

  ghost predicate ClosedUnderSubstring(nfd: Text -> Text) {
    forall x, i: nat, j: nat :: i <= j <= |x| && nfd(x) == x ==> IsNormal(nfd, x[i..j])
  }

  predicate IsNormal(nfd: Text -> Text, x: Text) { nfd(x) == x }

  ghost predicate IsNfd(nfd: Text -> Text) {
    IsIdempotent(nfd) && RespectsConcatenation(nfd) && KeepsNonEmpty(nfd) && ClosedUnderSubstring(nfd)
  }

  /** Replacing both parts by equivalent ones keeps a concatenation equivalent. */
  lemma Congruence(nfd: Text -> Text, a: Text, b: Text, x: Text, y: Text)
    requires RespectsConcatenation(nfd) && nfd(a) == nfd(x) && nfd(b) == nfd(y)
    ensures nfd(a + b) == nfd(x + y)
  {
    assert nfd(a + b) == nfd(nfd(a) + nfd(b));
    assert nfd(x + y) == nfd(nfd(x) + nfd(y));
  }

  // ---------- taking one composite out of a segment ----------

  datatype Remainder = Fails | Leaves(rest: Text)

  function Keep(c: int, r: Remainder): Remainder { if r.Fails? then r else Leaves([c] + r.rest) }

  /** What is left of tail when the characters of decomp from k on are taken out in order, each where it comes first. */
  function TakeOut(decomp: Text, k: nat, tail: Text): Remainder
    requires k < |decomp|
    decreases |tail|
  {
    if |tail| == 0 then Fails
    else if tail[0] != decomp[k] then Keep(tail[0], TakeOut(decomp, k, tail[1..]))
    else if k + 1 == |decomp| then Leaves(tail[1..])
    else TakeOut(decomp, k + 1, tail[1..])
  }

  lemma {:induction false} TakeOutShrinks(decomp: Text, k: nat, tail: Text)
    requires k < |decomp| && TakeOut(decomp, k, tail).Leaves?
    ensures |TakeOut(decomp, k, tail).rest| + |decomp| - k == |tail|
    ensures TakeOut(decomp, k, tail).rest == [] ==> tail == decomp[k..]
    decreases |tail|
  {
    if tail[0] != decomp[k] {
      TakeOutShrinks(decomp, k, tail[1..]);
    } else if k + 1 < |decomp| {
      TakeOutShrinks(decomp, k + 1, tail[1..]);
    }
  }

  /** What is left when the composite c is taken out of tail; the result must be canonically equivalent to tail. */
  function Taken(d: Data, c: int, tail: Text): Remainder {
    var decomp := d.nfd([c]);
    if |decomp| == 0 then Fails
    else
      var r := TakeOut(decomp, 0, tail);
      if r.Leaves? && (r.rest == [] || d.nfd([c] + r.rest) == tail) then r else Fails
  }

  /** The composite and the rest are equivalent to what they were taken from. */
  lemma TakenEquivalent(d: Data, c: int, tail: Text)
    requires IsNfd(d.nfd) && Taken(d, c, tail).Leaves?
    ensures d.nfd([c] + Taken(d, c, tail).rest) == d.nfd(tail)
  {
    hide TakeOut;
    var decomp, r := d.nfd([c]), Taken(d, c, tail).rest;
    TakeOutShrinks(decomp, 0, tail);
    if r == [] {
      assert tail == decomp;
      assert [c] + r == [c];
    }
  }

  // ---------- the strings that the search derives ----------

  /** s is seg, or seg with a composite in place of characters from some position on, and a derived rest. */
  ghost predicate Derives(d: Data, seg: Text, s: Text)
    decreases |seg|, 1
  {
    || s == seg
    || exists i: nat, c: int, item: Text ::
         i < |seg| && c in d.starts(seg[i]) && DerivesAt(d, seg, i, c, item, s)
  }

  ghost predicate DerivesAt(d: Data, seg: Text, i: nat, c: int, item: Text, s: Text)
    requires i < |seg|
    decreases |seg|, 0
  {
    var r := Taken(d, c, seg[i..]);
    r.Leaves? && |r.rest| < |seg| && Derives(d, r.rest, item) && s == seg[..i] + [c] + item
  }

  /** Everything derived is canonically equivalent. */
  lemma {:induction false} DerivesEquivalent(d: Data, seg: Text, s: Text)
    requires IsNfd(d.nfd) && Derives(d, seg, s)
    ensures d.nfd(s) == d.nfd(seg)
    decreases |seg|
  {
    hide IsNfd, Taken;
    if s != seg {
      var i: nat, c: int, item: Text :| i < |seg| && c in d.starts(seg[i]) && DerivesAt(d, seg, i, c, item, s);
      var r := Taken(d, c, seg[i..]).rest;
      DerivesEquivalent(d, r, item);
      TakenEquivalent(d, c, seg[i..]);
      Chain(d, seg[..i], c, item, r, seg[i..]);
      assert seg[..i] + seg[i..] == seg;
    }
  }

  lemma Chain(d: Data, front: Text, c: int, item: Text, r: Text, tail: Text)
    requires IsNfd(d.nfd) && d.nfd(item) == d.nfd(r) && d.nfd([c] + r) == d.nfd(tail)
    ensures d.nfd(front + [c] + item) == d.nfd(front + tail)
  {
    Congruence(d.nfd, [c], item, [c], r);
    Congruence(d.nfd, front, [c] + item, front, tail);
    assert front + [c] + item == front + ([c] + item);
  }

  // ---------- the search ----------

  /** The scan of extract(): takes the decomposition out of segment[segmentPos..]. */
  method ScanSegment(decomp: Text, segment: Text, segmentPos: nat) returns (ok: bool, rest: Text)
    requires |decomp| > 0 && segmentPos <= |segment|
    ensures TakeOut(decomp, 0, segment[segmentPos..]) == if ok then Leaves(rest) else Fails
  {
    hide TakeOut;
    var temp: Text, decompPos, i := [], 0, segmentPos;
    ghost var goal := TakeOut(decomp, 0, segment[segmentPos..]);
    KeepNone(goal);
    while i < |segment|
      invariant segmentPos <= i <= |segment| && 0 <= decompPos < |decomp|
      invariant goal == KeepAll(temp, TakeOut(decomp, decompPos, segment[i..]))
    {
      TakeOutStep(decomp, decompPos, segment, i);
      var cp := segment[i];
      i := i + 1;
      if cp == decomp[decompPos] {
        if decompPos + 1 == |decomp| {
          return true, temp + segment[i..];
        }
        decompPos := decompPos + 1;
      } else {
        KeepMore(temp, cp, TakeOut(decomp, decompPos, segment[i..]));
        temp := temp + [cp];
      }
    }
    TakeOutNone(decomp, decompPos, segment[i..]);
    return false, [];
  }

  function KeepAll(cs: Text, r: Remainder): Remainder { if r.Fails? then r else Leaves(cs + r.rest) }

  lemma KeepNone(r: Remainder)
    ensures KeepAll([], r) == r
  {
    if r.Leaves? { assert [] + r.rest == r.rest; }
  }

  lemma KeepMore(cs: Text, c: int, r: Remainder)
    ensures KeepAll(cs, Keep(c, r)) == KeepAll(cs + [c], r)
  {
    if r.Leaves? { assert cs + ([c] + r.rest) == cs + [c] + r.rest; }
  }

  lemma TakeOutStep(decomp: Text, k: nat, segment: Text, i: nat)
    requires k < |decomp| && i < |segment|
    ensures TakeOut(decomp, k, segment[i..])
            == if segment[i] != decomp[k] then Keep(segment[i], TakeOut(decomp, k, segment[i + 1..]))
               else if k + 1 == |decomp| then Leaves(segment[i + 1..])
               else TakeOut(decomp, k + 1, segment[i + 1..])
  {
    assert segment[i..][1..] == segment[i + 1..];
  }

  lemma TakeOutNone(decomp: Text, k: nat, tail: Text)
    requires k < |decomp| && tail == []
    ensures TakeOut(decomp, k, tail) == Fails
  {
  }

  /** extract(): the equivalents of what is left of segment[segmentPos..] when comp is taken out. */
  method Extract(d: Data, comp: int, segment: Text, segmentPos: nat) returns (ok: bool, items: set<Text>)
    requires IsNfd(d.nfd) && segmentPos < |segment|
    ensures var r := Taken(d, comp, segment[segmentPos..]);
            && ok == r.Leaves?
            && (ok ==> |r.rest| < |segment| && forall s :: s in items <==> Derives(d, r.rest, s))
    decreases |segment|, 0
  {
    hide TakeOut, Derives;
    var decomp := d.nfd([comp]);
    var rest;
    ok, rest := ScanSegment(decomp, segment, segmentPos);
    items := {};
    if !ok { return; }
    TakeOutShrinks(decomp, 0, segment[segmentPos..]);
    if rest == [] {
      OnlyEmpty(d);
      items := {[]};
      return;
    }
    if d.nfd([comp] + rest) != segment[segmentPos..] {
      ok := false;
      return;
    }
    items := GetEquivalents2(d, rest);
  }

  lemma OnlyEmpty(d: Data)
    ensures forall s :: Derives(d, [], s) <==> s == []
  {
  }

  /** c in place of characters of seg from i on derives s. */
  ghost predicate DerivesWith(d: Data, seg: Text, i: nat, c: int, s: Text)
    requires i < |seg|
  {
    exists item: Text :: DerivesAt(d, seg, i, c, item, s)
  }

  /** One of the first k composites at i derives s. */
  ghost predicate DerivesAmong(d: Data, seg: Text, i: nat, k: nat, s: Text)
    requires i < |seg|
  {
    exists j :: 0 <= j < k && j < |d.starts(seg[i])| && DerivesWith(d, seg, i, d.starts(seg[i])[j], s)
  }

  /** Some composite at a position before i derives s. */
  ghost predicate DerivesBefore(d: Data, seg: Text, i: nat, s: Text) {
    exists j: nat :: j < i && j < |seg| && DerivesAmong(d, seg, j, |d.starts(seg[j])|, s)
  }

  /** getEquivalents2(): exactly the derived strings. */
  method GetEquivalents2(d: Data, segment: Text) returns (result: set<Text>)
    requires IsNfd(d.nfd)
    ensures forall s :: s in result <==> Derives(d, segment, s)
    decreases |segment|, 2
  {
    hide Derives, DerivesBefore, DerivesAmong, IsNfd;
    result := {segment};
    forall s ensures !DerivesBefore(d, segment, 0, s) { NoneBefore(d, segment, s); }
    var i := 0;
    while i < |segment|
      invariant 0 <= i <= |segment|
      invariant forall s :: s in result <==> s == segment || DerivesBefore(d, segment, i, s)
    {
      result := AddComposites(d, segment, i, result);
      forall s
        ensures DerivesBefore(d, segment, i + 1, s)
                <==> DerivesBefore(d, segment, i, s) || DerivesAmong(d, segment, i, |d.starts(segment[i])|, s)
      {
        OneMoreBefore(d, segment, i, s);
      }
      i := i + 1;
    }
    forall s ensures Derives(d, segment, s) <==> s == segment || DerivesBefore(d, segment, |segment|, s) {
      DerivesIs(d, segment, s);
    }
  }

  /** The composites that may start at i, each with the equivalents of the remainder. */
  method AddComposites(d: Data, segment: Text, i: nat, result0: set<Text>) returns (result: set<Text>)
    requires IsNfd(d.nfd) && i < |segment|
    ensures forall s :: s in result <==> s in result0 || DerivesAmong(d, segment, i, |d.starts(segment[i])|, s)
    decreases |segment|, 1
  {
    hide Derives, DerivesAmong, IsNfd, DerivesWith;
    result := result0;
    var starts := d.starts(segment[i]);
    forall s ensures !DerivesAmong(d, segment, i, 0, s) { NoneAmong(d, segment, i, s); }
    var k := 0;
    while k < |starts|
      invariant 0 <= k <= |starts|
      invariant forall s :: s in result <==> s in result0 || DerivesAmong(d, segment, i, k, s)
    {
      var cp2 := starts[k];
      var ok, items := Extract(d, cp2, segment, i);
      if ok {
        result := AddAll(segment[..i] + [cp2], items, result);
      }
      forall s
        ensures DerivesAmong(d, segment, i, k + 1, s) <==>
                DerivesAmong(d, segment, i, k, s) || DerivesWith(d, segment, i, cp2, s)
        ensures DerivesWith(d, segment, i, cp2, s) <==> ok && StartsWithOneOf(segment[..i] + [cp2], items, s)
      {
        OneMoreAmong(d, segment, i, k, s);
        WithIs(d, segment, i, cp2, s, ok, items);
      }
      k := k + 1;
    }
  }

  predicate StartsWithOneOf(prefix: Text, items: set<Text>, s: Text) {
    |prefix| <= |s| && s[..|prefix|] == prefix && s[|prefix|..] in items
  }

  method AddAll(prefix: Text, items: set<Text>, result0: set<Text>) returns (result: set<Text>)
    ensures forall s :: s in result <==> s in result0 || StartsWithOneOf(prefix, items, s)
  {
    result := result0;
    var left := items;
    while left != {}
      invariant left <= items
      invariant forall s :: s in result <==> s in result0 || StartsWithOneOf(prefix, items - left, s)
      decreases |left|
    {
      var item :| item in left;
      result := result + {prefix + item};
      left := left - {item};
      forall s
        ensures s in result <==> s in result0 || StartsWithOneOf(prefix, items - left, s)
      {
        if |prefix| <= |s| { assert s == s[..|prefix|] + s[|prefix|..]; }
      }
    }
  }

  lemma WithIs(d: Data, seg: Text, i: nat, c: int, s: Text, ok: bool, items: set<Text>)
    requires i < |seg|
    requires var r := Taken(d, c, seg[i..]);
             ok == r.Leaves? && (ok ==> |r.rest| < |seg| && forall x :: x in items <==> Derives(d, r.rest, x))
    ensures DerivesWith(d, seg, i, c, s) <==> ok && StartsWithOneOf(seg[..i] + [c], items, s)
  {
    hide Derives, Taken;
    var prefix := seg[..i] + [c];
    if DerivesWith(d, seg, i, c, s) {
      var item: Text :| DerivesAt(d, seg, i, c, item, s);
      assert s[|prefix|..] == item;
    }
    if ok && StartsWithOneOf(prefix, items, s) {
      var item := s[|prefix|..];
      assert s == prefix + item;
      assert DerivesAt(d, seg, i, c, item, s);
    }
  }

  lemma NoneBefore(d: Data, seg: Text, s: Text)
    ensures !DerivesBefore(d, seg, 0, s)
  {
  }

  lemma NoneAmong(d: Data, seg: Text, i: nat, s: Text)
    requires i < |seg|
    ensures !DerivesAmong(d, seg, i, 0, s)
  {
  }

  lemma OneMoreBefore(d: Data, seg: Text, i: nat, s: Text)
    requires i < |seg|
    ensures DerivesBefore(d, seg, i + 1, s) <==>
            DerivesBefore(d, seg, i, s) || DerivesAmong(d, seg, i, |d.starts(seg[i])|, s)
  {
    hide DerivesAmong;
  }

  lemma OneMoreAmong(d: Data, seg: Text, i: nat, k: nat, s: Text)
    requires i < |seg| && k < |d.starts(seg[i])|
    ensures DerivesAmong(d, seg, i, k + 1, s) <==>
            DerivesAmong(d, seg, i, k, s) || DerivesWith(d, seg, i, d.starts(seg[i])[k], s)
  {
    hide DerivesWith;
  }

  lemma DerivesOpen(d: Data, seg: Text, s: Text) returns (i: nat, c: int, item: Text)
    requires Derives(d, seg, s) && s != seg
    ensures i < |seg| && c in d.starts(seg[i]) && DerivesAt(d, seg, i, c, item, s)
  {
    i, c, item :| i < |seg| && c in d.starts(seg[i]) && DerivesAt(d, seg, i, c, item, s);
  }

  lemma DerivesIs(d: Data, seg: Text, s: Text)
    ensures Derives(d, seg, s) <==> s == seg || DerivesBefore(d, seg, |seg|, s)
  {
    hide Taken;
    if s != seg && Derives(d, seg, s) {
      var i, c, item := DerivesOpen(d, seg, s);
      var k :| 0 <= k < |d.starts(seg[i])| && d.starts(seg[i])[k] == c;
      assert DerivesWith(d, seg, i, d.starts(seg[i])[k], s);
      assert DerivesAmong(d, seg, i, |d.starts(seg[i])|, s);
    }
    if DerivesBefore(d, seg, |seg|, s) {
      var i: nat :| i < |seg| && DerivesAmong(d, seg, i, |d.starts(seg[i])|, s);
      var k :| 0 <= k < |d.starts(seg[i])| && DerivesWith(d, seg, i, d.starts(seg[i])[k], s);
      var item: Text :| DerivesAt(d, seg, i, d.starts(seg[i])[k], item, s);
      assert d.starts(seg[i])[k] in d.starts(seg[i]);
    }
  }
}
