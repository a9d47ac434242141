/**
  The fast membership structure of source/common/bmpset.cpp: a byte table, two bit matrices and restricted
  binary searches, kept in agreement with the parent's inversion list.
 */
module BmpSets {
  import opened Basics
  import opened BmpBits
  import opened BmpTables
  import opened BmpText

  // ---------- what the tables must say ----------

  const BLOCKS := 0x400

  /** The byte table is right for U+0000..U+007F. */
  ghost predicate AsciiRight(list: seq<int>, a: seq<bool>) {
    |a| == 0xc0 && forall c :: 0 <= c < 0x80 ==> (a[c] <==> InSet(list, c))
  }

  /** One bit per code point U+0080..U+07FF. */
  ghost predicate TwoByteRight(list: seq<int>, t: seq<Word>) {
    |t| == 64 && forall c :: 0x80 <= c < 0x800 ==> (IsSet(t, c) <==> InSet(list, c))
  }

  predicate IsMixed(t: seq<Word>, b: int)
    requires |t| == 64 && 0 <= b < BLOCKS
  {
    IsSet(t, b + BLOCKS)
  }

  /** Block b of 64 code points is mixed, or its bit holds for each of them. */
  ghost predicate BlockRight(list: seq<int>, t: seq<Word>, b: int)
    requires |t| == 64 && 0 <= b < BLOCKS
  {
    IsMixed(t, b) || forall c :: 64 * b <= c < 64 * b + 64 ==> (InSet(list, c) <==> IsSet(t, b))
  }

  /** No bit is set for block b. */
  predicate IsClear(t: seq<Word>, b: int)
    requires |t| == 64 && 0 <= b < BLOCKS
  {
    !IsSet(t, b) && !IsMixed(t, b)
  }

  /** Blocks that no well-formed three-byte UTF-8 sequence reaches: U+0000..U+07FF and the surrogates. */
  predicate IsIllegalBlock(b: int) { b < 0x20 || 0x360 <= b < 0x380 }

  /** Illegal blocks give the answer for U+FFFD. */
  ghost predicate BlockFinal(list: seq<int>, t: seq<Word>, b: int)
    requires |t| == 64 && 0 <= b < BLOCKS
  {
    if IsIllegalBlock(b) then !IsMixed(t, b) && (IsSet(t, b) <==> InSet(list, REPLACEMENT)) else BlockRight(list, t, b)
  }

  /** Where the binary search for the 4k block i starts. */
  function BlockStart(i: int): int { if i == 0 then 0x800 else i * 0x1000 }

  ghost predicate StartsRight(list: seq<int>, starts: seq<nat>) {
    && IsInversionList(list) && |starts| == 18
    && (forall i :: 0 <= i <= 0x10 ==> starts[i] == SmallestAbove(list, BlockStart(i), 0))
    && starts[0x11] == |list| - 1
  }

  lemma PlaceGrows(list: seq<int>, x: int, y: int)
    requires IsInversionList(list) && x <= y < HIGH
    ensures SmallestAbove(list, x, 0) <= SmallestAbove(list, y, 0)
  {
    var i, j := SmallestAbove(list, x, 0), SmallestAbove(list, y, 0);
  }

  /** A restricted search between two block starts finds what a full search finds. */
  lemma BoundsEnclose(list: seq<int>, starts: seq<nat>, i: int, k: int, c: int)
    requires StartsRight(list, starts) && 0 <= i < k <= 0x11 && BlockStart(i) <= c
    requires if k == 0x11 then c < HIGH else c < BlockStart(k)
    ensures starts[i] <= starts[k] < |list| && c < list[starts[k]]
    ensures forall j :: 0 <= j < starts[i] ==> list[j] <= c
  {
    hide InSet;
    assert i <= 0x10;
    assert starts[i] == SmallestAbove(list, BlockStart(i), 0);
    if k < 0x11 {
      assert starts[k] == SmallestAbove(list, BlockStart(k), 0);
      PlaceGrows(list, BlockStart(i), BlockStart(k));
    }
  }

  // ---------- filling the tables range by range ----------

  /** The range cursor: start lies in the range that begins at the even index k; [from, start) is outside the set. */
  ghost predicate AtRange(list: seq<int>, k: nat, start: int, limit: int, listIndex: nat, from: int) {
    && IsInversionList(list) && k % 2 == 0 && k < |list| && limit == RangeEnd(list, k)
    && listIndex == (if k + 1 < |list| then k + 2 else k + 1)
    && list[k] <= start <= HIGH && 0 <= start && 0 <= from && (start < limit || start == limit == HIGH)
    && forall c :: from <= c < start ==> !InSet(list, c)
  }

  /** Where the gap before the range at k begins. */
  function GapStart(list: seq<int>, k: nat): int {
    if 0 < k <= |list| then list[k - 1] else 0
  }

  lemma HasNext(list: seq<int>, k: nat)
    requires IsInversionList(list) && k < |list| && RangeEnd(list, k) < HIGH
    ensures k + 2 < |list| && list[k + 1] == RangeEnd(list, k)
  {
  }

  /** Reading a range whose gap begins at or before from. */
  lemma RangeRead(list: seq<int>, k: nat, from: int)
    requires IsInversionList(list) && k % 2 == 0 && k < |list| && 0 <= GapStart(list, k) <= from
    ensures AtRange(list, k, list[k], RangeEnd(list, k), if k + 1 < |list| then k + 2 else k + 1, from)
  {
    hide InSet;
    forall c | from <= c < list[k]
      ensures !InSet(list, c)
    {
      InGap(list, k, c);
    }
    assert k < |list| - 1 ==> list[k] < list[|list| - 1];
    assert k > 0 ==> list[0] < list[k];
  }

  lemma InThisRange(list: seq<int>, k: nat, start: int, limit: int, listIndex: nat, from: int, c: int)
    requires AtRange(list, k, start, limit, listIndex, from) && start <= c < limit
    ensures InSet(list, c)
  {
    InRange(list, k, c);
  }

  ghost predicate AsciiUpTo(list: seq<int>, a: seq<bool>, p: int) {
    |a| == 0xc0 && forall c :: 0 <= c < 0xc0 ==> (a[c] <==> c < 0x80 && c < p && InSet(list, c))
  }

  ghost predicate TwoByteUpTo(list: seq<int>, t: seq<Word>, p: int) {
    |t| == 64 && forall c :: 0 <= c < POSITIONS ==> (IsSet(t, c) <==> 0x80 <= c < p && InSet(list, c))
  }

  ghost predicate BlockUpTo(list: seq<int>, t: seq<Word>, b: int, p: int)
    requires |t| == 64 && 0 <= b < BLOCKS
  {
    if b < 0x20 || 64 * b >= p then IsClear(t, b) else BlockRight(list, t, b)
  }

  ghost predicate BlocksUpTo(list: seq<int>, t: seq<Word>, p: int) {
    |t| == 64 && p % 64 == 0 && 0x800 <= p <= 0x10000 && forall b :: 0 <= b < BLOCKS ==> BlockUpTo(list, t, b, p)
  }

  lemma BlocksGap(list: seq<int>, t: seq<Word>, p: int, q: int)
    requires BlocksUpTo(list, t, p) && p <= q <= 0x10000 && q % 64 == 0
    requires forall c :: p <= c < q ==> !InSet(list, c)
    ensures BlocksUpTo(list, t, q)
  {
    hide InSet, IsSet;
    forall b | 0 <= b < BLOCKS
      ensures BlockUpTo(list, t, b, q)
    {
      assert BlockUpTo(list, t, b, p);
    }
  }

  lemma BlocksMixed(list: seq<int>, t0: seq<Word>, t1: seq<Word>, p: int)
    requires BlocksUpTo(list, t0, p) && p < 0x10000 && |t1| == 64
    requires forall c :: 0 <= c < POSITIONS ==> (IsSet(t1, c) <==> IsSet(t0, c) || c == p / 64 || c == p / 64 + 0x400)
    ensures BlocksUpTo(list, t1, p + 64)
  {
    hide InSet, IsSet;
    var q := p + 64;
    forall b | 0 <= b < BLOCKS
      ensures BlockUpTo(list, t1, b, q)
    {
      assert BlockUpTo(list, t0, b, p);
      assert IsSet(t1, b) <==> IsSet(t0, b) || b == p / 64;
    }
  }

  lemma BlocksFilled(list: seq<int>, t0: seq<Word>, t1: seq<Word>, p: int, q: int)
    requires BlocksUpTo(list, t0, p) && p <= q <= 0x10000 && q % 64 == 0 && |t1| == 64
    requires forall c :: p <= c < q ==> InSet(list, c)
    requires forall c :: 0 <= c < POSITIONS ==> (IsSet(t1, c) <==> IsSet(t0, c) || p / 64 <= c < q / 64)
    ensures BlocksUpTo(list, t1, q)
  {
    hide InSet, IsSet;
    forall b | 0 <= b < BLOCKS
      ensures BlockUpTo(list, t1, b, q)
    {
      assert BlockUpTo(list, t0, b, p);
      assert IsSet(t1, b) <==> IsSet(t0, b) || p / 64 <= b < q / 64;
      assert IsSet(t1, b + BLOCKS) <==> IsSet(t0, b + BLOCKS);
    }
  }

  /**
    A lead byte between from and limit finds a byte that is not a tail byte, or all its tail bytes, before the end of
    s.
   */
  ghost predicate CutSafely(s: seq<Byte>, from: nat, limit: nat) {
    && limit <= |s|
    && (limit < |s| ==> s[limit] >= 0xc0)
    && (limit == |s| ==>
          && (|s| - 1 >= from ==> s[|s| - 1] < 0xc0)
          && (|s| - 2 >= from && TailAt(s, |s| - 1) ==> s[|s| - 2] < 0xe0)
          && (|s| - 3 >= from && TailAt(s, |s| - 1) && TailAt(s, |s| - 2) ==> s[|s| - 3] < 0xf0))
  }

  class BMPSet {
    const list: seq<int>
    const asciiBytes: array<bool>
    const table7FF: array<Word>
    const bmpBlockBits: array<Word>
    const list4kStarts: array<nat>

    ghost predicate Separate()
      reads this
    {
      && asciiBytes.Length == 0xc0 && table7FF.Length == 64 && bmpBlockBits.Length == 64 && list4kStarts.Length == 18
      && table7FF != bmpBlockBits
    }

    /** The documented invariants of the tables. */
    ghost predicate Valid()
      reads this, asciiBytes, table7FF, bmpBlockBits, list4kStarts
    {
      && Separate() && StartsRight(list, list4kStarts[..])
      && AsciiRight(list, asciiBytes[..])
      && (forall b :: 0x80 <= b < 0xc0 ==> (asciiBytes[b] <==> InSet(list, REPLACEMENT)))
      && TwoByteRight(list, table7FF[..])
      && (forall c :: 0 <= c < 0x80 ==> (IsSet(table7FF[..], c) <==> InSet(list, REPLACEMENT)))
      && (forall b :: 0 <= b < BLOCKS ==> BlockFinal(list, bmpBlockBits[..], b))
    }

    constructor (parentList: seq<int>)
      requires IsInversionList(parentList)
      ensures Valid() && list == parentList
    {
      list := parentList;
      asciiBytes := new bool[0xc0](_ => false);
      table7FF := new Word[64](_ => 0);
      bmpBlockBits := new Word[64](_ => 0);
      list4kStarts := new nat[18](_ => 0);
      new;
      InitStarts();
      AllClear(table7FF[..]);
      AllClear(bmpBlockBits[..]);
      InitBits();
      OverrideIllegal();
    }

    /** findCodePoint(): the smallest i in lo..hi with c < list[i], or hi. */
    method FindCodePoint(c: int, lo0: nat, hi0: nat) returns (r: nat)
      requires IsInversionList(list) && lo0 <= hi0 < |list|
      ensures lo0 <= r <= hi0 && (r < hi0 ==> c < list[r])
      ensures forall j :: lo0 <= j < r ==> list[j] <= c
    {
      var lo, hi := lo0, hi0;
      if c < list[lo] { return lo; }
      if lo >= hi || c >= list[hi - 1] { return hi; }
      while true
        invariant lo0 <= lo < hi <= hi0 && list[lo] <= c && c < list[hi]
        decreases hi - lo
      {
        var i := (lo + hi) / 2;
        if i == lo {
          break;
        } else if c < list[i] {
          hi := i;
        } else {
          lo := i;
        }
      }
      return hi;
    }

    /** containsSlow() between bounds that enclose the place of c */
    method ContainsSlow(c: int, lo: nat, hi: nat) returns (r: bool)
      requires IsInversionList(list) && lo <= hi < |list| && 0 <= c < list[hi]
      requires forall j :: 0 <= j < lo ==> list[j] <= c
      ensures r <==> InSet(list, c)
    {
      var i := FindCodePoint(c, lo, hi);
      PlaceIs(list, c, i);
      return i % 2 == 1;
    }

    /** Fills list4kStarts[] with the places of the block starts. */
    method InitStarts()
      requires Separate() && IsInversionList(list)
      modifies list4kStarts
      ensures StartsRight(list, list4kStarts[..])
    {
      hide InSet, IsInversionList, SmallestAbove;
      NotEmpty(list);
      list4kStarts[0] := FindCodePoint(0x800, 0, |list| - 1);
      StartFound(list, 0, 0, list4kStarts[0]);
      var i := 1;
      while i <= 0x10
        invariant 1 <= i <= 0x11
        invariant forall k :: 0 <= k < i ==> list4kStarts[k] == SmallestAbove(list, BlockStart(k), 0)
      {
        ghost var before := list4kStarts[..];
        var start := NextStart(i);
        list4kStarts[i] := start;
        assert forall k :: 0 <= k < i ==> list4kStarts[k] == before[k];
        i := i + 1;
      }
      list4kStarts[0x11] := |list| - 1;
    }

    /** The start of block i, searched from that of the block before. */
    method NextStart(i: int) returns (start: nat)
      requires Separate() && IsInversionList(list) && 1 <= i <= 0x10
      requires list4kStarts[i - 1] == SmallestAbove(list, BlockStart(i - 1), 0)
      ensures start == SmallestAbove(list, BlockStart(i), 0)
    {
      hide InSet, IsInversionList, SmallestAbove;
      NotEmpty(list);
      start := FindCodePoint(i * 0x1000, list4kStarts[i - 1], |list| - 1);
      StartFound(list, i, list4kStarts[i - 1], start);
    }

    /** The range at listIndex and where the next one is. */
    method NextRange(listIndex: nat, ghost from: int) returns (start: int, limit: int, next: nat)
      requires IsInversionList(list) && listIndex % 2 == 0 && listIndex < |list|
               && 0 <= GapStart(list, listIndex) <= from
      ensures start == list[listIndex] && AtRange(list, listIndex, start, limit, next, from)
    {
      RangeRead(list, listIndex, from);
      next := listIndex;
      start := list[next];
      next := next + 1;
      if next < |list| {
        limit := list[next];
        next := next + 1;
      } else {
        limit := 0x110000;
      }
    }

    /** initBits() */
    method InitBits()
      requires Separate() && IsInversionList(list)
      requires forall c :: 0 <= c < 0xc0 ==> !asciiBytes[c]
      requires forall c :: 0 <= c < POSITIONS ==> !IsSet(table7FF[..], c) && !IsSet(bmpBlockBits[..], c)
      modifies asciiBytes, table7FF, bmpBlockBits
      ensures AsciiUpTo(list, asciiBytes[..], 0x80)
      ensures TwoByteUpTo(list, table7FF[..], 0x800)
      ensures BlocksUpTo(list, bmpBlockBits[..], 0x10000)
    {
      hide InSet, IsSet, IsInversionList, AtRange;
      ghost var k;
      var start, limit, listIndex;
      start, limit, listIndex, k := InitAscii();
      start, limit, listIndex, k := InitTwoByte(start, limit, listIndex, k);
      InitBlocks(start, limit, listIndex, k);
    }

    /** Set asciiBytes[]. */
    method InitAscii() returns (start: int, limit: int, listIndex: nat, ghost k: nat)
      requires Separate() && IsInversionList(list)
      requires forall c :: 0 <= c < 0xc0 ==> !asciiBytes[c]
      modifies asciiBytes
      ensures AsciiUpTo(list, asciiBytes[..], 0x80)
      ensures start >= 0x80 && AtRange(list, k, start, limit, listIndex, 0x80)
    {
      hide InSet, IsInversionList;
      NotEmpty(list);
      listIndex, k := 0, 0;
      while true
        invariant listIndex == k && k % 2 == 0 && k < |list| && 0 <= GapStart(list, k) <= 0x80
        invariant AsciiUpTo(list, asciiBytes[..], GapStart(list, k))
        decreases |list| - k
      {
        start, limit, listIndex := NextRange(listIndex, GapStart(list, k));
        AsciiGap(list, asciiBytes[..], k, start, limit, listIndex);
        if start >= 0x80 { return; }
        start := FillAscii(start, limit, listIndex, k);
        if limit > 0x80 {
          assert GapStart(list, k) <= 0x80;
          return;
        }
        HasNext(list, k);
        k := k + 2;
      }
    }

    /** Set table7FF[]. */
    method InitTwoByte(start0: int, limit0: int, listIndex0: nat, ghost k0: nat)
      returns (start: int, limit: int, listIndex: nat, ghost k: nat)
      requires Separate() && start0 >= 0x80 && AtRange(list, k0, start0, limit0, listIndex0, 0x80)
      requires forall c :: 0 <= c < POSITIONS ==> !IsSet(table7FF[..], c)
      modifies table7FF
      ensures TwoByteUpTo(list, table7FF[..], 0x800)
      ensures start >= 0x800 && AtRange(list, k, start, limit, listIndex, 0x800)
    {
      hide InSet, IsSet, IsInversionList, AtRange;
      start, limit, listIndex, k := start0, limit0, listIndex0, k0;
      ghost var from := 0x80;
      while start < 0x800
        invariant 0x80 <= from <= 0x800 && from <= start && AtRange(list, k, start, limit, listIndex, from)
        invariant TwoByteUpTo(list, table7FF[..], from)
        decreases |list| - k
      {
        ghost var t0 := table7FF[..];
        Nonempty(list, k, start, limit, listIndex, from);
        var until := if limit <= 0x800 then limit else 0x800;
        Set32x64Bits(table7FF, start, until);
        TwoByteFilled(list, t0, table7FF[..], k, start, limit, listIndex, from, until);
        if limit > 0x800 {
          Advance(list, k, start, limit, listIndex, from, 0x800);
          start := 0x800;
          from := 0x800;
          break;
        }
        MoveOn(list, k, start, limit, listIndex, from);
        from := limit;
        k := k + 2;
        start, limit, listIndex := NextRange(listIndex, from);
        FromGap(list, k, start, limit, listIndex, from);
      }
      TwoByteRest(list, table7FF[..], k, start, limit, listIndex, from);
    }

    /** Set bmpBlockBits[]. */
    method InitBlocks(start0: int, limit0: int, listIndex0: nat, ghost k0: nat)
      requires Separate() && start0 >= 0x800 && AtRange(list, k0, start0, limit0, listIndex0, 0x800)
      requires forall c :: 0 <= c < POSITIONS ==> !IsSet(bmpBlockBits[..], c)
      modifies bmpBlockBits
      ensures BlocksUpTo(list, bmpBlockBits[..], 0x10000)
    {
      hide InSet, IsSet, IsInversionList, AtRange, BlocksUpTo;
      var start, limit, listIndex := start0, limit0, listIndex0;
      ghost var k, p := k0, 0x800;
      NoBlocks(list, bmpBlockBits[..]);
      var minStart := 0x800;
      while start < 0x10000
        invariant AtRange(list, k, start, limit, listIndex, p) && p <= 0x10000 && p % 64 == 0
        invariant BlocksUpTo(list, bmpBlockBits[..], p)
        invariant minStart % 64 == 0 && 0x800 <= minStart <= p && (p <= start || p == minStart)
        decreases |list| - k
      {
        Nonempty(list, k, start, limit, listIndex, p);
        ghost var rangeEnd := limit;
        if limit > 0x10000 { limit := 0x10000; }
        limit, minStart, p := MarkRange(start, limit, minStart, k, rangeEnd, listIndex, p);
        if limit == 0x10000 { return; }
        MoveOnFrom(list, k, start, rangeEnd, listIndex, p);
        k := k + 2;
        start, limit, listIndex := NextRange(listIndex, p);
        FromGap(list, k, start, limit, listIndex, p);
      }
      BlocksRest(list, bmpBlockBits[..], k, start, limit, listIndex, p);
    }

    /** One range, from its part beyond the blocks that are already known to be mixed. */
    method MarkRange(start0: int, limit0: int, minStart0: int, ghost k: nat, ghost rangeEnd: int,
                     ghost listIndex: nat, ghost p0: int)
      returns (limit: int, minStart: int, ghost p: int)
      requires Separate() && 0 <= start0 < limit0 <= 0x10000 && limit0 <= rangeEnd
               && (limit0 < 0x10000 ==> limit0 == rangeEnd)
      requires AtRange(list, k, start0, rangeEnd, listIndex, p0) && BlocksUpTo(list, bmpBlockBits[..], p0)
      requires minStart0 % 64 == 0 && p0 % 64 == 0 && 0x800 <= minStart0 <= p0 <= 0x10000
               && (p0 <= start0 || p0 == minStart0)
      modifies bmpBlockBits
      ensures BlocksUpTo(list, bmpBlockBits[..], p) && p0 <= p <= 0x10000 && limit0 <= p
      ensures minStart % 64 == 0 && p % 64 == 0 && 0x800 <= minStart <= p && (p <= limit0 || p == minStart)
      ensures if limit == 0x10000 then p == 0x10000 else limit0 < 0x10000
    {
      hide InSet, IsSet, IsInversionList, AtRange, BlocksUpTo;
      limit, minStart, p := limit0, minStart0, p0;
      var start := if start0 < minStart then minStart else start0;
      if start < limit {
        start, minStart := MarkStart(start, minStart, k, start0, rangeEnd, listIndex, p0);
        p := start;
        if start < limit {
          limit, minStart, p := MarkEnd(start, limit, minStart, k, start0, rangeEnd, listIndex, p0);
        }
      }
    }

    /** The block of start, if the range starts inside it. */
    method MarkStart(start1: int, minStart0: int, ghost k: nat, ghost start0: int, ghost rangeEnd: int,
                     ghost listIndex: nat, ghost p0: int)
      returns (start: int, minStart: int)
      requires Separate() && p0 % 64 == 0 && 0x800 <= minStart0 <= p0 <= start1 < 0x10000 && minStart0 % 64 == 0
      requires start1 == start0 || (start1 == p0 && start0 < p0)
      requires AtRange(list, k, start0, rangeEnd, listIndex, p0) && BlocksUpTo(list, bmpBlockBits[..], p0)
      modifies bmpBlockBits
      ensures start1 <= start < start1 + 64 && start % 64 == 0 && BlocksUpTo(list, bmpBlockBits[..], start)
      ensures start <= 0x10000 && minStart % 64 == 0 && 0x800 <= minStart <= start
              && (start == start1 || minStart == start)
    {
      hide InSet, IsSet, IsInversionList, AtRange, BlocksUpTo;
      start, minStart := start1, minStart0;
      SkipGap(list, bmpBlockBits[..], k, start0, rangeEnd, listIndex, p0, start / 64 * 64);
      if start % 64 != 0 {
        start := start / 64;
        MarkBlock(start);
        start := (start + 1) * 64;
        minStart := start;
      }
    }

    /** The all-ones blocks of the range, and the block in which it ends. */
    method MarkEnd(start: int, limit0: int, minStart0: int, ghost k: nat, ghost start0: int, ghost rangeEnd: int,
                   ghost listIndex: nat, ghost p0: int)
      returns (limit: int, minStart: int, ghost p: int)
      requires Separate() && 0x800 <= start < limit0 <= 0x10000 && start % 64 == 0 && start0 <= start
               && limit0 <= rangeEnd
      requires AtRange(list, k, start0, rangeEnd, listIndex, p0) && BlocksUpTo(list, bmpBlockBits[..], start)
      requires minStart0 % 64 == 0 && 0x800 <= minStart0 <= start
      modifies bmpBlockBits
      ensures BlocksUpTo(list, bmpBlockBits[..], p) && start <= p <= 0x10000 && limit0 <= p
      ensures minStart % 64 == 0 && p % 64 == 0 && 0x800 <= minStart <= p && (p <= limit0 || p == minStart)
      ensures if limit == 0x10000 then p == 0x10000 else limit0 < 0x10000
    {
      hide InSet, IsSet, IsInversionList, AtRange, BlocksUpTo;
      limit, minStart, p := limit0, minStart0, start;
      if start < limit / 64 * 64 {
        FillBlocks(start / 64, limit / 64, k, start0, rangeEnd, listIndex, p0);
        p := limit / 64 * 64;
      }
      if limit % 64 != 0 {
        limit := limit / 64;
        MarkBlock(limit);
        limit := (limit + 1) * 64;
        minStart := limit;
        p := limit;
      }
    }

    method MarkBlock(b: nat)
      requires Separate() && b < BLOCKS && BlocksUpTo(list, bmpBlockBits[..], 64 * b)
      modifies bmpBlockBits
      ensures BlocksUpTo(list, bmpBlockBits[..], 64 * b + 64)
    {
      hide InSet, IsSet, BlocksUpTo;
      ghost var t0 := bmpBlockBits[..];
      MarkMixed(bmpBlockBits, b);
      BlocksMixed(list, t0, bmpBlockBits[..], 64 * b);
    }

    method FillBlocks(from: nat, to: nat, ghost k: nat, ghost start: int, ghost limit: int, ghost listIndex: nat,
                      ghost p: int)
      requires Separate() && from < to <= BLOCKS && start <= 64 * from && 64 * to <= limit
      requires AtRange(list, k, start, limit, listIndex, p) && BlocksUpTo(list, bmpBlockBits[..], 64 * from)
      modifies bmpBlockBits
      ensures BlocksUpTo(list, bmpBlockBits[..], 64 * to)
    {
      hide InSet, IsSet, BlocksUpTo, AtRange;
      ghost var t0 := bmpBlockBits[..];
      Set32x64Bits(bmpBlockBits, from, to);
      RangeBlocks(list, t0, bmpBlockBits[..], k, start, limit, listIndex, p, 64 * from, 64 * to);
    }

    /** overrideIllegal() */
    method OverrideIllegal()
      requires Separate() && StartsRight(list, list4kStarts[..])
      requires AsciiUpTo(list, asciiBytes[..], 0x80) && TwoByteUpTo(list, table7FF[..], 0x800)
      requires BlocksUpTo(list, bmpBlockBits[..], 0x10000)
      modifies asciiBytes, table7FF, bmpBlockBits
      ensures Valid()
    {
      hide InSet, IsSet, IsInversionList, AsciiUpTo, TwoByteUpTo, BlocksUpTo, StartsRight, BlockFinal, AsciiRight,
           TwoByteRight;
      BoundsEnclose(list, list4kStarts[..], 0xf, 0x10, REPLACEMENT);
      StartsList(list, list4kStarts[..]);
      var replaced := ContainsSlow(REPLACEMENT, list4kStarts[0xf], list4kStarts[0x10]);
      ghost var a0, t0, b0 := asciiBytes[..], table7FF[..], bmpBlockBits[..];
      if replaced {
        OverrideTrail();
        OrRows(table7FF, 0, 64, 3);
        OrRows(bmpBlockBits, 0, 32, 1);
        ghost var b1 := bmpBlockBits[..];
        OverrideSurrogates(One(0xd));
        TwoByteOverridden(list, t0, table7FF[..]);
        BlocksOverridden(list, b0, b1, bmpBlockBits[..]);
      } else {
        OverrideSurrogates(0);
        TwoByteKept(list, t0);
        BlocksCleared(list, b0, bmpBlockBits[..]);
      }
      AsciiOverridden(list, a0, asciiBytes[..], replaced);
    }

    method OverrideTrail()
      requires Separate()
      modifies asciiBytes
      ensures forall i :: 0 <= i < 0xc0 ==> asciiBytes[i] == (0x80 <= i || old(asciiBytes[..])[i])
    {
      for i := 0x80 to 0xc0
        invariant forall j :: 0 <= j < 0xc0 ==> asciiBytes[j] == (0x80 <= j < i || old(asciiBytes[..])[j])
      {
        asciiBytes[i] := true;
      }
    }

    /** Replaces the two bits of lead byte 0xED in the second half of the words. */
    method OverrideSurrogates(bits: Word)
      requires Separate() && (bits == 0 || bits == One(0xd))
      modifies bmpBlockBits
      ensures forall c :: 0 <= c < POSITIONS ==>
                (IsSet(bmpBlockBits[..], c) <==>
                   if c % 64 >= 32 && (c / 64 == 0xd || c / 64 == 0x1d) then c / 64 == 0xd && bits != 0
                   else IsSet(old(bmpBlockBits[..]), c))
    {
      hide IsSet, Bit, Pair, One, And, Or, Not;
      var mask := Not(Pair(0xd));
      ghost var t0 := bmpBlockBits[..];
      var i := 32;
      while i < 64
        invariant 32 <= i <= 64
        invariant forall j :: 32 <= j < i ==> bmpBlockBits[j] == Or(And(t0[j], mask), bits)
        invariant forall j :: 0 <= j < 64 && !(32 <= j < i) ==> bmpBlockBits[j] == t0[j]
      {
        bmpBlockBits[i] := Or(And(bmpBlockBits[i], mask), bits);
        i := i + 1;
      }
      ghost var t1 := bmpBlockBits[..];
      forall c | 0 <= c < POSITIONS
        ensures IsSet(t1, c) <==>
                   if c % 64 >= 32 && (c / 64 == 0xd || c / 64 == 0x1d) then c / 64 == 0xd && bits != 0
                   else IsSet(t0, c)
      {
        MaskedBit(t0, t1, bits, c);
      }
    }

    method FillAscii(start0: int, limit: int, ghost listIndex: nat, ghost k: nat) returns (start: int)
      requires Separate() && 0 <= start0 < 0x80
      requires AtRange(list, k, start0, limit, listIndex, GapStart(list, k)) && AsciiUpTo(list, asciiBytes[..], start0)
      modifies asciiBytes
      ensures start == (if limit < 0x80 then limit else 0x80) && AsciiUpTo(list, asciiBytes[..], start)
      ensures limit > 0x80 ==> AtRange(list, k, start, limit, listIndex, 0x80)
    {
      start := start0;
      while true
        invariant 0 <= start0 <= start < limit && start < 0x80
        invariant AsciiUpTo(list, asciiBytes[..], start)
        decreases 0x80 - start
      {
        InThisRange(list, k, start0, limit, listIndex, GapStart(list, k), start);
        asciiBytes[start] := true;
        start := start + 1;
        if !(start < limit && start < 0x80) { break; }
      }
    }

    // ---------- lookups ----------

    /** The three tables for one BMP code point that is not a surrogate. */
    method LookUp(c: int) returns (r: bool)
      requires Valid() && (0 <= c < 0xd800 || 0xe000 <= c <= 0xffff)
      ensures r <==> InSet(list, c)
    {
      hide InSet, IsSet, StartsRight, BlockFinal, AsciiRight, TwoByteRight, Bit, And, Shr, One;
      if c <= 0x7f {
        AsciiAt(list, asciiBytes[..], c);
        return asciiBytes[c];
      } else if c <= 0x7ff {
        TwoByteAt(list, table7FF[..], c);
        return And(table7FF[c % 64], One(c / 64)) != 0;
      } else {
        r := LookUpBlock(c);
      }
    }

    /** U+0800..U+FFFF without surrogates: uniform blocks, and a search in the 4k block for mixed ones */
    method LookUpBlock(c: int) returns (r: bool)
      requires Valid() && 0x800 <= c <= 0xffff && !IsIllegalBlock(c / 64)
      ensures r <==> InSet(list, c)
    {
      hide InSet, IsSet, StartsRight, BlockFinal, AsciiRight, TwoByteRight, Bit, And, Shr;
      var lead := c / 0x1000;
      var word := bmpBlockBits[c / 64 % 64];
      var twoBits := And(Shr(word, lead), 0x10001);
      BlockAt(list, bmpBlockBits[..], c);
      if twoBits <= 1 {
        return twoBits == 1;
      } else {
        StartsList(list, list4kStarts[..]);
        BoundsEnclose(list, list4kStarts[..], lead, lead + 1, c);
        r := ContainsSlow(c, list4kStarts[lead], list4kStarts[lead + 1]);
      }
    }

    /** A search between two 4k block starts */
    method Search(c: int, i: nat, k: nat) returns (r: bool)
      requires Valid() && i < k <= 0x11 && BlockStart(i) <= c && if k == 0x11 then c < HIGH else c < BlockStart(k)
      ensures r <==> InSet(list, c)
    {
      hide InSet, IsSet, StartsRight, BlockFinal, AsciiRight, TwoByteRight;
      StartsList(list, list4kStarts[..]);
      BoundsEnclose(list, list4kStarts[..], i, k, c);
      r := ContainsSlow(c, list4kStarts[i], list4kStarts[k]);
    }

    /** contains(c), for every value of a signed 32-bit integer */
    method Contains(c: int) returns (r: bool)
      requires Valid() && -0x8000_0000 <= c <= 0x7fff_ffff
      ensures r <==> InSet(list, c)
    {
      hide IsSet, StartsRight, BlockFinal, AsciiRight, TwoByteRight, SmallestAbove;
      var unsigned := c % 0x1_0000_0000;
      StartsList(list, list4kStarts[..]);
      if unsigned < 0xd800 || 0xe000 <= c <= 0xffff {
        r := LookUp(c);
      } else if unsigned <= 0x10ffff {
        r := Search(c, 0xd, 0x11);
      } else {
        return false;
      }
    }

    // ---------- spans over UTF-16 ----------

    /** span(): the code points of s from its start on */
    method Span(s: seq<Unit>, contained: bool) returns (r: nat)
      requires Valid() && |s| > 0
      ensures r == SpanEnd(list, s, 0, contained)
    {
      hide InSet, Valid, IsLead, IsTrail;
      r := 0;
      while true
        invariant 0 <= r < |s| && SpanEnd(list, s, r, contained) == SpanEnd(list, s, 0, contained)
        decreases |s| - r
      {
        var found, length := UnitsAt(s, r);
        if found != contained { return; }
        r := r + length;
        if r >= |s| { return; }
      }
    }

    /** The answer for the code point at i, and its length */
    method UnitsAt(s: seq<Unit>, i: nat) returns (found: bool, length: nat)
      requires Valid() && i < |s|
      ensures length == CodePointAt(s, i).length && (found <==> InSet(list, CodePointAt(s, i).c))
    {
      hide InSet, Valid, Supplementary;
      var c := s[i];
      length := 1;
      if c < 0xd800 || c >= 0xe000 {
        found := LookUp(c);
      } else if c >= 0xdc00 || i + 1 == |s| || s[i + 1] < 0xdc00 || s[i + 1] >= 0xe000 {
        found := Search(c, 0xd, 0xe);
      } else {
        found := Search(Supplementary(c, s[i + 1]), 0x10, 0x11);
        length := 2;
      }
    }

    /** spanBack(): the code points of s from its end backward */
    method SpanBack(s: seq<Unit>, contained: bool) returns (r: nat)
      requires Valid() && |s| > 0
      ensures r == SpanStart(list, s, |s|, contained)
    {
      hide InSet, Valid, Supplementary;
      var limit := |s|;
      while true
        invariant 0 < limit <= |s| && SpanStart(list, s, limit, contained) == SpanStart(list, s, |s|, contained)
        decreases limit
      {
        ghost var from := limit;
        limit := limit - 1;
        var c := s[limit];
        var found;
        if c < 0xd800 || c >= 0xe000 {
          found := LookUp(c);
        } else if c < 0xdc00 || limit == 0 || s[limit - 1] < 0xd800 || s[limit - 1] >= 0xdc00 {
          found := Search(c, 0xd, 0xe);
        } else {
          found := Search(Supplementary(s[limit - 1], c), 0x10, 0x11);
          if found == contained { limit := limit - 1; }
        }
        if found != contained { return limit + 1; }
        if limit == 0 { return 0; }
      }
    }

    // ---------- spans over UTF-8 ----------

    /** spanUTF8() */
    method SpanUTF8(s: seq<Byte>, contained: bool) returns (r: nat)
      requires Valid() && |s| > 0
      ensures r == SpanEnd8(list, s, 0, contained)
    {
      hide InSet, Valid, SpanEnd8;
      var i, done := InitialAscii(s, contained);
      if done { return i; }
      ghost var from := i;
      var limit, limit0 := CutTruncated(s, i, contained);
      while i < limit
        invariant from <= i <= limit <= |s| && CutSafely(s, from, limit)
        invariant SpanEnd8(list, s, i, contained) == SpanEnd8(list, s, 0, contained)
        invariant limit0 == SpanEnd8(list, s, limit, contained)
        decreases limit - i
      {
        if s[i] < 0xc0 {
          while true
            invariant from <= i < limit && s[i] < 0xc0
            invariant SpanEnd8(list, s, i, contained) == SpanEnd8(list, s, 0, contained)
            decreases limit - i
          {
            OneByte(list, s, i, contained);
            ByteAt(s[i]);
            if asciiBytes[s[i]] != contained { return i; }
            i := i + 1;
            if i == limit { return limit0; }
            if s[i] >= 0xc0 { break; }
          }
        }
        var found, length := SequenceAt(s, i, limit, contained, from);
        if found != contained { return i; }
        i := i + length;
      }
      return limit0;
    }

    /** The answer for a multi-byte sequence, or for the lead byte of an illegal one, and its length. */
    method SequenceAt(s: seq<Byte>, i: nat, limit: nat, contained: bool, ghost from: nat)
      returns (found: bool, length: nat)
      requires Valid() && from <= i < limit && CutSafely(s, from, limit) && s[i] >= 0xc0
      ensures 1 <= length && i + length <= limit
      ensures SpanEnd8(list, s, i, contained) == if found == contained then SpanEnd8(list, s, i + length, contained)
              else i
    {
      hide InSet, Valid, SpanEnd8, Answer;
      var b := s[i];
      ByteAt(0x80);
      if TailBits(s[i + 1]) <= 0x3f {
        var t1 := TailBits(s[i + 1]);
        if b < 0xe0 {
          TwoBytes(list, s, i, contained);
          found := TableAnswer2(b % 32 * 64 + t1);
          return found, 2;
        } else if TailBits(s[i + 2]) <= 0x3f {
          var t2 := TailBits(s[i + 2]);
          if b < 0xf0 {
            ThreeBytes(list, s, i, contained);
            found := TableAnswer3(b % 16 * 0x1000 + t1 * 64 + t2);
            return found, 3;
          } else if TailBits(s[i + 3]) <= 0x3f {
            var t3 := TailBits(s[i + 3]);
            FourBytes(list, s, i, contained);
            found := TableAnswer4((b as int - 0xf0) * 0x40000 + t1 * 0x1000 + t2 * 64 + t3);
            return found, 4;
          }
        }
      }
      Incomplete(list, s, i, contained);
      return asciiBytes[0x80], 1;
    }

    method TableAnswer2(c: int) returns (r: bool)
      requires Valid() && 0 <= c < 0x800
      ensures r <==> Answer(list, c, 0x80)
    {
      hide InSet, StartsRight, BlockFinal, AsciiRight, And, One;
      assert IsSet(table7FF[..], c) <==> InSet(list, if c < 0x80 then REPLACEMENT else c);
      return And(table7FF[c % 64], One(c / 64)) != 0;
    }

    method TableAnswer3(c: int) returns (r: bool)
      requires Valid() && 0 <= c < 0x10000
      ensures r <==> Answer(list, c, 0x800)
    {
      hide InSet, IsSet, StartsRight, BlockFinal, AsciiRight, TwoByteRight, And, Shr, IsIllegalBlock;
      var twoBits := And(Shr(bmpBlockBits[c / 64 % 64], c / 0x1000), 0x10001);
      BlockAt(list, bmpBlockBits[..], c);
      IllegalRange(c);
      if twoBits <= 1 {
        return twoBits == 1;
      } else {
        r := Search(c, c / 0x1000, c / 0x1000 + 1);
      }
    }

    method TableAnswer4(c: int) returns (r: bool)
      requires Valid() && 0 <= c
      ensures r <==> Answer(list, c, 0x10000)
    {
      hide InSet, Valid;
      ByteAt(0x80);
      if 0x10000 <= c <= 0x10ffff {
        r := Search(c, 0x10, 0x11);
      } else {
        return asciiBytes[0x80];
      }
    }

    lemma ByteAt(b: int)
      requires Valid() && 0 <= b < 0xc0
      ensures asciiBytes.Length == 0xc0 && (asciiBytes[b] <==> InSet(list, if b < 0x80 then b else REPLACEMENT))
    {
      hide InSet, IsSet, StartsRight, BlockFinal, TwoByteRight;
    }

    /** Passes over the ASCII bytes at the start of s. */
    method InitialAscii(s: seq<Byte>, contained: bool) returns (i: nat, done: bool)
      requires Valid() && |s| > 0
      ensures if done then i == SpanEnd8(list, s, 0, contained)
              else i < |s| && SpanEnd8(list, s, i, contained) == SpanEnd8(list, s, 0, contained)
    {
      hide InSet, Valid, SpanEnd8;
      i := 0;
      while s[i] < 0x80
        invariant 0 <= i < |s| && SpanEnd8(list, s, i, contained) == SpanEnd8(list, s, 0, contained)
        decreases |s| - i
      {
        OneByte(list, s, i, contained);
        ByteAt(s[i]);
        if asciiBytes[s[i]] != contained { return i, true; }
        i := i + 1;
        if i == |s| {
          SpanAtEnd(list, s, contained);
          return i, true;
        }
      }
      return i, false;
    }

    /**
      Moves the limit in front of a truncated sequence at the end of s, after which no later read needs a test for
      the end; limit0 is where the span ends if it reaches limit.
     */
    method CutTruncated(s: seq<Byte>, from: nat, contained: bool) returns (limit: nat, limit0: nat)
      requires Valid() && from < |s|
      ensures from <= limit <= |s| && CutSafely(s, from, limit) && limit0 == SpanEnd8(list, s, limit, contained)
    {
      hide InSet, Valid, SpanEnd8;
      limit, limit0 := |s|, |s|;
      var length := |s| - from;
      SpanAtEnd(list, s, contained);
      ByteAt(0x80);
      var b := s[limit - 1];
      if b >= 0x80 {
        if b < 0xc0 {
          if length >= 2 { b := s[limit - 2]; }
          if length >= 2 && b >= 0xe0 {
            limit := limit - 2;
            CutAt(list, s, limit, contained);
            if asciiBytes[0x80] != contained { limit0 := limit; }
          } else if b < 0xc0 && b >= 0x80 && length >= 3 && s[limit - 3] >= 0xf0 {
            limit := limit - 3;
            CutAt(list, s, limit, contained);
            if asciiBytes[0x80] != contained { limit0 := limit; }
          }
        } else {
          limit := limit - 1;
          CutAt(list, s, limit, contained);
          if asciiBytes[0x80] != contained { limit0 := limit; }
        }
      }
    }
  }

  lemma NotEmpty(list: seq<int>)
    requires IsInversionList(list)
    ensures |list| > 0 && list[|list| - 1] == HIGH
  {
  }

  lemma StartFound(list: seq<int>, i: int, lo: nat, r: nat)
    requires IsInversionList(list) && 0 <= i <= 0x10
    requires if i == 0 then lo == 0 else lo == SmallestAbove(list, BlockStart(i - 1), 0)
    requires lo <= r < |list| && (r < |list| - 1 ==> BlockStart(i) < list[r]) && forall j :: lo <= j < r ==>
             list[j] <= BlockStart(i)
    ensures r == SmallestAbove(list, BlockStart(i), 0)
  {
    hide InSet;
    PlaceIs(list, BlockStart(i), r);
  }

  /** The gap before a range is not in the set. */
  lemma AsciiGap(list: seq<int>, a: seq<bool>, k: nat, start: int, limit: int, listIndex: nat)
    requires AtRange(list, k, start, limit, listIndex, GapStart(list, k)) && AsciiUpTo(list, a, GapStart(list, k))
    ensures AsciiUpTo(list, a, start) && (start >= 0x80 ==> AsciiUpTo(list, a, 0x80))
    ensures GapStart(list, k) <= 0x80 ==> AtRange(list, k, start, limit, listIndex, 0x80)
  {
    hide InSet;
  }

  lemma Nonempty(list: seq<int>, k: nat, start: int, limit: int, listIndex: nat, from: int)
    requires AtRange(list, k, start, limit, listIndex, from) && start < HIGH
    ensures IsInversionList(list) && start < limit && k < |list|
  {
  }

  /** The positions start..until of this range are set. */
  lemma TwoByteFilled(list: seq<int>, t0: seq<Word>, t1: seq<Word>, k: nat, start: int, limit: int, listIndex: nat,
                      from: int, until: int)
    requires AtRange(list, k, start, limit, listIndex, from) && 0x80 <= from <= start < until <= limit && until <= 0x800
    requires TwoByteUpTo(list, t0, from) && |t1| == 64
    requires forall c :: 0 <= c < POSITIONS ==> (IsSet(t1, c) <==> IsSet(t0, c) || start <= c < until)
    ensures TwoByteUpTo(list, t1, until)
  {
    hide InSet, IsSet, IsInversionList;
    forall c | start <= c < until
      ensures InSet(list, c)
    {
      InThisRange(list, k, start, limit, listIndex, from, c);
    }
  }

  lemma TwoByteRest(list: seq<int>, t: seq<Word>, k: nat, start: int, limit: int, listIndex: nat, from: int)
    requires AtRange(list, k, start, limit, listIndex, from) && from <= 0x800 <= start && TwoByteUpTo(list, t, from)
    ensures TwoByteUpTo(list, t, 0x800) && AtRange(list, k, start, limit, listIndex, 0x800)
  {
    hide InSet, IsSet, IsInversionList;
  }

  /** Going on inside the same range. */
  lemma Advance(list: seq<int>, k: nat, start: int, limit: int, listIndex: nat, from: int, to: int)
    requires AtRange(list, k, start, limit, listIndex, from) && start <= to < limit
    ensures AtRange(list, k, to, limit, listIndex, to)
  {
    hide InSet;
    assert k < |list| - 1 ==> list[k + 1] == HIGH || list[k + 1] < list[|list| - 1];
  }

  /** After a range that ends inside the code points there is another one. */
  lemma MoveOn(list: seq<int>, k: nat, start: int, limit: int, listIndex: nat, from: int)
    requires AtRange(list, k, start, limit, listIndex, from) && limit < HIGH
    ensures IsInversionList(list) && listIndex == k + 2 < |list| && GapStart(list, k + 2) == limit && (k + 2) % 2 == 0
    ensures 0 <= start <= limit
  {
    hide InSet;
    HasNext(list, k);
  }

  lemma FromGap(list: seq<int>, k: nat, start: int, limit: int, listIndex: nat, from: int)
    requires AtRange(list, k, start, limit, listIndex, from) && start == list[k]
    ensures GapStart(list, k) <= start
  {
  }

  lemma StartsList(list: seq<int>, starts: seq<nat>)
    requires StartsRight(list, starts)
    ensures IsInversionList(list)
  {
  }

  lemma MaskedBit(t0: seq<Word>, t1: seq<Word>, bits: Word, c: int)
    requires |t0| == |t1| == 64 && 0 <= c < POSITIONS && (bits == 0 || bits == One(0xd))
    requires t1[c % 64] == if c % 64 >= 32 then Or(And(t0[c % 64], Not(Pair(0xd))), bits) else t0[c % 64]
    ensures IsSet(t1, c) <==>
               if c % 64 >= 32 && (c / 64 == 0xd || c / 64 == 0x1d) then c / 64 == 0xd && bits != 0
               else IsSet(t0, c)
  {
    hide Bit, Pair, One, And, Or, Not;
    var w, k, mask := t0[c % 64], c / 64, Not(Pair(0xd));
    BitOr(And(w, mask), bits, k);
    BitAnd(w, mask, k);
    BitNot(Pair(0xd), k);
    BitPair(0xd, k);
    BitOne(0xd, k);
    BitOne(0xd, 0xd);
    NoBit(k);
    NoBit(0xd);
  }

  lemma AsciiOverridden(list: seq<int>, a0: seq<bool>, a1: seq<bool>, replaced: bool)
    requires AsciiUpTo(list, a0, 0x80) && |a1| == 0xc0
    requires forall i :: 0 <= i < 0xc0 ==> a1[i] == ((replaced && 0x80 <= i) || a0[i])
    ensures AsciiRight(list, a1) && forall b :: 0x80 <= b < 0xc0 ==> a1[b] == replaced
  {
    hide InSet;
  }

  lemma TwoByteOverridden(list: seq<int>, t0: seq<Word>, t1: seq<Word>)
    requires TwoByteUpTo(list, t0, 0x800) && |t1| == 64
    requires forall c :: 0 <= c < POSITIONS ==> (IsSet(t1, c) <==> IsSet(t0, c) || (0 <= c % 64 < 64 && Bit(3, c / 64)))
    ensures TwoByteRight(list, t1) && forall c :: 0 <= c < 0x80 ==> IsSet(t1, c)
  {
    hide InSet, IsSet, Bit, One, Or;
    forall c | 0 <= c < POSITIONS
      ensures Bit(3, c / 64) <==> c < 0x80
    {
      assert Or(One(0), One(1)) == 3 by { ThreeIs(); }
      BitOr(One(0), One(1), c / 64);
      BitOne(0, c / 64);
      BitOne(1, c / 64);
    }
  }

  lemma ThreeIs()
    ensures Or(One(0), One(1)) == 3
  {
  }

  lemma TwoByteKept(list: seq<int>, t: seq<Word>)
    requires TwoByteUpTo(list, t, 0x800)
    ensures TwoByteRight(list, t) && forall c :: 0 <= c < 0x80 ==> !IsSet(t, c)
  {
    hide InSet, IsSet;
  }

  /** The effect of OverrideSurrogates(), by block. */
  lemma SurrogateBlock(t0: seq<Word>, t1: seq<Word>, bits: bool, b: int)
    requires |t0| == |t1| == 64 && 0 <= b < BLOCKS
    requires forall c :: 0 <= c < POSITIONS ==>
               (IsSet(t1, c) <==>
                  if c % 64 >= 32 && (c / 64 == 0xd || c / 64 == 0x1d) then c / 64 == 0xd && bits else IsSet(t0, c))
    ensures if 0x360 <= b < 0x380 then !IsMixed(t1, b) && (IsSet(t1, b) <==> bits)
            else (IsSet(t1, b) <==> IsSet(t0, b)) && (IsMixed(t1, b) <==> IsMixed(t0, b))
  {
    hide IsSet;
    var c := b + BLOCKS;
    assert c / 64 == b / 64 + 16 && c % 64 == b % 64;
    assert b % 64 >= 32 && b / 64 == 0xd <==> 0x360 <= b < 0x380;
    assert IsSet(t1, c) <==>
             if c % 64 >= 32 && (c / 64 == 0xd || c / 64 == 0x1d) then c / 64 == 0xd && bits else IsSet(t0, c);
  }

  lemma BlocksOverridden(list: seq<int>, t0: seq<Word>, t1: seq<Word>, t2: seq<Word>)
    requires BlocksUpTo(list, t0, 0x10000) && |t1| == |t2| == 64 && InSet(list, REPLACEMENT)
    requires forall c :: 0 <= c < POSITIONS ==> (IsSet(t1, c) <==> IsSet(t0, c) || (0 <= c % 64 < 32 && Bit(1, c / 64)))
    requires forall c :: 0 <= c < POSITIONS ==>
               (IsSet(t2, c) <==>
                  if c % 64 >= 32 && (c / 64 == 0xd || c / 64 == 0x1d) then c / 64 == 0xd && One(0xd) != 0
                  else IsSet(t1, c))
    ensures forall b :: 0 <= b < BLOCKS ==> BlockFinal(list, t2, b)
  {
    hide InSet, IsSet, Bit, One;
    OneNotZero(0xd);
    forall b | 0 <= b < BLOCKS
      ensures BlockFinal(list, t2, b)
    {
      SurrogateBlock(t1, t2, true, b);
      assert BlockUpTo(list, t0, b, 0x10000);
      var c := b + BLOCKS;
      assert One(0) == 1 by { OneZero(); }
      BitOne(0, b / 64);
      BitOne(0, c / 64);
      assert IsSet(t1, b) <==> IsSet(t0, b) || b < 0x20;
      assert IsSet(t1, c) <==> IsSet(t0, c);
    }
  }

  lemma OneNotZero(k: nat)
    requires k < 32
    ensures One(k) != 0
  {
    hide One;
    OnePower(k);
  }

  lemma BlocksCleared(list: seq<int>, t0: seq<Word>, t1: seq<Word>)
    requires BlocksUpTo(list, t0, 0x10000) && |t1| == 64 && !InSet(list, REPLACEMENT)
    requires forall c :: 0 <= c < POSITIONS ==>
               (IsSet(t1, c) <==>
                  if c % 64 >= 32 && (c / 64 == 0xd || c / 64 == 0x1d) then c / 64 == 0xd && false else IsSet(t0, c))
    ensures forall b :: 0 <= b < BLOCKS ==> BlockFinal(list, t1, b)
  {
    hide InSet, IsSet;
    forall b | 0 <= b < BLOCKS
      ensures BlockFinal(list, t1, b)
    {
      SurrogateBlock(t0, t1, false, b);
      assert BlockUpTo(list, t0, b, 0x10000);
    }
  }

  lemma NoBlocks(list: seq<int>, t: seq<Word>)
    requires |t| == 64 && forall c :: 0 <= c < POSITIONS ==> !IsSet(t, c)
    ensures BlocksUpTo(list, t, 0x800)
  {
    hide InSet, IsSet;
    forall b | 0 <= b < BLOCKS
      ensures BlockUpTo(list, t, b, 0x800)
    {
      assert !IsSet(t, b) && !IsSet(t, b + BLOCKS);
    }
  }

  /** Blocks between p and the block of start lie in a gap. */
  lemma SkipGap(list: seq<int>, t: seq<Word>, k: nat, start: int, limit: int, listIndex: nat, p: int, q: int)
    requires AtRange(list, k, start, limit, listIndex, p) && BlocksUpTo(list, t, p)
    requires p <= q <= 0x10000 && q % 64 == 0 && (q <= start || q == p)
    ensures BlocksUpTo(list, t, q)
  {
    hide InSet, IsInversionList, BlocksUpTo;
    BlocksGap(list, t, p, q);
  }

  lemma RangeBlocks(list: seq<int>, t0: seq<Word>, t1: seq<Word>, k: nat, start: int, limit: int, listIndex: nat,
                    from: int, p: int, q: int)
    requires AtRange(list, k, start, limit, listIndex, from) && BlocksUpTo(list, t0, p)
    requires start <= p <= q <= 0x10000 && q <= limit && q % 64 == 0 && |t1| == 64
    requires forall c :: 0 <= c < POSITIONS ==> (IsSet(t1, c) <==> IsSet(t0, c) || p / 64 <= c < q / 64)
    ensures BlocksUpTo(list, t1, q)
  {
    hide InSet, IsSet, AtRange, BlocksUpTo;
    forall c | p <= c < q
      ensures InSet(list, c)
    {
      InThisRange(list, k, start, limit, listIndex, from, c);
    }
    BlocksFilled(list, t0, t1, p, q);
  }

  lemma MoveOnFrom(list: seq<int>, k: nat, start: int, limit: int, listIndex: nat, p: int)
    requires AtRange(list, k, start, limit, listIndex, p) || exists p0 :: AtRange(list, k, start, limit, listIndex, p0)
    requires limit < 0x10000 && limit <= p
    ensures IsInversionList(list) && listIndex == k + 2 < |list| && 0 <= GapStart(list, k + 2) == limit <= p
            && (k + 2) % 2 == 0
  {
    hide InSet, AtRange;
    var p0 :| AtRange(list, k, start, limit, listIndex, p0);
    MoveOn(list, k, start, limit, listIndex, p0);
  }

  lemma BlocksRest(list: seq<int>, t: seq<Word>, k: nat, start: int, limit: int, listIndex: nat, p: int)
    requires AtRange(list, k, start, limit, listIndex, p) && BlocksUpTo(list, t, p) && start >= 0x10000 && p <= 0x10000
    ensures BlocksUpTo(list, t, 0x10000)
  {
    hide InSet, IsInversionList, BlocksUpTo;
    BlocksGap(list, t, p, 0x10000);
  }

  lemma AsciiAt(list: seq<int>, a: seq<bool>, c: int)
    requires AsciiRight(list, a) && 0 <= c <= 0x7f
    ensures a[c] <==> InSet(list, c)
  {
  }

  lemma TwoByteAt(list: seq<int>, t: seq<Word>, c: int)
    requires TwoByteRight(list, t) && 0x80 <= c <= 0x7ff
    ensures And(t[c % 64], One(c / 64)) != 0 <==> InSet(list, c)
  {
    hide InSet, One, And;
    assert IsSet(t, c) <==> InSet(list, c);
  }

  /** The two bits of the block of c. */
  lemma BlockAt(list: seq<int>, t: seq<Word>, c: int)
    requires |t| == 64 && 0 <= c <= 0xffff && BlockFinal(list, t, c / 64)
    ensures var two := And(Shr(t[c / 64 % 64], c / 0x1000), 0x10001);
            && (two <= 1 ==>
                  && (two == 1 <==> InSet(list, if IsIllegalBlock(c / 64) then REPLACEMENT else c))
                  && (two == 0 || two == 1))
            && (two > 1 ==> !IsIllegalBlock(c / 64))
  {
    hide InSet, Bit, And, Shr;
    var b := c / 64;
    var m := b + BLOCKS;
    assert m % 64 == b % 64 && m / 64 == b / 64 + 16 && b / 64 == c / 0x1000;
    TwoBits(t[b % 64], b / 64);
    assert 64 * b <= c < 64 * b + 64;
  }

  /** (uint8_t)(b - 0x80), which is at most 0x3f exactly for tail bytes */
  function TailBits(b: Byte): (t: int)
    ensures 0 <= t <= 0xff && (t <= 0x3f <==> IsTail(b)) && (IsTail(b) ==> t == b as int - 0x80)
  {
    (b as int + 0x80) % 0x100
  }

  /** A lead byte with too few tail bytes at the end of the text. */
  lemma CutAt(list: seq<int>, s: seq<Byte>, limit: nat, contained: bool)
    requires limit < |s| && s[limit] >= 0xc0 && |s| - limit - 1 < TailsAfter(s[limit])
    requires forall k :: limit < k < |s| ==> IsTail(s[k])
    ensures SpanEnd8(list, s, limit, contained) == if InSet(list, REPLACEMENT) == contained then |s| else limit
  {
    hide InSet, SpanEnd8;
    SpanAtEnd(list, s, contained);
    forall k | limit <= k < |s|
      ensures CharacterAt(s, k) == Decoded(REPLACEMENT, 1)
    {
      if k == limit { Incomplete(list, s, k, contained); } else { TailAlone(s, k); }
    }
    IllFormed(list, s, limit, |s| - limit, contained);
  }

  lemma IllegalRange(c: int)
    requires 0 <= c < 0x10000
    ensures IsIllegalBlock(c / 64) <==> c < 0x800 || 0xd800 <= c < 0xe000
    ensures BlockStart(c / 0x1000 + 1) > c && (c >= 0x800 ==> BlockStart(c / 0x1000) <= c)
  {
  }

  lemma SpanAtEnd(list: seq<int>, s: seq<Byte>, contained: bool)
    ensures SpanEnd8(list, s, |s|, contained) == |s|
  {
  }

  lemma AllClear(t: seq<Word>)
    requires |t| == 64 && forall i :: 0 <= i < 64 ==> t[i] == 0
    ensures forall c :: 0 <= c < POSITIONS ==> !IsSet(t, c)
  {
    hide Bit;
    forall c | 0 <= c < POSITIONS
      ensures !IsSet(t, c)
    {
      NoBit(c / 64);
    }
  }
}
