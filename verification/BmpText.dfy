/**
  Decoding of UTF-16 and UTF-8 text one character at a time, and the spans that source/common/bmpset.cpp
  computes over it, as simple recursive definitions.
 */
module BmpText {
  import opened Basics
  import opened BmpTables

  /** A character and its length in units or bytes. */
  datatype Decoded = Decoded(c: int, length: nat)

  // ---------- UTF-16 ----------

  predicate IsLead(u: Unit) { 0xd800 <= u < 0xdc00 }

  predicate IsTrail(u: Unit) { 0xdc00 <= u < 0xe000 }

  /** U16_GET_SUPPLEMENTARY */
  function Supplementary(lead: Unit, trail: Unit): (c: int)
    ensures IsLead(lead) && IsTrail(trail) ==> 0x10000 <= c <= 0x10ffff
  {
    (lead as int - 0xd800) * 0x400 + (trail as int - 0xdc00) + 0x10000
  }

  /** The code point that starts at i; an unpaired surrogate stands for itself. */
  function CodePointAt(s: seq<Unit>, i: nat): (d: Decoded)
    requires i < |s|
    ensures 1 <= d.length && i + d.length <= |s|
  {
    if IsLead(s[i]) && i + 1 < |s| && IsTrail(s[i + 1]) then Decoded(Supplementary(s[i], s[i + 1]), 2)
    else Decoded(s[i], 1)
  }

  /** The code point that ends at i. */
  function CodePointBefore(s: seq<Unit>, i: nat): (d: Decoded)
    requires 0 < i <= |s|
    ensures 1 <= d.length <= i
  {
    if IsTrail(s[i - 1]) && i >= 2 && IsLead(s[i - 2]) then Decoded(Supplementary(s[i - 2], s[i - 1]), 2)
    else Decoded(s[i - 1], 1)
  }

  /** From i on, as long as each code point c has contained == (c in the set). */
  function SpanEnd(list: seq<int>, s: seq<Unit>, i: nat, contained: bool): (r: nat)
    requires i <= |s|
    ensures i <= r <= |s|
    decreases |s| - i
  {
    if i == |s| then i
    else
      var d := CodePointAt(s, i);
      if InSet(list, d.c) == contained then SpanEnd(list, s, i + d.length, contained) else i
  }

  /** From i backward, as long as each code point c has contained == (c in the set). */
  function SpanStart(list: seq<int>, s: seq<Unit>, i: nat, contained: bool): (r: nat)
    requires i <= |s|
    ensures r <= i
    decreases i
  {
    if i == 0 then i
    else
      var d := CodePointBefore(s, i);
      if InSet(list, d.c) == contained then SpanStart(list, s, i - d.length, contained) else i
  }

  /** s[i..j] is a sequence of whole code points that all satisfy the condition. */
  ghost predicate AllAlong(list: seq<int>, s: seq<Unit>, i: nat, j: nat, contained: bool)
    requires i <= |s| && j <= |s|
    decreases |s| - i
  {
    i == j ||
    (i < j && var d := CodePointAt(s, i);
              InSet(list, d.c) == contained && AllAlong(list, s, i + d.length, j, contained))
  }

  /** The span is the longest prefix whose code points all satisfy the condition. */
  lemma {:induction false} SpanIsLongest(list: seq<int>, s: seq<Unit>, i: nat, j: nat, contained: bool)
    requires i <= |s| && j <= |s|
    ensures AllAlong(list, s, i, SpanEnd(list, s, i, contained), contained)
    ensures AllAlong(list, s, i, j, contained) ==> j <= SpanEnd(list, s, i, contained)
    decreases |s| - i
  {
    hide InSet, CodePointAt;
    if i < |s| {
      var d := CodePointAt(s, i);
      if InSet(list, d.c) == contained { SpanIsLongest(list, s, i + d.length, j, contained); }
    }
  }

  /** i does not stand inside a surrogate pair. */
  predicate IsBoundary(s: seq<Unit>, i: nat) {
    !(0 < i < |s| && IsLead(s[i - 1]) && IsTrail(s[i]))
  }

  /** Forward and backward decoding see the same code points. */
  lemma SameCodePoint(s: seq<Unit>, i: nat)
    requires 0 < i <= |s| && IsBoundary(s, i)
    ensures var d := CodePointBefore(s, i); IsBoundary(s, i - d.length) && CodePointAt(s, i - d.length) == d
  {
  }

  lemma {:induction false} AllAlongAppend(list: seq<int>, s: seq<Unit>, i: nat, k: nat, j: nat, contained: bool)
    requires i <= k <= j <= |s| && AllAlong(list, s, i, k, contained) && AllAlong(list, s, k, j, contained)
    ensures AllAlong(list, s, i, j, contained)
    decreases |s| - i
  {
    hide InSet, CodePointAt;
    if i < k {
      var d := CodePointAt(s, i);
      AllAlongForward(list, s, i + d.length, k, contained);
      AllAlongAppend(list, s, i + d.length, k, j, contained);
    }
  }

  lemma AllAlongForward(list: seq<int>, s: seq<Unit>, i: nat, j: nat, contained: bool)
    requires i <= |s| && j <= |s| && AllAlong(list, s, i, j, contained)
    ensures i <= j
  {
  }

  /**
    The backward span is the longest suffix, cut at a code point boundary, whose code points all satisfy the
    condition.
   */
  lemma {:induction false} SpanStartIsLongest(list: seq<int>, s: seq<Unit>, i: nat, j: nat, contained: bool)
    requires i <= |s| && j <= i && IsBoundary(s, i) && IsBoundary(s, j)
    ensures var r := SpanStart(list, s, i, contained);
            IsBoundary(s, r) && AllAlong(list, s, r, i, contained)
    ensures AllAlong(list, s, j, i, contained) ==> SpanStart(list, s, i, contained) <= j
    decreases i
  {
    hide InSet, CodePointAt, CodePointBefore, IsBoundary;
    if i > 0 {
      var d := CodePointBefore(s, i);
      var k := i - d.length;
      SameCodePoint(s, i);
      if j < i { LastCodePoint(list, s, j, i, contained); }
      if InSet(list, d.c) == contained {
        if j <= k { SpanStartIsLongest(list, s, k, j, contained); }
          else { SpanStartIsLongest(list, s, k, k, contained); }
        var r := SpanStart(list, s, k, contained);
        OneCodePoint(list, s, k, contained);
        AllAlongAppend(list, s, r, k, i, contained);
      }
    }
  }

  lemma OneCodePoint(list: seq<int>, s: seq<Unit>, k: nat, contained: bool)
    requires k < |s| && InSet(list, CodePointAt(s, k).c) == contained
    ensures AllAlong(list, s, k, k + CodePointAt(s, k).length, contained)
  {
    hide InSet, CodePointAt;
  }

  /** If all of s[j..i] satisfies the condition, its last code point and the rest before it do. */
  lemma {:induction false} LastCodePoint(list: seq<int>, s: seq<Unit>, j: nat, i: nat, contained: bool)
    requires j < i <= |s| && IsBoundary(s, i) && IsBoundary(s, j)
    ensures var d := CodePointBefore(s, i);
            AllAlong(list, s, j, i, contained) ==>
              InSet(list, d.c) == contained && j <= i - d.length && AllAlong(list, s, j, i - d.length, contained)
    decreases i - j
  {
    hide InSet;
    if AllAlong(list, s, j, i, contained) {
      var d := CodePointAt(s, j);
      AllAlongForward(list, s, j + d.length, i, contained);
      if j + d.length < i {
        AfterIsBoundary(s, j);
        LastCodePoint(list, s, j + d.length, i, contained);
      }
    }
  }

  lemma AfterIsBoundary(s: seq<Unit>, j: nat)
    requires j < |s|
    ensures IsBoundary(s, j + CodePointAt(s, j).length)
  {
  }

  // ---------- UTF-8 (section 4 of RFC 3629) ----------

  predicate IsTail(b: Byte) { 0x80 <= b <= 0xbf }

  predicate TailAt(s: seq<Byte>, i: nat) { i < |s| && IsTail(s[i]) }

  /** The second byte that the first byte of a three- or four-byte sequence allows. */
  predicate SecondAllowed(b: Byte, t: Byte) {
    && IsTail(t)
    && (b == 0xe0 ==> t >= 0xa0) && (b == 0xed ==> t <= 0x9f)
    && (b == 0xf0 ==> t >= 0x90) && (b == 0xf4 ==> t <= 0x8f)
  }

  /** The well-formed character that starts at i; a byte that starts none counts as U+FFFD. */
  function CharacterAt(s: seq<Byte>, i: nat): (d: Decoded)
    requires i < |s|
    ensures 1 <= d.length && i + d.length <= |s|
  {
    var b: int := s[i];
    if b <= 0x7f then Decoded(b, 1)
    else if 0xc2 <= b <= 0xdf && TailAt(s, i + 1) then
      Decoded((b - 0xc0) * 0x40 + (s[i + 1] as int - 0x80), 2)
    else if 0xe0 <= b <= 0xef && TailAt(s, i + 1) && SecondAllowed(b, s[i + 1]) && TailAt(s, i + 2) then
      Decoded((b - 0xe0) * 0x1000 + (s[i + 1] as int - 0x80) * 0x40 + (s[i + 2] as int - 0x80), 3)
    else if 0xf0 <= b <= 0xf4 && TailAt(s, i + 1) && SecondAllowed(b, s[i + 1]) && TailAt(s, i + 2)
      && TailAt(s, i + 3) then
      Decoded((b - 0xf0) * 0x40000 + (s[i + 1] as int - 0x80) * 0x1000 + (s[i + 2] as int - 0x80) * 0x40
        + (s[i + 3] as int - 0x80), 4)
    else Decoded(REPLACEMENT, 1)
  }

  /** From i on, as long as each character c has contained == (c in the set). */
  function SpanEnd8(list: seq<int>, s: seq<Byte>, i: nat, contained: bool): (r: nat)
    requires i <= |s|
    ensures i <= r <= |s|
    decreases |s| - i
  {
    if i == |s| then i
    else
      var d := CharacterAt(s, i);
      if InSet(list, d.c) == contained then SpanEnd8(list, s, i + d.length, contained) else i
  }

  /** s[i..j] is a sequence of characters and ill-formed bytes that all satisfy the condition. */
  ghost predicate AllAlong8(list: seq<int>, s: seq<Byte>, i: nat, j: nat, contained: bool)
    requires i <= |s| && j <= |s|
    decreases |s| - i
  {
    i == j ||
    (i < j && var d := CharacterAt(s, i);
              InSet(list, d.c) == contained && AllAlong8(list, s, i + d.length, j, contained))
  }

  /** The span is the longest prefix whose characters and ill-formed bytes all satisfy the condition. */
  lemma {:induction false} SpanIsLongest8(list: seq<int>, s: seq<Byte>, i: nat, j: nat, contained: bool)
    requires i <= |s| && j <= |s|
    ensures AllAlong8(list, s, i, SpanEnd8(list, s, i, contained), contained)
    ensures AllAlong8(list, s, i, j, contained) ==> j <= SpanEnd8(list, s, i, contained)
    decreases |s| - i
  {
    hide InSet, CharacterAt;
    if i < |s| {
      var d := CharacterAt(s, i);
      if InSet(list, d.c) == contained { SpanIsLongest8(list, s, i + d.length, j, contained); }
    }
  }

  // ---------- the spans in the steps in which the tables decide them ----------

  lemma SpanStep8(list: seq<int>, s: seq<Byte>, i: nat, contained: bool)
    requires i < |s|
    ensures var d := CharacterAt(s, i);
            SpanEnd8(list, s, i, contained) == if InSet(list, d.c) == contained
              then SpanEnd8(list, s, i + d.length, contained) else i
  {
    hide InSet, CharacterAt;
  }

  /** n bytes that start no character each are decided together. */
  lemma {:induction false} IllFormed(list: seq<int>, s: seq<Byte>, i: nat, n: nat, contained: bool)
    requires i + n <= |s| && n > 0
    requires forall k :: i <= k < i + n ==> CharacterAt(s, k) == Decoded(REPLACEMENT, 1)
    ensures SpanEnd8(list, s, i, contained) == if InSet(list, REPLACEMENT) == contained
            then SpanEnd8(list, s, i + n, contained) else i
    decreases n
  {
    hide InSet, CharacterAt, SpanEnd8;
    SpanStep8(list, s, i, contained);
    assert CharacterAt(s, i) == Decoded(REPLACEMENT, 1);
    if n > 1 { IllFormed(list, s, i + 1, n - 1, contained); }
  }

  lemma TailAlone(s: seq<Byte>, i: nat)
    requires TailAt(s, i)
    ensures CharacterAt(s, i) == Decoded(REPLACEMENT, 1)
  {
  }

  /** What the tables answer for a sequence whose bits form c. */
  predicate Answer(list: seq<int>, c: int, least: int) {
    InSet(list, if c < least || 0xd800 <= c < 0xe000 || c > 0x10ffff then REPLACEMENT else c)
  }

  lemma TwoBytes(list: seq<int>, s: seq<Byte>, i: nat, contained: bool)
    requires i < |s| && 0xc0 <= s[i] <= 0xdf && TailAt(s, i + 1)
    ensures var c := (s[i] as int - 0xc0) * 0x40 + (s[i + 1] as int - 0x80);
            0 <= c < 0x800 &&
            SpanEnd8(list, s, i, contained) == if Answer(list, c, 0x80) == contained
              then SpanEnd8(list, s, i + 2, contained) else i
  {
    hide InSet, SpanEnd8;
    SpanStep8(list, s, i, contained);
    if s[i] < 0xc2 { IllFormed(list, s, i, 2, contained); }
  }

  lemma ThreeBytes(list: seq<int>, s: seq<Byte>, i: nat, contained: bool)
    requires i < |s| && 0xe0 <= s[i] <= 0xef && TailAt(s, i + 1) && TailAt(s, i + 2)
    ensures var c := (s[i] as int - 0xe0) * 0x1000 + (s[i + 1] as int - 0x80) * 0x40 + (s[i + 2] as int - 0x80);
            0 <= c < 0x10000 &&
            SpanEnd8(list, s, i, contained) == if Answer(list, c, 0x800) == contained
              then SpanEnd8(list, s, i + 3, contained) else i
  {
    hide InSet, SpanEnd8;
    SpanStep8(list, s, i, contained);
    TailAlone(s, i + 1);
    TailAlone(s, i + 2);
    if !SecondAllowed(s[i], s[i + 1]) { IllFormed(list, s, i, 3, contained); }
  }

  lemma FourBytes(list: seq<int>, s: seq<Byte>, i: nat, contained: bool)
    requires i < |s| && 0xf0 <= s[i] && TailAt(s, i + 1) && TailAt(s, i + 2) && TailAt(s, i + 3)
    ensures var c := (s[i] as int - 0xf0) * 0x40000 + (s[i + 1] as int - 0x80) * 0x1000
                     + (s[i + 2] as int - 0x80) * 0x40 + (s[i + 3] as int - 0x80);
            SpanEnd8(list, s, i, contained) == if Answer(list, c, 0x10000) == contained
              then SpanEnd8(list, s, i + 4, contained) else i
  {
    hide InSet, SpanEnd8;
    SpanStep8(list, s, i, contained);
    TailAlone(s, i + 1);
    TailAlone(s, i + 2);
    TailAlone(s, i + 3);
    if s[i] > 0xf4 || !SecondAllowed(s[i], s[i + 1]) { IllFormed(list, s, i, 4, contained); }
  }

  /** How many tail bytes a lead byte calls for. */
  function TailsAfter(b: Byte): nat { if b < 0xc0 then 0 else if b < 0xe0 then 1 else if b < 0xf0 then 2 else 3 }

  /** A lead byte without its tail bytes, or a tail byte alone. */
  lemma Incomplete(list: seq<int>, s: seq<Byte>, i: nat, contained: bool)
    requires i < |s| && s[i] >= 0xc0
    requires !TailAt(s, i + 1) || (TailsAfter(s[i]) >= 2 && !TailAt(s, i + 2))
             || (TailsAfter(s[i]) == 3 && !TailAt(s, i + 3))
    ensures CharacterAt(s, i) == Decoded(REPLACEMENT, 1)
    ensures SpanEnd8(list, s, i, contained) == if InSet(list, REPLACEMENT) == contained
            then SpanEnd8(list, s, i + 1, contained) else i
  {
    hide InSet, SpanEnd8;
    SpanStep8(list, s, i, contained);
  }

  lemma OneByte(list: seq<int>, s: seq<Byte>, i: nat, contained: bool)
    requires i < |s| && s[i] < 0xc0
    ensures SpanEnd8(list, s, i, contained)
            == if InSet(list, if s[i] < 0x80 then s[i] else REPLACEMENT) == contained
              then SpanEnd8(list, s, i + 1, contained) else i
  {
    hide InSet, SpanEnd8;
    SpanStep8(list, s, i, contained);
  }
}
