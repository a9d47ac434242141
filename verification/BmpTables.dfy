/**
  The data structures of source/common/bmpset.cpp on their own: inversion lists, and bit matrices in "vertical"
  organization, where consecutive positions are the same bit of consecutive words.
 */
module BmpTables {
  import opened BmpBits

  // ---------- inversion lists ----------

  const HIGH := 0x110000
  const REPLACEMENT := 0xfffd

  /** Strictly ascending boundaries, ended by 0x110000. */
  ghost predicate IsInversionList(list: seq<int>) {
    && |list| > 0 && list[|list| - 1] == HIGH && list[0] >= 0
    && forall i, j :: 0 <= i < j < |list| ==> list[i] < list[j]
  }

  /** The smallest i with c < list[i]. */
  function SmallestAbove(list: seq<int>, c: int, from: nat): (i: nat)
    requires from < |list| && c < list[|list| - 1]
    ensures from <= i < |list| && c < list[i] && forall j :: from <= j < i ==> list[j] <= c
    decreases |list| - from
  {
    if c < list[from] then from else SmallestAbove(list, c, from + 1)
  }

  /** Membership: the parity of the smallest i with c < list[i]. */
  predicate InSet(list: seq<int>, c: int) {
    |list| > 0 && 0 <= c < list[|list| - 1] && SmallestAbove(list, c, 0) % 2 == 1
  }

  /** i is the place of c in the list. */
  lemma PlaceIs(list: seq<int>, c: int, i: nat)
    requires IsInversionList(list) && i < |list| && 0 <= c < list[i] && (i > 0 ==> list[i - 1] <= c)
    ensures c < HIGH && SmallestAbove(list, c, 0) == i && (InSet(list, c) <==> i % 2 == 1)
  {
    assert i < |list| - 1 ==> list[i] < list[|list| - 1];
    var k := SmallestAbove(list, c, 0);
  }

  /** The end of the range that starts at the even index k. */
  function RangeEnd(list: seq<int>, k: nat): int {
    if k + 1 < |list| then list[k + 1] else HIGH
  }

  /** Membership as ranges: from an even element up to the next one. */
  lemma InRange(list: seq<int>, k: nat, c: int)
    requires IsInversionList(list) && k < |list| && k % 2 == 0 && list[k] <= c < RangeEnd(list, k)
    ensures InSet(list, c)
  {
    assert k > 0 ==> list[0] < list[k];
    if k + 1 < |list| { PlaceIs(list, c, k + 1); }
  }

  lemma InGap(list: seq<int>, k: nat, c: int)
    requires IsInversionList(list) && k < |list| && k % 2 == 0 && 0 <= c < list[k] && (k > 0 ==> list[k - 1] <= c)
    ensures !InSet(list, c)
  {
    PlaceIs(list, c, k);
  }

  // ---------- bit matrices ----------

  const POSITIONS := 0x800

  /** Position c of the matrix: bit c / 64 of word c % 64. */
  predicate IsSet(t: seq<Word>, c: int)
    requires |t| == 64 && 0 <= c < POSITIONS
  {
    Bit(t[c % 64], c / 64)
  }

  /** t[c] |= bits for all words from..to */
  method OrRows(table: array<Word>, from: nat, to: nat, bits: Word)
    requires table.Length == 64 && from <= to <= 64
    modifies table
    ensures forall c :: 0 <= c < POSITIONS ==>
              (IsSet(table[..], c) <==> IsSet(old(table[..]), c) || (from <= c % 64 < to && Bit(bits, c / 64)))
  {
    hide Bit, Or;
    var trail := from;
    while trail < to
      invariant from <= trail <= to
      invariant forall t :: from <= t < trail ==> table[t] == Or(old(table[..])[t], bits)
      invariant forall t :: 0 <= t < 64 && !(from <= t < trail) ==> table[t] == old(table[..])[t]
    {
      table[trail] := Or(table[trail], bits);
      trail := trail + 1;
    }
    forall c | 0 <= c < POSITIONS
      ensures IsSet(table[..], c) <==> IsSet(old(table[..]), c) || (from <= c % 64 < to && Bit(bits, c / 64))
    {
      BitOr(old(table[..])[c % 64], bits, c / 64);
    }
  }

  /** set32x64Bits(): sets the positions start..limit of the rectangle. */
  method Set32x64Bits(table: array<Word>, start: nat, limit: nat)
    requires table.Length == 64 && start < limit <= POSITIONS
    modifies table
    ensures forall c :: 0 <= c < POSITIONS ==> (IsSet(table[..], c) <==> IsSet(old(table[..]), c) || start <= c < limit)
  {
    hide IsSet, One, Below, Bit, And, Not;
    ghost var t0 := table[..];
    var lead, trail := start / 64, start % 64;
    var bits := One(lead);
    if start + 1 == limit {
      OrRows(table, trail, trail + 1, bits);
      OneColumn(t0, table[..], lead, trail, trail + 1, start, limit);
      return;
    }
    var limitLead, limitTrail := limit / 64, limit % 64;
    if lead == limitLead {
      OrRows(table, trail, limitTrail, bits);
      OneColumn(t0, table[..], lead, trail, limitTrail, start, limit);
    } else {
      if trail > 0 {
        OrRows(table, trail, 64, bits);
        OneColumn(t0, table[..], lead, trail, 64, start, lead * 64 + 64);
        lead := lead + 1;
      }
      ghost var t1 := table[..];
      if lead < limitLead {
        bits := Not(Below(lead));
        if limitLead < 0x20 { bits := And(bits, Below(limitLead)); }
        OrRows(table, 0, 64, bits);
        Rectangle(t1, table[..], bits, lead, limitLead);
      }
      ghost var t2 := table[..];
      bits := One(if limitLead == 0x20 then limitLead - 1 else limitLead);
      OrRows(table, 0, limitTrail, bits);
      if limitTrail > 0 {
        OneColumn(t2, table[..], limitLead, 0, limitTrail, limitLead * 64, limit);
      }
    }
  }

  lemma OneColumn(t0: seq<Word>, t1: seq<Word>, lead: nat, from: nat, to: nat, start: nat, limit: nat)
    requires |t0| == |t1| == 64 && lead < 32 && from < to <= 64 && start == lead * 64 + from && limit == lead * 64 + to
    requires forall c :: 0 <= c < POSITIONS ==>
               (IsSet(t1, c) <==> IsSet(t0, c) || (from <= c % 64 < to && Bit(One(lead), c / 64)))
    ensures forall c :: 0 <= c < POSITIONS ==> (IsSet(t1, c) <==> IsSet(t0, c) || start <= c < limit)
  {
    hide IsSet, One, Bit;
    forall c | 0 <= c < POSITIONS
      ensures IsSet(t1, c) <==> IsSet(t0, c) || start <= c < limit
    {
      BitOne(lead, c / 64);
    }
  }

  lemma Rectangle(t0: seq<Word>, t1: seq<Word>, bits: Word, lead: nat, limitLead: nat)
    requires |t0| == |t1| == 64 && lead < limitLead <= 32
    requires bits == if limitLead < 0x20 then And(Not(Below(lead)), Below(limitLead)) else Not(Below(lead))
    requires forall c :: 0 <= c < POSITIONS ==>
             (IsSet(t1, c) <==> IsSet(t0, c) || (0 <= c % 64 < 64 && Bit(bits, c / 64)))
    ensures forall c :: 0 <= c < POSITIONS ==> (IsSet(t1, c) <==> IsSet(t0, c) || lead * 64 <= c < limitLead * 64)
  {
    hide IsSet, Below, Bit, And, Not;
    forall c | 0 <= c < POSITIONS
      ensures IsSet(t1, c) <==> IsSet(t0, c) || lead * 64 <= c < limitLead * 64
    {
      var k := c / 64;
      BitNot(Below(lead), k);
      BitBelow(lead, k);
      if limitLead < 32 {
        BitAnd(Not(Below(lead)), Below(limitLead), k);
        BitBelow(limitLead, k);
      }
    }
  }

  /** Marks block b as mixed: position b of the lower half and of the upper half. */
  method MarkMixed(table: array<Word>, b: nat)
    requires table.Length == 64 && b < 0x400
    modifies table
    ensures forall c :: 0 <= c < POSITIONS ==>
            (IsSet(table[..], c) <==> IsSet(old(table[..]), c) || c == b || c == b + 0x400)
  {
    hide IsSet, Bit, Pair;
    ghost var t0 := table[..];
    OrRows(table, b % 64, b % 64 + 1, Pair(b / 64));
    forall c | 0 <= c < POSITIONS
      ensures IsSet(table[..], c) <==> IsSet(t0, c) || c == b || c == b + 0x400
    {
      BitPair(b / 64, c / 64);
    }
  }
}
