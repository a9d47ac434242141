/**
  The byte-level writer of source/common/bytestriebuilder.cpp: a buffer that grows backward, and the
  compact encodings of values and jump deltas, proved against the reader's decoders.
 */
module TrieWriter {
  import opened Basics
  import opened TrieModel
  import opened TrieLayout

  /** The low byte of an int, as (char) and (uint8_t) casts keep it. */
  function Low8(i: int): Byte { i % 0x100 }

  // ---------- compact values ----------

  /** The bytes that writeValueAndFinal() prepends. */
  function EncodeValue(i: int, isFinal: bool): seq<Byte>
    requires IsInt32(i)
  {
    var bit := if isFinal then 1 else 0;
    if 0 <= i <= MAX_ONE_BYTE_VALUE then [(MIN_ONE_BYTE_VALUE_LEAD + i) * 2 + bit]
    else if i < 0 || i > 0xffffff then
      [FIVE_BYTE_VALUE_LEAD * 2 + bit, Low8(i / 0x100_0000), Low8(i / 0x10000), Low8(i / 0x100), Low8(i)]
    else if i <= MAX_TWO_BYTE_VALUE then
      [(MIN_TWO_BYTE_VALUE_LEAD + i / 0x100) * 2 + bit, Low8(i)]
    else if i <= MAX_THREE_BYTE_VALUE then
      [(MIN_THREE_BYTE_VALUE_LEAD + i / 0x10000) * 2 + bit, Low8(i / 0x100), Low8(i)]
    else
      [FOUR_BYTE_VALUE_LEAD * 2 + bit, Low8(i / 0x10000), Low8(i / 0x100), Low8(i)]
  }

  lemma Split4(u: int)
    requires 0 <= u < 0x1_0000_0000
    ensures Join4(u / 0x100_0000, Low8(u / 0x10000), Low8(u / 0x100), Low8(u)) == u
    ensures 0 <= u / 0x100_0000 < 0x100
  {
    hide Low8;
    LowSplit(u);
    LowSplit(u / 0x100);
    LowSplit(u / 0x10000);
    DivideAgain(u);
    DivideAgain(u / 0x100);
  }

  lemma LowSplit(x: int)
    ensures Join2(x / 0x100, Low8(x)) == x
  {
  }

  lemma DivideAgain(x: int)
    ensures x / 0x100 / 0x100 == x / 0x10000 && x / 0x10000 / 0x100 == x / 0x100_0000
  {
  }

  /** b starts with the compact value i, read back in full. */
  ghost predicate ReadsBack(b: seq<Byte>, i: int, isFinal: bool, length: nat) {
    && ValueFits(b, 0) && ValueAt(b, 0) == i && (IsFinalLead(b[0]) <==> isFinal) && AfterValue(b, 0) == length
  }

  lemma Lead(x: int, bit: int)
    requires 0 <= bit <= 1
    ensures (x * 2 + bit) / 2 == x && (x * 2 + bit) % 2 == bit
  {
  }

  /** Adding 2^32 does not change the low four bytes. */
  lemma LowBytesOfNegative(i: int)
    requires -0x8000_0000 <= i < 0
    ensures var u := i + 0x1_0000_0000;
            && Low8(i / 0x100_0000) == u / 0x100_0000 && Low8(i / 0x10000) == Low8(u / 0x10000)
            && Low8(i / 0x100) == Low8(u / 0x100) && Low8(i) == Low8(u)
  {
    hide Low8;
    var u := i + 0x1_0000_0000;
    HighPart(i);
    MiddlePart(i);
    LowPart(i);
    SameLow8(i / 0x10000, 0x100);
    SameLow8(i / 0x100, 0x10000);
    SameLow8(i, 0x100_0000);
  }

  lemma HighPart(i: int)
    requires -0x8000_0000 <= i < 0
    ensures (i + 0x1_0000_0000) / 0x100_0000 == Low8(i / 0x100_0000)
  {
    assert (i + 0x1_0000_0000) / 0x100_0000 == i / 0x100_0000 + 0x100;
  }

  lemma MiddlePart(i: int)
    ensures (i + 0x1_0000_0000) / 0x10000 == i / 0x10000 + 0x100 * 0x100
  {
  }

  lemma LowPart(i: int)
    ensures (i + 0x1_0000_0000) / 0x100 == i / 0x100 + 0x100 * 0x10000
  {
  }

  lemma SameLow8(x: int, k: int)
    ensures Low8(x + 0x100 * k) == Low8(x)
  {
  }

  lemma FiveByteReads(b: seq<Byte>, isFinal: bool, u: int)
    requires |b| >= 5 && b[0] == FIVE_BYTE_VALUE_LEAD * 2 + (if isFinal then 1 else 0)
    requires 0 <= u < 0x1_0000_0000 && Join4(b[1], b[2], b[3], b[4]) == u
    ensures ReadsBack(b, ToInt32(u), isFinal, 5)
  {
  }

  lemma FiveByteEncoding(i: int, isFinal: bool)
    requires IsInt32(i) && (i < 0 || i > 0xffffff)
    ensures var e := EncodeValue(i, isFinal);
            var u := if i < 0 then i + 0x1_0000_0000 else i;
            |e| == 5 && e[0] == FIVE_BYTE_VALUE_LEAD * 2 + (if isFinal then 1 else 0)
              && Join4(e[1], e[2], e[3], e[4]) == u
  {
    hide Low8, Join4;
    var u := if i < 0 then i + 0x1_0000_0000 else i;
    Split4(u);
    if i < 0 { LowBytesOfNegative(i); } else { TopByte(i); }
  }

  lemma TopByte(u: int)
    requires 0 <= u < 0x1_0000_0000
    ensures Low8(u / 0x100_0000) == u / 0x100_0000
  {
  }

  lemma FiveByteRoundTrip(i: int, isFinal: bool, b: seq<Byte>)
    requires IsInt32(i) && (i < 0 || i > 0xffffff)
    requires EncodeValue(i, isFinal) <= b
    ensures ReadsBack(b, i, isFinal, 5)
  {
    hide EncodeValue, ReadsBack, Join4;
    FiveByteEncoding(i, isFinal);
    var e := EncodeValue(i, isFinal);
    assert b[0] == e[0] && b[1] == e[1] && b[2] == e[2] && b[3] == e[3] && b[4] == e[4];
    FiveByteReads(b, isFinal, if i < 0 then i + 0x1_0000_0000 else i);
  }

  lemma Split3(i: int)
    requires 0 <= i <= 0xffffff
    ensures Join3(i / 0x10000, Low8(i / 0x100), Low8(i)) == i && Join2(i / 0x100, Low8(i)) == i
    ensures 0 <= i / 0x10000 < 0x100 && i / 0x10000 == Low8(i / 0x10000)
  {
  }

  lemma ShortRoundTrip(i: int, isFinal: bool, b: seq<Byte>)
    requires 0 <= i <= 0xffffff
    requires EncodeValue(i, isFinal) <= b
    ensures ReadsBack(b, i, isFinal, |EncodeValue(i, isFinal)|)
  {
    hide Low8, ReadsBack;
    var e := EncodeValue(i, isFinal);
    var bit := if isFinal then 1 else 0;
    Split3(i);
    assert b[0] == e[0];
    if i <= MAX_ONE_BYTE_VALUE {
      OneByteReads(b, isFinal, i);
    } else if i <= MAX_TWO_BYTE_VALUE {
      assert b[1] == e[1];
      TwoBytesRead(b, isFinal, i);
    } else if i <= MAX_THREE_BYTE_VALUE {
      assert b[1] == e[1] && b[2] == e[2];
      ThreeBytesRead(b, isFinal, i);
    } else {
      assert b[1] == e[1] && b[2] == e[2] && b[3] == e[3];
      FourBytesRead(b, isFinal, i);
    }
  }

  lemma OneByteReads(b: seq<Byte>, isFinal: bool, i: int)
    requires 0 <= i <= MAX_ONE_BYTE_VALUE && |b| >= 1
             && b[0] == (MIN_ONE_BYTE_VALUE_LEAD + i) * 2 + (if isFinal then 1 else 0)
    ensures ReadsBack(b, i, isFinal, 1)
  {
    Lead(MIN_ONE_BYTE_VALUE_LEAD + i, if isFinal then 1 else 0);
  }

  lemma TwoBytesRead(b: seq<Byte>, isFinal: bool, i: int)
    requires MAX_ONE_BYTE_VALUE < i <= MAX_TWO_BYTE_VALUE && |b| >= 2 && Join2(i / 0x100, b[1]) == i
    requires b[0] == (MIN_TWO_BYTE_VALUE_LEAD + i / 0x100) * 2 + (if isFinal then 1 else 0)
    ensures ReadsBack(b, i, isFinal, 2)
  {
    Lead(MIN_TWO_BYTE_VALUE_LEAD + i / 0x100, if isFinal then 1 else 0);
  }

  lemma ThreeBytesRead(b: seq<Byte>, isFinal: bool, i: int)
    requires MAX_TWO_BYTE_VALUE < i <= MAX_THREE_BYTE_VALUE && |b| >= 3 && Join3(i / 0x10000, b[1], b[2]) == i
    requires b[0] == (MIN_THREE_BYTE_VALUE_LEAD + i / 0x10000) * 2 + (if isFinal then 1 else 0)
    ensures ReadsBack(b, i, isFinal, 3)
  {
    Lead(MIN_THREE_BYTE_VALUE_LEAD + i / 0x10000, if isFinal then 1 else 0);
  }

  lemma FourBytesRead(b: seq<Byte>, isFinal: bool, i: int)
    requires MAX_THREE_BYTE_VALUE < i <= 0xffffff && |b| >= 4 && Join3(b[1], b[2], b[3]) == i
    requires b[0] == FOUR_BYTE_VALUE_LEAD * 2 + (if isFinal then 1 else 0)
    ensures ReadsBack(b, i, isFinal, 4)
  {
    Lead(FOUR_BYTE_VALUE_LEAD, if isFinal then 1 else 0);
  }

  /** Every int32 value and final flag is recovered by the reader, at the length the reader skips. */
  lemma ValueRoundTrip(i: int, isFinal: bool, rest: seq<Byte>)
    requires IsInt32(i)
    ensures ReadsBack(EncodeValue(i, isFinal) + rest, i, isFinal, |EncodeValue(i, isFinal)|)
  {
    if 0 <= i <= 0xffffff {
      ShortRoundTrip(i, isFinal, EncodeValue(i, isFinal) + rest);
    } else {
      FiveByteRoundTrip(i, isFinal, EncodeValue(i, isFinal) + rest);
    }
  }

  // ---------- compact jump deltas ----------

  /**
    The bytes that writeDeltaTo() prepends for a jump of i. For jumps of more than kMaxThreeByteDelta the code
    stores (i>>16) and then (i>>8) in the same array element, and leaves the elements between that one and
    the last one unset: g2 and g3 stand for whatever they hold.
   */
  function EncodeDelta(i: int, g2: Byte, g3: Byte): seq<Byte>
    requires 0 <= i < 0x8000_0000
  {
    if i <= MAX_ONE_BYTE_DELTA then [i]
    else if i <= MAX_TWO_BYTE_DELTA then [MIN_TWO_BYTE_DELTA_LEAD + i / 0x100, Low8(i)]
    else if i <= MAX_THREE_BYTE_DELTA then
      [MIN_THREE_BYTE_DELTA_LEAD + i / 0x10000, Low8(i / 0x100), Low8(i)]
    else if i <= 0xffffff then [FOUR_BYTE_DELTA_LEAD, Low8(i / 0x100), g2, Low8(i)]
    else [FIVE_BYTE_DELTA_LEAD, Low8(i / 0x100), g2, g3, Low8(i)]
  }

  /** The long forms happen to encode i only if the bytes that were overwritten or left unset fit it. */
  ghost predicate DeltaEncodable(i: int, g2: Byte, g3: Byte) {
    || i <= MAX_THREE_BYTE_DELTA
    || (i <= 0xffffff && Low8(i / 0x100) == i / 0x10000 && g2 == Low8(i / 0x100))
    || (i > 0xffffff && Low8(i / 0x100) == i / 0x100_0000 && g2 == Low8(i / 0x10000) && g3 == Low8(i / 0x100))
  }

  /**
    jumpByDelta() after writeDeltaTo(): the reader skips exactly what was written, and lands i bytes behind it
    exactly when the delta is encodable - in particular for every delta up to kMaxThreeByteDelta.
   */
  lemma DeltaRoundTrip(i: int, g2: Byte, g3: Byte, rest: seq<Byte>)
    requires 0 <= i < 0x8000_0000
    ensures var e := EncodeDelta(i, g2, g3);
            && DeltaFits(e + rest, 0)
            && SkipDelta(e + rest, 0) == |e|
            && (JumpByDelta(e + rest, 0) == |e| + i <==> DeltaEncodable(i, g2, g3))
  {
    hide EncodeDelta, DeltaFits, SkipDelta, JumpByDelta, DeltaEncodable;
    var b := EncodeDelta(i, g2, g3) + rest;
    if i <= MAX_ONE_BYTE_DELTA {
      OneByteDelta(i, g2, g3, b);
    } else if i <= MAX_TWO_BYTE_DELTA {
      TwoByteDelta(i, g2, g3, b);
    } else if i <= MAX_THREE_BYTE_DELTA {
      ThreeByteDelta(i, g2, g3, b);
    } else if i <= 0xffffff {
      FourByteDelta(i, g2, g3, b);
    } else {
      FiveByteDelta(i, g2, g3, b);
    }
  }

  /** From the encoding of i at the start of b, the reader skips n bytes, and lands on the target if it should. */
  ghost predicate Lands(i: int, g2: Byte, g3: Byte, b: seq<Byte>, n: nat)
    requires 0 <= i < 0x8000_0000
  {
    && |EncodeDelta(i, g2, g3)| == n && DeltaFits(b, 0) && SkipDelta(b, 0) == n
    && (JumpByDelta(b, 0) == n + i <==> DeltaEncodable(i, g2, g3))
  }

  lemma OneByteDelta(i: int, g2: Byte, g3: Byte, b: seq<Byte>)
    requires 0 <= i <= MAX_ONE_BYTE_DELTA && EncodeDelta(i, g2, g3) <= b
    ensures Lands(i, g2, g3, b, 1)
  {
    assert b[0] == i;
  }

  lemma TwoByteDelta(i: int, g2: Byte, g3: Byte, b: seq<Byte>)
    requires MAX_ONE_BYTE_DELTA < i <= MAX_TWO_BYTE_DELTA && EncodeDelta(i, g2, g3) <= b
    ensures Lands(i, g2, g3, b, 2)
  {
    hide Low8, Join2;
    assert b[0] == MIN_TWO_BYTE_DELTA_LEAD + i / 0x100 && b[1] == Low8(i);
    Split3(i);
  }

  lemma ThreeByteDelta(i: int, g2: Byte, g3: Byte, b: seq<Byte>)
    requires MAX_TWO_BYTE_DELTA < i <= MAX_THREE_BYTE_DELTA && EncodeDelta(i, g2, g3) <= b
    ensures Lands(i, g2, g3, b, 3)
  {
    hide Low8, Join3;
    assert b[0] == MIN_THREE_BYTE_DELTA_LEAD + i / 0x10000 && b[1] == Low8(i / 0x100) && b[2] == Low8(i);
    Split3(i);
  }

  lemma FourByteDelta(i: int, g2: Byte, g3: Byte, b: seq<Byte>)
    requires MAX_THREE_BYTE_DELTA < i <= 0xffffff && EncodeDelta(i, g2, g3) <= b
    ensures Lands(i, g2, g3, b, 4)
  {
    hide Low8, Join3;
    var y, z, w := Low8(i / 0x10000), Low8(i / 0x100), Low8(i);
    assert b[0] == FOUR_BYTE_DELTA_LEAD && b[1] == z && b[2] == g2 && b[3] == w;
    Split3(i);
    Join3Injective(z, g2, w, y, z, w);
  }

  lemma FiveByteDelta(i: int, g2: Byte, g3: Byte, b: seq<Byte>)
    requires 0xffffff < i < 0x8000_0000 && EncodeDelta(i, g2, g3) <= b
    ensures Lands(i, g2, g3, b, 5)
  {
    hide Low8, Join4;
    var x, y, z, w := i / 0x100_0000, Low8(i / 0x10000), Low8(i / 0x100), Low8(i);
    assert b[0] == FIVE_BYTE_DELTA_LEAD && b[1] == z && b[2] == g2 && b[3] == g3 && b[4] == w;
    Split4(i);
    Join4Injective(z, g2, g3, w, x, y, z, w);
    assert JumpByDelta(b, 0) == 5 + ToInt32(Join4(z, g2, g3, w));
  }

  /** The writer gets a jump right whatever the unset array elements hold. */
  ghost predicate AlwaysLands(i: int)
    requires 0 <= i < 0x8000_0000
  {
    forall g2: Byte, g3: Byte :: LandsAt(i, g2, g3)
  }

  ghost predicate LandsAt(i: int, g2: Byte, g3: Byte)
    requires 0 <= i < 0x8000_0000
  {
    var e := EncodeDelta(i, g2, g3);
    DeltaFits(e, 0) && JumpByDelta(e, 0) == |e| + i
  }

  lemma LandsAtIff(i: int, g2: Byte, g3: Byte)
    requires 0 <= i < 0x8000_0000
    ensures LandsAt(i, g2, g3) <==> DeltaEncodable(i, g2, g3)
  {
    hide DeltaFits, JumpByDelta, EncodeDelta, DeltaEncodable;
    DeltaRoundTrip(i, g2, g3, []);
    assert EncodeDelta(i, g2, g3) + [] == EncodeDelta(i, g2, g3);
  }

  /** So it does exactly up to kMaxThreeByteDelta. */
  lemma LongestDelta(i: int)
    requires 0 <= i < 0x8000_0000
    ensures AlwaysLands(i) <==> i <= MAX_THREE_BYTE_DELTA
  {
    hide LandsAt;
    forall g2: Byte, g3: Byte
      ensures LandsAt(i, g2, g3) <==> DeltaEncodable(i, g2, g3)
    {
      LandsAtIff(i, g2, g3);
    }
    if i > MAX_THREE_BYTE_DELTA {
      assert !(DeltaEncodable(i, 0, 0) && DeltaEncodable(i, 1, 0));
      assert LandsAt(i, 0, 0) ==> DeltaEncodable(i, 0, 0);
      assert LandsAt(i, 1, 0) ==> DeltaEncodable(i, 1, 0);
    }
  }

  lemma Join3Injective(a: Byte, b: Byte, c: Byte, a': Byte, b': Byte, c': Byte)
    ensures Join3(a, b, c) == Join3(a', b', c') <==> a == a' && b == b' && c == c'
  {
  }

  lemma Join4Injective(a: Byte, b: Byte, c: Byte, d: Byte, a': Byte, b': Byte, c': Byte, d': Byte)
    ensures Join4(a, b, c, d) == Join4(a', b', c', d') <==> a == a' && b == b' && c == c' && d == d'
    ensures 0 <= Join4(a, b, c, d) < 0x1_0000_0000
    ensures Join4(a, b, c, d) < 0x8000_0000 <==> a < 0x80
  {
  }

  /** A jump that the writer gets wrong whatever the unset array elements hold. */
  lemma LongDeltaFails(g2: Byte, g3: Byte)
    ensures JumpByDelta(EncodeDelta(0x100000, g2, g3), 0) != |EncodeDelta(0x100000, g2, g3)| + 0x100000
  {
    DeltaRoundTrip(0x100000, g2, g3, []);
    assert EncodeDelta(0x100000, g2, g3) + [] == EncodeDelta(0x100000, g2, g3);
    assert Low8(0x100000 / 0x100) == 0;
  }

  // ---------- the backward-growing buffer ----------

  class Buffer {
    var bytes: array<Byte>
    var bytesLength: nat

    ghost predicate Valid()
      reads this
    {
      0 < bytes.Length && bytesLength <= bytes.Length
    }

    /** What has been written so far: the end of the array. */
    ghost function Contents(): seq<Byte>
      reads this, bytes
      requires Valid()
    {
      bytes[bytes.Length - bytesLength..]
    }

    constructor (capacity: nat)
      requires capacity > 0
      ensures Valid() && fresh(bytes) && Contents() == []
    {
      bytes := new Byte[capacity];
      bytesLength := 0;
    }

    /** Makes room for length bytes; growth keeps everything written so far. */
    method EnsureCapacity(length: nat)
      requires Valid()
      modifies this`bytes
      ensures Valid() && length <= bytes.Length
      ensures bytes == old(bytes) || fresh(bytes)
      ensures Contents() == old(Contents())
    {
      if length > bytes.Length {
        var newCapacity := bytes.Length * 2;
        while newCapacity <= length
          invariant newCapacity >= bytes.Length * 2
          decreases length - newCapacity
        {
          newCapacity := newCapacity * 2;
        }
        var newBytes := new Byte[newCapacity];
        var from, to := bytes.Length - bytesLength, newCapacity - bytesLength;
        forall k | 0 <= k < bytesLength {
          newBytes[to + k] := bytes[from + k];
        }
        assert newBytes[to..] == bytes[from..];
        bytes := newBytes;
      }
    }

    /** Prepends one byte; returns the new length, which names the position of that byte from the end. */
    method WriteByte(b: int) returns (offset: nat)
      requires Valid()
      modifies this, bytes
      ensures Valid() && (bytes == old(bytes) || fresh(bytes))
      ensures Contents() == [Low8(b)] + old(Contents())
      ensures offset == bytesLength == |Contents()|
    {
      var newLength := bytesLength + 1;
      EnsureCapacity(newLength);
      bytesLength := newLength;
      bytes[bytes.Length - bytesLength] := Low8(b);
      return bytesLength;
    }

    /** Prepends a run of bytes. */
    method Write(b: seq<Byte>) returns (offset: nat)
      requires Valid()
      modifies this, bytes
      ensures Valid() && (bytes == old(bytes) || fresh(bytes))
      ensures Contents() == b + old(Contents())
      ensures offset == bytesLength == |Contents()|
    {
      ghost var before := Contents();
      var newLength := bytesLength + |b|;
      EnsureCapacity(newLength);
      bytesLength := newLength;
      var to := bytes.Length - bytesLength;
      forall k | 0 <= k < |b| {
        bytes[to + k] := b[k];
      }
      assert Contents() == bytes[to..to + |b|] + bytes[to + |b|..];
      assert bytes[to..to + |b|] == b && bytes[to + |b|..] == before;
      return bytesLength;
    }

    method WriteValueAndFinal(i: int, isFinal: bool) returns (offset: nat)
      requires Valid() && IsInt32(i)
      modifies this, bytes
      ensures Valid() && (bytes == old(bytes) || fresh(bytes))
      ensures Contents() == EncodeValue(i, isFinal) + old(Contents())
      ensures ReadsBack(Contents(), i, isFinal, |EncodeValue(i, isFinal)|)
      ensures offset == bytesLength == |Contents()|
    {
      hide ReadsBack;
      ValueRoundTrip(i, isFinal, Contents());
      if 0 <= i <= MAX_ONE_BYTE_VALUE {
        offset := WriteByte((MIN_ONE_BYTE_VALUE_LEAD + i) * 2 + if isFinal then 1 else 0);
        return;
      }
      var intBytes := ValueBytes(i, isFinal);
      offset := Write(intBytes);
    }

    /**
      Prepends the jump delta to an earlier offset. Reading it back lands on that offset exactly when the
      delta is encodable. g2 and g3 are what the local array happens to hold.
     */
    method WriteDeltaTo(jumpTarget: nat, g2: Byte, g3: Byte) returns (offset: nat)
      requires Valid() && jumpTarget <= bytesLength < 0x8000_0000
      modifies this, bytes
      ensures Valid() && (bytes == old(bytes) || fresh(bytes))
      ensures var i := old(bytesLength) - jumpTarget;
              && Contents() == EncodeDelta(i, g2, g3) + old(Contents())
              && DeltaFits(Contents(), 0) && SkipDelta(Contents(), 0) == |EncodeDelta(i, g2, g3)|
              && (JumpByDelta(Contents(), 0) == |Contents()| - jumpTarget <==> DeltaEncodable(i, g2, g3))
      ensures offset == bytesLength == |Contents()|
    {
      hide DeltaEncodable, JumpByDelta, DeltaTail;
      var i := bytesLength - jumpTarget;
      DeltaRoundTrip(i, g2, g3, Contents());
      if i <= MAX_ONE_BYTE_DELTA {
        offset := WriteByte(i);
        return;
      }
      var intBytes := DeltaBytes(i, g2, g3);
      offset := Write(intBytes);
    }
  }

  /** The local array of writeValueAndFinal(), as far as it is then written. */
  method ValueBytes(i: int, isFinal: bool) returns (r: seq<Byte>)
    requires IsInt32(i) && !(0 <= i <= MAX_ONE_BYTE_VALUE)
    ensures r == EncodeValue(i, isFinal)
  {
    hide Low8;
    var intBytes := new Byte[5];
    var length := 1;
    if i < 0 || i > 0xffffff {
      intBytes[0] := FIVE_BYTE_VALUE_LEAD;
      intBytes[1] := Low8(i / 0x100_0000);
      intBytes[2] := Low8(i / 0x10000);
      intBytes[3] := Low8(i / 0x100);
      intBytes[4] := Low8(i);
      length := 5;
    } else {
      length := FillShort(i, intBytes);
    }
    var lead: int := intBytes[0];
    intBytes[0] := lead * 2 + if isFinal then 1 else 0;
    r := intBytes[..length];
  }

  /** The forms of two to four bytes, before the final flag joins the lead byte. */
  method FillShort(i: int, intBytes: array<Byte>) returns (length: nat)
    requires MAX_ONE_BYTE_VALUE < i <= 0xffffff && intBytes.Length == 5
    modifies intBytes
    ensures 2 <= length <= 4 && intBytes[length - 1] == Low8(i)
    ensures i <= MAX_TWO_BYTE_VALUE ==> length == 2 && intBytes[0] == MIN_TWO_BYTE_VALUE_LEAD + i / 0x100
    ensures MAX_TWO_BYTE_VALUE < i ==> length >= 3 && intBytes[length - 2] == Low8(i / 0x100)
    ensures MAX_TWO_BYTE_VALUE < i <= MAX_THREE_BYTE_VALUE ==>
              length == 3 && intBytes[0] == MIN_THREE_BYTE_VALUE_LEAD + i / 0x10000
    ensures MAX_THREE_BYTE_VALUE < i ==>
              length == 4 && intBytes[0] == FOUR_BYTE_VALUE_LEAD && intBytes[1] == Low8(i / 0x10000)
  {
    hide Low8;
    length := 1;
    if i <= MAX_TWO_BYTE_VALUE {
      intBytes[0] := MIN_TWO_BYTE_VALUE_LEAD + i / 0x100;
    } else {
      if i <= MAX_THREE_BYTE_VALUE {
        intBytes[0] := MIN_THREE_BYTE_VALUE_LEAD + i / 0x10000;
      } else {
        intBytes[0] := FOUR_BYTE_VALUE_LEAD;
        intBytes[1] := Low8(i / 0x10000);
        length := 2;
      }
      intBytes[length] := Low8(i / 0x100);
      length := length + 1;
    }
    intBytes[length] := Low8(i);
    length := length + 1;
  }

  /** The local array of writeDeltaTo(), which starts with arbitrary contents: g2 and g3 are two of its elements. */
  method DeltaBytes(i: int, g2: Byte, g3: Byte) returns (r: seq<Byte>)
    requires MAX_ONE_BYTE_DELTA < i < 0x8000_0000
    ensures r == EncodeDelta(i, g2, g3)
  {
    hide Low8;
    var intBytes := new Byte[5];
    intBytes[2], intBytes[3] := g2, g3;
    var length;
    if i <= MAX_TWO_BYTE_DELTA {
      intBytes[0] := MIN_TWO_BYTE_DELTA_LEAD + i / 0x100;
      length := 1;
    } else {
      if i <= MAX_THREE_BYTE_DELTA {
        intBytes[0] := MIN_THREE_BYTE_DELTA_LEAD + i / 0x10000;
        length := 2;
      } else {
        if i <= 0xffffff {
          intBytes[0] := FOUR_BYTE_DELTA_LEAD;
          length := 3;
        } else {
          intBytes[0] := FIVE_BYTE_DELTA_LEAD;
          intBytes[1] := Low8(i / 0x100_0000);
          length := 4;
        }
        intBytes[1] := Low8(i / 0x10000);
      }
      intBytes[1] := Low8(i / 0x100);
    }
    intBytes[length] := Low8(i);
    length := length + 1;
    r := intBytes[..length];
  }

  // ---------- elements: strings kept in one shared buffer ----------

  /** A string with its value; the string's length and bytes are in the shared strings buffer. */
  datatype Element = Element(stringOffset: int, value: int)

  datatype SetResult = Added(element: Element, strings: seq<Byte>) | IndexOutOfBounds

  /** BytesTrieElement::setTo: lengths above 0xff take two bytes, marked by a bit-inverted offset. */
  function SetTo(s: seq<Byte>, val: int, strings: seq<Byte>): SetResult {
    if |s| > 0xffff then IndexOutOfBounds
    else if |s| > 0xff then Added(Element(-|strings| - 1, val), strings + [|s| / 0x100, |s| % 0x100] + s)
    else Added(Element(|strings|, val), strings + [|s|] + s)
  }

  predicate InStrings(e: Element, strings: seq<Byte>) {
    if e.stringOffset >= 0 then
      e.stringOffset < |strings| && e.stringOffset + 1 + strings[e.stringOffset] <= |strings|
    else
      var o := -e.stringOffset - 1;
      o + 1 < |strings| && o + 2 + Join2(strings[o], strings[o + 1]) <= |strings|
  }

  function GetString(e: Element, strings: seq<Byte>): seq<Byte>
    requires InStrings(e, strings)
  {
    if e.stringOffset >= 0 then
      strings[e.stringOffset + 1..e.stringOffset + 1 + strings[e.stringOffset]]
    else
      var o := -e.stringOffset - 1;
      strings[o + 2..o + 2 + Join2(strings[o], strings[o + 1])]
  }

  /** An element gives back the string it was set to, also after more elements were added. */
  lemma SetThenGet(s: seq<Byte>, val: int, strings: seq<Byte>, more: seq<Byte>)
    requires SetTo(s, val, strings).Added?
    ensures var r := SetTo(s, val, strings);
            InStrings(r.element, r.strings + more) && GetString(r.element, r.strings + more) == s
  {
    var r := SetTo(s, val, strings);
    var all := r.strings + more;
    var n := |strings|;
    if |s| > 0xff {
      assert all[n] == |s| / 0x100 && all[n + 1] == |s| % 0x100;
      assert all[n + 2..n + 2 + |s|] == s;
    } else {
      assert all[n] == |s|;
      assert all[n + 1..n + 1 + |s|] == s;
    }
  }

  /** uprv_memcmp of the first n bytes: the difference at the first mismatch, or 0. */
  function MemCmp(a: seq<Byte>, b: seq<Byte>, n: nat): int
    requires n <= |a| && n <= |b|
  {
    if n == 0 then 0
    else if a[0] != b[0] then a[0] as int - b[0] as int
    else MemCmp(a[1..], b[1..], n - 1)
  }

  /** compareStringTo on the strings of two elements. */
  function CompareStrings(a: seq<Byte>, b: seq<Byte>): int {
    var lengthDiff := |a| - |b|;
    var diff := MemCmp(a, b, if lengthDiff <= 0 then |a| else |b|);
    if diff != 0 then diff else lengthDiff
  }

  /** The comparison is the byte-wise order in which the iterator delivers keys. */
  lemma {:induction false} CompareMeaning(a: seq<Byte>, b: seq<Byte>)
    ensures CompareStrings(a, b) < 0 <==> Before(a, b)
    ensures CompareStrings(a, b) == 0 <==> a == b
    decreases |a|
  {
    if |a| == 0 || |b| == 0 {
      if |a| == 0 && |b| > 0 {
        var n: nat := 0;
        assert a[..n] == b[..n];
      }
    } else if a[0] != b[0] {
      if a[0] < b[0] {
        var n: nat := 0;
        assert a[..n] == b[..n];
      }
      if Before(a, b) {
        var n: nat :| n <= |a| && n < |b| && a[..n] == b[..n] && (n == |a| || a[n] < b[n]);
        if n > 0 { assert false; }
      }
    } else {
      CompareMeaning(a[1..], b[1..]);
      BeforeTail(a, b);
      assert CompareStrings(a, b) == CompareStrings(a[1..], b[1..]);
      assert a == [a[0]] + a[1..] && b == [b[0]] + b[1..];
    }
  }

  lemma BeforeTail(a: seq<Byte>, b: seq<Byte>)
    requires |a| > 0 && |b| > 0 && a[0] == b[0]
    ensures Before(a, b) <==> Before(a[1..], b[1..])
  {
    if Before(a, b) {
      var n: nat :| n <= |a| && n < |b| && a[..n] == b[..n] && (n == |a| || a[n] < b[n]);
      assert n > 0;
      assert a[1..][..n - 1] == a[..n][1..] && b[1..][..n - 1] == b[..n][1..];
      assert n - 1 <= |a[1..]| && n - 1 < |b[1..]| && (n - 1 == |a[1..]| || a[1..][n - 1] < b[1..][n - 1]);
    }
    if Before(a[1..], b[1..]) {
      assert a == [a[0]] + a[1..] && b == [b[0]] + b[1..];
      BeforePrefixed([a[0]], a[1..], b[1..]);
    }
  }
}
