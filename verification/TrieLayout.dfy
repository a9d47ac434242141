/**
  The serialized form of a trie: the compact integers of source/common/unicode/bytestrie.h and the
  node layout read by source/common/bytestrie.cpp.
 */
module TrieLayout {
  import opened Basics
  import opened TrieModel

  const MAX_BRANCH_LINEAR_SUB_NODE_LENGTH := 5
  const MIN_LINEAR_MATCH := 0x10
  const MAX_LINEAR_MATCH_LENGTH := 0x10
  const MIN_VALUE_LEAD := MIN_LINEAR_MATCH + MAX_LINEAR_MATCH_LENGTH

  const MIN_ONE_BYTE_VALUE_LEAD := MIN_VALUE_LEAD / 2
  const MAX_ONE_BYTE_VALUE := 0x40
  const MIN_TWO_BYTE_VALUE_LEAD := MIN_ONE_BYTE_VALUE_LEAD + MAX_ONE_BYTE_VALUE + 1
  const MAX_TWO_BYTE_VALUE := 0x1aff
  const MIN_THREE_BYTE_VALUE_LEAD := MIN_TWO_BYTE_VALUE_LEAD + MAX_TWO_BYTE_VALUE / 0x100 + 1
  const FOUR_BYTE_VALUE_LEAD := 0x7e
  const MAX_THREE_BYTE_VALUE := (FOUR_BYTE_VALUE_LEAD - MIN_THREE_BYTE_VALUE_LEAD) * 0x10000 - 1
  const FIVE_BYTE_VALUE_LEAD := 0x7f

  const MAX_ONE_BYTE_DELTA := 0xbf
  const MIN_TWO_BYTE_DELTA_LEAD := MAX_ONE_BYTE_DELTA + 1
  const MIN_THREE_BYTE_DELTA_LEAD := 0xf0
  const FOUR_BYTE_DELTA_LEAD := 0xfe
  const FIVE_BYTE_DELTA_LEAD := 0xff
  const MAX_TWO_BYTE_DELTA := (MIN_THREE_BYTE_DELTA_LEAD - MIN_TWO_BYTE_DELTA_LEAD) * 0x100 - 1
  const MAX_THREE_BYTE_DELTA := (FOUR_BYTE_DELTA_LEAD - MIN_THREE_BYTE_DELTA_LEAD) * 0x10000 - 1

  /** A 32-bit pattern read as int32_t. */
  function ToInt32(u: int): int
    requires 0 <= u < 0x1_0000_0000
  {
    if u < 0x8000_0000 then u else u - 0x1_0000_0000
  }

  // Big-endian groups: (hi<<8)|lo and so on, for lower bytes in 0..0xff.

  function Join2(hi: int, lo: int): int { hi * 0x100 + lo }

  function Join3(a: int, b: int, c: int): int { Join2(Join2(a, b), c) }

  function Join4(a: int, b: int, c: int, d: int): int { Join2(Join3(a, b, c), d) }

  // ---------- compact values ----------

  predicate IsFinalLead(lead: Byte) { lead % 2 == 1 }

  /** How many bytes follow a value's lead byte: skipValue(pos, leadByte). */
  function ValueTail(lead: Byte): nat {
    if lead < MIN_TWO_BYTE_VALUE_LEAD * 2 then 0
    else if lead < MIN_THREE_BYTE_VALUE_LEAD * 2 then 1
    else if lead < FOUR_BYTE_VALUE_LEAD * 2 then 2
    else 3 + (lead / 2) % 2
  }

  predicate ValueFits(b: seq<Byte>, pos: int) {
    0 <= pos < |b| && MIN_VALUE_LEAD <= b[pos] && pos + 1 + ValueTail(b[pos]) <= |b|
  }

  /** skipValue(pos): past the whole compact value at pos. */
  function AfterValue(b: seq<Byte>, pos: int): int
    requires ValueFits(b, pos)
  {
    pos + 1 + ValueTail(b[pos])
  }

  /** readValue(pos, leadByte): pos is past the lead byte, which is already shifted right by one. */
  function ReadValue(b: seq<Byte>, pos: int, lead: int): (v: int)
    requires 0 <= lead < 0x80 && 0 <= pos && pos + ValueTail(lead * 2) <= |b|
    ensures MIN_ONE_BYTE_VALUE_LEAD <= lead ==> IsInt32(v)
  {
    if lead < MIN_TWO_BYTE_VALUE_LEAD then lead - MIN_ONE_BYTE_VALUE_LEAD
    else if lead < MIN_THREE_BYTE_VALUE_LEAD then Join2(lead - MIN_TWO_BYTE_VALUE_LEAD, b[pos])
    else if lead < FOUR_BYTE_VALUE_LEAD then
      Join3(lead - MIN_THREE_BYTE_VALUE_LEAD, b[pos], b[pos + 1])
    else if lead == FOUR_BYTE_VALUE_LEAD then Join3(b[pos], b[pos + 1], b[pos + 2])
    else ToInt32(Join4(b[pos], b[pos + 1], b[pos + 2], b[pos + 3]))
  }

  /** The compact value whose lead byte is at pos. */
  function ValueAt(b: seq<Byte>, pos: int): int
    requires ValueFits(b, pos)
  {
    ReadValue(b, pos + 1, b[pos] / 2)
  }

  // ---------- compact jump deltas ----------

  function DeltaTail(lead: Byte): nat {
    if lead < MIN_TWO_BYTE_DELTA_LEAD then 0
    else if lead < MIN_THREE_BYTE_DELTA_LEAD then 1
    else if lead < FOUR_BYTE_DELTA_LEAD then 2
    else 3 + lead % 2
  }

  predicate DeltaFits(b: seq<Byte>, pos: int) {
    0 <= pos < |b| && pos + 1 + DeltaTail(b[pos]) <= |b|
  }

  /** skipDelta(pos) */
  function SkipDelta(b: seq<Byte>, pos: int): int
    requires DeltaFits(b, pos)
  {
    pos + 1 + DeltaTail(b[pos])
  }

  /** jumpByDelta(pos) */
  function JumpByDelta(b: seq<Byte>, pos: int): int
    requires DeltaFits(b, pos)
  {
    var lead, p := b[pos], pos + 1;
    if lead < MIN_TWO_BYTE_DELTA_LEAD then p + lead
    else if lead < MIN_THREE_BYTE_DELTA_LEAD then
      p + 1 + Join2(lead - MIN_TWO_BYTE_DELTA_LEAD, b[p])
    else if lead < FOUR_BYTE_DELTA_LEAD then
      p + 2 + Join3(lead - MIN_THREE_BYTE_DELTA_LEAD, b[p], b[p + 1])
    else if lead == FOUR_BYTE_DELTA_LEAD then
      p + 3 + Join3(b[p], b[p + 1], b[p + 2])
    else
      p + 4 + ToInt32(Join4(b[p], b[p + 1], b[p + 2], b[p + 3]))
  }

  // ---------- nodes ----------

  /** The bytes of b from pos on lay out trie t. Sub-tries may share bytes. */
  ghost predicate Lays(b: seq<Byte>, pos: int, t: Trie)
    decreases t, 1
  {
    match t
    case Final(v) => ValueFits(b, pos) && IsFinalLead(b[pos]) && ValueAt(b, pos) == v
    case Value(v, rest) =>
      && ValueFits(b, pos) && !IsFinalLead(b[pos]) && ValueAt(b, pos) == v
      && Lays(b, AfterValue(b, pos), rest)
    case Linear(units, rest) =>
      && 0 <= pos < |b| && b[pos] == MIN_LINEAR_MATCH + |units| - 1
      && LaysUnits(b, pos + 1, units) && Lays(b, pos + 1 + |units|, rest)
    case Branch(keys, kids) =>
      && |keys| == |kids| && BranchHead(b, pos, |keys|)
      && LaysBranch(b, AfterHead(b, pos), keys, kids)
  }

  ghost predicate LaysUnits(b: seq<Byte>, pos: int, units: seq<Byte>) {
    0 <= pos && pos + |units| <= |b| && b[pos..pos + |units|] == units
  }

  /** A branch of n bytes starts with n-1, or with 0 and then n-1. */
  predicate BranchHead(b: seq<Byte>, pos: int, n: int) {
    && 0 <= pos < |b| && 2 <= n
    && (if b[pos] == 0 then pos + 1 < |b| && b[pos + 1] == n - 1 else b[pos] == n - 1 < MIN_LINEAR_MATCH)
  }

  function AfterHead(b: seq<Byte>, pos: int): int
    requires 0 <= pos < |b|
  {
    if b[pos] == 0 then pos + 2 else pos + 1
  }

  /** A branch sub-node: a binary split while there are many keys, then a list of key and edge. */
  ghost predicate LaysBranch(b: seq<Byte>, pos: int, keys: seq<Byte>, kids: seq<Trie>)
    requires |keys| == |kids|
    decreases kids, 0
  {
    var n := |keys|;
    && n > 0 && 0 <= pos < |b|
    && if n > MAX_BRANCH_LINEAR_SUB_NODE_LENGTH then
         && b[pos] == keys[n / 2] && DeltaFits(b, pos + 1)
         && LaysBranch(b, JumpByDelta(b, pos + 1), keys[..n / 2], kids[..n / 2])
         && LaysBranch(b, SkipDelta(b, pos + 1), keys[n / 2..], kids[n / 2..])
       else if n == 1 then
         b[pos] == keys[0] && Lays(b, pos + 1, kids[0])
       else
         && b[pos] == keys[0] && LaysEdge(b, pos + 1, kids[0])
         && LaysBranch(b, AfterValue(b, pos + 1), keys[1..], kids[1..])
  }

  /** An edge of a list: a final value in place, or a jump to the next node. */
  ghost predicate LaysEdge(b: seq<Byte>, pos: int, kid: Trie)
    decreases kid, 2
  {
    && ValueFits(b, pos)
    && if IsFinalLead(b[pos]) then kid == Final(ValueAt(b, pos))
       else Lays(b, AfterValue(b, pos) + ValueAt(b, pos), kid)
  }

  // ---------- what one lead byte says ----------

  /** The lead byte tells the kind of node. */
  lemma LeadByte(b: seq<Byte>, pos: int, t: Trie)
    requires WellFormed(t) && Lays(b, pos, t)
    ensures 0 <= pos < |b|
    ensures b[pos] >= MIN_VALUE_LEAD <==> HasValue(t)
    ensures HasValue(t) ==> (IsFinalLead(b[pos]) <==> t.Final?)
    ensures b[pos] < MIN_LINEAR_MATCH <==> t.Branch?
  {
  }
}
