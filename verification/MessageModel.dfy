/**
  Data model of source/common/messagepattern.cpp and unicode/messagepattern.h: parts, character classes
  and the small pure scanners.
 */
module MessageModel {
  import opened Basics

  const POUND: Unit := 0x23
  const APOS: Unit := 0x27
  const PLUS: Unit := 0x2B
  const COMMA: Unit := 0x2C
  const MINUS: Unit := 0x2D
  const DOT: Unit := 0x2E
  const LESS_THAN: Unit := 0x3C
  const EQUAL: Unit := 0x3D
  const LEFT_BRACE: Unit := 0x7B
  const PIPE: Unit := 0x7C
  const RIGHT_BRACE: Unit := 0x7D
  const INFINITY: Unit := 0x221E
  const LESS_OR_EQUAL: Unit := 0x2264

  const MAX_LENGTH := 0xffff
  const MAX_VALUE := 0x7fff
  const INT32_MAX := 0x7fff_ffff
  const NUMBER_CHARS := 128

  datatype ApostropheMode = DoubleOptional | DoubleRequired

  datatype PartType =
    | MsgStart | MsgLimit | SkipSyntax | InsertChar | ReplaceNumber
    | ArgStart | ArgLimit | ArgNumber | ArgName | ArgTypeName | ArgStyle
    | ArgSelector | ArgInt | ArgDouble

  datatype ArgType = NoArg | SimpleArg | ChoiceArg | PluralArg | SelectArg | SelectOrdinalArg

  function Ordinal(t: ArgType): int {
    match t
    case NoArg => 0 case SimpleArg => 1 case ChoiceArg => 2
    case PluralArg => 3 case SelectArg => 4 case SelectOrdinalArg => 5
  }

  /** Argument types in whose messages # stands for the number. */
  predicate HasPluralStyle(t: ArgType) { t == PluralArg || t == SelectOrdinalArg }

  datatype Part = Part(kind: PartType, index: int, length: int, value: int, limitPartIndex: int)

  function NewPart(kind: PartType, index: int, length: int, value: int): Part {
    Part(kind, index, length, value, 0)
  }

  datatype Error = UnmatchedBraces | PatternSyntax | IndexOutOfBounds | DefaultKeywordMissing

  // ---------- character classes (source/common/patternprops.cpp) ----------

  predicate IsWhiteSpace(c: Unit) {
    0x9 <= c <= 0xD || c == 0x20 || c == 0x85 || 0x200E <= c <= 0x200F || 0x2028 <= c <= 0x2029
  }

  predicate IsSyntaxOrWhiteSpace(c: Unit) {
    if c <= 0xff then
      || 0x9 <= c <= 0xD || 0x20 <= c <= 0x2F || 0x3A <= c <= 0x40 || 0x5B <= c <= 0x5E || c == 0x60
      || 0x7B <= c <= 0x7E || c == 0x85 || 0xA1 <= c <= 0xA7 || c == 0xA9 || 0xAB <= c <= 0xAC || c == 0xAE
      || 0xB0 <= c <= 0xB1 || c == 0xB6 || c == 0xBB || c == 0xBF || c == 0xD7 || c == 0xF7
    else
      || 0x200E <= c <= 0x2029 || 0x2030 <= c <= 0x203E || 0x2041 <= c <= 0x2053 || 0x2055 <= c <= 0x205E
      || 0x2190 <= c <= 0x245F || 0x2500 <= c <= 0x2775 || 0x2794 <= c <= 0x2BFF || 0x2E00 <= c <= 0x2E7F
      || 0x3001 <= c <= 0x3003 || 0x3008 <= c <= 0x3020 || c == 0x3030
      || 0xFD3E <= c <= 0xFD3F || 0xFE45 <= c <= 0xFE46
  }

  predicate IsIdentifierUnit(c: Unit) { !IsSyntaxOrWhiteSpace(c) }

  /** The units that skipDouble() passes over. */
  predicate IsDoubleUnit(c: Unit) {
    !((c < 0x30 && c != PLUS && c != MINUS && c != DOT) || (c > 0x39 && c != 0x65 && c != 0x45 && c != INFINITY))
  }

  predicate IsArgTypeUnit(c: Unit) { 0x61 <= c <= 0x7A || 0x41 <= c <= 0x5A }

  predicate IsDigit(c: Unit) { 0x30 <= c <= 0x39 }

  predicate NotApostrophe(c: Unit) { c != APOS }

  // ---------- scanners ----------

  /** The first index at or after i whose unit fails p, or the end. */
  function Skip(p: Unit -> bool, msg: seq<Unit>, i: nat): (r: nat)
    requires i <= |msg|
    ensures i <= r <= |msg|
    ensures forall k :: i <= k < r ==> p(msg[k])
    ensures r < |msg| ==> !p(msg[r])
    decreases |msg| - i
  {
    if i < |msg| && p(msg[i]) then Skip(p, msg, i + 1) else i
  }

  predicate AllDigits(s: seq<Unit>) { forall i :: 0 <= i < |s| ==> IsDigit(s[i]) }

  /** The number that a run of decimal digits denotes. */
  function Decimal(s: seq<Unit>): nat
    requires AllDigits(s)
  {
    if |s| == 0 then 0 else Decimal(s[..|s| - 1]) * 10 + (s[|s| - 1] as int - 0x30)
  }

  const ARG_NAME_NOT_NUMBER := -1
  const ARG_NAME_NOT_VALID := -2

  /** parseArgNumber: a number without leading zeros that fits, a name, or neither. */
  function ArgNumberOf(s: seq<Unit>): int {
    if |s| == 0 then ARG_NAME_NOT_VALID
    else if !AllDigits(s) then ARG_NAME_NOT_NUMBER
    else if |s| > 1 && (s[0] == 0x30 || Decimal(s[..|s| - 1]) >= INT32_MAX / 10) then ARG_NAME_NOT_VALID
    else Decimal(s)
  }

  /** Case-insensitive comparison with a lower-case ASCII word. */
  predicate IsWord(s: seq<Unit>, word: seq<Unit>) {
    |s| == |word| && forall i :: 0 <= i < |s| ==> s[i] == word[i] || s[i] as int == word[i] as int - 0x20
  }

  const CHOICE_WORD: seq<Unit> := [0x63, 0x68, 0x6F, 0x69, 0x63, 0x65]
  const PLURAL_WORD: seq<Unit> := [0x70, 0x6C, 0x75, 0x72, 0x61, 0x6C]
  const SELECT_WORD: seq<Unit> := [0x73, 0x65, 0x6C, 0x65, 0x63, 0x74]
  const ORDINAL_WORD: seq<Unit> := [0x6F, 0x72, 0x64, 0x69, 0x6E, 0x61, 0x6C]
  const OFFSET_COLON: seq<Unit> := [0x6F, 0x66, 0x66, 0x73, 0x65, 0x74, 0x3A]
  const OTHER_WORD: seq<Unit> := [0x6F, 0x74, 0x68, 0x65, 0x72]

  function TypeNamed(s: seq<Unit>): (t: ArgType)
    ensures t != NoArg
  {
    if IsWord(s, CHOICE_WORD) then ChoiceArg
    else if IsWord(s, PLURAL_WORD) then PluralArg
    else if IsWord(s, SELECT_WORD) then SelectArg
    else if IsWord(s, SELECT_WORD + ORDINAL_WORD) then SelectOrdinalArg
    else SimpleArg
  }
}
