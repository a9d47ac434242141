/**
  What the recursive-descent parser of source/common/messagepattern.cpp computes, as functions of the text:
  each function returns the parts it adds, with every limit index already in place.
 */
module MessageSpec {
  import opened Basics
  import opened MessageModel

  /**
    The fixed surroundings of a parse: the pattern, the apostrophe mode, what the parts buffer holds in its
    first slot before any part is added, and which texts strtod accepts as a whole.
   */
  datatype Context = Context(msg: seq<Unit>, mode: ApostropheMode, isNumber: seq<Unit> -> bool)

  /** What later decisions depend on: number of parts, number of ARG_DOUBLE parts, kind of the part in slot 0. */
  datatype Count = Count(parts: nat, doubles: nat, slot0: PartType)

  function Doubles(ps: seq<Part>): nat {
    if |ps| == 0 then 0 else (if ps[0].kind == ArgDouble then 1 else 0) + Doubles(ps[1..])
  }

  function Add(n: Count, ps: seq<Part>): Count {
    Count(n.parts + |ps|, n.doubles + Doubles(ps), if n.parts == 0 && |ps| > 0 then ps[0].kind else n.slot0)
  }

  datatype Result = Ok(index: nat, parts: seq<Part>) | Err(error: Error)

  /** Inside a message pattern, as opposed to a top-level choice, plural or select style. */
  predicate InMessageFormat(level: nat, n: Count) { level > 0 || n.slot0 == MsgStart }

  predicate InTopLevelChoice(level: nat, parent: ArgType, n: Count) {
    level == 1 && parent == ChoiceArg && n.slot0 != MsgStart
  }

  // ---------- literal text and apostrophes ----------

  function SkipPart(i: int): Part { NewPart(SkipSyntax, i, 1, 0) }

  function InsertPart(i: int): Part { NewPart(InsertChar, i, 0, APOS) }

  /** Quoted literal text from k on, up to and including the quote-ending apostrophe. */
  function QuotedText(c: Context, k: nat): (r: (nat, seq<Part>))
    requires k <= |c.msg|
    ensures k <= r.0 <= |c.msg|
    decreases |c.msg| - k
  {
    var q := Skip(NotApostrophe, c.msg, k);
    if q == |c.msg| then (q, [InsertPart(q)])
    else if q + 1 < |c.msg| && c.msg[q + 1] == APOS then
      var rest := QuotedText(c, q + 2);
      (rest.0, [SkipPart(q + 1)] + rest.1)
    else (q + 1, [SkipPart(q)])
  }

  /** Units that a preceding apostrophe starts to quote. */
  predicate StartsQuote(c: Context, parent: ArgType, u: Unit) {
    || c.mode == DoubleRequired
    || u == LEFT_BRACE || u == RIGHT_BRACE
    || (parent == ChoiceArg && u == PIPE)
    || (HasPluralStyle(parent) && u == POUND)
  }

  /** An apostrophe at i in message text: the index after it, and the parts for it. */
  function Apostrophe(c: Context, i: nat, parent: ArgType): (r: (nat, seq<Part>))
    requires i < |c.msg|
    ensures i < r.0 <= |c.msg|
  {
    if i + 1 == |c.msg| then (i + 1, [InsertPart(i + 1)])
    else if c.msg[i + 1] == APOS then (i + 2, [SkipPart(i + 1)])
    else if StartsQuote(c, parent, c.msg[i + 1]) then
      var q := QuotedText(c, i + 2);
      (q.0, [SkipPart(i)] + q.1)
    else (i + 1, [InsertPart(i + 1)])
  }

  // ---------- numbers ----------

  /** parseDouble: one ARG_INT or ARG_DOUBLE part. */
  function Number(c: Context, start: nat, limit: nat, allowInfinity: bool, doubles: nat): Result
    requires start < limit <= |c.msg|
  {
    var negative := c.msg[start] == MINUS;
    var first := if negative || c.msg[start] == PLUS then start + 1 else start;
    if first == limit then Err(PatternSyntax)
    else if c.msg[first] == INFINITY then
      if allowInfinity && first + 1 == limit then DoublePart(start, limit, doubles) else Err(PatternSyntax)
    else
      var digits := c.msg[first..limit];
      if AllDigits(digits) && Decimal(digits) <= MAX_VALUE + (if negative then 1 else 0) then
        var value: int := Decimal(digits);
        Ok(limit, [NewPart(ArgInt, start, limit - start, if negative then -value else value)])
      else if limit - start >= NUMBER_CHARS || !c.isNumber(c.msg[start..limit]) then Err(PatternSyntax)
      else DoublePart(start, limit, doubles)
  }

  function DoublePart(start: nat, limit: nat, doubles: nat): Result {
    if doubles > MAX_VALUE then Err(IndexOutOfBounds)
    else Ok(limit, [NewPart(ArgDouble, start, limit - start, doubles)])
  }

  // ---------- the parts of an argument before its style ----------

  datatype Head =
    | HeadOk(end: nat, hasStyle: bool, argType: ArgType, parts: seq<Part>)
    | HeadErr(error: Error)

  /** Argument name or number in [i, end). */
  function NamePart(c: Context, i: nat, end: nat): Result
    requires i <= end <= |c.msg|
  {
    var number := ArgNumberOf(c.msg[i..end]);
    if number >= 0 then
      if end - i > MAX_LENGTH || number > MAX_VALUE then Err(IndexOutOfBounds)
      else Ok(end, [NewPart(ArgNumber, i, end - i, number)])
    else if number == ARG_NAME_NOT_NUMBER then
      if end - i > MAX_LENGTH then Err(IndexOutOfBounds)
      else Ok(end, [NewPart(ArgName, i, end - i, 0)])
    else Err(PatternSyntax)
  }

  /** From after '{' to the '}' of a style-less argument, or to after the ',' before its style. */
  function ArgHead(c: Context, i: nat): (h: Head)
    requires i <= |c.msg|
    ensures h.HeadOk? ==> i <= h.end < |c.msg| && (!h.hasStyle ==> c.msg[h.end] == RIGHT_BRACE)
  {
    var nameIndex := Skip(IsWhiteSpace, c.msg, i);
    if nameIndex == |c.msg| then HeadErr(UnmatchedBraces) else
    var nameEnd := Skip(IsIdentifierUnit, c.msg, nameIndex);
    var name := NamePart(c, nameIndex, nameEnd);
    if name.Err? then HeadErr(name.error) else
    var k := Skip(IsWhiteSpace, c.msg, nameEnd);
    if k == |c.msg| then HeadErr(UnmatchedBraces)
    else if c.msg[k] == RIGHT_BRACE then HeadOk(k, false, NoArg, name.parts)
    else if c.msg[k] != COMMA then HeadErr(PatternSyntax)
    else TypeHead(c, k + 1, name.parts)
  }

  /** From after the ',' that precedes the argument type. The end is the ',' or '}' after the type. */
  function TypeHead(c: Context, i: nat, name: seq<Part>): (h: Head)
    requires i <= |c.msg|
    ensures h.HeadOk? ==> i <= h.end < |c.msg| && (!h.hasStyle ==> c.msg[h.end] == RIGHT_BRACE)
  {
    var typeIndex := Skip(IsWhiteSpace, c.msg, i);
    var typeEnd := Skip(IsArgTypeUnit, c.msg, typeIndex);
    var m := Skip(IsWhiteSpace, c.msg, typeEnd);
    var length := typeEnd - typeIndex;
    if m == |c.msg| then HeadErr(UnmatchedBraces)
    else if length == 0 || (c.msg[m] != COMMA && c.msg[m] != RIGHT_BRACE) then HeadErr(PatternSyntax)
    else if length > MAX_LENGTH then HeadErr(IndexOutOfBounds)
    else
      var argType := TypeNamed(c.msg[typeIndex..typeEnd]);
      var parts := name + if argType == SimpleArg then [NewPart(ArgTypeName, typeIndex, length, 0)] else [];
      if c.msg[m] == RIGHT_BRACE then
        if argType != SimpleArg then HeadErr(PatternSyntax) else HeadOk(m, false, argType, parts)
      else HeadOk(m, true, argType, parts)
  }

  /** The '}' that ends simple style text, which skips quoted text and nested braces. */
  function StyleEnd(c: Context, i: nat, nested: nat): (r: Result)
    requires i <= |c.msg|
    ensures r.Ok? ==> i <= r.index < |c.msg| && c.msg[r.index] == RIGHT_BRACE && r.parts == []
    decreases |c.msg| - i
  {
    if i == |c.msg| then Err(UnmatchedBraces)
    else if c.msg[i] == APOS then
      var q := Skip(NotApostrophe, c.msg, i + 1);
      if q == |c.msg| then Err(PatternSyntax) else StyleEnd(c, q + 1, nested)
    else if c.msg[i] == LEFT_BRACE then StyleEnd(c, i + 1, nested + 1)
    else if c.msg[i] == RIGHT_BRACE then
      if nested > 0 then StyleEnd(c, i + 1, nested - 1) else Ok(i, [])
    else StyleEnd(c, i + 1, nested)
  }

  function SimpleStyle(c: Context, i: nat): (r: Result)
    requires i <= |c.msg|
    ensures r.Ok? ==> i <= r.index < |c.msg| && c.msg[r.index] == RIGHT_BRACE
  {
    var end := StyleEnd(c, i, 0);
    if end.Err? then end
    else if end.index - i > MAX_LENGTH then Err(IndexOutOfBounds)
    else Ok(end.index, [NewPart(ArgStyle, i, end.index - i, 0)])
  }

  // ---------- selectors ----------

  /** Number and separator of one choice alternative; the index is where its message starts. */
  function ChoiceHead(c: Context, i: nat, doubles: nat): (r: Result)
    requires i <= |c.msg|
    ensures r.Ok? ==> i < r.index <= |c.msg|
  {
    var end := Skip(IsDoubleUnit, c.msg, i);
    if end == i then Err(PatternSyntax)
    else if end - i > MAX_LENGTH then Err(IndexOutOfBounds) else
    var number := Number(c, i, end, true, doubles);
    if number.Err? then number else
    var k := Skip(IsWhiteSpace, c.msg, end);
    if k == |c.msg| then Err(PatternSyntax)
    else if c.msg[k] != POUND && c.msg[k] != LESS_THAN && c.msg[k] != LESS_OR_EQUAL then Err(PatternSyntax)
    else Ok(k + 1, number.parts + [NewPart(ArgSelector, k, 1, 0)])
  }

  datatype Selector =
    | Offset(index: nat, parts: seq<Part>)                    // index of what follows the value
    | Keyword(index: nat, parts: seq<Part>, isOther: bool)    // index of the '{' of its message
    | SelectorErr(error: Error)

  /** One selector of a plural or select style; c.msg[i] is neither white space nor the end of the style. */
  function SelectorAt(c: Context, argType: ArgType, i: nat, isEmpty: bool, doubles: nat): (s: Selector)
    requires i < |c.msg|
    ensures s.Offset? ==> i < s.index <= |c.msg|
    ensures s.Keyword? ==> i < s.index < |c.msg| && c.msg[s.index] == LEFT_BRACE
  {
    if HasPluralStyle(argType) && c.msg[i] == EQUAL then ExplicitSelector(c, i, doubles)
    else WordSelector(c, argType, i, isEmpty, doubles)
  }

  /** A selector that is '=' and a number. */
  function ExplicitSelector(c: Context, i: nat, doubles: nat): (s: Selector)
    requires i < |c.msg|
    ensures s.Keyword? ==> i < s.index < |c.msg| && c.msg[s.index] == LEFT_BRACE
    ensures !s.Offset?
  {
    var end := Skip(IsDoubleUnit, c.msg, i + 1);
    if end - i == 1 then SelectorErr(PatternSyntax)
    else if end - i > MAX_LENGTH then SelectorErr(IndexOutOfBounds) else
    var number := Number(c, i + 1, end, false, doubles);
    if number.Err? then SelectorErr(number.error)
    else BeforeMessage(c, end, [NewPart(ArgSelector, i, end - i, 0)] + number.parts, false)
  }

  predicate IsOffsetWord(c: Context, argType: ArgType, i: nat, end: nat)
    requires i <= end <= |c.msg|
    ensures IsOffsetWord(c, argType, i, end) ==> HasPluralStyle(argType) && end < |c.msg|
  {
    HasPluralStyle(argType) && end - i == 6 && end < |c.msg| && c.msg[i..i + 7] == OFFSET_COLON
  }

  /** "offset:" and its value, or a selector word */
  function WordSelector(c: Context, argType: ArgType, i: nat, isEmpty: bool, doubles: nat): (s: Selector)
    requires i < |c.msg|
    ensures s.Offset? ==> i < s.index <= |c.msg|
    ensures s.Keyword? ==> i < s.index < |c.msg| && c.msg[s.index] == LEFT_BRACE
  {
    var end := Skip(IsIdentifierUnit, c.msg, i);
    if end == i then SelectorErr(PatternSyntax)
    else if IsOffsetWord(c, argType, i, end) then
      if !isEmpty then SelectorErr(PatternSyntax) else OffsetValue(c, end + 1, doubles)
    else if end - i > MAX_LENGTH then SelectorErr(IndexOutOfBounds)
    else BeforeMessage(c, end, [NewPart(ArgSelector, i, end - i, 0)], c.msg[i..end] == OTHER_WORD)
  }

  function OffsetValue(c: Context, i: nat, doubles: nat): (s: Selector)
    requires i <= |c.msg|
    ensures s.Offset? ==> i < s.index <= |c.msg|
    ensures !s.Keyword?
  {
    var valueIndex := Skip(IsWhiteSpace, c.msg, i);
    var end := Skip(IsDoubleUnit, c.msg, valueIndex);
    if end == valueIndex then SelectorErr(PatternSyntax)
    else if end - valueIndex > MAX_LENGTH then SelectorErr(IndexOutOfBounds) else
    var number := Number(c, valueIndex, end, false, doubles);
    if number.Err? then SelectorErr(number.error) else Offset(end, number.parts)
  }

  function BeforeMessage(c: Context, i: nat, parts: seq<Part>, isOther: bool): (s: Selector)
    requires i <= |c.msg|
    ensures s.Keyword? ==> i <= s.index < |c.msg| && c.msg[s.index] == LEFT_BRACE
    ensures !s.Offset?
  {
    var k := Skip(IsWhiteSpace, c.msg, i);
    if k == |c.msg| || c.msg[k] != LEFT_BRACE then SelectorErr(PatternSyntax) else Keyword(k, parts, isOther)
  }

  // ---------- the mutually recursive part ----------

  /** A message may end at the end of the text only at level 0 or in a top-level choice style. */
  predicate MayEndText(level: nat, parent: ArgType, n: Count) {
    level == 0 || InTopLevelChoice(level, parent, n)
  }

  predicate Ends(c: Context, i: nat, level: nat, parent: ArgType)
    requires i < |c.msg|
  {
    (level > 0 && c.msg[i] == RIGHT_BRACE) || (parent == ChoiceArg && c.msg[i] == PIPE)
  }

  /** parseMessage: MSG_START, items, MSG_LIMIT. */
  function Message(c: Context, i: nat, startLength: nat, level: nat, parent: ArgType, n: Count): (r: Result)
    requires i + startLength <= |c.msg|
    requires level == 0 ==> n.parts == 0
    ensures r.Ok? ==> i + startLength <= r.index <= |c.msg|
    ensures r.Ok? && parent == ChoiceArg && r.index < |c.msg| ==>
            c.msg[r.index] == RIGHT_BRACE || c.msg[r.index] == PIPE
    ensures r.Ok? && parent == ChoiceArg && level > 0 && n.parts > 0 && r.index == |c.msg| ==>
            InTopLevelChoice(level, parent, n)
    decreases |c.msg| - i, 2
  {
    if level > MAX_VALUE then Err(IndexOutOfBounds) else
    var start := NewPart(MsgStart, i, startLength, level);
    var n1 := Add(n, [start]);
    var items := Items(c, i + startLength, level, parent, n1);
    if items.Err? then items else CloseMessage(c, start, items, level, parent, n1)
  }

  /** The end of a message whose text ended at items.index: MSG_LIMIT, and the limit index of MSG_START. */
  function CloseMessage(c: Context, start: Part, items: Result, level: nat, parent: ArgType, n: Count): (r: Result)
    requires items.Ok? && items.index <= |c.msg|
    ensures r.Ok? ==> items.index <= r.index <= |c.msg|
    ensures r.Ok? && parent == ChoiceArg ==> r.index == items.index
    ensures r.Ok? && items.index == |c.msg| ==> MayEndText(level, parent, n)
  {
    var j := items.index;
    var first := start.(limitPartIndex := n.parts + |items.parts|);
    if j == |c.msg| then
      if !MayEndText(level, parent, n) then Err(UnmatchedBraces)
      else Ok(j, [first] + items.parts + [NewPart(MsgLimit, j, 0, level)])
    else
      var limitLength := if parent == ChoiceArg && c.msg[j] == RIGHT_BRACE then 0 else 1;
      Ok(if parent == ChoiceArg then j else j + 1, [first] + items.parts + [NewPart(MsgLimit, j, limitLength, level)])
  }

  /** Message text from i up to the terminator or the end; the index is where the MSG_LIMIT belongs. */
  function Items(c: Context, i: nat, level: nat, parent: ArgType, n: Count): (r: Result)
    requires i <= |c.msg|
    requires n.parts > 0 && (level == 0 ==> n.slot0 == MsgStart)
    ensures r.Ok? ==> i <= r.index <= |c.msg| && (r.index < |c.msg| ==> Ends(c, r.index, level, parent))
    decreases |c.msg| - i, 1
  {
    if i == |c.msg| then Ok(i, [])
    else if c.msg[i] == APOS then
      var q := Apostrophe(c, i, parent);
      Prepend(q.1, Items(c, q.0, level, parent, Add(n, q.1)))
    else if HasPluralStyle(parent) && c.msg[i] == POUND then
      var p := [NewPart(ReplaceNumber, i, 1, 0)];
      Prepend(p, Items(c, i + 1, level, parent, Add(n, p)))
    else if c.msg[i] == LEFT_BRACE then
      var arg := Argument(c, i, level, n);
      if arg.Err? then arg
      else Prepend(arg.parts, Items(c, arg.index, level, parent, Add(n, arg.parts)))
    else if Ends(c, i, level, parent) then Ok(i, [])
    else Items(c, i + 1, level, parent, n)
  }

  function Prepend(ps: seq<Part>, r: Result): Result {
    if r.Err? then r else Ok(r.index, ps + r.parts)
  }

  /** parseArg: ARG_START, name, type and style, ARG_LIMIT. */
  function Argument(c: Context, i: nat, level: nat, n: Count): (r: Result)
    requires i < |c.msg|
    requires n.parts > 0 && (level == 0 ==> n.slot0 == MsgStart)
    ensures r.Ok? ==> i < r.index <= |c.msg|
    decreases |c.msg| - i, 0
  {
    var head := ArgHead(c, i + 1);
    if head.HeadErr? then Err(head.error) else
    var ord := Ordinal(head.argType);
    var start := NewPart(ArgStart, i, 1, ord);
    var style :=
      if !head.hasStyle then Ok(head.end, [])
      else Style(c, head.argType, head.end + 1, level, Add(n, [start] + head.parts));
    if style.Err? then style else
    CloseArgument(start, head.parts, style, n)
  }

  /** The end of an argument: ARG_LIMIT, and the limit index of ARG_START. */
  function CloseArgument(start: Part, head: seq<Part>, style: Result, n: Count): Result
    requires style.Ok?
  {
    var first := start.(limitPartIndex := n.parts + 1 + |head| + |style.parts|);
    Ok(style.index + 1, [first] + head + style.parts + [NewPart(ArgLimit, style.index, 1, start.value)])
  }

  /** The style of an argument inside a message pattern; stops on its '}'. */
  function Style(c: Context, argType: ArgType, i: nat, level: nat, n: Count): (r: Result)
    requires i <= |c.msg|
    requires n.parts > 0 && (level == 0 ==> n.slot0 == MsgStart)
    ensures r.Ok? ==> i <= r.index < |c.msg|
    decreases |c.msg| - i, 5
  {
    match argType
    case NoArg => SimpleStyle(c, i)
    case SimpleArg => SimpleStyle(c, i)
    case ChoiceArg => ChoiceStyle(c, i, level, n)
    case _ => PluralStyle(c, argType, i, level, n, true, false)
  }

  /** parseChoiceStyle */
  function ChoiceStyle(c: Context, i: nat, level: nat, n: Count): (r: Result)
    requires i <= |c.msg|
    ensures r.Ok? ==> i <= r.index <= |c.msg|
    ensures r.Ok? && n.parts > 0 && InMessageFormat(level, n) ==> r.index < |c.msg|
    decreases |c.msg| - i, 4
  {
    var k := Skip(IsWhiteSpace, c.msg, i);
    if k == |c.msg| || c.msg[k] == RIGHT_BRACE then Err(PatternSyntax)
    else Alternatives(c, k, level, n)
  }

  /** The |-separated alternatives of a choice style. */
  function Alternatives(c: Context, i: nat, level: nat, n: Count): (r: Result)
    requires i <= |c.msg|
    ensures r.Ok? ==> i <= r.index <= |c.msg|
    ensures r.Ok? && n.parts > 0 && InMessageFormat(level, n) ==> r.index < |c.msg|
    decreases |c.msg| - i, 3
  {
    var head := ChoiceHead(c, i, n.doubles);
    if head.Err? then head else
    var n1 := Add(n, head.parts);
    var message := Message(c, head.index, 0, level + 1, ChoiceArg, n1);
    if message.Err? then message else
    var ps := head.parts + message.parts;
    var n2 := Add(n, ps);
    var j := message.index;
    if j == |c.msg| then Ok(j, ps)
    else if c.msg[j] == RIGHT_BRACE then
      if !InMessageFormat(level, n2) then Err(PatternSyntax) else Ok(j, ps)
    else Prepend(ps, Alternatives(c, Skip(IsWhiteSpace, c.msg, j + 1), level, n2))
  }

  /** parsePluralOrSelectStyle, from one turn of its loop on. */
  function PluralStyle(c: Context, argType: ArgType, i: nat, level: nat, n: Count, isEmpty: bool,
                       hasOther: bool): (r: Result)
    requires i <= |c.msg|
    ensures r.Ok? ==> i <= r.index <= |c.msg|
    ensures r.Ok? && n.parts > 0 && InMessageFormat(level, n) ==> r.index < |c.msg|
    decreases |c.msg| - i, 4
  {
    var k := Skip(IsWhiteSpace, c.msg, i);
    var eos := k == |c.msg|;
    if eos || c.msg[k] == RIGHT_BRACE then
      if eos == InMessageFormat(level, n) then Err(PatternSyntax)
      else if !hasOther then Err(DefaultKeywordMissing)
      else Ok(k, [])
    else
      var turn := Turn(c, argType, k, level, n, isEmpty);
      if turn.Err? then turn
      else Prepend(turn.parts,
             PluralStyle(c, argType, turn.index, level, Add(n, turn.parts), false, hasOther
               || IsOther(c, argType, k, isEmpty, n)))
  }

  /** One turn of the loop: an offset, or a selector with its message. */
  function Turn(c: Context, argType: ArgType, i: nat, level: nat, n: Count, isEmpty: bool): (r: Result)
    requires i < |c.msg|
    ensures r.Ok? ==> i < r.index <= |c.msg|
    decreases |c.msg| - i, 3
  {
    match SelectorAt(c, argType, i, isEmpty, n.doubles)
    case SelectorErr(e) => Err(e)
    case Offset(j, ps) => Ok(j, ps)
    case Keyword(j, ps, _) => Prepend(ps, Message(c, j, 1, level + 1, argType, Add(n, ps)))
  }

  predicate IsOther(c: Context, argType: ArgType, i: nat, isEmpty: bool, n: Count)
    requires i < |c.msg|
  {
    var s := SelectorAt(c, argType, i, isEmpty, n.doubles);
    s.Keyword? && s.isOther
  }

  // ---------- entry points ----------

  datatype Entry = WholeMessage | TopChoice | TopPlural | TopSelect

  /** A parse of the whole text; slot0 is what an earlier parse left in the first slot of the parts buffer. */
  function Parse(c: Context, entry: Entry, slot0: PartType): Result {
    var n := Count(0, 0, slot0);
    match entry
    case WholeMessage => Message(c, 0, 0, 0, NoArg, n)
    case TopChoice => ChoiceStyle(c, 0, 0, n)
    case TopPlural => PluralStyle(c, PluralArg, 0, 0, n, true, false)
    case TopSelect => PluralStyle(c, SelectArg, 0, 0, n, true, false)
  }

  // ---------- one step of each ----------

  /** The three ways quoted text goes on, one step at a time. */
  lemma QuotedStep(c: Context, k: nat, e: nat)
    requires k <= |c.msg| && e == Skip(NotApostrophe, c.msg, k)
    ensures e == |c.msg| ==> QuotedText(c, k) == (e, [InsertPart(e)])
    ensures e + 1 < |c.msg| && c.msg[e + 1] == APOS ==>
              QuotedText(c, k) == (QuotedText(c, e + 2).0, [SkipPart(e + 1)] + QuotedText(c, e + 2).1)
    ensures e < |c.msg| && !(e + 1 < |c.msg| && c.msg[e + 1] == APOS) ==> QuotedText(c, k) == (e + 1, [SkipPart(e)])
  {
    hide Skip;
  }

  lemma NumberStep(c: Context, start: nat, limit: nat, allowInfinity: bool, doubles: nat)
    requires start < limit <= |c.msg|
    ensures var negative := c.msg[start] == MINUS;
            var first := if negative || c.msg[start] == PLUS then start + 1 else start;
            && (first == limit ==> Number(c, start, limit, allowInfinity, doubles) == Err(PatternSyntax))
            && (first < limit && c.msg[first] == INFINITY ==>
                  Number(c, start, limit, allowInfinity, doubles)
                  == if allowInfinity && first + 1 == limit then DoublePart(start, limit, doubles)
                    else Err(PatternSyntax))
            && (first < limit && c.msg[first] != INFINITY ==>
                  var digits := c.msg[first..limit];
                  Number(c, start, limit, allowInfinity, doubles)
                  == if AllDigits(digits) && Decimal(digits) <= MAX_VALUE + (if negative then 1 else 0) then
                       var value: int := Decimal(digits);
                       Ok(limit, [NewPart(ArgInt, start, limit - start, if negative then -value else value)])
                     else if limit - start >= NUMBER_CHARS || !c.isNumber(c.msg[start..limit]) then Err(PatternSyntax)
                     else DoublePart(start, limit, doubles))
  {
    hide Decimal;
  }

  /** What follows the name of an argument; k is behind the name and its white space. */
  function AfterName(c: Context, k: nat, name: Result): Head
    requires k <= |c.msg|
  {
    if name.Err? then HeadErr(name.error)
    else if k == |c.msg| then HeadErr(UnmatchedBraces)
    else if c.msg[k] == RIGHT_BRACE then HeadOk(k, false, NoArg, name.parts)
    else if c.msg[k] != COMMA then HeadErr(PatternSyntax)
    else TypeHead(c, k + 1, name.parts)
  }

  /** The head of an argument, from the places where its pieces end. */
  lemma ArgHeadIs(c: Context, i: nat, nameIndex: nat, nameEnd: nat, k: nat)
    requires i <= |c.msg| && nameIndex == Skip(IsWhiteSpace, c.msg, i)
    requires nameEnd == Skip(IsIdentifierUnit, c.msg, nameIndex) && k == Skip(IsWhiteSpace, c.msg, nameEnd)
    ensures ArgHead(c, i)
            == if nameIndex == |c.msg| then HeadErr(UnmatchedBraces)
               else AfterName(c, k, NamePart(c, nameIndex, nameEnd))
  {
    hide Skip, NamePart, TypeHead;
  }

  /** What follows the type name of an argument; m is behind the name and its white space. */
  function AfterType(c: Context, m: nat, name: seq<Part>, typeIndex: nat, length: int, argType: ArgType): Head
    requires m <= |c.msg|
  {
    var parts := name + if argType == SimpleArg then [NewPart(ArgTypeName, typeIndex, length, 0)] else [];
    if m == |c.msg| then HeadErr(UnmatchedBraces)
    else if length == 0 || (c.msg[m] != COMMA && c.msg[m] != RIGHT_BRACE) then HeadErr(PatternSyntax)
    else if length > MAX_LENGTH then HeadErr(IndexOutOfBounds)
    else if c.msg[m] == RIGHT_BRACE then
      if argType != SimpleArg then HeadErr(PatternSyntax) else HeadOk(m, false, argType, parts)
    else HeadOk(m, true, argType, parts)
  }

  lemma TypeHeadIs(c: Context, i: nat, name: seq<Part>, typeIndex: nat, typeEnd: nat, m: nat)
    requires i <= |c.msg| && typeIndex == Skip(IsWhiteSpace, c.msg, i)
    requires typeEnd == Skip(IsArgTypeUnit, c.msg, typeIndex) && m == Skip(IsWhiteSpace, c.msg, typeEnd)
    ensures TypeHead(c, i, name)
            == AfterType(c, m, name, typeIndex, typeEnd - typeIndex, TypeNamed(c.msg[typeIndex..typeEnd]))
  {
    hide Skip, TypeNamed;
  }

  lemma ItemsStep(c: Context, i: nat, level: nat, parent: ArgType, n: Count)
    requires i < |c.msg| && n.parts > 0 && (level == 0 ==> n.slot0 == MsgStart)
    ensures c.msg[i] == APOS ==>
              var a := Apostrophe(c, i, parent);
              Items(c, i, level, parent, n) == Prepend(a.1, Items(c, a.0, level, parent, Add(n, a.1)))
    ensures c.msg[i] != APOS && HasPluralStyle(parent) && c.msg[i] == POUND ==>
              var p := [NewPart(ReplaceNumber, i, 1, 0)];
              Items(c, i, level, parent, n) == Prepend(p, Items(c, i + 1, level, parent, Add(n, p)))
    ensures c.msg[i] == LEFT_BRACE ==>
              var a := Argument(c, i, level, n);
              Items(c, i, level, parent, n)
              == if a.Err? then a else Prepend(a.parts, Items(c, a.index, level, parent, Add(n, a.parts)))
    ensures c.msg[i] != APOS && !(HasPluralStyle(parent) && c.msg[i] == POUND) && c.msg[i] != LEFT_BRACE ==>
              Items(c, i, level, parent, n)
              == if Ends(c, i, level, parent) then Ok(i, []) else Items(c, i + 1, level, parent, n)
  {
    hide Argument, Apostrophe, Doubles;
  }

  lemma ItemsEnd(c: Context, i: nat, level: nat, parent: ArgType, n: Count)
    requires i == |c.msg| && n.parts > 0 && (level == 0 ==> n.slot0 == MsgStart)
    ensures Items(c, i, level, parent, n) == Ok(i, [])
  {
  }

  function LimitLength(c: Context, j: nat, parent: ArgType): nat
    requires j <= |c.msg|
  {
    if j == |c.msg| || (parent == ChoiceArg && c.msg[j] == RIGHT_BRACE) then 0 else 1
  }

  function AfterLimit(c: Context, j: nat, parent: ArgType): nat
    requires j <= |c.msg|
  {
    if j == |c.msg| || parent == ChoiceArg then j else j + 1
  }

  lemma CloseIs(c: Context, start: Part, items: Result, level: nat, parent: ArgType, n: Count)
    requires items.Ok? && items.index <= |c.msg|
    ensures var j, first := items.index, start.(limitPartIndex := n.parts + |items.parts|);
            CloseMessage(c, start, items, level, parent, n)
            == if j == |c.msg| && !MayEndText(level, parent, n) then Err(UnmatchedBraces)
               else Ok(AfterLimit(c, j, parent),
                       [first] + items.parts + [NewPart(MsgLimit, j, LimitLength(c, j, parent), level)])
  {
    hide MayEndText;
  }

  lemma MessageStep(c: Context, i: nat, startLength: nat, level: nat, parent: ArgType, n: Count)
    requires i + startLength <= |c.msg| && (level == 0 ==> n.parts == 0)
    ensures var start := NewPart(MsgStart, i, startLength, level);
            var n1 := Add(n, [start]);
            && n1.parts > 0 && (level == 0 ==> n1.slot0 == MsgStart)
            && var items := Items(c, i + startLength, level, parent, n1);
               Message(c, i, startLength, level, parent, n)
               == if level > MAX_VALUE then Err(IndexOutOfBounds)
                  else if items.Err? then items else CloseMessage(c, start, items, level, parent, n1)
  {
    hide Items, Doubles, CloseMessage;
  }

  /** The rest of a plural or select style from its next selector, at k. */
  function Turns(c: Context, t: ArgType, k: nat, level: nat, n: Count, isEmpty: bool, hasOther: bool): Result
    requires k < |c.msg|
  {
    var turn := Turn(c, t, k, level, n, isEmpty);
    if turn.Err? then turn
    else Prepend(turn.parts,
           PluralStyle(c, t, turn.index, level, Add(n, turn.parts), false, hasOther || IsOther(c, t, k, isEmpty, n)))
  }

  lemma PluralStep(c: Context, t: ArgType, i: nat, level: nat, n: Count, isEmpty: bool, hasOther: bool)
    requires i <= |c.msg|
    ensures var k := Skip(IsWhiteSpace, c.msg, i);
            PluralStyle(c, t, i, level, n, isEmpty, hasOther)
            == if k == |c.msg| || c.msg[k] == RIGHT_BRACE then
                 if (k == |c.msg|) == InMessageFormat(level, n) then Err(PatternSyntax)
                 else if !hasOther then Err(DefaultKeywordMissing)
                 else Ok(k, [])
               else Turns(c, t, k, level, n, isEmpty, hasOther)
  {
    hide Turn, IsOther, Skip, Doubles;
  }
}
