/**
  The parser object of source/common/messagepattern.cpp: methods that advance an index, append to the parts
  buffer, back-patch limit indexes and set flags. Each is proved to record exactly the parts that the
  corresponding function of MessageSpec describes.
 */
module MessagePatterns {
  import opened Basics
  import opened MessageModel
  import opened MessageSpec
  import opened MessagePlaces
  import opened MessageNesting
  import opened MessageQuoting
  import opened MessageReparse
  import opened MessageAutoQuote

  /** The returned index, or the error code. */
  datatype Outcome = Done(index: nat) | Failed(error: Error)

  /** What the part of an argument before its style leaves to its caller. */
  datatype HeadOutcome = HeadDone(end: nat, hasStyle: bool, argType: ArgType) | HeadFailed(error: Error)

  datatype SelectorOutcome = OffsetDone(index: nat) | KeywordDone(index: nat,
    isOther: bool) | SelectorFailed(error: Error)

  // ---------- narrowing casts ----------

  /** (uint16_t)x */
  function U16(x: int): (r: int)
    ensures 0 <= r <= 0xffff && (r == x <==> 0 <= x <= 0xffff)
  {
    x % 0x10000
  }

  /** (int16_t)x */
  function I16(x: int): (r: int)
    ensures -0x8000 <= r <= 0x7fff && (r == x <==> -0x8000 <= x <= 0x7fff)
  {
    (x + 0x8000) % 0x10000 - 0x8000
  }

  /** The int32_t that x wraps around to. */
  function I32(x: int): (r: int)
    ensures r == x <==> -0x8000_0000 <= x <= 0x7fff_ffff
  {
    (x + 0x8000_0000) % 0x1_0000_0000 - 0x8000_0000
  }

  // ---------- counting parts ----------

  ghost predicate HasKind(ps: seq<Part>, kind: PartType) { exists k :: 0 <= k < |ps| && ps[k].kind == kind }

  lemma HasKindOne(ps: seq<Part>, p: Part, kind: PartType)
    ensures HasKind(ps + [p], kind) <==> HasKind(ps, kind) || p.kind == kind
  {
    var all := ps + [p];
    if HasKind(ps, kind) {
      var k :| 0 <= k < |ps| && ps[k].kind == kind;
      assert all[k].kind == kind;
    }
    if p.kind == kind { assert all[|ps|].kind == kind; }
  }

  lemma {:induction false} DoublesAppend(a: seq<Part>, b: seq<Part>)
    ensures Doubles(a + b) == Doubles(a) + Doubles(b)
    decreases |a|
  {
    if |a| == 0 {
      assert a + b == b;
    } else {
      assert (a + b)[1..] == a[1..] + b;
      DoublesAppend(a[1..], b);
    }
  }

  /** Only the kinds of the parts matter to the counts. */
  lemma {:induction false} SameKinds(a: seq<Part>, b: seq<Part>)
    requires |a| == |b| && forall k :: 0 <= k < |a| ==> a[k].kind == b[k].kind
    ensures Doubles(a) == Doubles(b)
    ensures forall kind :: HasKind(a, kind) <==> HasKind(b, kind)
  {
    if |a| > 0 { SameKinds(a[1..], b[1..]); }
  }

  lemma AddAppend(n: Count, a: seq<Part>, b: seq<Part>)
    ensures Add(Add(n, a), b) == Add(n, a + b)
  {
    DoublesAppend(a, b);
  }

  lemma AddNone(n: Count)
    ensures Add(n, []) == n
  {
  }

  lemma PrependAppend(a: seq<Part>, b: seq<Part>, r: Result)
    ensures Prepend(a, Prepend(b, r)) == Prepend(a + b, r)
  {
    if r.Ok? { assert a + (b + r.parts) == a + b + r.parts; }
  }

  lemma PrependNone(r: Result)
    ensures Prepend([], r) == r
  {
    if r.Ok? { assert [] + r.parts == r.parts; }
  }

  // ---------- decimal numbers ----------

  lemma DecimalStep(s: seq<Unit>, k: nat)
    requires k < |s|
    ensures AllDigits(s[..k + 1]) <==> AllDigits(s[..k]) && IsDigit(s[k])
    ensures AllDigits(s[..k + 1]) ==> Decimal(s[..k + 1]) == Decimal(s[..k]) * 10 + (s[k] as int - 0x30)
  {
    assert s[..k + 1][..k] == s[..k];
    if AllDigits(s[..k + 1]) {
      assert forall i :: 0 <= i < k ==> s[..k][i] == s[..k + 1][i];
      assert s[..k + 1][k] == s[k];
    }
  }

  lemma {:induction false} DecimalGrows(s: seq<Unit>, k: nat)
    requires k <= |s| && AllDigits(s)
    ensures AllDigits(s[..k]) && Decimal(s[..k]) <= Decimal(s)
    decreases |s|
  {
    if k < |s| {
      var init := s[..|s| - 1];
      assert s[..|s|] == s;
      DecimalStep(s, |s| - 1);
      DecimalGrows(init, k);
      assert init[..k] == s[..k];
      assert IsDigit(s[|s| - 1]);
    } else {
      assert s[..k] == s;
    }
  }

  /** parseArgNumber(s, start, limit) */
  method ParseArgNumber(s: seq<Unit>, start0: nat, limit: nat) returns (r: int)
    requires start0 <= limit <= |s|
    ensures r == ArgNumberOf(s[start0..limit])
  {
    hide Decimal;
    var start := start0;
    if start >= limit { return ARG_NAME_NOT_VALID; }
    ghost var name := s[start0..limit];
    var number;
    var badNumber;
    var c := s[start];
    start := start + 1;
    OneDigit(name);
    if c == 0x30 {
      if start == limit {
        assert name[..1] == name;
        return 0;
      }
      number := 0;
      badNumber := true;
    } else if 0x31 <= c <= 0x39 {
      number := c as int - 0x30;
      badNumber := false;
    } else {
      return ARG_NAME_NOT_NUMBER;
    }
    while start < limit
      invariant start0 < start <= limit
      invariant AllDigits(name[..start - start0])
      invariant badNumber <==>
                name[0] == 0x30 || (start - start0 > 1 && Decimal(name[..start - start0 - 1]) >= INT32_MAX / 10)
      invariant !badNumber ==> number == Decimal(name[..start - start0])
    {
      ghost var k := start - start0;
      DecimalStep(name, k);
      c := s[start];
      assert c == name[k];
      start := start + 1;
      if 0x30 <= c <= 0x39 {
        if k > 1 {
          DecimalGrows(name[..k], k - 1);
          assert name[..k][..k - 1] == name[..k - 1];
        }
        if number >= INT32_MAX / 10 {
          badNumber := true;
        }
        number := I32(number * 10 + (c as int - 0x30));
      } else {
        return ARG_NAME_NOT_NUMBER;
      }
    }
    assert name[..limit - start0] == name;
    if badNumber { return ARG_NAME_NOT_VALID; } else { return number; }
  }

  lemma OneDigit(s: seq<Unit>)
    requires |s| > 0
    ensures AllDigits(s[..1]) <==> IsDigit(s[0])
    ensures AllDigits(s[..1]) ==> Decimal(s[..1]) == s[0] as int - 0x30
    ensures !IsDigit(s[0]) ==> !AllDigits(s)
  {
    DecimalStep(s, 0);
    assert s[..0] == [];
  }

  /**
    The type that a name of n units at i selects, compared as isChoice(), isPlural(), isSelect() and isOrdinal() do.
   */
  function NamedType(msg: seq<Unit>, i: nat, n: nat): (t: ArgType)
    requires i + n <= |msg|
    ensures t == TypeNamed(msg[i..i + n])
  {
    if n == 6 then
      var word := msg[i..i + 6];
      if IsWord(word, CHOICE_WORD) then ChoiceArg
      else if IsWord(word, PLURAL_WORD) then PluralArg
      else if IsWord(word, SELECT_WORD) then SelectArg
      else SimpleArg
    else if n == 13 then
      SplitWord(msg, i);
      if IsWord(msg[i..i + 6], SELECT_WORD) && IsWord(msg[i + 6..i + 13], ORDINAL_WORD) then SelectOrdinalArg
        else SimpleArg
    else SimpleArg
  }

  /** Unit u stands for the lower-case letter w in either case. */
  predicate SameLetter(u: Unit, w: Unit) { u == w || u as int == w as int - 0x20 }

  lemma SplitWord(msg: seq<Unit>, i: nat)
    requires i + 13 <= |msg|
    ensures IsWord(msg[i..i + 13], SELECT_WORD + ORDINAL_WORD)
            <==> IsWord(msg[i..i + 6], SELECT_WORD) && IsWord(msg[i + 6..i + 13], ORDINAL_WORD)
  {
    WordAppend(msg[i..i + 6], msg[i + 6..i + 13], SELECT_WORD, ORDINAL_WORD);
    assert msg[i..i + 13] == msg[i..i + 6] + msg[i + 6..i + 13];
  }

  lemma WordAppend(s: seq<Unit>, t: seq<Unit>, v: seq<Unit>, w: seq<Unit>)
    requires |s| == |v| && |t| == |w|
    ensures IsWord(s + t, v + w) <==> IsWord(s, v) && IsWord(t, w)
  {
    var a, b := s + t, v + w;
    if IsWord(a, b) {
      forall k | 0 <= k < |s|
        ensures SameLetter(s[k], v[k])
      {
        assert a[k] == s[k] && b[k] == v[k];
      }
      forall k | 0 <= k < |t|
        ensures SameLetter(t[k], w[k])
      {
        assert a[|s| + k] == t[k] && b[|s| + k] == w[k];
      }
    }
  }

  class MessagePattern {
    var aposMode: ApostropheMode
    var msg: seq<Unit>
    var a: seq<Part>               // partsList->a: the parts buffer, which earlier parses leave filled
    var partsLength: nat
    var numericValuesLength: nat
    var hasArgNames: bool
    var hasArgNumbers: bool
    var needsAutoQuoting: bool
    const isNumber: seq<Unit> -> bool   // whether strtod() accepts the whole text

    /** The parts recorded so far. */
    ghost function Parts(): seq<Part>
      requires Sized()
      reads this
    {
      a[..partsLength]
    }

    ghost predicate Sized()
      reads this
    {
      |a| > 0 && partsLength <= |a|
    }

    /** The counter and the flags say what the parts say. */
    ghost predicate Valid()
      reads this
      ensures Valid() ==> Sized()
    {
      && Sized()
      && numericValuesLength == Doubles(Parts())
      && (hasArgNames <==> HasKind(Parts(), ArgName))
      && (hasArgNumbers <==> HasKind(Parts(), ArgNumber))
      && (needsAutoQuoting <==> HasKind(Parts(), InsertChar))
    }

    ghost function Surroundings(): Context
      reads this
    {
      Context(msg, aposMode, isNumber)
    }

    ghost function Now(): Count
      requires Sized()
      reads this
    {
      Count(partsLength, numericValuesLength, a[0].kind)
    }

    /** The parts of ps were recorded after those of before. */
    ghost predicate Recorded(before: seq<Part>, n: Count, ps: seq<Part>)
      reads this
    {
      Valid() && Parts() == before + ps && Now() == Add(n, ps)
    }

    /** The outcome and the recorded parts are those of r. */
    ghost predicate Follows(before: seq<Part>, n: Count, r: Result, out: Outcome)
      reads this
    {
      && Valid() && partsLength >= n.parts
      && (r.Err? ==> out == Failed(r.error))
      && (r.Ok? ==> out == Done(r.index) && Recorded(before, n, r.parts))
    }

    constructor (mode: ApostropheMode, garbage: Part, isNumber: seq<Unit> -> bool)
      ensures Valid() && Parts() == [] && aposMode == mode && msg == [] && a[0] == garbage && this.isNumber == isNumber
    {
      aposMode, msg, a, partsLength, numericValuesLength := mode, [], seq(32, _ => garbage), 0, 0;
      hasArgNames, hasArgNumbers, needsAutoQuoting := false, false, false;
      this.isNumber := isNumber;
    }

    // ---------- recording parts ----------

    /** addPart(): the buffer doubles when it is full. */
    method AddPart(kind: PartType, index: int, length: int, value: int)
      requires Sized()
      modifies this`a, this`partsLength
      ensures Sized() && Parts() == old(Parts()) + [Part(kind, index, U16(length), I16(value), 0)]
      ensures a[0].kind == if old(partsLength) == 0 then kind else old(a[0].kind)
      ensures old(Valid()) && kind !in {ArgName, ArgNumber, InsertChar, ArgDouble} ==> Valid()
      ensures old(Valid()) && kind !in {ArgName, ArgNumber, InsertChar, ArgDouble}
              && 0 <= length <= MAX_LENGTH && -MAX_VALUE - 1 <= value <= MAX_VALUE ==>
                Recorded(old(Parts()), old(Now()), [NewPart(kind, index, length, value)])
    {
      hide Doubles, HasKind;
      ghost var before := Parts();
      var part := Part(kind, index, U16(length), I16(value), 0);
      if |a| == partsLength { a := a + a; }
      a := a[partsLength := part];
      partsLength := partsLength + 1;
      assert Parts() == before + [part];
      DoublesAppend(before, [part]);
      OneDouble(part);
      HasKindOne(before, part, ArgName);
      HasKindOne(before, part, ArgNumber);
      HasKindOne(before, part, InsertChar);
    }

    /** addLimitPart(): also sets the limit index of the part at start. */
    method AddLimitPart(start: nat, kind: PartType, index: int, length: int, value: int)
      requires Valid() && start < partsLength && (kind == MsgLimit || kind == ArgLimit)
      modifies this`a, this`partsLength
      ensures Valid()
      ensures Parts() == old(Parts())[start := old(Parts())[start].(limitPartIndex := old(partsLength))]
                         + [Part(kind, index, U16(length), I16(value), 0)]
      ensures a[0].kind == old(a[0].kind)
    {
      SetLimit(start);
      AddPart(kind, index, length, value);
    }

    method SetLimit(start: nat)
      requires Valid() && start < partsLength
      modifies this`a
      ensures Valid()
      ensures Parts() == old(Parts())[start := old(Parts())[start].(limitPartIndex := partsLength)]
      ensures a[0].kind == old(a[0].kind)
    {
      hide Doubles, HasKind;
      ghost var before := Parts();
      a := a[start := a[start].(limitPartIndex := partsLength)];
      assert Parts() == before[start := before[start].(limitPartIndex := partsLength)];
      SameKinds(before, Parts());
    }

    /** INSERT_CHAR, and the flag that goes with it. */
    method AddInsertChar(index: int)
      requires Valid()
      modifies this`a, this`partsLength, this`needsAutoQuoting
      ensures Recorded(old(Parts()), old(Now()), [InsertPart(index)])
    {
      hide HasKind;
      ghost var before := Parts();
      AddPart(InsertChar, index, 0, APOS);
      needsAutoQuoting := true;
      ghost var part := InsertPart(index);
      DoublesAppend(before, [part]);
      HasKindOne(before, part, ArgName);
      HasKindOne(before, part, ArgNumber);
      HasKindOne(before, part, InsertChar);
    }

    /** ARG_NAME or ARG_NUMBER, and the flag that goes with it. */
    method AddName(kind: PartType, index: int, length: int, value: int)
      requires Valid() && (kind == ArgName || kind == ArgNumber)
      requires 0 <= length <= MAX_LENGTH && 0 <= value <= MAX_VALUE
      modifies this`a, this`partsLength, this`hasArgNames, this`hasArgNumbers
      ensures Recorded(old(Parts()), old(Now()), [NewPart(kind, index, length, value)])
    {
      hide HasKind;
      ghost var before, part := Parts(), NewPart(kind, index, length, value);
      if kind == ArgNumber { hasArgNumbers := true; } else { hasArgNames := true; }
      AddPart(kind, index, length, value);
      DoublesAppend(before, [part]);
      HasKindOne(before, part, ArgName);
      HasKindOne(before, part, ArgNumber);
      HasKindOne(before, part, InsertChar);
    }

    /** addArgDoublePart() */
    method AddArgDoublePart(start: nat, length: nat) returns (out: Outcome)
      requires Valid() && length <= MAX_LENGTH
      modifies this`a, this`partsLength, this`numericValuesLength
      ensures Follows(old(Parts()), old(Now()), DoublePart(start, start + length, old(numericValuesLength)), out)
    {
      hide HasKind;
      ghost var before := Parts();
      var numericIndex := numericValuesLength;
      if numericIndex > MAX_VALUE { return Failed(IndexOutOfBounds); }
      numericValuesLength := numericValuesLength + 1;
      AddPart(ArgDouble, start, length, numericIndex);
      ghost var part := NewPart(ArgDouble, start, length, numericIndex);
      DoublesAppend(before, [part]);
      HasKindOne(before, part, ArgName);
      HasKindOne(before, part, ArgNumber);
      HasKindOne(before, part, InsertChar);
      return Done(start + length);
    }

    // ---------- scanning ----------

    method SkipWhiteSpace(index: nat) returns (k: nat)
      requires index <= |msg|
      ensures k == Skip(IsWhiteSpace, msg, index)
    {
      hide Skip, IsWhiteSpace;
      k := index;
      while k < |msg| && IsWhiteSpace(msg[k])
        invariant index <= k <= |msg| && forall j :: index <= j < k ==> IsWhiteSpace(msg[j])
      {
        k := k + 1;
      }
      SkipIs(IsWhiteSpace, msg, index, k);
    }

    method SkipIdentifier(index: nat) returns (k: nat)
      requires index <= |msg|
      ensures k == Skip(IsIdentifierUnit, msg, index)
    {
      hide Skip, IsSyntaxOrWhiteSpace;
      k := index;
      while k < |msg| && !IsSyntaxOrWhiteSpace(msg[k])
        invariant index <= k <= |msg| && forall j :: index <= j < k ==> IsIdentifierUnit(msg[j])
      {
        k := k + 1;
      }
      SkipIs(IsIdentifierUnit, msg, index, k);
    }

    method SkipDouble(index: nat) returns (k: nat)
      requires index <= |msg|
      ensures k == Skip(IsDoubleUnit, msg, index)
    {
      hide Skip;
      k := index;
      while k < |msg|
        invariant index <= k <= |msg| && forall j :: index <= j < k ==> IsDoubleUnit(msg[j])
      {
        var c := msg[k];
        if (c < 0x30 && c != PLUS && c != MINUS && c != DOT) || (c > 0x39 && c != 0x65 && c != 0x45 && c != INFINITY) {
          break;
        }
        k := k + 1;
      }
      SkipIs(IsDoubleUnit, msg, index, k);
    }

    method SkipArgType(index: nat) returns (k: nat)
      requires index <= |msg|
      ensures k == Skip(IsArgTypeUnit, msg, index)
    {
      hide Skip;
      k := index;
      while k < |msg| && IsArgTypeUnit(msg[k])
        invariant index <= k <= |msg| && forall j :: index <= j < k ==> IsArgTypeUnit(msg[j])
      {
        k := k + 1;
      }
      SkipIs(IsArgTypeUnit, msg, index, k);
    }

    /** parseDouble(): one ARG_INT or ARG_DOUBLE part. */
    method ParseDouble(start: nat, limit: nat, allowInfinity: bool) returns (out: Outcome)
      requires Valid() && start < limit <= |msg| && limit - start <= MAX_LENGTH
      modifies this`a, this`partsLength, this`numericValuesLength
      ensures Follows(old(Parts()), old(Now()),
                      Number(old(Surroundings()), start, limit, allowInfinity, old(numericValuesLength)), out)
    {
      hide HasKind, Doubles, Decimal, Number, Valid, AllDigits, Add;
      NumberStep(Surroundings(), start, limit, allowInfinity, numericValuesLength);
      var isNegative := 0;
      var index := start;
      var c := msg[index];
      index := index + 1;
      if c == MINUS {
        isNegative := 1;
        if index == limit { return Failed(PatternSyntax); }
        c := msg[index];
        index := index + 1;
      } else if c == PLUS {
        if index == limit { return Failed(PatternSyntax); }
        c := msg[index];
        index := index + 1;
      }
      if c == INFINITY {
        if allowInfinity && index == limit {
          out := AddArgDoublePart(start, limit - start);
          return;
        } else {
          return Failed(PatternSyntax);
        }
      }
      var small, value := SmallInteger(index - 1, limit, isNegative);
      if small {
        AddPart(ArgInt, start, limit - start, if isNegative != 0 then -value else value);
        return Done(limit);
      }
      if limit - start >= NUMBER_CHARS || !isNumber(msg[start..limit]) { return Failed(PatternSyntax); }
      out := AddArgDoublePart(start, limit - start);
    }

    /** The digit loop of parseDouble(). */
    method SmallInteger(first: nat, limit: nat, isNegative: int) returns (small: bool, value: int)
      requires first < limit <= |msg| && 0 <= isNegative <= 1
      ensures var digits := msg[first..limit];
              && (small <==> AllDigits(digits) && Decimal(digits) <= MAX_VALUE + isNegative)
              && (small ==> value == Decimal(digits))
    {
      hide Decimal;
      value := 0;
      var index := first + 1;
      var c := msg[first];
      ghost var digits := msg[first..limit];
      assert digits[..0] == [];
      NoDigits();
      while 0x30 <= c <= 0x39
        invariant first < index <= limit && c == msg[index - 1] == digits[index - first - 1]
        invariant AllDigits(digits[..index - first - 1]) && value == Decimal(digits[..index - first - 1])
        decreases limit - index
      {
        ghost var k := index - first - 1;
        DecimalStep(digits, k);
        value := value * 10 + (c as int - 0x30);
        if value > MAX_VALUE + isNegative {
          if AllDigits(digits) { DecimalGrows(digits, k + 1); }
          return false, value;
        }
        if index == limit {
          assert digits[..k + 1] == digits;
          return true, value;
        }
        c := msg[index];
        index := index + 1;
      }
      return false, value;
    }

    // ---------- apostrophes ----------

    /** The apostrophe branch of parseMessage(); index is behind the apostrophe. */
    method ParseApostrophe(index0: nat, parent: ArgType) returns (index: nat)
      requires Valid() && 0 < index0 <= |msg|
      modifies this`a, this`partsLength, this`needsAutoQuoting
      ensures var r := Apostrophe(old(Surroundings()), index0 - 1, parent);
              index == r.0 && Recorded(old(Parts()), old(Now()), r.1)
    {
      hide HasKind, Doubles, Valid, QuotedText, Add;
      index := index0;
      if index == |msg| {
        AddInsertChar(index);
      } else {
        var c := msg[index];
        if c == APOS {
          AddPart(SkipSyntax, index, 1, 0);
          index := index + 1;
        } else if || aposMode == DoubleRequired || c == LEFT_BRACE || c == RIGHT_BRACE
                  || (parent == ChoiceArg && c == PIPE) || (HasPluralStyle(parent) && c == POUND) {
          ghost var before, n := Parts(), Now();
          AddPart(SkipSyntax, index - 1, 1, 0);
          ghost var first := [SkipPart(index - 1)];
          ghost var q := QuotedText(Surroundings(), index + 1);
          index := ParseQuoted(index);
          AddAppend(n, first, q.1);
          assert before + first + q.1 == before + (first + q.1);
        } else {
          AddInsertChar(index);
        }
      }
    }

    /** The loop that finds the end of quoted literal text; index0 is behind the quote-starting apostrophe. */
    method ParseQuoted(index0: nat) returns (index: nat)
      requires Valid() && index0 < |msg|
      modifies this`a, this`partsLength, this`needsAutoQuoting
      ensures var r := QuotedText(old(Surroundings()), index0 + 1);
              index == r.0 && Recorded(old(Parts()), old(Now()), r.1)
    {
      hide HasKind, Doubles, Valid, QuotedText, Add, Skip, U16, I16, Recorded;
      ghost var c, before, n, sofar := Surroundings(), Parts(), Now(), [];
      ghost var goal := QuotedText(c, index0 + 1);
      NothingRecorded();
      assert [] + goal.1 == goal.1;
      index := index0;
      while true
        invariant index < |msg| && c == Surroundings() && Valid()
        invariant Recorded(before, n, sofar)
        invariant goal == (QuotedText(c, index + 1).0, sofar + QuotedText(c, index + 1).1)
        decreases |msg| - index
      {
        RecordedIs(before, n, sofar);
        ghost var was, was' := Now(), Parts();
        var q := Skip(NotApostrophe, msg, index + 1);
        QuotedStep(c, index + 1, q);
        ghost var more;
        if q < |msg| {
          index := q;
          if index + 1 < |msg| && msg[index + 1] == APOS {
            index := index + 1;
            more := [SkipPart(index)];
            AddPart(SkipSyntax, index, 1, 0);
          } else {
            more := [SkipPart(index)];
            AddPart(SkipSyntax, index, 1, 0);
            index := index + 1;
            MoreRecorded(before, n, sofar, was', was, more);
            return;
          }
        } else {
          index := |msg|;
          more := [InsertPart(index)];
          AddInsertChar(index);
          MoreRecorded(before, n, sofar, was', was, more);
          return;
        }
        MoreRecorded(before, n, sofar, was', was, more);
        ghost var rest := QuotedText(c, index + 1);
        assert sofar + (more + rest.1) == sofar + more + rest.1;
        sofar := sofar + more;
      }
    }

    // ---------- arguments ----------

    /** parseSimpleStyle() */
    method ParseSimpleStyle(start: nat) returns (out: Outcome)
      requires Valid() && start <= |msg|
      modifies this`a, this`partsLength
      ensures Follows(old(Parts()), old(Now()), SimpleStyle(old(Surroundings()), start), out)
    {
      hide HasKind, Doubles, Valid, StyleEnd, Add, Skip;
      ghost var c := Surroundings();
      ghost var goal := StyleEnd(c, start, 0);
      var index, nestedBraces := start, 0;
      while index < |msg|
        invariant start <= index <= |msg| && nestedBraces >= 0
        invariant goal == StyleEnd(c, index, nestedBraces)
        invariant Valid() && Parts() == old(Parts()) && Now() == old(Now())
        decreases |msg| - index
      {
        StyleEndStep(c, index, nestedBraces);
        var u := msg[index];
        index := index + 1;
        if u == APOS {
          index := Skip(NotApostrophe, msg, index);
          if index == |msg| { return Failed(PatternSyntax); }
          index := index + 1;
        } else if u == LEFT_BRACE {
          nestedBraces := nestedBraces + 1;
        } else if u == RIGHT_BRACE {
          if nestedBraces > 0 {
            nestedBraces := nestedBraces - 1;
          } else {
            index := index - 1;
            if index - start > MAX_LENGTH { return Failed(IndexOutOfBounds); }
            AddPart(ArgStyle, start, index - start, 0);
            return Done(index);
          }
        }
      }
      StyleEndNone(c, index, nestedBraces);
      return Failed(UnmatchedBraces);
    }

    /** The argument name or number in [nameIndex, end). */
    method ParseName(nameIndex: nat, end: nat) returns (out: Outcome)
      requires Valid() && nameIndex <= end <= |msg|
      modifies this`a, this`partsLength, this`hasArgNames, this`hasArgNumbers
      ensures Follows(old(Parts()), old(Now()), NamePart(old(Surroundings()), nameIndex, end), out)
    {
      hide HasKind, Doubles, Valid, Add, ArgNumberOf;
      var number := ParseArgNumber(msg, nameIndex, end);
      var length := end - nameIndex;
      if number >= 0 {
        if length > MAX_LENGTH || number > MAX_VALUE { return Failed(IndexOutOfBounds); }
        AddName(ArgNumber, nameIndex, length, number);
      } else if number == ARG_NAME_NOT_NUMBER {
        if length > MAX_LENGTH { return Failed(IndexOutOfBounds); }
        AddName(ArgName, nameIndex, length, 0);
      } else {
        return Failed(PatternSyntax);
      }
      return Done(end);
    }

    /** Changes the type recorded in the ARG_START at start. */
    method SetArgType(start: nat, t: ArgType)
      requires Valid() && start < partsLength
      modifies this`a
      ensures Valid()
      ensures Parts() == old(Parts())[start := old(Parts())[start].(value := Ordinal(t))]
      ensures a[0].kind == old(a[0].kind)
    {
      hide Doubles, HasKind;
      ghost var before := Parts();
      a := a[start := a[start].(value := I16(Ordinal(t)))];
      assert Parts() == before[start := before[start].(value := Ordinal(t))];
      SameKinds(before, Parts());
    }

    /** The first half of parseArg(): name and type of the argument whose ARG_START is the last part. */
    method ParseArgHead(index0: nat) returns (out: HeadOutcome)
      requires Valid() && index0 <= |msg| && partsLength > 0 && a[partsLength - 1].value == 0
      modifies this`a, this`partsLength, this`hasArgNames, this`hasArgNumbers
      ensures Valid() && partsLength >= old(partsLength)
      ensures var h := ArgHead(old(Surroundings()), index0);
              && (h.HeadErr? ==> out == HeadFailed(h.error))
              && (h.HeadOk? ==> out == HeadDone(h.end, h.hasStyle, h.argType)
                                && WithHead(old(Parts()), old(Now()), h.argType, h.parts))
    {
      hide HasKind, Doubles, Valid, Add, Skip, NamePart, TypeHead, ArgHead, WithHead, Follows, Recorded;
      ghost var c, before, n := Surroundings(), Parts(), Now();
      var nameIndex := SkipWhiteSpace(index0);
      ghost var nameEnd := Skip(IsIdentifierUnit, c.msg, nameIndex);
      ArgHeadIs(c, index0, nameIndex, nameEnd, Skip(IsWhiteSpace, c.msg, nameEnd));
      if nameIndex == |msg| { return HeadFailed(UnmatchedBraces); }
      var index := SkipIdentifier(nameIndex);
      ghost var name := NamePart(c, nameIndex, index);
      var named := ParseName(nameIndex, index);
      NameRead(before, n, name, named);
      if named.Failed? { return HeadFailed(named.error); }
      index := SkipWhiteSpace(index);
      if index == |msg| { return HeadFailed(UnmatchedBraces); }
      if msg[index] == RIGHT_BRACE {
        NoType(before, n, name.parts);
        return HeadDone(index, false, NoArg);
      } else if msg[index] != COMMA {
        return HeadFailed(PatternSyntax);
      }
      NameOne(c, nameIndex, nameEnd);
      out := ParseArgType(index + 1, before, n, name.parts);
    }

    lemma NameRead(before: seq<Part>, n: Count, name: Result, named: Outcome)
      requires Follows(before, n, name, named)
      ensures Valid() && partsLength >= n.parts
      ensures named.Failed? ==> name.Err? && named.error == name.error
      ensures named.Done? ==> name.Ok? && Recorded(before, n, name.parts)
    {
    }

    lemma NoType(before: seq<Part>, n: Count, name: seq<Part>)
      requires Recorded(before, n, name) && |before| > 0 && before[|before| - 1].value == 0
      ensures WithHead(before, n, NoArg, name)
    {
      hide Valid, Add;
      assert before[|before| - 1 := before[|before| - 1].(value := Ordinal(NoArg))] == before;
    }

    /** The recorded parts when the head of an argument has been read. */
    ghost predicate WithHead(before: seq<Part>, n: Count, t: ArgType, head: seq<Part>)
      reads this
    {
      && Valid() && |before| > 0
      && Parts() == before[|before| - 1 := before[|before| - 1].(value := Ordinal(t))] + head
      && Now() == Add(n, head)
    }

    /** The argument type: case-insensitive a-zA-Z */
    method ParseArgType(index0: nat, ghost before: seq<Part>, ghost n: Count, ghost name: seq<Part>)
      returns (out: HeadOutcome)
      requires Recorded(before, n, name) && index0 <= |msg| && |before| > 0 && |name| == 1
      modifies this`a, this`partsLength
      ensures Valid() && partsLength >= old(partsLength)
      ensures var h := TypeHead(old(Surroundings()), index0, name);
              && (h.HeadErr? ==> out == HeadFailed(h.error))
              && (h.HeadOk? ==>
                    out == HeadDone(h.end, h.hasStyle, h.argType) && WithHead(before, n, h.argType, h.parts))
    {
      hide HasKind, Doubles, Valid, Add, Skip, TypeNamed, TypeHead, WithHead, Recorded;
      RecordedIs(before, n, name);
      var typeIndex := SkipWhiteSpace(index0);
      var typeEnd := SkipArgType(typeIndex);
      var length := typeEnd - typeIndex;
      var index := SkipWhiteSpace(typeEnd);
      TypeHeadIs(Surroundings(), index0, name, typeIndex, typeEnd, index);
      if index == |msg| { return HeadFailed(UnmatchedBraces); }
      var c := msg[index];
      if length == 0 || (c != COMMA && c != RIGHT_BRACE) { return HeadFailed(PatternSyntax); }
      if length > MAX_LENGTH { return HeadFailed(IndexOutOfBounds); }
      var argType := NamedType(msg, typeIndex, length);
      RecordType(typeIndex, length, argType, before, n, name);
      if c == RIGHT_BRACE {
        if argType != SimpleArg { return HeadFailed(PatternSyntax); }
        return HeadDone(index, false, argType);
      }
      return HeadDone(index, true, argType);
    }

    /** Patches the type into ARG_START, and records the name of a simple type. */
    method RecordType(typeIndex: nat, length: nat, argType: ArgType,
                      ghost before: seq<Part>, ghost n: Count, ghost name: seq<Part>)
      requires Recorded(before, n, name) && |before| > 0 && |name| == 1 && length <= MAX_LENGTH
      modifies this`a, this`partsLength
      ensures partsLength >= old(partsLength) && Valid()
      ensures WithHead(before, n, argType,
                name + if argType == SimpleArg then [NewPart(ArgTypeName, typeIndex, length, 0)] else [])
    {
      hide HasKind, Doubles, Valid, Add;
      var argStart := partsLength - 2;
      SetArgType(argStart, argType);
      ghost var start := before[|before| - 1 := before[|before| - 1].(value := Ordinal(argType))];
      assert Parts() == start + name;
      ghost var more := [];
      AddNone(Now());
      if argType == SimpleArg {
        more := [NewPart(ArgTypeName, typeIndex, length, 0)];
        AddPart(ArgTypeName, typeIndex, length, 0);
      }
      assert start + name + more == start + (name + more);
      AddAppend(n, name, more);
    }

    // ---------- selectors ----------

    /** Number and separator of one alternative of a choice style. */
    method ParseChoiceHead(numberIndex: nat) returns (out: Outcome)
      requires Valid() && numberIndex <= |msg|
      modifies this`a, this`partsLength, this`numericValuesLength
      ensures Follows(old(Parts()), old(Now()),
              ChoiceHead(old(Surroundings()), numberIndex, old(numericValuesLength)), out)
    {
      hide HasKind, Doubles, Valid, Add, Skip, Number;
      ghost var before, n := Parts(), Now();
      var index := SkipDouble(numberIndex);
      var length := index - numberIndex;
      if length == 0 { return Failed(PatternSyntax); }
      if length > MAX_LENGTH { return Failed(IndexOutOfBounds); }
      ghost var number := Number(Surroundings(), numberIndex, index, true, numericValuesLength);
      var parsed := ParseDouble(numberIndex, index, true);
      if parsed.Failed? { return parsed; }
      index := SkipWhiteSpace(index);
      if index == |msg| { return Failed(PatternSyntax); }
      var c := msg[index];
      if !(c == POUND || c == LESS_THAN || c == LESS_OR_EQUAL) { return Failed(PatternSyntax); }
      AddPart(ArgSelector, index, 1, 0);
      ghost var sel := [NewPart(ArgSelector, index, 1, 0)];
      AddAppend(n, number.parts, sel);
      assert before + number.parts + sel == before + (number.parts + sel);
      return Done(index + 1);
    }

    ghost predicate SelectorFollows(before: seq<Part>, n: Count, s: Selector, out: SelectorOutcome)
      reads this
    {
      && Valid() && partsLength >= n.parts
      && match s
         case SelectorErr(e) => out == SelectorFailed(e)
         case Offset(j, ps) => out == OffsetDone(j) && Recorded(before, n, ps)
         case Keyword(j, ps, isOther) => out == KeywordDone(j, isOther) && Recorded(before, n, ps)
    }

    /** One selector of a plural or select style. */
    method ParseSelector(argType: ArgType, selectorIndex: nat, isEmpty: bool) returns (out: SelectorOutcome)
      requires Valid() && selectorIndex < |msg|
      modifies this`a, this`partsLength, this`numericValuesLength
      ensures SelectorFollows(old(Parts()), old(Now()),
                SelectorAt(old(Surroundings()), argType, selectorIndex, isEmpty, old(numericValuesLength)), out)
    {
      hide HasKind, Doubles, Valid, Add, Skip, ExplicitSelector, WordSelector, SelectorFollows;
      if HasPluralStyle(argType) && msg[selectorIndex] == EQUAL {
        out := ParseExplicitSelector(selectorIndex);
      } else {
        out := ParseWordSelector(argType, selectorIndex, isEmpty);
      }
    }

    /** A selector that is '=' and a number. */
    method ParseExplicitSelector(selectorIndex: nat) returns (out: SelectorOutcome)
      requires Valid() && selectorIndex < |msg|
      modifies this`a, this`partsLength, this`numericValuesLength
      ensures SelectorFollows(old(Parts()), old(Now()),
                ExplicitSelector(old(Surroundings()), selectorIndex, old(numericValuesLength)), out)
    {
      hide HasKind, Doubles, Valid, Add, Skip, Number;
      ghost var c, before, n := Surroundings(), Parts(), Now();
      var index := SkipDouble(selectorIndex + 1);
      var length := index - selectorIndex;
      if length == 1 { return SelectorFailed(PatternSyntax); }
      if length > MAX_LENGTH { return SelectorFailed(IndexOutOfBounds); }
      AddPart(ArgSelector, selectorIndex, length, 0);
      ghost var sel := [NewPart(ArgSelector, selectorIndex, length, 0)];
      ghost var number := Number(c, selectorIndex + 1, index, false, numericValuesLength);
      var parsed := ParseDouble(selectorIndex + 1, index, false);
      if parsed.Failed? { return SelectorFailed(parsed.error); }
      AddAppend(n, sel, number.parts);
      assert before + sel + number.parts == before + (sel + number.parts);
      index := SkipWhiteSpace(index);
      if index == |msg| || msg[index] != LEFT_BRACE { return SelectorFailed(PatternSyntax); }
      return KeywordDone(index, false);
    }

    /** "offset:" and its value, or a selector word */
    method ParseWordSelector(argType: ArgType, selectorIndex: nat, isEmpty: bool) returns (out: SelectorOutcome)
      requires Valid() && selectorIndex < |msg|
      modifies this`a, this`partsLength, this`numericValuesLength
      ensures SelectorFollows(old(Parts()), old(Now()),
                WordSelector(old(Surroundings()), argType, selectorIndex, isEmpty, old(numericValuesLength)), out)
    {
      hide HasKind, Doubles, Valid, Add, Skip, OffsetValue, WordSelector, BeforeMessage;
      var index := SkipIdentifier(selectorIndex);
      WordStep(Surroundings(), argType, selectorIndex, isEmpty, numericValuesLength, index);
      var length := index - selectorIndex;
      if length == 0 { return SelectorFailed(PatternSyntax); }
      if HasPluralStyle(argType) && length == 6 && index < |msg|
        && msg[selectorIndex..selectorIndex + 7] == OFFSET_COLON {
        if !isEmpty { return SelectorFailed(PatternSyntax); }
        out := ParseOffset(index + 1);
        return;
      }
      if length > MAX_LENGTH { return SelectorFailed(IndexOutOfBounds); }
      out := RecordWord(selectorIndex, index);
    }

    /** A selector word, and the '{' of its message. */
    method RecordWord(selectorIndex: nat, end: nat) returns (out: SelectorOutcome)
      requires Valid() && selectorIndex <= end <= |msg| && end - selectorIndex <= MAX_LENGTH
      modifies this`a, this`partsLength
      ensures SelectorFollows(old(Parts()), old(Now()),
                BeforeMessage(old(Surroundings()), end, [NewPart(ArgSelector, selectorIndex, end - selectorIndex, 0)],
                              old(msg)[selectorIndex..end] == OTHER_WORD), out)
    {
      hide HasKind, Doubles, Valid, Add, Skip;
      AddPart(ArgSelector, selectorIndex, end - selectorIndex, 0);
      var isOther := msg[selectorIndex..end] == OTHER_WORD;
      var index := SkipWhiteSpace(end);
      if index == |msg| || msg[index] != LEFT_BRACE { return SelectorFailed(PatternSyntax); }
      return KeywordDone(index, isOther);
    }

    /** The value of "offset:". */
    method ParseOffset(index0: nat) returns (out: SelectorOutcome)
      requires Valid() && index0 <= |msg|
      modifies this`a, this`partsLength, this`numericValuesLength
      ensures SelectorFollows(old(Parts()), old(Now()),
                OffsetValue(old(Surroundings()), index0, old(numericValuesLength)), out)
    {
      hide HasKind, Doubles, Valid, Add, Skip, Number;
      var valueIndex := SkipWhiteSpace(index0);
      var index := SkipDouble(valueIndex);
      if index == valueIndex { return SelectorFailed(PatternSyntax); }
      if index - valueIndex > MAX_LENGTH { return SelectorFailed(IndexOutOfBounds); }
      ghost var number := Number(Surroundings(), valueIndex, index, false, numericValuesLength);
      var parsed := ParseDouble(valueIndex, index, false);
      if parsed.Failed? { return SelectorFailed(parsed.error); }
      return OffsetDone(index);
    }

    // ---------- the mutually recursive methods ----------

    /** parseMessage() */
    method ParseMessage(index0: nat, startLength: nat, level: nat, parent: ArgType) returns (out: Outcome)
      requires Valid() && index0 + startLength <= |msg| && startLength <= 1 && (level == 0 ==> partsLength == 0)
      modifies this`a, this`partsLength, this`numericValuesLength, this`hasArgNames, this`hasArgNumbers,
               this`needsAutoQuoting
      ensures Follows(old(Parts()), old(Now()),
                      Message(old(Surroundings()), index0, startLength, level, parent, old(Now())), out)
      decreases |msg| - index0, 2
    {
      hide HasKind, Doubles, Valid, Add, Items, CloseMessage, Recorded;
      if level > MAX_VALUE { return Failed(IndexOutOfBounds); }
      ghost var c, before, n := Surroundings(), Parts(), Now();
      var msgStart := partsLength;
      AddPart(MsgStart, index0, startLength, level);
      ghost var start := NewPart(MsgStart, index0, startLength, level);
      ghost var n1 := Now();
      StartRecorded(before, n, start);
      ghost var items := Items(c, index0 + startLength, level, parent, n1);
      var scanned := ParseItems(index0 + startLength, level, parent);
      if scanned.Failed? { return scanned; }
      out := FinishMessage(msgStart, scanned.index, level, parent, before, n, start, items);
    }

    /** What AddPart() leaves after a MSG_START or ARG_START. */
    lemma StartRecorded(before: seq<Part>, n: Count, start: Part)
      requires Recorded(before, n, [start]) && |before| == n.parts
      ensures Valid() && Parts() == before + [start] && Now() == Add(n, [start]) && partsLength == n.parts + 1
      ensures n.parts == 0 ==> Now().slot0 == start.kind
    {
    }

    /** The loop of parseMessage(), up to the terminator or the end of the text. */
    method ParseItems(index0: nat, level: nat, parent: ArgType) returns (out: Outcome)
      requires Valid() && index0 <= |msg| && partsLength > 0 && (level == 0 ==> Now().slot0 == MsgStart)
      modifies this`a, this`partsLength, this`numericValuesLength, this`hasArgNames, this`hasArgNumbers,
               this`needsAutoQuoting
      ensures Follows(old(Parts()), old(Now()), Items(old(Surroundings()), index0, level, parent, old(Now())), out)
      decreases |msg| - index0, 1
    {
      hide Doubles, Valid, Add, Items, Recorded, Prepend, Follows;
      ghost var c, before, n, sofar := Surroundings(), Parts(), Now(), [];
      ghost var goal := Items(c, index0, level, parent, n);
      NothingRecorded();
      PrependNone(goal);
      var index := index0;
      while index < |msg|
        invariant index0 <= index <= |msg| && c == Surroundings()
        invariant Recorded(before, n, sofar) && Valid()
        invariant partsLength > 0 && (level == 0 ==> Now().slot0 == MsgStart)
        invariant goal == Prepend(sofar, Items(c, index, level, parent, Now()))
        decreases |msg| - index
      {
        RecordedIs(before, n, sofar);
        ghost var was, was', rest := Now(), Parts(), Items(c, index, level, parent, Now());
        var ended;
        ghost var more;
        ended, out, index, more := ParseItem(index, level, parent);
        if ended {
          Joined(before, n, sofar, was', was, rest, out);
          return;
        }
        MoreRecorded(before, n, sofar, was', was, more);
        PrependAppend(sofar, more, Items(c, index, level, parent, Now()));
        sofar := sofar + more;
      }
      ItemsEnd(c, index, level, parent, Now());
      EndsHere(before, n, sofar, index);
      return Done(index);
    }

    /** One turn of the loop: an item, or the end of the message text. */
    method ParseItem(at: nat, level: nat, parent: ArgType)
      returns (ended: bool, out: Outcome, index: nat, ghost more: seq<Part>)
      requires Valid() && at < |msg| && partsLength > 0 && (level == 0 ==> Now().slot0 == MsgStart)
      modifies this`a, this`partsLength, this`numericValuesLength, this`hasArgNames, this`hasArgNumbers,
               this`needsAutoQuoting
      ensures ended ==>
                Follows(old(Parts()), old(Now()), Items(old(Surroundings()), at, level, parent, old(Now())), out)
      ensures !ended ==>
                && Recorded(old(Parts()), old(Now()), more) && Sized() && at < index <= |msg|
                && partsLength > 0 && (level == 0 ==> Now().slot0 == MsgStart)
                && Items(old(Surroundings()), at, level, parent, old(Now()))
                   == Prepend(more, Items(old(Surroundings()), index, level, parent, Now()))
      decreases |msg| - at, 0, 1
    {
      hide HasKind, Doubles, Valid, Add, Items, Argument, Apostrophe, Recorded, Prepend, Follows, U16, I16;
      ghost var c, was, was' := Surroundings(), Now(), Parts();
      ItemsStep(c, at, level, parent, was);
      ended, out, index, more := false, Done(at), at + 1, [];
      NothingRecorded();
      var u := msg[at];
      if u == APOS {
        more := Apostrophe(c, at, parent).1;
        index := ParseApostrophe(index, parent);
        StillBegun(was', was, more);
      } else if HasPluralStyle(parent) && u == POUND {
        more := [NewPart(ReplaceNumber, at, 1, 0)];
        AddPart(ReplaceNumber, index - 1, 1, 0);
        StillBegun(was', was, more);
      } else if u == LEFT_BRACE {
        out := ParseArg(at, level);
        ghost var arg := Argument(c, at, level, was);
        if out.Failed? {
          Stopped(was', was, arg, out);
          ended := true;
          return;
        }
        Went(was', was, arg, out);
        more := arg.parts;
        index := out.index;
      } else if (level > 0 && u == RIGHT_BRACE) || (parent == ChoiceArg && u == PIPE) {
        EndsHere(was', was, [], at);
        PrependNone(Ok(at, []));
        ended := true;
      } else {
        PrependNone(Items(c, index, level, parent, was));
      }
    }

    lemma StillBegun(before: seq<Part>, n: Count, ps: seq<Part>)
      requires Recorded(before, n, ps) && n.parts > 0
      ensures Sized() && partsLength > 0 && Now() == Add(n, ps) && Now().slot0 == n.slot0
    {
      hide Doubles;
    }

    lemma Stopped(before: seq<Part>, n: Count, step: Result, out: Outcome)
      requires Follows(before, n, step, out) && out.Failed?
      ensures step.Err?
    {
    }

    lemma Went(before: seq<Part>, n: Count, step: Result, out: Outcome)
      requires Follows(before, n, step, out) && out.Done? && n.parts > 0
      ensures step.Ok? && out.index == step.index && Recorded(before, n, step.parts)
      ensures Sized() && partsLength > 0 && Now() == Add(n, step.parts) && Now().slot0 == n.slot0
    {
      hide Doubles;
    }

    /** The rest of a result, behind what was recorded before it. */
    lemma Joined(before: seq<Part>, n: Count, sofar: seq<Part>, was': seq<Part>, was: Count, rest: Result, out: Outcome)
      requires was' == before + sofar && was == Add(n, sofar) && was.parts >= n.parts && Follows(was', was, rest, out)
      ensures Follows(before, n, Prepend(sofar, rest), out)
    {
      hide Doubles, Add, Valid;
      if rest.Ok? { MoreRecorded(before, n, sofar, was', was, rest.parts); }
    }

    /** parseArg() */
    method ParseArg(index0: nat, level: nat) returns (out: Outcome)
      requires Valid() && index0 < |msg| && partsLength > 0 && (level == 0 ==> Now().slot0 == MsgStart)
      modifies this`a, this`partsLength, this`numericValuesLength, this`hasArgNames, this`hasArgNumbers,
               this`needsAutoQuoting
      ensures Follows(old(Parts()), old(Now()), Argument(old(Surroundings()), index0, level, old(Now())), out)
      decreases |msg| - index0, 0, 0
    {
      hide HasKind, Doubles, Valid, Add, Argument, ArgHead, Style, Recorded, WithHead, ArgStyleOf, CloseArgument;
      ghost var c, before, n := Surroundings(), Parts(), Now();
      ghost var h := ArgHead(c, index0 + 1);
      MessageReparse.ArgumentIs(c, index0, level, n);
      var argStart := partsLength;
      AddPart(ArgStart, index0, 1, 0);
      ghost var blank := NewPart(ArgStart, index0, 1, 0);
      StartRecorded(before, n, blank);
      var head := ParseArgHead(index0 + 1);
      if head.HeadFailed? { return Failed(head.error); }
      ghost var start := NewPart(ArgStart, index0, 1, Ordinal(h.argType));
      HeadRecorded(before, n, blank, h.argType, h.parts);
      ghost var n1 := Now();
      ghost var style := ArgStyleOf(c, h, level, n1);
      ArgStyleIs(c, h, level, n1);
      var index := head.end;
      if head.hasStyle {
        var parsed := ParseStyle(head.argType, index + 1, level);
        if parsed.Failed? {
          SetLimit(argStart);
          return parsed;
        }
        index := parsed.index;
      } else {
        NothingRecorded();
      }
      out := FinishArg(argStart, index, head.argType, before, n, start, h.parts, style);
    }

    lemma HeadRecorded(before: seq<Part>, n: Count, blank: Part, t: ArgType, head: seq<Part>)
      requires WithHead(before + [blank], Add(n, [blank]), t, head) && |before| == n.parts > 0
      ensures var start := blank.(value := Ordinal(t));
              Valid() && Parts() == before + [start] + head && Now() == Add(n, [start] + head)
      ensures Now().slot0 == n.slot0 && partsLength == n.parts + 1 + |head|
    {
      hide Doubles;
      var start := blank.(value := Ordinal(t));
      OneDouble(start);
      OneDouble(blank);
      AddAppend(n, [start], head);
    }

    /** The end of parseArg(): ARG_LIMIT. */
    method FinishArg(argStart: nat, index: nat, argType: ArgType,
                     ghost before: seq<Part>, ghost n: Count, ghost start: Part, ghost head: seq<Part>,
                       ghost style: Result)
      returns (out: Outcome)
      requires style.Ok? && style.index == index && argStart == |before| == n.parts
      requires start.kind == ArgStart && start.value == Ordinal(argType)
      requires Recorded(before + [start] + head, Add(n, [start] + head), style.parts)
      modifies this`a, this`partsLength
      ensures Follows(before, n, CloseArgument(start, head, style, n), out)
    {
      hide HasKind, Doubles, Valid;
      AddLimitPart(argStart, ArgLimit, index, 1, Ordinal(argType));
      ghost var limit := NewPart(ArgLimit, index, 1, Ordinal(argType));
      ghost var inner := head + style.parts;
      assert before + [start] + head + style.parts == before + [start] + inner;
      Closed(before, n, start, inner, limit);
      ghost var first := start.(limitPartIndex := n.parts + 1 + |inner|);
      assert [first] + inner + [limit] == [first] + head + style.parts + [limit];
      DoublesAppend([start], head);
      DoublesAppend(head, style.parts);
      OneDouble(start);
      return Done(index + 1);
    }

    /** The style of an argument, by its type. */
    method ParseStyle(argType: ArgType, index: nat, level: nat) returns (out: Outcome)
      requires Valid() && index <= |msg| && partsLength > 0 && (level == 0 ==> Now().slot0 == MsgStart)
      modifies this`a, this`partsLength, this`numericValuesLength, this`hasArgNames, this`hasArgNumbers,
               this`needsAutoQuoting
      ensures Follows(old(Parts()), old(Now()), Style(old(Surroundings()), argType, index, level, old(Now())), out)
      decreases |msg| - index, 6
    {
      hide HasKind, Doubles, Valid, SimpleStyle, ChoiceStyle, PluralStyle, Follows;
      if argType == NoArg || argType == SimpleArg {
        out := ParseSimpleStyle(index);
      } else if argType == ChoiceArg {
        out := ParseChoiceStyle(index, level);
      } else {
        out := ParsePluralOrSelectStyle(argType, index, level);
      }
    }

    /** parseChoiceStyle() */
    method ParseChoiceStyle(index0: nat, level: nat) returns (out: Outcome)
      requires Valid() && index0 <= |msg|
      modifies this`a, this`partsLength, this`numericValuesLength, this`hasArgNames, this`hasArgNumbers,
               this`needsAutoQuoting
      ensures Follows(old(Parts()), old(Now()), ChoiceStyle(old(Surroundings()), index0, level, old(Now())), out)
      decreases |msg| - index0, 5
    {
      hide HasKind, Doubles, Valid, Add, Alternatives, Alternative, RestOf, Recorded, Prepend, Skip, Follows;
      ghost var c, before, n, sofar := Surroundings(), Parts(), Now(), [];
      var index := SkipWhiteSpace(index0);
      NothingRecorded();
      if index == |msg| || msg[index] == RIGHT_BRACE {
        EndsBadly(before, n, [], PatternSyntax);
        PrependErr([], Err(PatternSyntax));
        return Failed(PatternSyntax);
      }
      ghost var goal := Alternatives(c, index, level, n);
      PrependNone(goal);
      while true
        invariant index0 <= index <= |msg| && c == Surroundings()
        invariant Recorded(before, n, sofar) && Valid()
        invariant goal == Prepend(sofar, Alternatives(c, index, level, Now()))
        decreases |msg| - index
      {
        RecordedIs(before, n, sofar);
        AlternativeIs(c, index, level, Now());
        ghost var was, was' := Now(), Parts();
        ghost var alternative := Alternative(c, index, level, was);
        var parsed := ParseAlternative(index, level);
        if parsed.Failed? {
          Fails(before, n, was', was, alternative, parsed, sofar);
          return parsed;
        }
        Goes(before, n, sofar, was', was, alternative, parsed);
        ghost var more := alternative.parts;
        index := parsed.index;
        RestCases(c, level, was, more, index);
        PrependAppend(sofar, more, RestOf(c, level, was, more, index));
        sofar := sofar + more;
        if index == |msg| {
          EndsHere(before, n, sofar, index);
          return Done(index);
        }
        if msg[index] == RIGHT_BRACE {
          if !(level > 0 || a[0].kind == MsgStart) {
            EndsBadly(before, n, sofar, PatternSyntax);
            return Failed(PatternSyntax);
          }
          EndsHere(before, n, sofar, index);
          return Done(index);
        }
        index := SkipWhiteSpace(index + 1);
      }
    }

    /** One turn of the loop of parseChoiceStyle(): a (number, separator, message) triple. */
    method ParseAlternative(index: nat, level: nat) returns (out: Outcome)
      requires Valid() && index <= |msg|
      modifies this`a, this`partsLength, this`numericValuesLength, this`hasArgNames, this`hasArgNumbers,
               this`needsAutoQuoting
      ensures Follows(old(Parts()), old(Now()), Alternative(old(Surroundings()), index, level, old(Now())), out)
      decreases |msg| - index, 4
    {
      hide HasKind, Doubles, Valid, Add, Message, ChoiceHead, Recorded, Prepend;
      ghost var c, before, n := Surroundings(), Parts(), Now();
      ghost var head := ChoiceHead(c, index, n.doubles);
      var number := ParseChoiceHead(index);
      if number.Failed? { return number; }
      RecordedIs(before, n, head.parts);
      ghost var mid, mid' := Now(), Parts();
      ghost var m := Message(c, head.index, 0, level + 1, ChoiceArg, mid);
      out := ParseMessage(number.index, 0, level + 1, ChoiceArg);
      if out.Failed? {
        PrependErr(head.parts, m);
      } else {
        MoreRecorded(before, n, head.parts, mid', mid, m.parts);
        PrependOk(head.parts, m);
      }
    }

    /** parsePluralOrSelectStyle() */
    method ParsePluralOrSelectStyle(argType: ArgType, index0: nat, level: nat) returns (out: Outcome)
      requires Valid() && index0 <= |msg|
      modifies this`a, this`partsLength, this`numericValuesLength, this`hasArgNames, this`hasArgNumbers,
               this`needsAutoQuoting
      ensures Follows(old(Parts()), old(Now()),
              PluralStyle(old(Surroundings()), argType, index0, level, old(Now()), true, false), out)
      decreases |msg| - index0, 5
    {
      hide HasKind, Doubles, Valid, Add, PluralStyle, Turn, IsOther, Recorded, Prepend, Skip, Follows;
      ghost var c, before, n, sofar := Surroundings(), Parts(), Now(), [];
      var index, isEmpty, hasOther := index0, true, false;
      ghost var goal := PluralStyle(c, argType, index, level, n, true, false);
      NothingRecorded();
      PrependNone(goal);
      while true
        invariant index0 <= index <= |msg| && c == Surroundings()
        invariant Recorded(before, n, sofar) && Valid()
        invariant goal == Prepend(sofar, PluralStyle(c, argType, index, level, Now(), isEmpty, hasOther))
        decreases |msg| - index
      {
        PluralStep(c, argType, index, level, Now(), isEmpty, hasOther);
        RecordedIs(before, n, sofar);
        index := SkipWhiteSpace(index);
        var eos := index == |msg|;
        if eos || msg[index] == RIGHT_BRACE {
          if eos == (level > 0 || a[0].kind == MsgStart) {
            EndsBadly(before, n, sofar, PatternSyntax);
            return Failed(PatternSyntax);
          }
          if !hasOther {
            EndsBadly(before, n, sofar, DefaultKeywordMissing);
            return Failed(DefaultKeywordMissing);
          }
          EndsHere(before, n, sofar, index);
          return Done(index);
        }
        ghost var was, was', turn := Now(), Parts(), Turn(c, argType, index, level, Now(), isEmpty);
        ghost var isOther := IsOther(c, argType, index, isEmpty, was);
        var parsed, other := ParseTurn(argType, index, level, isEmpty);
        if parsed.Failed? {
          Fails(before, n, was', was, turn, parsed, sofar);
          return parsed;
        }
        Goes(before, n, sofar, was', was, turn, parsed);
        index, isEmpty, hasOther := parsed.index, false, hasOther || other;
        PrependAppend(sofar, turn.parts, PluralStyle(c, argType, index, level, Now(), false, hasOther));
        sofar := sofar + turn.parts;
      }
    }

    /** One turn of the loop of parsePluralOrSelectStyle(): an offset, or a selector and its message. */
    method ParseTurn(argType: ArgType, index: nat, level: nat, isEmpty: bool) returns (out: Outcome, isOther: bool)
      requires Valid() && index < |msg|
      modifies this`a, this`partsLength, this`numericValuesLength, this`hasArgNames, this`hasArgNumbers,
               this`needsAutoQuoting
      ensures Follows(old(Parts()), old(Now()), Turn(old(Surroundings()), argType, index, level, old(Now()), isEmpty),
              out)
      ensures out.Done? ==> isOther == IsOther(old(Surroundings()), argType, index, isEmpty, old(Now()))
      decreases |msg| - index, 4
    {
      hide HasKind, Doubles, Valid, Add, Message, SelectorAt, Recorded, Prepend;
      ghost var c, before, n := Surroundings(), Parts(), Now();
      ghost var s := SelectorAt(c, argType, index, isEmpty, n.doubles);
      var selector := ParseSelector(argType, index, isEmpty);
      isOther := false;
      if selector.SelectorFailed? { return Failed(selector.error), isOther; }
      if selector.OffsetDone? { return Done(selector.index), isOther; }
      isOther := selector.isOther;
      RecordedIs(before, n, s.parts);
      ghost var mid, mid' := Now(), Parts();
      ghost var m := Message(c, s.index, 1, level + 1, argType, mid);
      out := ParseMessage(selector.index, 1, level + 1, argType);
      if out.Failed? {
        PrependErr(s.parts, m);
      } else {
        MoreRecorded(before, n, s.parts, mid', mid, m.parts);
        PrependOk(s.parts, m);
      }
    }

    /** A step that failed fails the whole. */
    lemma Fails(before: seq<Part>, n: Count, was': seq<Part>, was: Count, step: Result, out: Outcome, sofar: seq<Part>)
      requires Follows(was', was, step, out) && was.parts >= n.parts && out.Failed?
      ensures step.Err? && Follows(before, n, Prepend(sofar, step), out)
    {
    }

    lemma EndsHere(before: seq<Part>, n: Count, sofar: seq<Part>, index: nat)
      requires Recorded(before, n, sofar)
      ensures Follows(before, n, Prepend(sofar, Ok(index, [])), Done(index))
    {
      hide Valid, Doubles;
      assert sofar + [] == sofar;
    }

    lemma EndsBadly(before: seq<Part>, n: Count, sofar: seq<Part>, e: Error)
      requires Recorded(before, n, sofar)
      ensures Follows(before, n, Prepend(sofar, Err(e)), Failed(e))
    {
      hide Valid, Doubles;
    }

    /** A step that succeeded adds its parts. */
    lemma Goes(before: seq<Part>, n: Count, sofar: seq<Part>, was': seq<Part>, was: Count, step: Result, out: Outcome)
      requires was' == before + sofar && was == Add(n, sofar) && Follows(was', was, step, out) && out.Done?
      ensures step.Ok? && out.index == step.index && Recorded(before, n, sofar + step.parts) && Valid()
              && Now() == Add(was, step.parts)
      ensures Now().parts >= was.parts && (was.parts > 0 ==> Now().slot0 == was.slot0)
    {
      hide Doubles, Recorded, Add;
      MoreRecorded(before, n, sofar, was', was, step.parts);
    }

    lemma RecordedIs(before: seq<Part>, n: Count, ps: seq<Part>)
      requires Recorded(before, n, ps)
      ensures Valid() && Parts() == before + ps && Now() == Add(n, ps) && Now().parts >= n.parts
    {
    }

    /** The end of parseMessage(): MSG_LIMIT before the terminator or at the end of the text. */
    method FinishMessage(msgStart: nat, index: nat, level: nat, parent: ArgType,
                         ghost before: seq<Part>, ghost n: Count, ghost start: Part, ghost items: Result)
                           returns (out: Outcome)
      requires items.Ok? && items.index == index <= |msg| && level <= MAX_VALUE && msgStart == |before| == n.parts
      requires start.kind == MsgStart && Recorded(before + [start], Add(n, [start]), items.parts)
      requires index < |msg| ==> Ends(Surroundings(), index, level, parent)
      modifies this`a, this`partsLength
      ensures Follows(before, n, CloseMessage(old(Surroundings()), start, items, level, parent, Add(n, [start])), out)
    {
      hide HasKind, Doubles, Valid, Recorded, CloseMessage, Add;
      CloseIs(Surroundings(), start, items, level, parent, Add(n, [start]));
      Begun(before, n, start, items.parts);
      if index < |msg| {
        var limitLength := if parent == ChoiceArg && msg[index] == RIGHT_BRACE then 0 else 1;
        EndMessage(msgStart, index, limitLength, level, before, n, start, items.parts);
        return Done(if parent == ChoiceArg then index else index + 1);
      }
      if level > 0 && !(level == 1 && parent == ChoiceArg && a[0].kind != MsgStart) {
        return Failed(UnmatchedBraces);
      }
      EndMessage(msgStart, index, 0, level, before, n, start, items.parts);
      return Done(index);
    }

    lemma Begun(before: seq<Part>, n: Count, start: Part, inner: seq<Part>)
      requires Recorded(before + [start], Add(n, [start]), inner) && |before| == n.parts
      ensures Valid() && partsLength == n.parts + 1 + |inner| && a[0].kind == Add(n, [start]).slot0
      ensures Add(n, [start]).parts == n.parts + 1
    {
      hide Doubles;
    }

    /** Records MSG_LIMIT and the limit index of MSG_START. */
    method EndMessage(msgStart: nat, index: nat, limitLength: nat, level: nat,
                      ghost before: seq<Part>, ghost n: Count, ghost start: Part, ghost inner: seq<Part>)
      requires level <= MAX_VALUE && limitLength <= 1 && msgStart == |before| == n.parts && start.kind == MsgStart
      requires Recorded(before + [start], Add(n, [start]), inner)
      modifies this`a, this`partsLength
      ensures Valid() && partsLength >= old(partsLength)
      ensures Recorded(before, n, [start.(limitPartIndex := n.parts + 1 + |inner|)] + inner
                                  + [NewPart(MsgLimit, index, limitLength, level)])
    {
      hide HasKind, Doubles, Valid;
      OneDouble(start);
      AddLimitPart(msgStart, MsgLimit, index, limitLength, level);
      Closed(before, n, start, inner, NewPart(MsgLimit, index, limitLength, level));
    }

    lemma NothingRecorded()
      requires Valid()
      ensures Recorded(Parts(), Now(), [])
    {
      assert Parts() + [] == Parts();
      AddNone(Now());
    }

    lemma MoreRecorded(before: seq<Part>, n: Count, sofar: seq<Part>, was': seq<Part>, was: Count, more: seq<Part>)
      requires was' == before + sofar && was == Add(n, sofar) && Recorded(was', was, more)
      ensures Recorded(before, n, sofar + more) && Valid() && Now() == Add(was, more)
      ensures Now().parts >= was.parts && (was.parts > 0 ==> Now().slot0 == was.slot0)
    {
      hide Doubles;
      AddAppend(n, sofar, more);
      assert before + sofar + more == before + (sofar + more);
    }

    // ---------- the public entry points ----------

    /** The state after a parse of the whole of msg; slot0 is what an earlier parse left in the first slot. */
    ghost predicate Parsed(entry: Entry, slot0: PartType, out: Outcome)
      reads this
    {
      && Valid()
      && var r := MessageSpec.Parse(Surroundings(), entry, slot0);
         && (r.Err? ==> out == Failed(r.error))
         && (r.Ok? ==> out == Done(|msg|) && Parts() == r.parts
                       && Placed(Parts(), 0, |msg|, |msg|) && Nested(Parts(), 0) && EntryShape(Parts(), entry))
    }

    /** preParse() */
    method PreParse(pattern: seq<Unit>)
      requires Sized()
      modifies this
      ensures Valid() && Parts() == [] && msg == pattern && aposMode == old(aposMode) && a == old(a)
      ensures Now() == Count(0, 0, old(a[0].kind))
    {
      msg := pattern;
      hasArgNames, hasArgNumbers, needsAutoQuoting := false, false, false;
      partsLength, numericValuesLength := 0, 0;
    }

    lemma ParseDone(entry: Entry, slot0: PartType, out: Outcome)
      requires Follows([], Count(0, 0, slot0), MessageSpec.Parse(Surroundings(), entry, slot0), out)
      ensures Parsed(entry, slot0, out)
    {
      hide MessageSpec.Parse, Valid, Placed, Nested, EntryShape, Doubles;
      ParseCoversText(Surroundings(), entry, slot0);
      ParsePlaced(Surroundings(), entry, slot0);
      ParseNested(Surroundings(), entry, slot0);
      ParseHasShape(Surroundings(), entry, slot0);
      var r := MessageSpec.Parse(Surroundings(), entry, slot0);
      if r.Ok? { assert [] + r.parts == r.parts; }
    }

    method Parse(pattern: seq<Unit>) returns (out: Outcome)
      requires Sized()
      modifies this
      ensures msg == pattern && aposMode == old(aposMode) && Parsed(WholeMessage, old(a[0].kind), out)
    {
      hide Message, Follows, Valid, Parsed;
      PreParse(pattern);
      out := ParseMessage(0, 0, 0, NoArg);
      ParseDone(WholeMessage, old(a[0].kind), out);
    }

    method ParseChoice(pattern: seq<Unit>) returns (out: Outcome)
      requires Sized()
      modifies this
      ensures msg == pattern && aposMode == old(aposMode) && Parsed(TopChoice, old(a[0].kind), out)
    {
      hide ChoiceStyle, Follows, Valid, Parsed;
      PreParse(pattern);
      out := ParseChoiceStyle(0, 0);
      ParseDone(TopChoice, old(a[0].kind), out);
    }

    method ParsePlural(pattern: seq<Unit>) returns (out: Outcome)
      requires Sized()
      modifies this
      ensures msg == pattern && aposMode == old(aposMode) && Parsed(TopPlural, old(a[0].kind), out)
    {
      hide PluralStyle, Follows, Valid, Parsed;
      PreParse(pattern);
      out := ParsePluralOrSelectStyle(PluralArg, 0, 0);
      ParseDone(TopPlural, old(a[0].kind), out);
    }

    method ParseSelect(pattern: seq<Unit>) returns (out: Outcome)
      requires Sized()
      modifies this
      ensures msg == pattern && aposMode == old(aposMode) && Parsed(TopSelect, old(a[0].kind), out)
    {
      hide PluralStyle, Follows, Valid, Parsed;
      PreParse(pattern);
      out := ParsePluralOrSelectStyle(SelectArg, 0, 0);
      ParseDone(TopSelect, old(a[0].kind), out);
    }

    /** autoQuoteApostropheDeep() */
    method AutoQuoteApostropheDeep() returns (modified: seq<Unit>)
      requires Valid()
      ensures modified == InsertAll(msg, Parts())
    {
      hide InsertAll, Doubles;
      if !needsAutoQuoting {
        NothingToInsert(msg, Parts());
        return msg;
      }
      modified := msg;
      var i := partsLength;
      assert Parts()[..i] == Parts();
      while i > 0
        invariant 0 <= i <= partsLength
        invariant InsertAll(modified, Parts()[..i]) == InsertAll(msg, Parts())
      {
        InsertAllStep(modified, Parts(), i);
        i := i - 1;
        if a[i].kind == InsertChar { modified := Inserted(modified, a[i].index, a[i].value); }
      }
      NothingToInsert(modified, Parts()[..0]);
    }
  }

  lemma StyleEndNone(c: Context, i: nat, nested: nat)
    requires i == |c.msg|
    ensures StyleEnd(c, i, nested) == Err(UnmatchedBraces)
  {
  }

  /** An argument without a type keeps the type NONE that its ARG_START was given. */
  lemma NameOne(c: Context, i: nat, end: nat)
    requires i <= end <= |c.msg|
    ensures var r := NamePart(c, i, end); r.Ok? ==> |r.parts| == 1
  {
  }

  lemma PrependErr(ps: seq<Part>, r: Result)
    requires r.Err?
    ensures Prepend(ps, r) == r
  {
  }

  /** A start part, what it contains and its limit part, with the limit index in place. */
  lemma Closed(before: seq<Part>, n: Count, start: Part, inner: seq<Part>, limit: Part)
    requires |before| == n.parts && limit.kind != ArgDouble && start.kind != ArgDouble
    ensures var first := start.(limitPartIndex := n.parts + 1 + |inner|);
            var all := before + [start] + inner;
            && all[n.parts := all[n.parts].(limitPartIndex := |all|)] + [limit] == before + ([first] + inner + [limit])
            && Add(n, [first] + inner + [limit])
               == Count(n.parts + |inner| + 2, n.doubles + Doubles(inner), if n.parts == 0 then start.kind else n.slot0)
  {
    hide Doubles;
    var first := start.(limitPartIndex := n.parts + 1 + |inner|);
    DoublesAppend([first], inner);
    DoublesAppend([first] + inner, [limit]);
    OneDouble(first);
    OneDouble(limit);
  }

  lemma PrependOk(ps: seq<Part>, r: Result)
    requires r.Ok?
    ensures Prepend(ps, r) == Ok(r.index, ps + r.parts)
  {
  }

  /** One alternative of a choice style: number, separator and message. */
  function Alternative(c: Context, i: nat, level: nat, n: Count): (r: Result)
    requires i <= |c.msg|
    ensures r.Ok? ==> i < r.index <= |c.msg|
  {
    var head := ChoiceHead(c, i, n.doubles);
    if head.Err? then head
    else Prepend(head.parts, Message(c, head.index, 0, level + 1, ChoiceArg, Add(n, head.parts)))
  }

  lemma AlternativeIs(c: Context, i: nat, level: nat, n: Count)
    requires i <= |c.msg|
    ensures var alt := Alternative(c, i, level, n);
            Alternatives(c, i, level, n)
            == if alt.Err? then alt else Prepend(alt.parts, RestOf(c, level, n, alt.parts, alt.index))
  {
    hide Skip, ChoiceHead, Message, Doubles, RestOf, AfterAlternative, Alternatives;
    var head := ChoiceHead(c, i, n.doubles);
    if head.Err? {
      AlternativeFails(c, i, level, n);
    } else {
      var m := Message(c, head.index, 0, level + 1, ChoiceArg, Add(n, head.parts));
      if m.Err? {
        AlternativeFails(c, i, level, n);
      } else {
        AlternativesIs(c, i, level, n, head, m);
        RestIs(c, level, n, head.parts + m.parts, m.index);
      }
    }
  }

  lemma AlternativeFails(c: Context, i: nat, level: nat, n: Count)
    requires i <= |c.msg|
    ensures var head := ChoiceHead(c, i, n.doubles);
            && (head.Err? ==> Alternatives(c, i, level, n) == head)
            && (head.Ok? ==>
                  var m := Message(c, head.index, 0, level + 1, ChoiceArg, Add(n, head.parts));
                  m.Err? ==> Alternatives(c, i, level, n) == m)
  {
    hide Skip, ChoiceHead, Message, Doubles;
  }

  lemma RestCases(c: Context, level: nat, n: Count, ps: seq<Part>, j: nat)
    requires j <= |c.msg|
    ensures j == |c.msg| ==> RestOf(c, level, n, ps, j) == Ok(j, [])
    ensures j < |c.msg| && c.msg[j] == RIGHT_BRACE ==>
              RestOf(c, level, n, ps, j) == if !InMessageFormat(level, Add(n, ps)) then Err(PatternSyntax)
                else Ok(j, [])
    ensures j < |c.msg| && c.msg[j] != RIGHT_BRACE ==>
              RestOf(c, level, n, ps, j) == Alternatives(c, Skip(IsWhiteSpace, c.msg, j + 1), level, Add(n, ps))
  {
    hide Alternatives, Skip, Doubles;
  }

  lemma InsertAllStep(text: seq<Unit>, ps: seq<Part>, i: int)
    requires 0 < i <= |ps|
    ensures var p := ps[i - 1];
            InsertAll(text, ps[..i]) == InsertAll(if p.kind == InsertChar then Inserted(text, p.index, p.value)
              else text, ps[..i - 1])
  {
    assert ps[..i][..i - 1] == ps[..i - 1];
  }

  lemma NoDigits()
    ensures Decimal([]) == 0
  {
  }

  lemma OneDouble(p: Part)
    ensures Doubles([p]) == if p.kind == ArgDouble then 1 else 0
  {
  }
}
