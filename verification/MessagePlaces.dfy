/**
  Where the parts of a successful parse lie: inside the pattern, in order, and within the ranges
  of the fields that hold them.
 */
module MessagePlaces {
  import opened MessageModel
  import opened MessageSpec

  /** addPart() narrows length to uint16_t and value to int16_t; these parts lose nothing by that. */
  predicate Fits(p: Part) {
    0 <= p.length <= 0xffff && -0x8000 <= p.value <= 0x7fff
  }

  /** Parts whose text the parser has passed when it adds the next part. */
  predicate IsSolid(p: Part) {
    p.kind == MsgStart || p.kind == SkipSyntax || p.kind == ReplaceNumber || p.kind == ArgLimit
  }

  /** p was added while the parser moved from lo to hi in a text of the given length. */
  predicate InPlace(p: Part, lo: int, hi: int, textLength: int) {
    && lo <= p.index <= hi && p.index + p.length <= textLength && Fits(p)
    && (IsSolid(p) ==> p.index + p.length <= hi)
    && (p.kind == InsertChar ==> lo < p.index && p.length == 0 && p.value == APOS && p.limitPartIndex == 0)
  }

  ghost predicate Placed(ps: seq<Part>, lo: int, hi: int, textLength: int) {
    && lo <= hi
    && (forall k :: 0 <= k < |ps| ==> InPlace(ps[k], lo, hi, textLength))
    && (forall k, m :: 0 <= k < m < |ps| ==>
          && ps[k].index <= ps[m].index && (ps[m].kind == InsertChar ==> ps[k].index < ps[m].index)
          && (IsSolid(ps[k]) ==> ps[k].index + ps[k].length <= ps[m].index))
  }

  lemma PlacedAppend(a: seq<Part>, b: seq<Part>, lo: int, mid: int, hi: int, n: int)
    requires Placed(a, lo, mid, n) && Placed(b, mid, hi, n)
    ensures Placed(a + b, lo, hi, n)
  {
  }

  lemma PlacedCons(p: Part, b: seq<Part>, lo: int, hi: int, n: int)
    requires InPlace(p, lo, hi, n) && Placed(b, lo, hi, n) && p.kind != InsertChar
    requires forall m :: 0 <= m < |b| ==> p.index < b[m].index && p.index + p.length <= b[m].index
    ensures Placed([p] + b, lo, hi, n)
  {
  }

  lemma PlacedWiden(a: seq<Part>, lo: int, hi: int, lo': int, hi': int, n: int)
    requires Placed(a, lo, hi, n) && lo' <= lo && hi <= hi'
    ensures Placed(a, lo', hi', n)
  {
  }

  lemma PlacedOne(p: Part, lo: int, hi: int, n: int)
    requires InPlace(p, lo, hi, n) && lo <= hi
    ensures Placed([p], lo, hi, n)
  {
  }

  lemma PlacedNone(lo: int, hi: int, n: int)
    requires lo <= hi
    ensures Placed([], lo, hi, n)
  {
  }

  ghost predicate ResultPlaced(r: Result, lo: int, c: Context) {
    r.Ok? ==> Placed(r.parts, lo, r.index, |c.msg|)
  }

  // ---------- scanners ----------

  lemma {:induction false} QuotedPlaced(c: Context, k: nat)
    requires k <= |c.msg|
    requires k > 0
    ensures Placed(QuotedText(c, k).1, k - 1, QuotedText(c, k).0, |c.msg|)
    ensures forall m :: 0 <= m < |QuotedText(c, k).1| ==> QuotedText(c, k).1[m].index >= k
    decreases |c.msg| - k
  {
    hide Skip, QuotedText, Placed;
    var q := Skip(NotApostrophe, c.msg, k);
    QuotedStep(c, k, q);
    if q == |c.msg| {
      PlacedOne(InsertPart(q), k - 1, q, |c.msg|);
    } else if q + 1 < |c.msg| && c.msg[q + 1] == APOS {
      QuotedPlaced(c, q + 2);
      var rest := QuotedText(c, q + 2);
      PlacedWiden(rest.1, q + 1, rest.0, k - 1, rest.0, |c.msg|);
      PlacedCons(SkipPart(q + 1), rest.1, k - 1, rest.0, |c.msg|);
    } else {
      PlacedOne(SkipPart(q), k - 1, q + 1, |c.msg|);
    }
  }

  lemma ApostrophePlaced(c: Context, i: nat, parent: ArgType)
    requires i < |c.msg|
    ensures Placed(Apostrophe(c, i, parent).1, i, Apostrophe(c, i, parent).0, |c.msg|)
  {
    if i + 1 < |c.msg| && c.msg[i + 1] != APOS && StartsQuote(c, parent, c.msg[i + 1]) {
      QuotedPlaced(c, i + 2);
      PlacedOne(SkipPart(i), i, i + 1, |c.msg|);
      PlacedAppend([SkipPart(i)], QuotedText(c, i + 2).1, i, i + 1, QuotedText(c, i + 2).0, |c.msg|);
    }
  }

  lemma NumberPlaced(c: Context, start: nat, limit: nat, allowInfinity: bool, doubles: nat)
    requires start < limit <= |c.msg| && limit - start <= MAX_LENGTH
    ensures ResultPlaced(Number(c, start, limit, allowInfinity, doubles), start, c)
    ensures var r := Number(c, start, limit, allowInfinity, doubles); r.Ok? ==> r.index == limit && |r.parts| == 1
  {
  }

  lemma NamePlaced(c: Context, i: nat, end: nat)
    requires i <= end <= |c.msg|
    ensures var r := NamePart(c, i, end); ResultPlaced(r, i, c) && (r.Ok? ==> r.index == end)
  {
  }

  lemma ArgHeadPlaced(c: Context, i: nat)
    requires i <= |c.msg|
    ensures var h := ArgHead(c, i); h.HeadOk? ==> Placed(h.parts, i, h.end, |c.msg|)
  {
    hide Skip, NamePart, TypeHead, Placed;
    var nameIndex := Skip(IsWhiteSpace, c.msg, i);
    if nameIndex < |c.msg| {
      var nameEnd := Skip(IsIdentifierUnit, c.msg, nameIndex);
      NamePlaced(c, nameIndex, nameEnd);
      var name := NamePart(c, nameIndex, nameEnd);
      if name.Ok? {
        var k := Skip(IsWhiteSpace, c.msg, nameEnd);
        PlacedWiden(name.parts, nameIndex, nameEnd, i, k, |c.msg|);
        if k < |c.msg| && c.msg[k] == COMMA {
          PlacedWiden(name.parts, i, k, i, k + 1, |c.msg|);
          TypeHeadPlaced(c, k + 1, name.parts, i);
        }
      }
    }
  }

  lemma TypeHeadPlaced(c: Context, i: nat, name: seq<Part>, lo: nat)
    requires i <= |c.msg| && lo <= i && Placed(name, lo, i, |c.msg|)
    ensures var h := TypeHead(c, i, name); h.HeadOk? ==> Placed(h.parts, lo, h.end, |c.msg|)
  {
    hide Skip, TypeNamed, Placed;
    var h := TypeHead(c, i, name);
    if h.HeadOk? {
      var typeIndex := Skip(IsWhiteSpace, c.msg, i);
      var typeEnd := Skip(IsArgTypeUnit, c.msg, typeIndex);
      var p := NewPart(ArgTypeName, typeIndex, typeEnd - typeIndex, 0);
      PlacedOne(p, i, h.end, |c.msg|);
      PlacedAppend(name, [p], lo, i, h.end, |c.msg|);
      PlacedWiden(name, lo, i, lo, h.end, |c.msg|);
      assert name + [] == name;
    }
  }

  lemma ChoiceHeadPlaced(c: Context, i: nat, doubles: nat)
    requires i <= |c.msg|
    ensures ResultPlaced(ChoiceHead(c, i, doubles), i, c)
  {
    hide Skip, Number, Placed;
    var r := ChoiceHead(c, i, doubles);
    if r.Ok? {
      var end := Skip(IsDoubleUnit, c.msg, i);
      NumberPlaced(c, i, end, true, doubles);
      var p := NewPart(ArgSelector, r.index - 1, 1, 0);
      PlacedOne(p, end, r.index, |c.msg|);
      PlacedAppend(Number(c, i, end, true, doubles).parts, [p], i, end, r.index, |c.msg|);
    }
  }

  lemma SelectorPlaced(c: Context, argType: ArgType, i: nat, isEmpty: bool, doubles: nat)
    requires i < |c.msg|
    ensures var s := SelectorAt(c, argType, i, isEmpty, doubles); !s.SelectorErr? ==>
            Placed(s.parts, i, s.index, |c.msg|)
  {
    hide ExplicitSelector, WordSelector, Placed;
    if HasPluralStyle(argType) && c.msg[i] == EQUAL {
      ExplicitPlaced(c, i, doubles);
    } else {
      WordPlaced(c, argType, i, isEmpty, doubles);
    }
  }

  lemma ExplicitPlaced(c: Context, i: nat, doubles: nat)
    requires i < |c.msg|
    ensures var s := ExplicitSelector(c, i, doubles); s.Keyword? ==> Placed(s.parts, i, s.index, |c.msg|)
  {
    hide Skip, Number, Placed;
    var s := ExplicitSelector(c, i, doubles);
    if s.Keyword? {
      var end := Skip(IsDoubleUnit, c.msg, i + 1);
      NumberPlaced(c, i + 1, end, false, doubles);
      var number := Number(c, i + 1, end, false, doubles);
      var p := NewPart(ArgSelector, i, end - i, 0);
      PlacedOne(p, i, i + 1, |c.msg|);
      PlacedAppend([p], number.parts, i, i + 1, end, |c.msg|);
      PlacedWiden([p] + number.parts, i, end, i, s.index, |c.msg|);
    }
  }

  lemma OffsetPlaced(c: Context, i: nat, doubles: nat)
    requires i <= |c.msg|
    ensures var s := OffsetValue(c, i, doubles); s.Offset? ==> Placed(s.parts, i, s.index, |c.msg|)
  {
    hide Skip, Number, Placed;
    var s := OffsetValue(c, i, doubles);
    if s.Offset? {
      var valueIndex := Skip(IsWhiteSpace, c.msg, i);
      NumberPlaced(c, valueIndex, s.index, false, doubles);
      PlacedWiden(s.parts, valueIndex, s.index, i, s.index, |c.msg|);
    }
  }

  lemma WordPlaced(c: Context, argType: ArgType, i: nat, isEmpty: bool, doubles: nat)
    requires i < |c.msg|
    ensures var s := WordSelector(c, argType, i, isEmpty, doubles); !s.SelectorErr? ==>
            Placed(s.parts, i, s.index, |c.msg|)
  {
    hide Skip, IsOffsetWord, OffsetValue, Placed;
    var s := WordSelector(c, argType, i, isEmpty, doubles);
    var end := Skip(IsIdentifierUnit, c.msg, i);
    if s.Offset? {
      OffsetPlaced(c, end + 1, doubles);
      PlacedWiden(s.parts, end + 1, s.index, i, s.index, |c.msg|);
    } else if s.Keyword? {
      PlacedOne(NewPart(ArgSelector, i, end - i, 0), i, s.index, |c.msg|);
    }
  }

  // ---------- the recursive part ----------

  /** A message is its MSG_START, its items and its MSG_LIMIT. */
  lemma MessageParts(c: Context, i: nat, startLength: nat, level: nat, parent: ArgType, n: Count)
    requires i + startLength <= |c.msg| && startLength <= 1 && (level == 0 ==> n.parts == 0)
    ensures var r := Message(c, i, startLength, level, parent, n);
            r.Ok? ==>
              var items := Items(c, i + startLength, level, parent, Add(n, [NewPart(MsgStart, i, startLength, level)]));
              && items.Ok? && level <= MAX_VALUE && |r.parts| >= 2
              && var first, last := r.parts[0], r.parts[|r.parts| - 1];
                 && r.parts == [first] + items.parts + [last]
                 && first == NewPart(MsgStart, i, startLength, level).(limitPartIndex := first.limitPartIndex)
                 && last == NewPart(MsgLimit, items.index, last.length, level) && 0 <= last.length <= 1
                 && items.index + last.length <= |c.msg| && items.index <= r.index <= |c.msg|
                 && (items.index == r.index || r.index == items.index + 1)
  {
    hide Items, Doubles;
  }

  lemma {:induction false} MessagePlaced(c: Context, i: nat, startLength: nat, level: nat, parent: ArgType, n: Count)
    requires i + startLength <= |c.msg| && startLength <= 1 && (level == 0 ==> n.parts == 0)
    ensures ResultPlaced(Message(c, i, startLength, level, parent, n), i, c)
    decreases |c.msg| - i, 2
  {
    hide Items, Doubles, Placed, Message;
    var r := Message(c, i, startLength, level, parent, n);
    MessageParts(c, i, startLength, level, parent, n);
    if r.Ok? {
      var n1 := Add(n, [NewPart(MsgStart, i, startLength, level)]);
      var items := Items(c, i + startLength, level, parent, n1);
      var start, limit := r.parts[0], r.parts[|r.parts| - 1];
      ItemsPlaced(c, i + startLength, level, parent, n1);
      PlacedOne(start, i, i + startLength, |c.msg|);
      PlacedAppend([start], items.parts, i, i + startLength, items.index, |c.msg|);
      PlacedOne(limit, items.index, r.index, |c.msg|);
      PlacedAppend([start] + items.parts, [limit], i, items.index, r.index, |c.msg|);
    }
  }

  lemma {:induction false} ItemsPlaced(c: Context, i: nat, level: nat, parent: ArgType, n: Count)
    requires i <= |c.msg| && n.parts > 0 && (level == 0 ==> n.slot0 == MsgStart)
    ensures ResultPlaced(Items(c, i, level, parent, n), i, c)
    decreases |c.msg| - i, 1
  {
    hide Argument, Apostrophe, Doubles, Placed, Items, Prepend;
    var r := Items(c, i, level, parent, n);
    PlacedNone(i, i, |c.msg|);
    if i == |c.msg| {
      ItemsEnd(c, i, level, parent, n);
      return;
    }
    ItemsStep(c, i, level, parent, n);
    if r.Err? {
    } else if c.msg[i] == APOS {
      var q := Apostrophe(c, i, parent);
      ApostrophePlaced(c, i, parent);
      ItemsPlaced(c, q.0, level, parent, Add(n, q.1));
      PrependPlaced(c, q.1, Items(c, q.0, level, parent, Add(n, q.1)), i, q.0);
    } else if HasPluralStyle(parent) && c.msg[i] == POUND {
      var p := NewPart(ReplaceNumber, i, 1, 0);
      ItemsPlaced(c, i + 1, level, parent, Add(n, [p]));
      PlacedOne(p, i, i + 1, |c.msg|);
      PrependPlaced(c, [p], Items(c, i + 1, level, parent, Add(n, [p])), i, i + 1);
    } else if c.msg[i] == LEFT_BRACE {
      var arg := Argument(c, i, level, n);
      ArgumentPlaced(c, i, level, n);
      ItemsPlaced(c, arg.index, level, parent, Add(n, arg.parts));
      PrependPlaced(c, arg.parts, Items(c, arg.index, level, parent, Add(n, arg.parts)), i, arg.index);
    } else if !Ends(c, i, level, parent) {
      ItemsPlaced(c, i + 1, level, parent, n);
      PlacedWiden(r.parts, i + 1, r.index, i, r.index, |c.msg|);
    }
  }

  lemma PrependPlaced(c: Context, ps: seq<Part>, rest: Result, lo: int, mid: int)
    requires Placed(ps, lo, mid, |c.msg|) && ResultPlaced(rest, mid, c)
    ensures ResultPlaced(Prepend(ps, rest), lo, c)
  {
    hide Placed;
    if rest.Ok? { PlacedAppend(ps, rest.parts, lo, mid, rest.index, |c.msg|); }
  }

  lemma {:induction false} ArgumentPlaced(c: Context, i: nat, level: nat, n: Count)
    requires i < |c.msg| && n.parts > 0 && (level == 0 ==> n.slot0 == MsgStart)
    ensures ResultPlaced(Argument(c, i, level, n), i, c)
    decreases |c.msg| - i, 0
  {
    hide ArgHead, Style, Doubles, Placed;
    var r := Argument(c, i, level, n);
    if r.Ok? {
      var head := ArgHead(c, i + 1);
      ArgHeadPlaced(c, i + 1);
      var start := NewPart(ArgStart, i, 1, Ordinal(head.argType));
      var n1 := Add(n, [start] + head.parts);
      var style := if !head.hasStyle then Ok(head.end, []) else Style(c, head.argType, head.end + 1, level, n1);
      PlacedNone(head.end, head.end, |c.msg|);
      if head.hasStyle { StylePlaced(c, head.argType, head.end + 1, level, n1); }
      PlacedWiden(style.parts, if head.hasStyle then head.end + 1
        else head.end, style.index, head.end, style.index, |c.msg|);
      var first, last := r.parts[0], r.parts[|r.parts| - 1];
      PlacedOne(first, i, i + 1, |c.msg|);
      PlacedAppend([first], head.parts, i, i + 1, head.end, |c.msg|);
      PlacedAppend([first] + head.parts, style.parts, i, head.end, style.index, |c.msg|);
      PlacedOne(last, style.index, r.index, |c.msg|);
      PlacedAppend([first] + head.parts + style.parts, [last], i, style.index, r.index, |c.msg|);
      assert r.parts == [first] + head.parts + style.parts + [last];
    }
  }

  lemma {:induction false} StylePlaced(c: Context, argType: ArgType, i: nat, level: nat, n: Count)
    requires i <= |c.msg| && n.parts > 0 && (level == 0 ==> n.slot0 == MsgStart)
    ensures ResultPlaced(Style(c, argType, i, level, n), i, c)
    decreases |c.msg| - i, 5
  {
    match argType
    case NoArg =>
    case SimpleArg =>
    case ChoiceArg => ChoiceStylePlaced(c, i, level, n);
    case _ => PluralStylePlaced(c, argType, i, level, n, true, false);
  }

  lemma {:induction false} ChoiceStylePlaced(c: Context, i: nat, level: nat, n: Count)
    requires i <= |c.msg|
    ensures ResultPlaced(ChoiceStyle(c, i, level, n), i, c)
    decreases |c.msg| - i, 4
  {
    hide Alternatives, Skip, Placed;
    var r := ChoiceStyle(c, i, level, n);
    var k := Skip(IsWhiteSpace, c.msg, i);
    if r.Ok? {
      AlternativesPlaced(c, k, level, n);
      PlacedWiden(r.parts, k, r.index, i, r.index, |c.msg|);
    }
  }

  lemma {:induction false} AlternativesPlaced(c: Context, i: nat, level: nat, n: Count)
    requires i <= |c.msg|
    ensures ResultPlaced(Alternatives(c, i, level, n), i, c)
    decreases |c.msg| - i, 3
  {
    hide ChoiceHead, Message, Skip, Doubles, Placed;
    var r := Alternatives(c, i, level, n);
    if r.Ok? {
      var head := ChoiceHead(c, i, n.doubles);
      ChoiceHeadPlaced(c, i, n.doubles);
      var message := Message(c, head.index, 0, level + 1, ChoiceArg, Add(n, head.parts));
      MessagePlaced(c, head.index, 0, level + 1, ChoiceArg, Add(n, head.parts));
      var ps := head.parts + message.parts;
      PlacedAppend(head.parts, message.parts, i, head.index, message.index, |c.msg|);
      if message.index < |c.msg| && c.msg[message.index] != RIGHT_BRACE {
        var k := Skip(IsWhiteSpace, c.msg, message.index + 1);
        AlternativesPlaced(c, k, level, Add(n, ps));
        var rest := Alternatives(c, k, level, Add(n, ps));
        PlacedWiden(rest.parts, k, r.index, message.index, r.index, |c.msg|);
        PlacedAppend(ps, rest.parts, i, message.index, r.index, |c.msg|);
      }
    }
  }

  /** A plural or select style is its first turn, and the others. */
  lemma PluralParts(c: Context, argType: ArgType, i: nat, level: nat, n: Count, isEmpty: bool, hasOther: bool)
    requires i <= |c.msg| && PluralStyle(c, argType, i, level, n, isEmpty, hasOther).Ok?
    ensures var r := PluralStyle(c, argType, i, level, n, isEmpty, hasOther);
            var k := Skip(IsWhiteSpace, c.msg, i);
            if k < |c.msg| && c.msg[k] != RIGHT_BRACE then
              var turn := Turn(c, argType, k, level, n, isEmpty);
              && turn.Ok?
              && var rest := PluralStyle(c, argType, turn.index, level, Add(n, turn.parts), false, hasOther
                || IsOther(c, argType, k, isEmpty, n));
                 rest.Ok? && r.parts == turn.parts + rest.parts && r.index == rest.index
            else r.index == k && r.parts == []
  {
    hide Turn, IsOther, Skip, Doubles;
  }

  lemma {:induction false} PluralStylePlaced(c: Context, argType: ArgType, i: nat, level: nat, n: Count,
                                             isEmpty: bool, hasOther: bool)
    requires i <= |c.msg|
    ensures ResultPlaced(PluralStyle(c, argType, i, level, n, isEmpty, hasOther), i, c)
    decreases |c.msg| - i, 4
  {
    hide Turn, IsOther, Skip, Doubles, Placed, PluralStyle;
    var r := PluralStyle(c, argType, i, level, n, isEmpty, hasOther);
    var k := Skip(IsWhiteSpace, c.msg, i);
    PlacedNone(i, k, |c.msg|);
    if r.Ok? { PluralParts(c, argType, i, level, n, isEmpty, hasOther); }
    if r.Ok? && k < |c.msg| && c.msg[k] != RIGHT_BRACE {
      var turn := Turn(c, argType, k, level, n, isEmpty);
      var other := hasOther || IsOther(c, argType, k, isEmpty, n);
      TurnPlaced(c, argType, k, level, n, isEmpty);
      PluralStylePlaced(c, argType, turn.index, level, Add(n, turn.parts), false, other);
      var rest := PluralStyle(c, argType, turn.index, level, Add(n, turn.parts), false, other);
      PlacedWiden(turn.parts, k, turn.index, i, turn.index, |c.msg|);
      PlacedAppend(turn.parts, rest.parts, i, turn.index, r.index, |c.msg|);
    }
  }

  lemma {:induction false} TurnPlaced(c: Context, argType: ArgType, i: nat, level: nat, n: Count, isEmpty: bool)
    requires i < |c.msg|
    ensures ResultPlaced(Turn(c, argType, i, level, n, isEmpty), i, c)
    decreases |c.msg| - i, 3
  {
    hide SelectorAt, Message, Doubles, Placed;
    var r := Turn(c, argType, i, level, n, isEmpty);
    SelectorPlaced(c, argType, i, isEmpty, n.doubles);
    match SelectorAt(c, argType, i, isEmpty, n.doubles)
    case SelectorErr(_) =>
    case Offset(_, _) =>
    case Keyword(j, ps, _) =>
      MessagePlaced(c, j, 1, level + 1, argType, Add(n, ps));
      if r.Ok? {
        PlacedAppend(ps, Message(c, j, 1, level + 1, argType, Add(n, ps)).parts, i, j, r.index, |c.msg|);
      }
  }

  /** Every part of a successful parse lies in the pattern, in order, and loses nothing when it is stored. */
  lemma ParsePlaced(c: Context, entry: Entry, slot0: PartType)
    ensures ResultPlaced(Parse(c, entry, slot0), 0, c)
  {
    var n := Count(0, 0, slot0);
    match entry
    case WholeMessage => MessagePlaced(c, 0, 0, 0, NoArg, n);
    case TopChoice => ChoiceStylePlaced(c, 0, 0, n);
    case TopPlural => PluralStylePlaced(c, PluralArg, 0, 0, n, true, false);
    case TopSelect => PluralStylePlaced(c, SelectArg, 0, 0, n, true, false);
  }
}
