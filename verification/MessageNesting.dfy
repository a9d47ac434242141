/**
  The grammar of the parts list documented in source/common/unicode/messagepattern.h, and the proof that every
  successful parse produces a list of that grammar with properly nested and matching limit indexes.
 */
module MessageNesting {
  import opened Basics
  import opened MessageModel
  import opened MessageSpec

  // ---------- the documented grammar ----------
  // In all these predicates base is the index of ps[0] in the whole parts list.

  predicate IsNumber(p: Part) { p.kind == ArgInt || p.kind == ArgDouble }

  predicate IsLeaf(p: Part, parent: ArgType) {
    p.kind == SkipSyntax || p.kind == InsertChar || (p.kind == ReplaceNumber && HasPluralStyle(parent))
  }

  /** The start part's limit index, counted from ps[0]. */
  function LimitOf(p: Part, base: int): int { p.limitPartIndex - base }

  /** message = MSG_START items MSG_LIMIT */
  ghost predicate MessageShape(ps: seq<Part>, base: int, level: int, parent: ArgType)
    decreases |ps|, 2
  {
    && |ps| >= 2
    && ps[0].kind == MsgStart && ps[0].value == level && LimitOf(ps[0], base) == |ps| - 1
    && ps[|ps| - 1].kind == MsgLimit && ps[|ps| - 1].value == level
    && ItemsShape(ps[1..|ps| - 1], base + 1, level, parent)
  }

  /** Any number of leaves and whole arguments. */
  ghost predicate ItemsShape(ps: seq<Part>, base: int, level: int, parent: ArgType)
    decreases |ps|, 1
  {
    |ps| > 0 ==>
      || (IsLeaf(ps[0], parent) && ItemsShape(ps[1..], base + 1, level, parent))
      || (var l := LimitOf(ps[0], base) + 1;
          && 0 < l <= |ps|
          && ArgumentShape(ps[..l], base, level)
          && ItemsShape(ps[l..], base + l, level, parent))
  }

  /** argument = ARG_START (ARG_NAME | ARG_NUMBER) style ARG_LIMIT */
  ghost predicate ArgumentShape(ps: seq<Part>, base: int, level: int)
    decreases |ps|, 0
  {
    && |ps| >= 3
    && ps[0].kind == ArgStart && LimitOf(ps[0], base) == |ps| - 1
    && ps[|ps| - 1].kind == ArgLimit && ps[|ps| - 1].value == ps[0].value
    && (ps[1].kind == ArgName || ps[1].kind == ArgNumber)
    && exists t: ArgType :: ps[0].value == Ordinal(t) && StyleShape(ps[2..|ps| - 1], base + 2, level, t)
  }

  ghost predicate StyleShape(ps: seq<Part>, base: int, level: int, t: ArgType)
    decreases |ps|, 3
  {
    match t
    case NoArg => |ps| == 0
    case SimpleArg => 1 <= |ps| <= 2 && ps[0].kind == ArgTypeName && (|ps| == 2 ==> ps[1].kind == ArgStyle)
    case ChoiceArg => |ps| > 0 && ChoiceShape(ps, base, level)
    case _ => PluralShape(ps, base, level, t)
  }

  /** Number, selector and message, over and over. */
  ghost predicate ChoiceShape(ps: seq<Part>, base: int, level: int)
    decreases |ps|, 0
  {
    |ps| > 0 ==>
      && |ps| > 2 && IsNumber(ps[0]) && ps[1].kind == ArgSelector
      && var l := LimitOf(ps[2], base) + 1;
         && 2 < l <= |ps|
         && MessageShape(ps[2..l], base + 2, level + 1, ChoiceArg)
         && ChoiceShape(ps[l..], base + l, level)
  }

  /** pluralStyle = [ARG_INT | ARG_DOUBLE] pairs, selectStyle = pairs, with at least one pair */
  ghost predicate PluralShape(ps: seq<Part>, base: int, level: int, t: ArgType)
    decreases |ps|, 2
  {
    if HasPluralStyle(t) && |ps| > 0 && IsNumber(ps[0]) then |ps| > 1 && PairsShape(ps[1..], base + 1, level, t)
    else |ps| > 0 && PairsShape(ps, base, level, t)
  }

  /** Selector and message, over and over; in a plural style a number may stand between them. */
  ghost predicate PairsShape(ps: seq<Part>, base: int, level: int, t: ArgType)
    decreases |ps|, 0
  {
    |ps| > 0 ==>
      && ps[0].kind == ArgSelector
      && var m := if HasPluralStyle(t) && |ps| > 1 && IsNumber(ps[1]) then 2 else 1;
         && m < |ps|
         && var l := LimitOf(ps[m], base) + 1;
            && m < l <= |ps|
            && MessageShape(ps[m..l], base + m, level + 1, t)
            && PairsShape(ps[l..], base + l, level, t)
  }

  ghost predicate EntryShape(ps: seq<Part>, entry: Entry) {
    match entry
    case WholeMessage => MessageShape(ps, 0, 0, NoArg)
    case TopChoice => |ps| > 0 && ChoiceShape(ps, 0, 0)
    case TopPlural => PluralShape(ps, 0, 0, PluralArg)
    case TopSelect => PluralShape(ps, 0, 0, SelectArg)
  }

  // ---------- every successful parse has that shape ----------

  ghost predicate AllLeaves(ps: seq<Part>, parent: ArgType) {
    forall k :: 0 <= k < |ps| ==> IsLeaf(ps[k], parent)
  }

  lemma {:induction false} QuotedLeaves(c: Context, k: nat, parent: ArgType)
    requires k <= |c.msg|
    ensures AllLeaves(QuotedText(c, k).1, parent)
    decreases |c.msg| - k
  {
    hide Skip, QuotedText, AllLeaves;
    var q := Skip(NotApostrophe, c.msg, k);
    QuotedStep(c, k, q);
    if q == |c.msg| {
      OneMoreLeaf(InsertPart(q), [], parent);
    } else if q + 1 < |c.msg| && c.msg[q + 1] == APOS {
      QuotedLeaves(c, q + 2, parent);
      OneMoreLeaf(SkipPart(q + 1), QuotedText(c, q + 2).1, parent);
    } else {
      OneMoreLeaf(SkipPart(q), [], parent);
    }
  }

  lemma OneMoreLeaf(p: Part, ps: seq<Part>, parent: ArgType)
    requires IsLeaf(p, parent) && (|ps| > 0 ==> AllLeaves(ps, parent))
    ensures AllLeaves([p], parent) && AllLeaves([p] + ps, parent)
  {
  }

  lemma ApostropheLeaves(c: Context, i: nat, parent: ArgType)
    requires i < |c.msg|
    ensures AllLeaves(Apostrophe(c, i, parent).1, parent)
  {
    if i + 2 <= |c.msg| { QuotedLeaves(c, i + 2, parent); }
  }

  lemma NoItems(base: int, level: int, parent: ArgType)
    ensures ItemsShape([], base, level, parent)
  {
  }

  lemma {:induction false} LeavesThen(ls: seq<Part>, ps: seq<Part>, base: int, level: int, parent: ArgType)
    requires AllLeaves(ls, parent) && ItemsShape(ps, base + |ls|, level, parent)
    ensures ItemsShape(ls + ps, base, level, parent)
    decreases |ls|
  {
    if |ls| == 0 {
      assert ls + ps == ps;
    } else {
      assert (ls + ps)[1..] == ls[1..] + ps;
      LeavesThen(ls[1..], ps, base + 1, level, parent);
    }
  }

  lemma ArgumentThen(a: seq<Part>, ps: seq<Part>, base: int, level: int, parent: ArgType)
    requires ArgumentShape(a, base, level) && ItemsShape(ps, base + |a|, level, parent)
    ensures ItemsShape(a + ps, base, level, parent)
  {
    assert (a + ps)[..|a|] == a && (a + ps)[|a|..] == ps;
    hide ArgumentShape;
    assert LimitOf((a + ps)[0], base) == |a| - 1;
  }

  lemma {:induction false} MessageHasShape(c: Context, i: nat, startLength: nat, level: nat, parent: ArgType, n: Count)
    requires i + startLength <= |c.msg| && (level == 0 ==> n.parts == 0)
    ensures var r := Message(c, i, startLength, level, parent, n); r.Ok? ==>
            MessageShape(r.parts, n.parts, level, parent)
    decreases |c.msg| - i, 2
  {
    hide Items, Doubles, ItemsShape, Message, MessageShape, CloseMessage;
    MessageStep(c, i, startLength, level, parent, n);
    if Message(c, i, startLength, level, parent, n).Ok? {
      var start := NewPart(MsgStart, i, startLength, level);
      var n1 := Add(n, [start]);
      ItemsHaveShape(c, i + startLength, level, parent, n1);
      CloseShape(c, start, Items(c, i + startLength, level, parent, n1), level, parent, n1);
    }
  }

  lemma CloseShape(c: Context, start: Part, items: Result, level: nat, parent: ArgType, n: Count)
    requires items.Ok? && items.index <= |c.msg| && start.kind == MsgStart && start.value == level && n.parts > 0
    requires ItemsShape(items.parts, n.parts, level, parent)
    ensures var r := CloseMessage(c, start, items, level, parent, n);
            r.Ok? ==> MessageShape(r.parts, n.parts - 1, level, parent)
  {
    hide ItemsShape, MayEndText;
    var r := CloseMessage(c, start, items, level, parent, n);
    if r.Ok? { assert r.parts[1..|r.parts| - 1] == items.parts; }
  }

  lemma {:induction false} ItemsHaveShape(c: Context, i: nat, level: nat, parent: ArgType, n: Count)
    requires i <= |c.msg| && n.parts > 0 && (level == 0 ==> n.slot0 == MsgStart)
    ensures var r := Items(c, i, level, parent, n); r.Ok? ==> ItemsShape(r.parts, n.parts, level, parent)
    decreases |c.msg| - i, 1
  {
    hide Argument, Apostrophe, Doubles, ArgumentShape, ItemsShape, Items, Prepend;
    NoItems(n.parts, level, parent);
    var r := Items(c, i, level, parent, n);
    if i == |c.msg| {
      ItemsEnd(c, i, level, parent, n);
      return;
    }
    ItemsStep(c, i, level, parent, n);
    if r.Err? {
    } else if c.msg[i] == APOS {
      var q := Apostrophe(c, i, parent);
      ApostropheLeaves(c, i, parent);
      ItemsHaveShape(c, q.0, level, parent, Add(n, q.1));
      LeavesItems(q.1, Items(c, q.0, level, parent, Add(n, q.1)), n.parts, level, parent);
    } else if HasPluralStyle(parent) && c.msg[i] == POUND {
      var p := [NewPart(ReplaceNumber, i, 1, 0)];
      ItemsHaveShape(c, i + 1, level, parent, Add(n, p));
      LeavesItems(p, Items(c, i + 1, level, parent, Add(n, p)), n.parts, level, parent);
    } else if c.msg[i] == LEFT_BRACE {
      var arg := Argument(c, i, level, n);
      ArgumentHasShape(c, i, level, n);
      ItemsHaveShape(c, arg.index, level, parent, Add(n, arg.parts));
      ArgumentItems(arg.parts, Items(c, arg.index, level, parent, Add(n, arg.parts)), n.parts, level, parent);
    } else if !Ends(c, i, level, parent) {
      ItemsHaveShape(c, i + 1, level, parent, n);
    }
  }

  lemma LeavesItems(ls: seq<Part>, rest: Result, base: int, level: int, parent: ArgType)
    requires Prepend(ls, rest).Ok? && AllLeaves(ls, parent)
    requires rest.Ok? ==> ItemsShape(rest.parts, base + |ls|, level, parent)
    ensures ItemsShape(Prepend(ls, rest).parts, base, level, parent)
  {
    hide ItemsShape, AllLeaves;
    LeavesThen(ls, rest.parts, base, level, parent);
  }

  lemma ArgumentItems(a: seq<Part>, rest: Result, base: int, level: int, parent: ArgType)
    requires Prepend(a, rest).Ok? && ArgumentShape(a, base, level)
    requires rest.Ok? ==> ItemsShape(rest.parts, base + |a|, level, parent)
    ensures ItemsShape(Prepend(a, rest).parts, base, level, parent)
  {
    hide ItemsShape, ArgumentShape;
    ArgumentThen(a, rest.parts, base, level, parent);
  }

  lemma {:induction false} HeadShape(c: Context, i: nat)
    requires i <= |c.msg|
    ensures var h := ArgHead(c, i);
            h.HeadOk? ==>
              && 1 <= |h.parts| <= 2 && (h.parts[0].kind == ArgName || h.parts[0].kind == ArgNumber)
              && (|h.parts| == 2 <==> h.argType == SimpleArg) && (|h.parts| == 2 ==> h.parts[1].kind == ArgTypeName)
              && (!h.hasStyle ==> h.argType == NoArg || h.argType == SimpleArg)
              && (h.hasStyle ==> h.argType != NoArg)
  {
    hide Skip, NamePart, TypeHead, ArgHead;
    var nameIndex := Skip(IsWhiteSpace, c.msg, i);
    var nameEnd := Skip(IsIdentifierUnit, c.msg, nameIndex);
    var k := Skip(IsWhiteSpace, c.msg, nameEnd);
    ArgHeadIs(c, i, nameIndex, nameEnd, k);
    var name := NamePart(c, nameIndex, nameEnd);
    NameShape(c, nameIndex, nameEnd);
    if name.Ok? && k < |c.msg| && c.msg[k] == COMMA { TypeShape(c, k + 1, name.parts); }
  }

  lemma NameShape(c: Context, i: nat, end: nat)
    requires i <= end <= |c.msg|
    ensures var r := NamePart(c, i, end);
            r.Ok? ==> |r.parts| == 1 && (r.parts[0].kind == ArgName || r.parts[0].kind == ArgNumber)
  {
    hide ArgNumberOf;
  }

  lemma TypeShape(c: Context, i: nat, name: seq<Part>)
    requires i <= |c.msg| && |name| == 1
    ensures var h := TypeHead(c, i, name);
            h.HeadOk? ==>
              && 1 <= |h.parts| <= 2 && h.parts[0] == name[0]
              && (|h.parts| == 2 <==> h.argType == SimpleArg) && (|h.parts| == 2 ==> h.parts[1].kind == ArgTypeName)
              && (!h.hasStyle ==> h.argType == NoArg || h.argType == SimpleArg)
              && (h.hasStyle ==> h.argType != NoArg)
  {
    hide Skip, TypeHead, TypeNamed;
    var typeIndex := Skip(IsWhiteSpace, c.msg, i);
    var typeEnd := Skip(IsArgTypeUnit, c.msg, typeIndex);
    TypeHeadIs(c, i, name, typeIndex, typeEnd, Skip(IsWhiteSpace, c.msg, typeEnd));
    NeverNone(c.msg[typeIndex..typeEnd]);
  }

  lemma NeverNone(s: seq<Unit>)
    ensures TypeNamed(s) != NoArg
  {
  }

  lemma {:induction false} ArgumentHasShape(c: Context, i: nat, level: nat, n: Count)
    requires i < |c.msg| && n.parts > 0 && (level == 0 ==> n.slot0 == MsgStart)
    ensures var r := Argument(c, i, level, n); r.Ok? ==> ArgumentShape(r.parts, n.parts, level)
    decreases |c.msg| - i, 0
  {
    hide ArgHead, Style, Doubles, StyleShape, ArgumentShape, Ordinal;
    var r := Argument(c, i, level, n);
    if r.Ok? {
      HeadShape(c, i + 1);
      var h := ArgHead(c, i + 1);
      var n1 := Add(n, [NewPart(ArgStart, i, 1, Ordinal(h.argType))] + h.parts);
      var style := if !h.hasStyle then [] else Style(c, h.argType, h.end + 1, level, n1).parts;
      if h.hasStyle { StyleHasShape(c, h.argType, h.end + 1, level, n1); }
      StyleOf(h, style, n.parts + 2, level);
      var ord := Ordinal(h.argType);
      Assembled(Part(ArgStart, i, 1, ord, n.parts + 1 + |h.parts| + |style|), h, style,
                NewPart(ArgLimit, r.index - 1, 1, ord), n.parts, level);
    }
  }

  lemma Assembled(first: Part, h: Head, style: seq<Part>, last: Part, base: int, level: int)
    requires h.HeadOk? && |h.parts| > 0 && (h.parts[0].kind == ArgName || h.parts[0].kind == ArgNumber)
    requires first.kind == ArgStart && first.value == Ordinal(h.argType) == last.value && last.kind == ArgLimit
    requires first.limitPartIndex == base + 1 + |h.parts| + |style|
    requires StyleShape(h.parts[1..] + style, base + 2, level, h.argType)
    ensures ArgumentShape([first] + h.parts + style + [last], base, level)
  {
    hide StyleShape, ArgumentShape;
    Middle(first, h.parts, style, last);
    ArgumentIs([first] + h.parts + style + [last], base, level, h.argType);
  }

  lemma Middle(first: Part, head: seq<Part>, style: seq<Part>, last: Part)
    requires |head| > 0
    ensures var ps := [first] + head + style + [last]; ps[1] == head[0] && ps[2..|ps| - 1] == head[1..] + style
  {
  }

  lemma ArgumentIs(ps: seq<Part>, base: int, level: int, t: ArgType)
    requires |ps| >= 3 && ps[0].kind == ArgStart && LimitOf(ps[0], base) == |ps| - 1 && ps[0].value == Ordinal(t)
    requires ps[|ps| - 1].kind == ArgLimit && ps[|ps| - 1].value == ps[0].value
    requires ps[1].kind == ArgName || ps[1].kind == ArgNumber
    requires StyleShape(ps[2..|ps| - 1], base + 2, level, t)
    ensures ArgumentShape(ps, base, level)
  {
    hide StyleShape;
  }

  /** The type part of the head and the style together. */
  lemma StyleOf(h: Head, style: seq<Part>, base: int, level: nat)
    requires h.HeadOk? && 1 <= |h.parts| <= 2
    requires |h.parts| == 2 <==> h.argType == SimpleArg
    requires |h.parts| == 2 ==> h.parts[1].kind == ArgTypeName
    requires !h.hasStyle ==> style == [] && (h.argType == NoArg || h.argType == SimpleArg)
    requires h.hasStyle ==> h.argType != NoArg
    requires h.hasStyle && h.argType == SimpleArg ==> |style| == 1 && style[0].kind == ArgStyle
    requires h.hasStyle && h.argType != SimpleArg ==> StyleShape(style, base, level, h.argType)
    ensures StyleShape(h.parts[1..] + style, base, level, h.argType)
  {
    hide ChoiceShape, PluralShape;
    if h.argType != SimpleArg {
      assert h.parts[1..] + style == style;
    }
  }

  lemma {:induction false} StyleHasShape(c: Context, t: ArgType, i: nat, level: nat, n: Count)
    requires i <= |c.msg| && t != NoArg && n.parts > 0 && (level == 0 ==> n.slot0 == MsgStart)
    ensures var r := Style(c, t, i, level, n);
            r.Ok? ==> if t == SimpleArg then |r.parts| == 1 && r.parts[0].kind == ArgStyle
                      else StyleShape(r.parts, n.parts, level, t)
    decreases |c.msg| - i, 6
  {
    hide ChoiceStyle, PluralStyle, ChoiceShape, PluralShape;
    if t == ChoiceArg {
      ChoiceStyleHasShape(c, i, level, n);
    } else if t != SimpleArg {
      PluralStyleHasShape(c, t, i, level, n);
    }
  }

  lemma {:induction false} ChoiceStyleHasShape(c: Context, i: nat, level: nat, n: Count)
    requires i <= |c.msg|
    ensures var r := ChoiceStyle(c, i, level, n); r.Ok? ==> |r.parts| > 0 && ChoiceShape(r.parts, n.parts, level)
    decreases |c.msg| - i, 4
  {
    hide Skip, Alternatives, ChoiceShape;
    var k := Skip(IsWhiteSpace, c.msg, i);
    if k < |c.msg| && c.msg[k] != RIGHT_BRACE { AlternativesHaveShape(c, k, level, n); }
  }

  lemma ChoiceHeadShape(c: Context, i: nat, doubles: nat)
    requires i <= |c.msg|
    ensures var r := ChoiceHead(c, i, doubles);
            r.Ok? ==> |r.parts| == 2 && IsNumber(r.parts[0]) && r.parts[1].kind == ArgSelector
  {
    hide Skip;
  }

  /** A choice style is its first alternative, and the others behind a '|'. */
  lemma AlternativeParts(c: Context, i: nat, level: nat, n: Count)
    requires i <= |c.msg| && Alternatives(c, i, level, n).Ok?
    ensures var r := Alternatives(c, i, level, n);
            var head := ChoiceHead(c, i, n.doubles);
            && head.Ok?
            && var m := Message(c, head.index, 0, level + 1, ChoiceArg, Add(n, head.parts));
               && m.Ok?
               && var ps := head.parts + m.parts;
                  if m.index < |c.msg| && c.msg[m.index] != RIGHT_BRACE then
                    var rest := Alternatives(c, Skip(IsWhiteSpace, c.msg, m.index + 1), level, Add(n, ps));
                    rest.Ok? && r.parts == ps + rest.parts
                  else r.parts == ps
  {
    hide Skip, ChoiceHead, Message, Doubles, InMessageFormat;
  }

  lemma {:induction false} AlternativesHaveShape(c: Context, i: nat, level: nat, n: Count)
    requires i <= |c.msg|
    ensures var r := Alternatives(c, i, level, n); r.Ok? ==> |r.parts| > 0 && ChoiceShape(r.parts, n.parts, level)
    decreases |c.msg| - i, 3
  {
    hide Skip, ChoiceHead, Message, Doubles, MessageShape, ChoiceShape, InMessageFormat, Alternatives;
    var r := Alternatives(c, i, level, n);
    if r.Ok? {
      AlternativeParts(c, i, level, n);
      var head := ChoiceHead(c, i, n.doubles);
      ChoiceHeadShape(c, i, n.doubles);
      var n1 := Add(n, head.parts);
      var message := Message(c, head.index, 0, level + 1, ChoiceArg, n1);
      MessageHasShape(c, head.index, 0, level + 1, ChoiceArg, n1);
      var ps := head.parts + message.parts;
      if message.index < |c.msg| && c.msg[message.index] != RIGHT_BRACE {
        var k := Skip(IsWhiteSpace, c.msg, message.index + 1);
        AlternativesHaveShape(c, k, level, Add(n, ps));
        var rest := Alternatives(c, k, level, Add(n, ps));
        ChoiceCons(head.parts, message.parts, rest.parts, n.parts, level);
      } else {
        NoChoice(n.parts + |ps|, level);
        ChoiceCons(head.parts, message.parts, [], n.parts, level);
        assert ps + [] == ps;
      }
    }
  }

  lemma NoChoice(base: int, level: int)
    ensures ChoiceShape([], base, level)
  {
  }

  lemma ChoiceCons(head: seq<Part>, m: seq<Part>, rest: seq<Part>, base: int, level: int)
    requires |head| == 2 && IsNumber(head[0]) && head[1].kind == ArgSelector
    requires MessageShape(m, base + 2, level + 1, ChoiceArg) && ChoiceShape(rest, base + 2 + |m|, level)
    ensures ChoiceShape(head + m + rest, base, level)
  {
    var ps := head + m + rest;
    MessageEnds(m, base + 2, level + 1, ChoiceArg);
    hide MessageShape, ChoiceShape;
    var l := 2 + |m|;
    assert ps[2] == m[0] && LimitOf(ps[2], base) + 1 == l;
    assert ps[2..l] == m && ps[l..] == rest;
    ChoiceIs(ps, base, level, l);
  }

  lemma ChoiceIs(ps: seq<Part>, base: int, level: int, l: int)
    requires |ps| > 2 && IsNumber(ps[0]) && ps[1].kind == ArgSelector && l == LimitOf(ps[2], base) + 1 && 2 < l <= |ps|
    requires MessageShape(ps[2..l], base + 2, level + 1, ChoiceArg) && ChoiceShape(ps[l..], base + l, level)
    ensures ChoiceShape(ps, base, level)
  {
  }

  lemma MessageEnds(m: seq<Part>, base: int, level: int, parent: ArgType)
    requires MessageShape(m, base, level, parent)
    ensures |m| >= 2 && LimitOf(m[0], base) == |m| - 1
    ensures m[0].kind == MsgStart && m[|m| - 1].kind == MsgLimit && m[0].value == m[|m| - 1].value == level
  {
  }

  // ---------- plural and select styles ----------

  lemma NumberShape(c: Context, start: nat, limit: nat, allowInfinity: bool, doubles: nat)
    requires start < limit <= |c.msg|
    ensures var r := Number(c, start, limit, allowInfinity, doubles); r.Ok? ==> |r.parts| == 1 && IsNumber(r.parts[0])
  {
  }

  /** What one selector contributes before its message. */
  lemma SelectorShape(c: Context, t: ArgType, i: nat, isEmpty: bool, doubles: nat)
    requires i < |c.msg|
    ensures var s := SelectorAt(c, t, i, isEmpty, doubles);
            && (s.Offset? ==> isEmpty && HasPluralStyle(t) && |s.parts| == 1 && IsNumber(s.parts[0]))
            && (s.Keyword? ==>
                  && 1 <= |s.parts| <= 2 && s.parts[0].kind == ArgSelector
                  && (|s.parts| == 2 ==> HasPluralStyle(t) && IsNumber(s.parts[1])))
  {
    hide ExplicitSelector, WordSelector;
    if HasPluralStyle(t) && c.msg[i] == EQUAL {
      ExplicitShape(c, i, doubles);
    } else {
      WordShape(c, t, i, isEmpty, doubles);
    }
  }

  lemma ExplicitShape(c: Context, i: nat, doubles: nat)
    requires i < |c.msg|
    ensures var s := ExplicitSelector(c, i, doubles);
            s.Keyword? ==> |s.parts| == 2 && s.parts[0].kind == ArgSelector && IsNumber(s.parts[1])
  {
    hide Skip, Number;
    var end := Skip(IsDoubleUnit, c.msg, i + 1);
    if end > i + 1 { NumberShape(c, i + 1, end, false, doubles); }
  }

  lemma WordShape(c: Context, t: ArgType, i: nat, isEmpty: bool, doubles: nat)
    requires i < |c.msg|
    ensures var s := WordSelector(c, t, i, isEmpty, doubles);
            && (s.Offset? ==> isEmpty && HasPluralStyle(t) && |s.parts| == 1 && IsNumber(s.parts[0]))
            && (s.Keyword? ==> |s.parts| == 1 && s.parts[0].kind == ArgSelector)
  {
    hide Skip, Number, IsOffsetWord;
    var end := Skip(IsIdentifierUnit, c.msg, i);
    if IsOffsetWord(c, t, i, end) {
      var v := Skip(IsWhiteSpace, c.msg, end + 1);
      var e := Skip(IsDoubleUnit, c.msg, v);
      if e > v { NumberShape(c, v, e, false, doubles); }
    }
  }

  lemma {:induction false} PluralStyleHasShape(c: Context, t: ArgType, i: nat, level: nat, n: Count)
    requires i <= |c.msg|
    ensures var r := PluralStyle(c, t, i, level, n, true, false); r.Ok? ==> PluralShape(r.parts, n.parts, level, t)
    decreases |c.msg| - i, 5
  {
    hide Skip, Turn, IsOther, Doubles, PairsShape, InMessageFormat, PluralStyle;
    PluralStep(c, t, i, level, n, true, false);
    var r := PluralStyle(c, t, i, level, n, true, false);
    var k := Skip(IsWhiteSpace, c.msg, i);
    if r.Ok? {
      var turn := Turn(c, t, k, level, n, true);
      var other := IsOther(c, t, k, true, n);
      TurnShape(c, t, k, level, n, true);
      var n1 := Add(n, turn.parts);
      PairsHaveShape(c, t, turn.index, level, n1, other);
      var rest := PluralStyle(c, t, turn.index, level, n1, false, other).parts;
      assert r.parts == turn.parts + rest;
      if IsNumber(turn.parts[0]) {
        assert r.parts[1..] == rest;
      } else {
        PairsCons(turn.parts, rest, n.parts, level, t);
      }
    }
  }

  /** After the first turn there are only pairs, and at least one of them if none was an "other" so far. */
  lemma {:induction false} PairsHaveShape(c: Context, t: ArgType, i: nat, level: nat, n: Count, hasOther: bool)
    requires i <= |c.msg|
    ensures var r := PluralStyle(c, t, i, level, n, false, hasOther);
            r.Ok? ==> PairsShape(r.parts, n.parts, level, t) && (!hasOther ==> |r.parts| > 0)
    decreases |c.msg| - i, 4
  {
    hide Skip, Turn, IsOther, Doubles, PairsShape, PluralStyle;
    PluralStep(c, t, i, level, n, false, hasOther);
    var r := PluralStyle(c, t, i, level, n, false, hasOther);
    var k := Skip(IsWhiteSpace, c.msg, i);
    NoPairs(n.parts, level, t);
    if r.Ok? && k < |c.msg| && c.msg[k] != RIGHT_BRACE {
      var turn := Turn(c, t, k, level, n, false);
      var other := hasOther || IsOther(c, t, k, false, n);
      TurnShape(c, t, k, level, n, false);
      var n1 := Add(n, turn.parts);
      PairsHaveShape(c, t, turn.index, level, n1, other);
      PairsCons(turn.parts, PluralStyle(c, t, turn.index, level, n1, false, other).parts, n.parts, level, t);
    }
  }

  lemma NoPairs(base: int, level: int, t: ArgType)
    ensures PairsShape([], base, level, t)
  {
  }

  /** A turn adds the offset number alone, or one pair. */
  lemma {:induction false} TurnShape(c: Context, t: ArgType, i: nat, level: nat, n: Count, isEmpty: bool)
    requires i < |c.msg|
    ensures var r := Turn(c, t, i, level, n, isEmpty);
            r.Ok? ==>
              || (isEmpty && HasPluralStyle(t) && |r.parts| == 1 && IsNumber(r.parts[0])
                && !IsOther(c, t, i, isEmpty, n))
              || (|r.parts| > 0 && r.parts[0].kind == ArgSelector && PairsShape(r.parts, n.parts, level, t))
    decreases |c.msg| - i, 3
  {
    hide SelectorAt, Message, Doubles, PairsShape, MessageShape;
    var r := Turn(c, t, i, level, n, isEmpty);
    if r.Ok? {
      SelectorShape(c, t, i, isEmpty, n.doubles);
      var s := SelectorAt(c, t, i, isEmpty, n.doubles);
      if s.Keyword? {
        var n1 := Add(n, s.parts);
        MessageHasShape(c, s.index, 1, level + 1, t, n1);
        PairIs(s.parts, Message(c, s.index, 1, level + 1, t, n1).parts, n.parts, level, t);
      }
    }
  }

  lemma PairIs(head: seq<Part>, m: seq<Part>, base: int, level: int, t: ArgType)
    requires 1 <= |head| <= 2 && head[0].kind == ArgSelector
    requires |head| == 2 ==> HasPluralStyle(t) && IsNumber(head[1])
    requires MessageShape(m, base + |head|, level + 1, t)
    ensures PairsShape(head + m, base, level, t)
  {
    hide MessageShape, PairsShape;
    MessageEnds(m, base + |head|, level + 1, t);
    var ps := head + m;
    assert ps[|head|] == m[0];
    assert ps[|head|..|ps|] == m;
    NoPairs(base + |ps|, level, t);
    assert ps[|ps|..] == [];
    PairsClose(ps, base, level, t, |head|, |ps|);
  }

  /** Where the message of the first pair starts. */
  function MessageStart(ps: seq<Part>, t: ArgType): int {
    if HasPluralStyle(t) && |ps| > 1 && IsNumber(ps[1]) then 2 else 1
  }

  lemma PairsOpen(ps: seq<Part>, base: int, level: int, t: ArgType)
    requires PairsShape(ps, base, level, t) && |ps| > 0
    ensures var m := MessageStart(ps, t);
            && ps[0].kind == ArgSelector && m < |ps|
            && var l := LimitOf(ps[m], base) + 1;
               && m + 2 <= l <= |ps|
               && MessageShape(ps[m..l], base + m, level + 1, t) && PairsShape(ps[l..], base + l, level, t)
  {
    var m := MessageStart(ps, t);
    MessageEnds(ps[m..LimitOf(ps[m], base) + 1], base + m, level + 1, t);
  }

  lemma PairsClose(ps: seq<Part>, base: int, level: int, t: ArgType, m: int, l: int)
    requires |ps| > 0 && ps[0].kind == ArgSelector && m == MessageStart(ps, t) < |ps|
    requires l == LimitOf(ps[m], base) + 1 && m < l <= |ps|
    requires MessageShape(ps[m..l], base + m, level + 1, t) && PairsShape(ps[l..], base + l, level, t)
    ensures PairsShape(ps, base, level, t)
  {
    hide MessageShape;
  }

  lemma Longer(a: seq<Part>, b: seq<Part>, m: int, l: int)
    requires 0 <= m <= l <= |a|
    ensures (a + b)[m..l] == a[m..l] && (a + b)[l..] == a[l..] + b
  {
    assert forall i :: m <= i < l ==> (a + b)[i] == a[i];
  }

  lemma {:induction false} PairsCons(a: seq<Part>, b: seq<Part>, base: int, level: int, t: ArgType)
    requires PairsShape(a, base, level, t) && PairsShape(b, base + |a|, level, t)
    ensures PairsShape(a + b, base, level, t)
    decreases |a|
  {
    hide MessageShape, PairsShape;
    if |a| == 0 {
      assert a + b == b;
    } else {
      var ps := a + b;
      PairsOpen(a, base, level, t);
      var m := MessageStart(a, t);
      var l := LimitOf(a[m], base) + 1;
      PairsCons(a[l..], b, base + l, level, t);
      Longer(a, b, m, l);
      assert ps[m] == a[m] && ps[0] == a[0] && |a| > 1 && ps[1] == a[1];
      PairsClose(ps, base, level, t, m, l);
    }
  }

  /** Every successful parse yields a parts list of the documented grammar. */
  lemma ParseHasShape(c: Context, entry: Entry, slot0: PartType)
    ensures var r := Parse(c, entry, slot0); r.Ok? ==> EntryShape(r.parts, entry)
  {
    hide Message, ChoiceStyle, PluralStyle, MessageShape, ChoiceShape, PluralShape;
    var n := Count(0, 0, slot0);
    match entry
    case WholeMessage => MessageHasShape(c, 0, 0, 0, NoArg, n);
    case TopChoice => ChoiceStyleHasShape(c, 0, 0, n);
    case TopPlural => PluralStyleHasShape(c, PluralArg, 0, 0, n);
    case TopSelect => PluralStyleHasShape(c, SelectArg, 0, 0, n);
  }

  // ---------- nesting, index by index ----------

  predicate IsStart(p: Part) { p.kind == MsgStart || p.kind == ArgStart }

  predicate IsLimit(p: Part) { p.kind == MsgLimit || p.kind == ArgLimit }

  predicate Closes(l: Part, s: Part) {
    && l.value == s.value
    && ((s.kind == MsgStart && l.kind == MsgLimit) || (s.kind == ArgStart && l.kind == ArgLimit))
  }

  ghost predicate Nested(ps: seq<Part>, base: int) { StartsNest(ps, base) && LimitsBelong(ps, base) }

  /** Every limit part is the one that some start names. */
  ghost predicate LimitsBelong(ps: seq<Part>, base: int) {
    forall l :: 0 <= l < |ps| && IsLimit(ps[l]) ==> HasStart(ps, base, l)
  }

  ghost predicate HasStart(ps: seq<Part>, base: int, l: int) {
    exists k :: 0 <= k < |ps| && k < l && IsStart(ps[k]) && LimitOf(ps[k], base) == l
  }

  lemma LimitsAppend(a: seq<Part>, b: seq<Part>, base: int)
    requires LimitsBelong(a, base) && LimitsBelong(b, base + |a|)
    ensures LimitsBelong(a + b, base)
  {
    var ps := a + b;
    forall l | 0 <= l < |ps| && IsLimit(ps[l])
      ensures HasStart(ps, base, l)
    {
      if l < |a| {
        assert HasStart(a, base, l);
        var k :| 0 <= k < l && IsStart(a[k]) && LimitOf(a[k], base) == l;
        assert ps[k] == a[k];
      } else {
        assert IsLimit(b[l - |a|]) && HasStart(b, base + |a|, l - |a|);
        var k :| 0 <= k < l - |a| && IsStart(b[k]) && LimitOf(b[k], base + |a|) == l - |a|;
        assert ps[|a| + k] == b[k];
      }
    }
  }

  lemma LimitsWrap(s: Part, inner: seq<Part>, l: Part, base: int)
    requires IsStart(s) && LimitOf(s, base) == |inner| + 1 && LimitsBelong(inner, base + 1)
    ensures LimitsBelong([s] + inner + [l], base)
  {
    var ps := [s] + inner + [l];
    forall e | 0 <= e < |ps| && IsLimit(ps[e])
      ensures HasStart(ps, base, e)
    {
      if e == |ps| - 1 {
        assert ps[0] == s;
      } else if e > 0 {
        assert IsLimit(inner[e - 1]) && HasStart(inner, base + 1, e - 1);
        var k :| 0 <= k < e - 1 && IsStart(inner[k]) && LimitOf(inner[k], base + 1) == e - 1;
        assert ps[k + 1] == inner[k];
      }
    }
  }

  /** Each start names its own limit part, and whatever starts before that limit also ends before it. */
  ghost predicate StartsNest(ps: seq<Part>, base: int) {
    forall k :: 0 <= k < |ps| && IsStart(ps[k]) ==>
      var l := LimitOf(ps[k], base);
      && k < l < |ps| && Closes(ps[l], ps[k])
      && forall m :: k < m < l && IsStart(ps[m]) ==> LimitOf(ps[m], base) < l
  }

  lemma NestedAppend(a: seq<Part>, b: seq<Part>, base: int)
    requires Nested(a, base) && Nested(b, base + |a|)
    ensures Nested(a + b, base)
  {
    hide LimitsBelong;
    LimitsAppend(a, b, base);
    var ps := a + b;
    forall k | 0 <= k < |ps| && IsStart(ps[k])
      ensures var l := LimitOf(ps[k], base);
              && k < l < |ps| && Closes(ps[l], ps[k])
              && forall m :: k < m < l && IsStart(ps[m]) ==> LimitOf(ps[m], base) < l
    {
      if k < |a| {
        assert ps[k] == a[k];
        var l := LimitOf(a[k], base);
        assert forall m :: k <= m <= l ==> ps[m] == a[m];
      } else {
        assert ps[k] == b[k - |a|];
        var l := LimitOf(b[k - |a|], base + |a|);
        assert forall m :: k <= m <= l + |a| ==> ps[m] == b[m - |a|];
      }
    }
  }

  lemma NestedWrap(s: Part, inner: seq<Part>, l: Part, base: int)
    requires IsStart(s) && Closes(l, s) && LimitOf(s, base) == |inner| + 1 && Nested(inner, base + 1)
    ensures Nested([s] + inner + [l], base)
  {
    hide LimitsBelong;
    LimitsWrap(s, inner, l, base);
    var ps := [s] + inner + [l];
    forall k | 0 < k < |ps| && IsStart(ps[k])
      ensures var e := LimitOf(ps[k], base);
              && k < e < |ps| - 1 && Closes(ps[e], ps[k])
              && forall m :: k < m < e && IsStart(ps[m]) ==> LimitOf(ps[m], base) < e
    {
      assert ps[k] == inner[k - 1];
      var e := LimitOf(inner[k - 1], base + 1);
      assert forall m :: k <= m <= e + 1 ==> ps[m] == inner[m - 1];
    }
  }

  lemma NestedFlat(ps: seq<Part>, base: int)
    requires forall k :: 0 <= k < |ps| ==> !IsStart(ps[k]) && !IsLimit(ps[k])
    ensures Nested(ps, base)
  {
  }

  lemma {:induction false} NestedMessage(ps: seq<Part>, base: int, level: int, parent: ArgType)
    requires MessageShape(ps, base, level, parent)
    ensures Nested(ps, base)
    decreases |ps|, 2
  {
    hide ItemsShape, Nested;
    var inner := ps[1..|ps| - 1];
    NestedItems(inner, base + 1, level, parent);
    NestedWrap(ps[0], inner, ps[|ps| - 1], base);
    assert ps == [ps[0]] + inner + [ps[|ps| - 1]];
  }

  lemma {:induction false} NestedItems(ps: seq<Part>, base: int, level: int, parent: ArgType)
    requires ItemsShape(ps, base, level, parent)
    ensures Nested(ps, base)
    decreases |ps|, 1
  {
    hide ArgumentShape, Nested, ItemsShape, LimitOf;
    if |ps| == 0 {
      NestedFlat(ps, base);
      return;
    }
    ItemsOpen(ps, base, level, parent);
    if IsLeaf(ps[0], parent) && ItemsShape(ps[1..], base + 1, level, parent) {
      NestedItems(ps[1..], base + 1, level, parent);
      NestedFlat([ps[0]], base);
      NestedAppend([ps[0]], ps[1..], base);
      assert ps == [ps[0]] + ps[1..];
    } else {
      var l := LimitOf(ps[0], base) + 1;
      NestedArgument(ps[..l], base, level);
      NestedItems(ps[l..], base + l, level, parent);
      NestedAppend(ps[..l], ps[l..], base);
      assert ps == ps[..l] + ps[l..];
    }
  }

  lemma ItemsOpen(ps: seq<Part>, base: int, level: int, parent: ArgType)
    requires ItemsShape(ps, base, level, parent) && |ps| > 0
    ensures var l := LimitOf(ps[0], base) + 1;
            || (IsLeaf(ps[0], parent) && ItemsShape(ps[1..], base + 1, level, parent))
            || (0 < l <= |ps| && ArgumentShape(ps[..l], base, level) && ItemsShape(ps[l..], base + l, level, parent))
  {
    hide ArgumentShape;
  }

  lemma {:induction false} NestedArgument(ps: seq<Part>, base: int, level: int)
    requires ArgumentShape(ps, base, level)
    ensures Nested(ps, base)
    decreases |ps|, 0
  {
    hide StyleShape, Nested;
    var t: ArgType :| ps[0].value == Ordinal(t) && StyleShape(ps[2..|ps| - 1], base + 2, level, t);
    var style := ps[2..|ps| - 1];
    NestedStyle(style, base + 2, level, t);
    NestedFlat([ps[1]], base + 1);
    NestedAppend([ps[1]], style, base + 1);
    NestedWrap(ps[0], [ps[1]] + style, ps[|ps| - 1], base);
    assert ps == [ps[0]] + ([ps[1]] + style) + [ps[|ps| - 1]];
  }

  lemma {:induction false} NestedStyle(ps: seq<Part>, base: int, level: int, t: ArgType)
    requires StyleShape(ps, base, level, t)
    ensures Nested(ps, base)
    decreases |ps|, 4
  {
    hide ChoiceShape, PairsShape;
    if t == ChoiceArg {
      NestedChoice(ps, base, level);
    } else if t != NoArg && t != SimpleArg {
      NestedPlural(ps, base, level, t);
    }
  }

  lemma {:induction false} NestedPlural(ps: seq<Part>, base: int, level: int, t: ArgType)
    requires PluralShape(ps, base, level, t)
    ensures Nested(ps, base)
    decreases |ps|, 3
  {
    hide PairsShape, Nested;
    if HasPluralStyle(t) && IsNumber(ps[0]) {
      NestedPairs(ps[1..], base + 1, level, t);
      NestedFlat([ps[0]], base);
      NestedAppend([ps[0]], ps[1..], base);
      assert ps == [ps[0]] + ps[1..];
    } else {
      NestedPairs(ps, base, level, t);
    }
  }

  lemma {:induction false} NestedChoice(ps: seq<Part>, base: int, level: int)
    requires ChoiceShape(ps, base, level)
    ensures Nested(ps, base)
    decreases |ps|, 2
  {
    hide MessageShape, Nested, ChoiceShape, LimitOf;
    if |ps| == 0 {
      NestedFlat(ps, base);
    } else {
      ChoiceOpen(ps, base, level);
      var l := LimitOf(ps[2], base) + 1;
      NestedFlat(ps[..2], base);
      NestedMessage(ps[2..l], base + 2, level + 1, ChoiceArg);
      NestedChoice(ps[l..], base + l, level);
      NestedThree(ps, base, 2, l);
    }
  }

  lemma ChoiceOpen(ps: seq<Part>, base: int, level: int)
    requires ChoiceShape(ps, base, level) && |ps| > 0
    ensures |ps| > 2 && IsNumber(ps[0]) && ps[1].kind == ArgSelector
    ensures var l := LimitOf(ps[2], base) + 1;
            && 2 < l <= |ps| && MessageShape(ps[2..l], base + 2, level + 1, ChoiceArg)
            && ChoiceShape(ps[l..], base + l, level)
  {
    hide MessageShape;
  }

  lemma NestedThree(ps: seq<Part>, base: int, m: nat, l: nat)
    requires m <= l <= |ps| && Nested(ps[..m], base) && Nested(ps[m..l], base + m) && Nested(ps[l..], base + l)
    ensures Nested(ps, base)
  {
    hide Nested;
    NestedAppend(ps[m..l], ps[l..], base + m);
    NestedAppend(ps[..m], ps[m..l] + ps[l..], base);
    assert ps == ps[..m] + (ps[m..l] + ps[l..]);
  }

  lemma {:induction false} NestedPairs(ps: seq<Part>, base: int, level: int, t: ArgType)
    requires PairsShape(ps, base, level, t)
    ensures Nested(ps, base)
    decreases |ps|, 2
  {
    hide MessageShape, Nested, PairsShape, LimitOf;
    if |ps| == 0 {
      NestedFlat(ps, base);
    } else {
      PairsOpen(ps, base, level, t);
      var m := MessageStart(ps, t);
      var l := LimitOf(ps[m], base) + 1;
      NestedFlat(ps[..m], base);
      NestedMessage(ps[m..l], base + m, level + 1, t);
      NestedPairs(ps[l..], base + l, level, t);
      NestedThree(ps, base, m, l);
    }
  }

  /** After every successful parse each start part names its own limit, and the intervals nest or are disjoint. */
  lemma ParseNested(c: Context, entry: Entry, slot0: PartType)
    ensures var r := Parse(c, entry, slot0); r.Ok? ==> Nested(r.parts, 0)
  {
    hide Parse, MessageShape, ChoiceShape, PluralShape, Nested;
    ParseHasShape(c, entry, slot0);
    var r := Parse(c, entry, slot0);
    if r.Ok? {
      match entry
      case WholeMessage => NestedMessage(r.parts, 0, 0, NoArg);
      case TopChoice => NestedChoice(r.parts, 0, 0);
      case TopPlural => NestedPlural(r.parts, 0, 0, PluralArg);
      case TopSelect => NestedPlural(r.parts, 0, 0, SelectArg);
    }
  }
}
