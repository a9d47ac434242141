/**
  The parser on a pattern and on the same pattern with the missing apostrophes inserted, step by step:
  every successful step on the first has its shifted image on the second.
 */
module MessageReparse {
  import opened MessageModel
  import opened MessageSpec
  import opened MessagePlaces
  import opened MessageQuoting

  lemma EndAt(q: Quoting)
    requires Valid(q)
    ensures |q.cum| == |q.msg| + 1 && |q.msg| + q.cum[|q.msg|] == |q.quoted|
  {
  }

  lemma {:induction false} DoublesShifted(ps: seq<Part>, cum: seq<nat>)
    ensures Doubles(AllShifted(ps, cum)) == Doubles(ps)
  {
    if |ps| > 0 {
      assert AllShifted(ps, cum)[1..] == AllShifted(ps[1..], cum);
      DoublesShifted(ps[1..], cum);
    }
  }

  /** Later decisions of the parser do not notice the shift. */
  lemma AddShifted(n: Count, ps: seq<Part>, cum: seq<nat>)
    requires n.parts > 0 || (|ps| > 0 && ps[0].kind != InsertChar)
    ensures Add(n, AllShifted(ps, cum)) == Add(n, ps)
  {
    DoublesShifted(ps, cum);
  }

  /** X on the quoted text is the shifted result of X on the text. */
  ghost predicate ShiftsTo(q: Quoting, r: Result, r': Result) {
    r.Ok? && r' == ShiftedResult(q, r)
  }

  lemma PrependShift(q: Quoting, ps: seq<Part>, rest: Result, rest': Result)
    requires rest.Ok? && rest.index < |q.cum| && ShiftsTo(q, rest, rest')
    ensures ShiftsTo(q, Prepend(ps, rest), Prepend(AllShifted(ps, q.cum), rest'))
  {
    AllShiftedAppend(ps, rest.parts, q.cum);
  }

  // ---------- message text ----------

  lemma {:induction false} ItemsShift(q: Quoting, c: Context, i: nat, level: nat, parent: ArgType, n: Count)
    requires Valid(q) && q.msg == c.msg && i <= |c.msg| && n.parts > 0 && (level == 0 ==> n.slot0 == MsgStart)
    requires var r := Items(c, i, level, parent, n); r.Ok? && Agrees(q, r.parts, i, r.index)
    ensures |q.cum| == |c.msg| + 1 && i + q.cum[i] <= |q.quoted|
    ensures ShiftsTo(q, Items(c, i, level, parent, n), Items(Requoted(q, c), i + q.cum[i], level, parent, n))
    decreases |c.msg| - i, 1
  {
    hide Valid, Agrees, Items, ShiftsTo;
    if i == |c.msg| {
      EndItems(q, c, level, parent, n);
    } else if c.msg[i] == APOS {
      ApostropheItems(q, c, i, level, parent, n);
    } else if HasPluralStyle(parent) && c.msg[i] == POUND {
      PoundItems(q, c, i, level, parent, n);
    } else if c.msg[i] == LEFT_BRACE {
      ArgumentItems(q, c, i, level, parent, n);
    } else {
      PlainItems(q, c, i, level, parent, n);
    }
  }

  lemma EndItems(q: Quoting, c: Context, level: nat, parent: ArgType, n: Count)
    requires Valid(q) && q.msg == c.msg && n.parts > 0 && (level == 0 ==> n.slot0 == MsgStart)
    ensures |q.cum| == |c.msg| + 1 && |c.msg| + q.cum[|c.msg|] == |q.quoted|
    ensures ShiftsTo(q, Items(c, |c.msg|, level, parent, n), Items(Requoted(q, c), |q.quoted|, level, parent, n))
  {
    hide Valid, Items;
    EndAt(q);
    ItemsEnd(c, |c.msg|, level, parent, n);
    ItemsEnd(Requoted(q, c), |q.quoted|, level, parent, n);
  }

  lemma {:induction false} PlainItems(q: Quoting, c: Context, i: nat, level: nat, parent: ArgType, n: Count)
    requires Valid(q) && q.msg == c.msg && i < |c.msg| && n.parts > 0 && (level == 0 ==> n.slot0 == MsgStart)
    requires c.msg[i] != APOS && !(HasPluralStyle(parent) && c.msg[i] == POUND) && c.msg[i] != LEFT_BRACE
    requires var r := Items(c, i, level, parent, n); r.Ok? && Agrees(q, r.parts, i, r.index)
    ensures |q.cum| == |c.msg| + 1 && i + q.cum[i] <= |q.quoted|
    ensures ShiftsTo(q, Items(c, i, level, parent, n), Items(Requoted(q, c), i + q.cum[i], level, parent, n))
    decreases |c.msg| - i, 0
  {
    hide Valid, Agrees, Items, Argument, Apostrophe, Doubles, AllShifted, Placed;
    var r := Items(c, i, level, parent, n);
    UnitAt(q, i);
    ItemsStep(c, i, level, parent, n);
    ItemsStep(Requoted(q, c), i + q.cum[i], level, parent, n);
    if Ends(c, i, level, parent) {
      assert AllShifted([], q.cum) == [];
    } else {
      ItemsPlaced(c, i + 1, level, parent, n);
      AgreesLater(q, r.parts, i, i + 1, r.index);
      ItemsShift(q, c, i + 1, level, parent, n);
      FlatSizes(q, i, i + 1);
    }
  }

  lemma {:induction false} ApostropheItems(q: Quoting, c: Context, i: nat, level: nat, parent: ArgType, n: Count)
    requires Valid(q) && q.msg == c.msg && i < |c.msg| && c.msg[i] == APOS && n.parts > 0
             && (level == 0 ==> n.slot0 == MsgStart)
    requires var r := Items(c, i, level, parent, n); r.Ok? && Agrees(q, r.parts, i, r.index)
    ensures |q.cum| == |c.msg| + 1 && i + q.cum[i] <= |q.quoted|
    ensures ShiftsTo(q, Items(c, i, level, parent, n), Items(Requoted(q, c), i + q.cum[i], level, parent, n))
    decreases |c.msg| - i, 0
  {
    hide Valid, Agrees, Items, Argument, Apostrophe, Doubles, AllShifted, Placed;
    UnitAt(q, i);
    var c', i' := Requoted(q, c), i + q.cum[i];
    ItemsStep(c, i, level, parent, n);
    ItemsStep(c', i', level, parent, n);
    var a := Apostrophe(c, i, parent);
    var n1 := Add(n, a.1);
    var rest := Items(c, a.0, level, parent, n1);
    ApostrophePlaced(c, i, parent);
    ItemsPlaced(c, a.0, level, parent, n1);
    AgreesSplit(q, a.1, rest.parts, i, a.0, rest.index);
    ApostropheShift(q, c, i, parent);
    ItemsShift(q, c, a.0, level, parent, n1);
    AddShifted(n, a.1, q.cum);
    PrependShift(q, a.1, rest, Items(c', a.0 + q.cum[a.0], level, parent, n1));
  }

  lemma {:induction false} PoundItems(q: Quoting, c: Context, i: nat, level: nat, parent: ArgType, n: Count)
    requires Valid(q) && q.msg == c.msg && i < |c.msg| && n.parts > 0 && (level == 0 ==> n.slot0 == MsgStart)
    requires c.msg[i] == POUND && HasPluralStyle(parent)
    requires var r := Items(c, i, level, parent, n); r.Ok? && Agrees(q, r.parts, i, r.index)
    ensures |q.cum| == |c.msg| + 1 && i + q.cum[i] <= |q.quoted|
    ensures ShiftsTo(q, Items(c, i, level, parent, n), Items(Requoted(q, c), i + q.cum[i], level, parent, n))
    decreases |c.msg| - i, 0
  {
    hide Valid, Agrees, Items, Argument, Apostrophe, Doubles, AllShifted, Placed;
    UnitAt(q, i);
    var c', i' := Requoted(q, c), i + q.cum[i];
    ItemsStep(c, i, level, parent, n);
    ItemsStep(c', i', level, parent, n);
    var p := NewPart(ReplaceNumber, i, 1, 0);
    var n1 := Add(n, [p]);
    var rest := Items(c, i + 1, level, parent, n1);
    PlacedOne(p, i, i + 1, |c.msg|);
    ItemsPlaced(c, i + 1, level, parent, n1);
    AgreesSplitFlat(q, [p], rest.parts, i, i + 1, rest.index);
    FlatSizes(q, i, i + 1);
    ItemsShift(q, c, i + 1, level, parent, n1);
    AllShiftedOne(p, q.cum);
    AddShifted(n, [p], q.cum);
    PrependShift(q, [p], rest, Items(c', i' + 1, level, parent, n1));
  }

  lemma {:induction false} ArgumentItems(q: Quoting, c: Context, i: nat, level: nat, parent: ArgType, n: Count)
    requires Valid(q) && q.msg == c.msg && i < |c.msg| && n.parts > 0 && (level == 0 ==> n.slot0 == MsgStart)
    requires c.msg[i] == LEFT_BRACE
    requires var r := Items(c, i, level, parent, n); r.Ok? && Agrees(q, r.parts, i, r.index)
    ensures |q.cum| == |c.msg| + 1 && i + q.cum[i] <= |q.quoted|
    ensures ShiftsTo(q, Items(c, i, level, parent, n), Items(Requoted(q, c), i + q.cum[i], level, parent, n))
    decreases |c.msg| - i, 0, 1
  {
    hide Valid, Agrees, Items, Argument, Apostrophe, Doubles, AllShifted, Placed;
    UnitAt(q, i);
    var c', i' := Requoted(q, c), i + q.cum[i];
    ItemsStep(c, i, level, parent, n);
    ItemsStep(c', i', level, parent, n);
    var a := Argument(c, i, level, n);
    var n1 := Add(n, a.parts);
    var rest := Items(c, a.index, level, parent, n1);
    ArgumentPlaced(c, i, level, n);
    ItemsPlaced(c, a.index, level, parent, n1);
    AgreesSplit(q, a.parts, rest.parts, i, a.index, rest.index);
    ArgumentShift(q, c, i, level, n);
    ItemsShift(q, c, a.index, level, parent, n1);
    AddShifted(n, a.parts, q.cum);
    PrependShift(q, a.parts, rest, Items(c', a.index + q.cum[a.index], level, parent, n1));
  }

  // ---------- messages ----------

  lemma {:induction false} MessageShift(q: Quoting, c: Context, i: nat, startLength: nat, level: nat, parent: ArgType,
                                        n: Count)
    requires Valid(q) && q.msg == c.msg && i + startLength <= |c.msg| && startLength <= 1
             && (level == 0 ==> n.parts == 0)
    requires var r := Message(c, i, startLength, level, parent, n); r.Ok? && Agrees(q, r.parts, i, r.index)
    ensures |q.cum| == |c.msg| + 1 && i + q.cum[i] + startLength <= |q.quoted|
    ensures ShiftsTo(q, Message(c, i, startLength, level, parent, n),
                        Message(Requoted(q, c), i + q.cum[i], startLength, level, parent, n))
    decreases |c.msg| - i, 2
  {
    hide Valid, Agrees, Items, CloseMessage, Doubles, AllShifted, Placed, Flat;
    var start := NewPart(MsgStart, i, startLength, level);
    var n1 := Add(n, [start]);
    var items := Items(c, i + startLength, level, parent, n1);
    MessageSplit(q, c, i, startLength, level, parent, n);
    FlatSizes(q, i, i + startLength);
    ItemsShift(q, c, i + startLength, level, parent, n1);
    AllShiftedOne(start, q.cum);
    AddShifted(n, [start], q.cum);
    CloseMessageShift(q, c, start, items, level, parent, n1);
  }

  lemma CloseMessageShift(q: Quoting, c: Context, start: Part, items: Result, level: nat, parent: ArgType, n: Count)
    requires Valid(q) && q.msg == c.msg && items.Ok? && items.index <= |c.msg|
    requires start.kind == MsgStart && 0 <= start.index < |q.cum| && |q.cum| == |c.msg| + 1
    requires var r := CloseMessage(c, start, items, level, parent, n); r.Ok? && Flat(q, items.index, r.index)
    ensures items.index + q.cum[items.index] <= |q.quoted|
    ensures ShiftsTo(q, CloseMessage(c, start, items, level, parent, n),
                        CloseMessage(Requoted(q, c), Shifted(start, q.cum), ShiftedResult(q, items), level, parent, n))
  {
    hide Valid, AllShifted, Flat, MayEndText, CloseMessage, LimitLength, AfterLimit, Shifted;
    var r := CloseMessage(c, start, items, level, parent, n);
    var j := items.index;
    CloseIs(c, start, items, level, parent, n);
    LimitMoves(q, c, j, parent);
    CloseIs(Requoted(q, c), Shifted(start, q.cum), ShiftedResult(q, items), level, parent, n);
    var first := start.(limitPartIndex := n.parts + |items.parts|);
    var limit := NewPart(MsgLimit, j, LimitLength(c, j, parent), level);
    Ends3Shift(first, items.parts, limit, q.cum);
    EndsShifted(start, first.limitPartIndex, limit, q.cum);
  }

  lemma EndsShifted(start: Part, l: nat, limit: Part, cum: seq<nat>)
    requires start.kind == MsgStart && limit.kind == MsgLimit && 0 <= limit.index < |cum|
    ensures Shifted(start.(limitPartIndex := l), cum) == Shifted(start, cum).(limitPartIndex := l)
    ensures Shifted(limit, cum) == limit.(index := limit.index + cum[limit.index])
  {
  }

  /** The terminator of a message is the same one in the quoted text. */
  lemma LimitMoves(q: Quoting, c: Context, j: nat, parent: ArgType)
    requires Valid(q) && q.msg == c.msg && j <= |c.msg| && Flat(q, j, AfterLimit(c, j, parent))
    ensures |q.cum| == |q.msg| + 1 && j + q.cum[j] <= |q.quoted| && (j == |c.msg| <==> j + q.cum[j] == |q.quoted|)
    ensures var e, c' := AfterLimit(c, j, parent), Requoted(q, c);
            && e < |q.cum| && q.cum[e] == q.cum[j] && AfterLimit(c', j + q.cum[j], parent) == e + q.cum[e]
            && LimitLength(c', j + q.cum[j], parent) == LimitLength(c, j, parent)
  {
    hide Valid, Flat;
    FlatSizes(q, j, AfterLimit(c, j, parent));
    EndAt(q);
    if j < |c.msg| { UnitAt(q, j); }
  }

  lemma Ends3Shift(first: Part, inner: seq<Part>, limit: Part, cum: seq<nat>)
    ensures AllShifted([first] + inner + [limit], cum) == [Shifted(first, cum)] + AllShifted(inner, cum)
            + [Shifted(limit, cum)]
  {
    hide AllShifted;
    AllShiftedAppend([first] + inner, [limit], cum);
    AllShiftedAppend([first], inner, cum);
    AllShiftedOne(first, cum);
    AllShiftedOne(limit, cum);
  }

  /** The start of a message and the step over its terminator contain no insertion. */
  lemma MessageSplit(q: Quoting, c: Context, i: nat, startLength: nat, level: nat, parent: ArgType, n: Count)
    requires Valid(q) && q.msg == c.msg && i + startLength <= |c.msg| && startLength <= 1
             && (level == 0 ==> n.parts == 0)
    requires var r := Message(c, i, startLength, level, parent, n); r.Ok? && Agrees(q, r.parts, i, r.index)
    ensures var n1 := Add(n, [NewPart(MsgStart, i, startLength, level)]);
            var items := Items(c, i + startLength, level, parent, n1);
            var r := Message(c, i, startLength, level, parent, n);
            && Flat(q, i, i + startLength) && items.Ok? && Agrees(q, items.parts, i + startLength, items.index)
            && Flat(q, items.index, r.index)
  {
    hide Valid, Agrees, Items, Doubles, Placed, Flat, Message, CloseMessage, MayEndText, NoInserts;
    MessageStep(c, i, startLength, level, parent, n);
    var r := Message(c, i, startLength, level, parent, n);
    var start := NewPart(MsgStart, i, startLength, level);
    var n1 := Add(n, [start]);
    var items := Items(c, i + startLength, level, parent, n1);
    CloseIs(c, start, items, level, parent, n1);
    var first, limit := r.parts[0], r.parts[|r.parts| - 1];
    ItemsPlaced(c, i + startLength, level, parent, n1);
    PlacedOne(first, i, i + startLength, |c.msg|);
    PlacedOne(limit, items.index, r.index, |c.msg|);
    PlacedAppend(items.parts, [limit], i + startLength, items.index, r.index, |c.msg|);
    assert r.parts == [first] + (items.parts + [limit]);
    NoInsertsOne(first);
    NoInsertsOne(limit);
    AgreesSplitFlat(q, [first], items.parts + [limit], i, i + startLength, r.index);
    AgreesSplit(q, items.parts, [limit], i + startLength, items.index, r.index);
    AgreesFlat(q, [limit], items.index, r.index);
  }

  lemma NoInsertsOne(p: Part)
    requires p.kind != InsertChar
    ensures NoInserts([p])
  {
  }

  // ---------- arguments ----------

  lemma {:induction false} ArgumentShift(q: Quoting, c: Context, i: nat, level: nat, n: Count)
    requires Valid(q) && q.msg == c.msg && i < |c.msg| && n.parts > 0 && (level == 0 ==> n.slot0 == MsgStart)
    requires var r := Argument(c, i, level, n); r.Ok? && Agrees(q, r.parts, i, r.index)
    ensures |q.cum| == |c.msg| + 1 && i + q.cum[i] < |q.quoted|
    ensures ShiftsTo(q, Argument(c, i, level, n), Argument(Requoted(q, c), i + q.cum[i], level, n))
    decreases |c.msg| - i, 0, 0
  {
    hide Valid, Agrees, ArgHead, Style, Doubles, AllShifted, AllMoved, Placed, Flat, Ordinal, CloseArgument, Argument,
         ArgStyleOf;
    var head := ArgHead(c, i + 1);
    UnitAt(q, i);
    ArgumentSplit(q, c, i, level, n);
    ArgumentIs(c, i, level, n);
    var start := NewPart(ArgStart, i, 1, Ordinal(head.argType));
    var n1 := Add(n, [start] + head.parts);
    var style := ArgStyleOf(c, head, level, n1);
    var c' := Requoted(q, c);
    HeadShift(q, c, i);
    AllShiftedAppend([start], head.parts, q.cum);
    AllShiftedOne(start, q.cum);
    AddShifted(n, [start] + head.parts, q.cum);
    ArgStyleIs(c, head, level, n1);
    ArgStyleIs(c', ArgHead(c', i + q.cum[i] + 1), level, n1);
    FlatSizes(q, style.index, style.index + 1);
    if head.hasStyle {
      FlatSizes(q, head.end, head.end + 1);
      StyleShift(q, c, head.argType, head.end + 1, level, n1);
    } else {
      assert AllShifted([], q.cum) == [];
    }
    ArgumentIs(c', i + q.cum[i], level, n);
    CloseArgumentShift(q, start, head.parts, style, n);
  }

  lemma ArgStyleIs(c: Context, head: Head, level: nat, n: Count)
    requires head.HeadOk? && head.end < |c.msg| && n.parts > 0 && (level == 0 ==> n.slot0 == MsgStart)
    ensures ArgStyleOf(c, head, level, n)
         == if !head.hasStyle then Ok(head.end, []) else Style(c, head.argType, head.end + 1, level, n)
  {
  }

  lemma ArgumentIs(c: Context, i: nat, level: nat, n: Count)
    requires i < |c.msg| && n.parts > 0 && (level == 0 ==> n.slot0 == MsgStart)
    ensures var head := ArgHead(c, i + 1);
            && (head.HeadErr? ==> Argument(c, i, level, n) == Err(head.error))
            && (head.HeadOk? ==>
                  var start := NewPart(ArgStart, i, 1, Ordinal(head.argType));
                  var style := ArgStyleOf(c, head, level, Add(n, [start] + head.parts));
                  Argument(c, i, level, n) == if style.Err? then style else CloseArgument(start, head.parts, style, n))
  {
    hide ArgHead, Style, Doubles, CloseArgument, Ordinal;
  }

  /** The head of an argument in the quoted text. */
  lemma HeadShift(q: Quoting, c: Context, i: nat)
    requires Valid(q) && q.msg == c.msg && i < |c.msg| && ArgHead(c, i + 1).HeadOk? && Flat(q, i, ArgHead(c, i + 1).end)
    ensures |q.cum| == |c.msg| + 1 && i + q.cum[i] < |q.quoted|
    ensures var h := ArgHead(c, i + 1);
            && q.cum[h.end] == q.cum[i]
            && ArgHead(Requoted(q, c), i + q.cum[i] + 1)
               == HeadOk(h.end + q.cum[i], h.hasStyle, h.argType, AllShifted(h.parts, q.cum))
  {
    hide Valid, ArgHead, AllShifted, AllMoved, Placed, Flat, NoInserts;
    var h := ArgHead(c, i + 1);
    UnitAt(q, i);
    FlatSizes(q, i, h.end);
    FlatSub(q, i, h.end, i + 1, h.end);
    ArgHeadMoves(q, c, i + 1);
    ArgHeadPlaced(c, i + 1);
    HeadNoInserts(c, i + 1);
    MovedIsShifted(q, h.parts, i + 1, h.end);
  }

  lemma CloseArgumentShift(q: Quoting, start: Part, head: seq<Part>, style: Result, n: Count)
    requires style.Ok? && start.kind == ArgStart && 0 <= start.index < |q.cum| && style.index + 1 < |q.cum|
    requires q.cum[style.index + 1] == q.cum[style.index]
    ensures ShiftsTo(q, CloseArgument(start, head, style, n),
                        CloseArgument(Shifted(start, q.cum), AllShifted(head, q.cum), ShiftedResult(q, style), n))
  {
    hide AllShifted;
    var r := CloseArgument(start, head, style, n);
    var first, limit := r.parts[0], r.parts[|r.parts| - 1];
    assert r.parts == [first] + (head + style.parts) + [limit];
    Ends3Shift(first, head + style.parts, limit, q.cum);
    AllShiftedAppend(head, style.parts, q.cum);
  }

  function ArgStyleOf(c: Context, head: Head, level: nat, n: Count): Result
    requires head.HeadOk? && head.end < |c.msg| && n.parts > 0 && (level == 0 ==> n.slot0 == MsgStart)
  {
    if !head.hasStyle then Ok(head.end, []) else Style(c, head.argType, head.end + 1, level, n)
  }

  lemma HeadNoInserts(c: Context, i: nat)
    requires i <= |c.msg|
    ensures var h := ArgHead(c, i); h.HeadOk? ==> NoInserts(h.parts)
  {
    hide Skip, ArgNumberOf;
  }

  /** Everything of an argument before its style, and the step over its '}', contains no insertion. */
  lemma ArgumentSplit(q: Quoting, c: Context, i: nat, level: nat, n: Count)
    requires Valid(q) && q.msg == c.msg && i < |c.msg| && n.parts > 0 && (level == 0 ==> n.slot0 == MsgStart)
    requires var r := Argument(c, i, level, n); r.Ok? && Agrees(q, r.parts, i, r.index)
    ensures var head := ArgHead(c, i + 1);
            && head.HeadOk?
            && var n1 := Add(n, [NewPart(ArgStart, i, 1, Ordinal(head.argType))] + head.parts);
               var style := ArgStyleOf(c, head, level, n1);
               && style.Ok? && Flat(q, i, head.end)
               && (head.hasStyle ==>
                     Flat(q, head.end, head.end + 1) && Agrees(q, style.parts, head.end + 1, style.index))
               && Flat(q, style.index, style.index + 1)
  {
    hide Valid, Agrees, ArgHead, Style, Doubles, Placed, Flat, NoInserts;
    var r := Argument(c, i, level, n);
    var head := ArgHead(c, i + 1);
    var n1 := Add(n, [NewPart(ArgStart, i, 1, Ordinal(head.argType))] + head.parts);
    var style := ArgStyleOf(c, head, level, n1);
    var first, limit := r.parts[0], r.parts[|r.parts| - 1];
    ArgHeadPlaced(c, i + 1);
    HeadNoInserts(c, i + 1);
    PlacedOne(first, i, i + 1, |c.msg|);
    PlacedAppend([first], head.parts, i, i + 1, head.end, |c.msg|);
    var from := if head.hasStyle then head.end + 1 else head.end;
    PlacedNone(head.end, head.end, |c.msg|);
    if head.hasStyle { StylePlaced(c, head.argType, head.end + 1, level, n1); }
    PlacedOne(limit, style.index, r.index, |c.msg|);
    PlacedAppend(style.parts, [limit], from, style.index, r.index, |c.msg|);
    PlacedWiden(style.parts + [limit], from, r.index, head.end, r.index, |c.msg|);
    assert r.parts == ([first] + head.parts) + (style.parts + [limit]);
    NoInsertsCons(first, head.parts);
    AgreesSplitFlat(q, [first] + head.parts, style.parts + [limit], i, head.end, r.index);
    AgreesLater(q, style.parts + [limit], head.end, from, r.index);
    AgreesSplit(q, style.parts, [limit], from, style.index, r.index);
    NoInsertsCons(limit, []);
    assert [limit] + [] == [limit];
    AgreesFlat(q, [limit], style.index, r.index);
  }

  lemma NoInsertsCons(p: Part, ps: seq<Part>)
    ensures p.kind != InsertChar && (|ps| > 0 ==> NoInserts(ps)) ==> NoInserts([p] + ps)
  {
  }

  // ---------- styles ----------

  lemma {:induction false} StyleShift(q: Quoting, c: Context, t: ArgType, i: nat, level: nat, n: Count)
    requires Valid(q) && q.msg == c.msg && i <= |c.msg| && n.parts > 0 && (level == 0 ==> n.slot0 == MsgStart)
    requires var r := Style(c, t, i, level, n); r.Ok? && Agrees(q, r.parts, i, r.index)
    ensures |q.cum| == |c.msg| + 1 && i + q.cum[i] <= |q.quoted|
    ensures ShiftsTo(q, Style(c, t, i, level, n), Style(Requoted(q, c), t, i + q.cum[i], level, n))
    decreases |c.msg| - i, 6
  {
    hide Valid, Agrees, ChoiceStyle, PluralStyle, SimpleStyle, ShiftsTo;
    if t == ChoiceArg {
      ChoiceStyleShift(q, c, i, level, n);
    } else if t == NoArg || t == SimpleArg {
      SimpleStyleShift(q, c, i);
    } else {
      PluralStyleShift(q, c, t, i, level, n, true, false);
    }
  }

  lemma SimpleStyleShift(q: Quoting, c: Context, i: nat)
    requires Valid(q) && q.msg == c.msg && i <= |c.msg|
    requires var r := SimpleStyle(c, i); r.Ok? && Agrees(q, r.parts, i, r.index)
    ensures |q.cum| == |c.msg| + 1 && i + q.cum[i] <= |q.quoted|
    ensures ShiftsTo(q, SimpleStyle(c, i), SimpleStyle(Requoted(q, c), i + q.cum[i]))
  {
    hide Valid, Agrees, StyleEnd, AllShifted, Flat;
    var r := SimpleStyle(c, i);
    AgreesFlat(q, r.parts, i, r.index);
    FlatSizes(q, i, r.index);
    StyleEndMoves(q, c, i, 0);
    AllShiftedOne(r.parts[0], q.cum);
  }

  lemma {:induction false} ChoiceStyleShift(q: Quoting, c: Context, i: nat, level: nat, n: Count)
    requires Valid(q) && q.msg == c.msg && i <= |c.msg|
    requires var r := ChoiceStyle(c, i, level, n); r.Ok? && Agrees(q, r.parts, i, r.index)
    ensures |q.cum| == |c.msg| + 1 && i + q.cum[i] <= |q.quoted|
    ensures ShiftsTo(q, ChoiceStyle(c, i, level, n), ChoiceStyle(Requoted(q, c), i + q.cum[i], level, n))
    decreases |c.msg| - i, 5
  {
    hide Valid, Agrees, Alternatives, Skip, AllShifted, Flat, Placed;
    var r := ChoiceStyle(c, i, level, n);
    var k := Skip(IsWhiteSpace, c.msg, i);
    AlternativesPlaced(c, k, level, n);
    AgreesLater(q, r.parts, i, k, r.index);
    FlatSizes(q, i, k);
    SkipShift(IsWhiteSpace, q, i);
    UnitAt(q, k);
    AlternativesShift(q, c, k, level, n);
  }

  lemma ChoiceNoInserts(c: Context, i: nat, doubles: nat)
    requires i <= |c.msg|
    ensures var r := ChoiceHead(c, i, doubles); r.Ok? ==> NoInserts(r.parts) && |r.parts| > 0
  {
    hide Skip;
  }

  lemma AlternativesStep(c: Context, i: nat, level: nat, n: Count)
    requires i <= |c.msg|
    requires Alternatives(c, i, level, n).Ok?
    ensures var head := ChoiceHead(c, i, n.doubles);
            && head.Ok?
            && var m := Message(c, head.index, 0, level + 1, ChoiceArg, Add(n, head.parts));
               && m.Ok? && Alternatives(c, i, level, n) == AfterAlternative(c, level, n, head.parts + m.parts, m.index)
  {
    hide Skip, ChoiceHead, Message, Doubles;
  }

  /** What follows one alternative of a choice style, which ended at j. */
  function AfterAlternative(c: Context, level: nat, n: Count, ps: seq<Part>, j: nat): Result
    requires j <= |c.msg|
  {
    if j == |c.msg| then Ok(j, ps)
    else if c.msg[j] == RIGHT_BRACE then
      if !InMessageFormat(level, Add(n, ps)) then Err(PatternSyntax) else Ok(j, ps)
    else Prepend(ps, Alternatives(c, Skip(IsWhiteSpace, c.msg, j + 1), level, Add(n, ps)))
  }

  lemma AlternativesIs(c: Context, i: nat, level: nat, n: Count, head: Result, m: Result)
    requires i <= |c.msg| && head == ChoiceHead(c, i, n.doubles) && head.Ok?
    requires m == Message(c, head.index, 0, level + 1, ChoiceArg, Add(n, head.parts)) && m.Ok?
    ensures Alternatives(c, i, level, n) == AfterAlternative(c, level, n, head.parts + m.parts, m.index)
  {
    hide Skip, ChoiceHead, Message, Doubles;
  }

  lemma {:induction false} AlternativesShift(q: Quoting, c: Context, i: nat, level: nat, n: Count)
    requires Valid(q) && q.msg == c.msg && i <= |c.msg|
    requires var r := Alternatives(c, i, level, n); r.Ok? && Agrees(q, r.parts, i, r.index)
    ensures |q.cum| == |c.msg| + 1 && i + q.cum[i] <= |q.quoted|
    ensures ShiftsTo(q, Alternatives(c, i, level, n), Alternatives(Requoted(q, c), i + q.cum[i], level, n))
    decreases |c.msg| - i, 4
  {
    hide Valid, Agrees, Alternatives, ChoiceHead, Message, AfterAlternative, Skip, Doubles, AllShifted, AllMoved,
         Flat, Placed, NoInserts;
    AlternativesStep(c, i, level, n);
    var head := ChoiceHead(c, i, n.doubles);
    var n1 := Add(n, head.parts);
    var m := Message(c, head.index, 0, level + 1, ChoiceArg, n1);
    var ps := head.parts + m.parts;
    ChoiceNoInserts(c, i, n.doubles);
    AlternativeSplit(q, c, i, level, n);
    FlatSizes(q, i, head.index);
    ChoiceHeadMoves(q, c, i, n.doubles);
    ChoiceHeadPlaced(c, i, n.doubles);
    MovedIsShifted(q, head.parts, i, head.index);
    NotFirstInsert(head.parts);
    AddShifted(n, head.parts, q.cum);
    MessageShift(q, c, head.index, 0, level + 1, ChoiceArg, n1);
    var c' := Requoted(q, c);
    var i' := i + q.cum[i];
    var head' := ChoiceHead(c', i', n.doubles);
    var m' := Message(c', head'.index, 0, level + 1, ChoiceArg, n1);
    AlternativesIs(c', i', level, n, head', m');
    AllShiftedAppend(head.parts, m.parts, q.cum);
    AfterAlternativeShift(q, c, level, n, ps, m.index, i);
  }

  lemma NotFirstInsert(ps: seq<Part>)
    requires NoInserts(ps) && |ps| > 0
    ensures ps[0].kind != InsertChar
  {
  }

  /** One alternative and what follows it, each with its own insertions. */
  lemma AlternativeSplit(q: Quoting, c: Context, i: nat, level: nat, n: Count)
    requires Valid(q) && q.msg == c.msg && i <= |c.msg|
    requires var r := Alternatives(c, i, level, n); r.Ok? && Agrees(q, r.parts, i, r.index)
    ensures var head := ChoiceHead(c, i, n.doubles);
            && head.Ok?
            && var m := Message(c, head.index, 0, level + 1, ChoiceArg, Add(n, head.parts));
               && m.Ok? && Flat(q, i, head.index) && Agrees(q, m.parts, head.index, m.index)
               && var rest := RestOf(c, level, n, head.parts + m.parts, m.index);
                  rest.Ok? && Agrees(q, rest.parts, m.index, rest.index)
  {
    hide Valid, Agrees, Alternatives, ChoiceHead, Message, RestOf, Skip, Doubles, Flat, Placed, NoInserts,
         AfterAlternative;
    AlternativesStep(c, i, level, n);
    var r := Alternatives(c, i, level, n);
    var head := ChoiceHead(c, i, n.doubles);
    var m := Message(c, head.index, 0, level + 1, ChoiceArg, Add(n, head.parts));
    var ps := head.parts + m.parts;
    var rest := RestOf(c, level, n, ps, m.index);
    RestIs(c, level, n, ps, m.index);
    RestPlaced(c, level, n, ps, m.index);
    ChoiceHeadPlaced(c, i, n.doubles);
    MessagePlaced(c, head.index, 0, level + 1, ChoiceArg, Add(n, head.parts));
    ChoiceNoInserts(c, i, n.doubles);
    PlacedAppend(m.parts, rest.parts, head.index, m.index, rest.index, |c.msg|);
    assert r.parts == head.parts + (m.parts + rest.parts);
    AgreesSplitFlat(q, head.parts, m.parts + rest.parts, i, head.index, r.index);
    AgreesSplit(q, m.parts, rest.parts, head.index, m.index, r.index);
  }

  /** The alternatives after the one that ended at j. */
  function RestOf(c: Context, level: nat, n: Count, ps: seq<Part>, j: nat): (r: Result)
    requires j <= |c.msg|
    ensures r.Ok? ==> j <= r.index <= |c.msg|
  {
    if j == |c.msg| then Ok(j, [])
    else if c.msg[j] == RIGHT_BRACE then
      if !InMessageFormat(level, Add(n, ps)) then Err(PatternSyntax) else Ok(j, [])
    else Alternatives(c, Skip(IsWhiteSpace, c.msg, j + 1), level, Add(n, ps))
  }

  lemma RestIs(c: Context, level: nat, n: Count, ps: seq<Part>, j: nat)
    requires j <= |c.msg|
    ensures AfterAlternative(c, level, n, ps, j) == Prepend(ps, RestOf(c, level, n, ps, j))
  {
    hide Alternatives, Skip, Doubles;
    assert ps + [] == ps;
  }

  lemma RestPlaced(c: Context, level: nat, n: Count, ps: seq<Part>, j: nat)
    requires j <= |c.msg|
    ensures ResultPlaced(RestOf(c, level, n, ps, j), j, c)
  {
    hide Alternatives, Skip, Doubles, Placed;
    PlacedNone(j, j, |c.msg|);
    if j < |c.msg| && c.msg[j] != RIGHT_BRACE {
      var k := Skip(IsWhiteSpace, c.msg, j + 1);
      AlternativesPlaced(c, k, level, Add(n, ps));
      var r := RestOf(c, level, n, ps, j);
      if r.Ok? { PlacedWiden(r.parts, k, r.index, j, r.index, |c.msg|); }
    }
  }

  lemma {:induction false} AfterAlternativeShift(q: Quoting, c: Context, level: nat, n: Count, ps: seq<Part>, j: nat,
                                                 i: nat)
    requires Valid(q) && q.msg == c.msg && i < j <= |c.msg| && (n.parts > 0 || (|ps| > 0 && ps[0].kind != InsertChar))
    requires var rest := RestOf(c, level, n, ps, j); rest.Ok? && Agrees(q, rest.parts, j, rest.index)
    ensures |q.cum| == |c.msg| + 1 && j + q.cum[j] <= |q.quoted|
    ensures ShiftsTo(q, AfterAlternative(c, level, n, ps, j),
                        AfterAlternative(Requoted(q, c), level, n, AllShifted(ps, q.cum), j + q.cum[j]))
    decreases |c.msg| - i, 3
  {
    hide Valid, Agrees, Alternatives, AfterAlternative, Skip, Doubles, AllShifted, Flat, Placed;
    var rest := RestOf(c, level, n, ps, j);
    var c' := Requoted(q, c);
    RestIs(c, level, n, ps, j);
    EndAt(q);
    var j' := j + q.cum[j];
    AddShifted(n, ps, q.cum);
    if j < |c.msg| { UnitAt(q, j); }
    RestIs(c', level, n, AllShifted(ps, q.cum), j');
    if j < |c.msg| && c.msg[j] != RIGHT_BRACE {
      var k := Skip(IsWhiteSpace, c.msg, j + 1);
      AlternativesPlaced(c, k, level, Add(n, ps));
      AgreesLater(q, rest.parts, j, k, rest.index);
      FlatSizes(q, j, k);
      FlatSub(q, j, k, j + 1, k);
      SkipShift(IsWhiteSpace, q, j + 1);
      AlternativesShift(q, c, k, level, Add(n, ps));
      PrependShift(q, ps, rest, RestOf(c', level, n, AllShifted(ps, q.cum), j'));
    } else {
      assert AllShifted([], q.cum) == [];
      PrependShift(q, ps, rest, RestOf(c', level, n, AllShifted(ps, q.cum), j'));
    }
  }

  // ---------- plural and select styles ----------

  lemma {:induction false} PluralStyleShift(q: Quoting, c: Context, t: ArgType, i: nat, level: nat, n: Count,
                                            isEmpty: bool, hasOther: bool)
    requires Valid(q) && q.msg == c.msg && i <= |c.msg|
    requires var r := PluralStyle(c, t, i, level, n, isEmpty, hasOther); r.Ok? && Agrees(q, r.parts, i, r.index)
    ensures |q.cum| == |c.msg| + 1 && i + q.cum[i] <= |q.quoted|
    ensures ShiftsTo(q, PluralStyle(c, t, i, level, n, isEmpty, hasOther),
                        PluralStyle(Requoted(q, c), t, i + q.cum[i], level, n, isEmpty, hasOther))
    decreases |c.msg| - i, 5
  {
    hide Valid, Agrees, Turn, IsOther, Skip, Doubles, AllShifted, Flat, Placed, PluralStyle;
    var r := PluralStyle(c, t, i, level, n, isEmpty, hasOther);
    var k := Skip(IsWhiteSpace, c.msg, i);
    PluralStep(c, t, i, level, n, isEmpty, hasOther);
    PluralFrom(c, t, i, level, n, isEmpty, hasOther);
    AgreesLater(q, r.parts, i, k, r.index);
    FlatSizes(q, i, k);
    SkipShift(IsWhiteSpace, q, i);
    var c', i', k' := Requoted(q, c), i + q.cum[i], k + q.cum[k];
    EndAt(q);
    if k < |c.msg| { UnitAt(q, k); }
    PluralStep(c', t, i', level, n, isEmpty, hasOther);
    if k == |c.msg| || c.msg[k] == RIGHT_BRACE {
      assert AllShifted([], q.cum) == [];
    } else {
      TurnsShift(q, c, t, k, level, n, isEmpty, hasOther);
    }
  }

  /** The parts of a style lie behind the white space it starts with. */
  lemma PluralFrom(c: Context, t: ArgType, i: nat, level: nat, n: Count, isEmpty: bool, hasOther: bool)
    requires i <= |c.msg|
    ensures var r := PluralStyle(c, t, i, level, n, isEmpty, hasOther);
            r.Ok? ==> Placed(r.parts, Skip(IsWhiteSpace, c.msg, i), r.index, |c.msg|)
  {
    hide Turn, IsOther, Skip, Doubles, Placed, PluralStyle;
    PluralStep(c, t, i, level, n, isEmpty, hasOther);
    var r := PluralStyle(c, t, i, level, n, isEmpty, hasOther);
    var k := Skip(IsWhiteSpace, c.msg, i);
    PlacedNone(k, k, |c.msg|);
    if r.Ok? && k < |c.msg| && c.msg[k] != RIGHT_BRACE {
      var turn := Turn(c, t, k, level, n, isEmpty);
      var other := hasOther || IsOther(c, t, k, isEmpty, n);
      TurnPlaced(c, t, k, level, n, isEmpty);
      PluralStylePlaced(c, t, turn.index, level, Add(n, turn.parts), false, other);
      PlacedAppend(turn.parts, PluralStyle(c, t, turn.index, level, Add(n, turn.parts), false, other).parts,
                   k, turn.index, r.index, |c.msg|);
    }
  }

  lemma {:induction false} TurnsShift(q: Quoting, c: Context, t: ArgType, k: nat, level: nat, n: Count, isEmpty: bool,
                                      hasOther: bool)
    requires Valid(q) && q.msg == c.msg && k < |c.msg|
    requires var r := Turns(c, t, k, level, n, isEmpty, hasOther);
             r.Ok? && r.index <= |c.msg| && Agrees(q, r.parts, k, r.index)
    ensures |q.cum| == |c.msg| + 1 && k + q.cum[k] < |q.quoted|
    ensures ShiftsTo(q, Turns(c, t, k, level, n, isEmpty, hasOther),
                        Turns(Requoted(q, c), t, k + q.cum[k], level, n, isEmpty, hasOther))
    decreases |c.msg| - k, 4
  {
    hide Valid, Agrees, Turn, IsOther, Doubles, AllShifted, Flat, Placed, PluralStyle;
    var turn := Turn(c, t, k, level, n, isEmpty);
    var other := hasOther || IsOther(c, t, k, isEmpty, n);
    var n1 := Add(n, turn.parts);
    var rest := PluralStyle(c, t, turn.index, level, n1, false, other);
    TurnPlaced(c, t, k, level, n, isEmpty);
    PluralStylePlaced(c, t, turn.index, level, n1, false, other);
    AgreesSplit(q, turn.parts, rest.parts, k, turn.index, rest.index);
    TurnShift(q, c, t, k, level, n, isEmpty);
    TurnFirst(c, t, k, level, n, isEmpty);
    AddShifted(n, turn.parts, q.cum);
    PluralStyleShift(q, c, t, turn.index, level, n1, false, other);
    PrependShift(q, turn.parts, rest, PluralStyle(Requoted(q, c), t, turn.index + q.cum[turn.index], level, n1, false,
      other));
  }

  lemma SelectorNoInserts(c: Context, t: ArgType, i: nat, isEmpty: bool, doubles: nat)
    requires i < |c.msg|
    ensures var s := SelectorAt(c, t, i, isEmpty, doubles); !s.SelectorErr? ==> NoInserts(s.parts) && |s.parts| > 0
  {
    hide WordSelector, ExplicitSelector;
    WordNoInserts(c, t, i, isEmpty, doubles);
    ExplicitNoInserts(c, i, doubles);
  }

  lemma NumberNoInserts(c: Context, start: nat, limit: nat, allowInfinity: bool, doubles: nat)
    requires start < limit <= |c.msg|
    ensures var r := Number(c, start, limit, allowInfinity, doubles);
            r.Ok? ==> |r.parts| == 1 && r.parts[0].kind != InsertChar
  {
    hide Decimal, AllDigits;
  }

  lemma ExplicitNoInserts(c: Context, i: nat, doubles: nat)
    requires i < |c.msg|
    ensures var s := ExplicitSelector(c, i, doubles); !s.SelectorErr? ==> NoInserts(s.parts) && |s.parts| > 0
  {
    hide Skip, Number;
    var end := Skip(IsDoubleUnit, c.msg, i + 1);
    if end - i > 1 { NumberNoInserts(c, i + 1, end, false, doubles); }
  }

  lemma WordNoInserts(c: Context, t: ArgType, i: nat, isEmpty: bool, doubles: nat)
    requires i < |c.msg|
    ensures var s := WordSelector(c, t, i, isEmpty, doubles); !s.SelectorErr? ==> NoInserts(s.parts) && |s.parts| > 0
  {
    hide Skip, Number, IsOffsetWord, WordSelector;
    var end := Skip(IsIdentifierUnit, c.msg, i);
    WordStep(c, t, i, isEmpty, doubles, end);
    if IsOffsetWord(c, t, i, end) {
      var valueIndex := Skip(IsWhiteSpace, c.msg, end + 1);
      var valueEnd := Skip(IsDoubleUnit, c.msg, valueIndex);
      if valueIndex < valueEnd { NumberNoInserts(c, valueIndex, valueEnd, false, doubles); }
    }
  }

  lemma TurnFirst(c: Context, t: ArgType, k: nat, level: nat, n: Count, isEmpty: bool)
    requires k < |c.msg| && Turn(c, t, k, level, n, isEmpty).Ok?
    ensures var ps := Turn(c, t, k, level, n, isEmpty).parts; |ps| > 0 && ps[0].kind != InsertChar
  {
    hide SelectorAt, Message, Doubles;
    SelectorNoInserts(c, t, k, isEmpty, n.doubles);
  }

  lemma {:induction false} TurnShift(q: Quoting, c: Context, t: ArgType, k: nat, level: nat, n: Count, isEmpty: bool)
    requires Valid(q) && q.msg == c.msg && k < |c.msg|
    requires var r := Turn(c, t, k, level, n, isEmpty); r.Ok? && Agrees(q, r.parts, k, r.index)
    ensures |q.cum| == |c.msg| + 1 && k + q.cum[k] < |q.quoted|
    ensures ShiftsTo(q, Turn(c, t, k, level, n, isEmpty), Turn(Requoted(q, c), t, k + q.cum[k], level, n, isEmpty))
    ensures IsOther(Requoted(q, c), t, k + q.cum[k], isEmpty, n) == IsOther(c, t, k, isEmpty, n)
    decreases |c.msg| - k, 3
  {
    hide Valid, Agrees, SelectorAt, Message, Doubles, AllShifted, AllMoved, Flat, Placed, NoInserts;
    var s := SelectorAt(c, t, k, isEmpty, n.doubles);
    var r := Turn(c, t, k, level, n, isEmpty);
    SelectorPlaced(c, t, k, isEmpty, n.doubles);
    SelectorNoInserts(c, t, k, isEmpty, n.doubles);
    if s.Offset? {
      AgreesFlat(q, s.parts, k, s.index);
      FlatSizes(q, k, s.index);
      SelectorMoves(q, c, t, k, isEmpty, n.doubles);
      MovedIsShifted(q, s.parts, k, s.index);
    } else {
      KeywordShift(q, c, t, k, level, n, isEmpty);
    }
  }

  lemma {:induction false} KeywordShift(q: Quoting, c: Context, t: ArgType, k: nat, level: nat, n: Count, isEmpty: bool)
    requires Valid(q) && q.msg == c.msg && k < |c.msg| && SelectorAt(c, t, k, isEmpty, n.doubles).Keyword?
    requires var r := Turn(c, t, k, level, n, isEmpty); r.Ok? && Agrees(q, r.parts, k, r.index)
    ensures |q.cum| == |c.msg| + 1 && k + q.cum[k] < |q.quoted|
    ensures ShiftsTo(q, Turn(c, t, k, level, n, isEmpty), Turn(Requoted(q, c), t, k + q.cum[k], level, n, isEmpty))
    ensures IsOther(Requoted(q, c), t, k + q.cum[k], isEmpty, n) == IsOther(c, t, k, isEmpty, n)
    decreases |c.msg| - k, 2
  {
    hide Valid, Agrees, SelectorAt, Message, Doubles, AllShifted, AllMoved, Flat, Placed, NoInserts, ShiftsTo, Add;
    var s := SelectorAt(c, t, k, isEmpty, n.doubles);
    SelectorPlaced(c, t, k, isEmpty, n.doubles);
    SelectorNoInserts(c, t, k, isEmpty, n.doubles);
    var n1 := Add(n, s.parts);
    var m := Message(c, s.index, 1, level + 1, t, n1);
    MessagePlaced(c, s.index, 1, level + 1, t, n1);
    AgreesSplitFlat(q, s.parts, m.parts, k, s.index, m.index);
    FlatSizes(q, k, s.index);
    SelectorMoves(q, c, t, k, isEmpty, n.doubles);
    MovedIsShifted(q, s.parts, k, s.index);
    MessageShift(q, c, s.index, 1, level + 1, t, n1);
    NotFirstInsert(s.parts);
    AddShifted(n, s.parts, q.cum);
    PrependShift(q, s.parts, m, Message(Requoted(q, c), s.index + q.cum[k], 1, level + 1, t, n1));
  }
}
