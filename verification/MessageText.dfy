/**
  Reading a message back from its parts: appendSubMessageWithoutSkipSyntax() and appendReducedApostrophes()
  of source/common/messagepattern.cpp.
 */
module MessageText {
  import opened Basics
  import opened MessageModel
  import opened MessageSpec
  import opened MessagePlaces
  import opened MessageNesting
  import opened MessageAutoQuote

  // ---------- every message in the parts list ----------

  /** Every MSG_START begins a message of the documented grammar that ends at its limit part. */
  ghost predicate AllMessages(ps: seq<Part>, base: int) {
    forall k :: 0 <= k < |ps| && ps[k].kind == MsgStart ==> IsMessageAt(ps, base, k)
  }

  ghost predicate IsMessageAt(ps: seq<Part>, base: int, k: int)
    requires 0 <= k < |ps|
  {
    var l := LimitOf(ps[k], base);
    k < l < |ps| && SomeMessage(ps[k..l + 1], base + k)
  }

  ghost predicate SomeMessage(ps: seq<Part>, base: int) {
    exists level: int, parent: ArgType :: MessageShape(ps, base, level, parent)
  }

  lemma MessagesAppend(a: seq<Part>, b: seq<Part>, base: int)
    requires AllMessages(a, base) && AllMessages(b, base + |a|)
    ensures AllMessages(a + b, base)
  {
    hide SomeMessage;
    var ps := a + b;
    forall k | 0 <= k < |ps| && ps[k].kind == MsgStart
      ensures IsMessageAt(ps, base, k)
    {
      var l := LimitOf(ps[k], base);
      if k < |a| {
        assert a[k] == ps[k] && IsMessageAt(a, base, k);
        Longer(a, b, k, l + 1);
      } else {
        var n := |a|;
        assert b[k - n] == ps[k] && IsMessageAt(b, base + n, k - n);
        assert LimitOf(b[k - n], base + n) == l - n && l - n < |b|;
        Tail(a, b, k - n, l - n + 1);
      }
    }
  }

  lemma Tail(a: seq<Part>, b: seq<Part>, i: int, j: int)
    requires 0 <= i <= j <= |b|
    ensures (a + b)[|a| + i..|a| + j] == b[i..j]
  {
    var x, y := (a + b)[|a| + i..|a| + j], b[i..j];
    assert |x| == |y| && forall k :: 0 <= k < |x| ==> x[k] == y[k];
  }

  lemma MessagesWrap(s: Part, inner: seq<Part>, l: Part, base: int)
    requires AllMessages(inner, base + 1) && l.kind != MsgStart
    requires s.kind == MsgStart ==>
               LimitOf(s, base) == |inner| + 1 && SomeMessage([s] + inner + [l], base)
    ensures AllMessages([s] + inner + [l], base)
  {
    hide SomeMessage;
    var ps := [s] + inner + [l];
    forall k | 0 <= k < |ps| && ps[k].kind == MsgStart
      ensures IsMessageAt(ps, base, k)
    {
      var e := LimitOf(ps[k], base);
      if k == 0 {
        assert ps[0..e + 1] == ps;
      } else {
        assert inner[k - 1] == ps[k] && IsMessageAt(inner, base + 1, k - 1);
        assert ps[k..e + 1] == inner[k - 1..e];
      }
    }
  }

  lemma NoMessages(ps: seq<Part>, base: int)
    requires forall k :: 0 <= k < |ps| ==> ps[k].kind != MsgStart
    ensures AllMessages(ps, base)
  {
  }

  lemma {:induction false} MessagesInMessage(ps: seq<Part>, base: int, level: int, parent: ArgType)
    requires MessageShape(ps, base, level, parent)
    ensures AllMessages(ps, base)
    decreases |ps|, 2
  {
    hide ItemsShape, AllMessages;
    var inner := ps[1..|ps| - 1];
    assert ps == [ps[0]] + inner + [ps[|ps| - 1]];
    MessagesInItems(inner, base + 1, level, parent);
    MessagesWrap(ps[0], inner, ps[|ps| - 1], base);
  }

  lemma {:induction false} MessagesInItems(ps: seq<Part>, base: int, level: int, parent: ArgType)
    requires ItemsShape(ps, base, level, parent)
    ensures AllMessages(ps, base)
    decreases |ps|, 1
  {
    hide ArgumentShape, AllMessages, ItemsShape;
    if |ps| == 0 {
      NoMessages(ps, base);
    } else {
      var l := FirstItem(ps, base, level, parent);
      if IsLeaf(ps[0], parent) && l == 1 {
        NoMessages(ps[..l], base);
      } else {
        MessagesInArgument(ps[..l], base, level);
      }
      MessagesInItems(ps[l..], base + l, level, parent);
      MessagesAppend(ps[..l], ps[l..], base);
      assert ps == ps[..l] + ps[l..];
    }
  }

  /** The first item is one leaf, or an argument. */
  lemma FirstItem(ps: seq<Part>, base: int, level: int, parent: ArgType) returns (l: int)
    requires |ps| > 0 && ItemsShape(ps, base, level, parent)
    ensures 0 < l <= |ps| && ItemsShape(ps[l..], base + l, level, parent)
    ensures (IsLeaf(ps[0], parent) && l == 1) || (ArgumentShape(ps[..l], base, level) && l < |ps| + 1)
  {
    hide ArgumentShape;
    if IsLeaf(ps[0], parent) && ItemsShape(ps[1..], base + 1, level, parent) {
      l := 1;
    } else {
      l := LimitOf(ps[0], base) + 1;
    }
  }

  lemma Cuts(ps: seq<Part>, m: int, l: int)
    requires 0 <= m <= l <= |ps|
    ensures ps == ps[..m] + (ps[m..l] + ps[l..])
  {
  }

  lemma {:induction false} MessagesInArgument(ps: seq<Part>, base: int, level: int)
    requires ArgumentShape(ps, base, level)
    ensures AllMessages(ps, base)
    decreases |ps|, 0
  {
    hide StyleShape, AllMessages;
    var t: ArgType :| ps[0].value == Ordinal(t) && StyleShape(ps[2..|ps| - 1], base + 2, level, t);
    var style := ps[2..|ps| - 1];
    MessagesInStyle(style, base + 2, level, t);
    NoMessages([ps[1]], base + 1);
    MessagesAppend([ps[1]], style, base + 1);
    MessagesWrap(ps[0], [ps[1]] + style, ps[|ps| - 1], base);
    assert ps == [ps[0]] + ([ps[1]] + style) + [ps[|ps| - 1]];
  }

  lemma {:induction false} MessagesInStyle(ps: seq<Part>, base: int, level: int, t: ArgType)
    requires StyleShape(ps, base, level, t)
    ensures AllMessages(ps, base)
    decreases |ps|, 4
  {
    hide ChoiceShape, PairsShape, AllMessages;
    if t == ChoiceArg {
      MessagesInChoice(ps, base, level);
    } else if t != NoArg && t != SimpleArg {
      MessagesInPlural(ps, base, level, t);
    } else {
      NoMessages(ps, base);
    }
  }

  lemma {:induction false} MessagesInPlural(ps: seq<Part>, base: int, level: int, t: ArgType)
    requires PluralShape(ps, base, level, t)
    ensures AllMessages(ps, base)
    decreases |ps|, 3
  {
    hide PairsShape, AllMessages;
    if HasPluralStyle(t) && IsNumber(ps[0]) {
      MessagesInPairs(ps[1..], base + 1, level, t);
      NoMessages([ps[0]], base);
      MessagesAppend([ps[0]], ps[1..], base);
      assert ps == [ps[0]] + ps[1..];
    } else {
      MessagesInPairs(ps, base, level, t);
    }
  }

  lemma {:induction false} MessagesInChoice(ps: seq<Part>, base: int, level: int)
    requires ChoiceShape(ps, base, level)
    ensures AllMessages(ps, base)
    decreases |ps|, 2
  {
    hide MessageShape, AllMessages;
    if |ps| == 0 {
      NoMessages(ps, base);
    } else {
      var l := LimitOf(ps[2], base) + 1;
      NoMessages(ps[..2], base);
      MessagesInMessage(ps[2..l], base + 2, level + 1, ChoiceArg);
      MessagesInChoice(ps[l..], base + l, level);
      MessagesAppend(ps[2..l], ps[l..], base + 2);
      MessagesAppend(ps[..2], ps[2..l] + ps[l..], base);
      Cuts(ps, 2, l);
    }
  }

  lemma {:induction false} MessagesInPairs(ps: seq<Part>, base: int, level: int, t: ArgType)
    requires PairsShape(ps, base, level, t)
    ensures AllMessages(ps, base)
    decreases |ps|, 2
  {
    hide MessageShape, AllMessages, PairsShape;
    if |ps| == 0 {
      NoMessages(ps, base);
    } else {
      PairsOpen(ps, base, level, t);
      var m := MessageStart(ps, t);
      var l := LimitOf(ps[m], base) + 1;
      NoMessages(ps[..m], base);
      MessagesInMessage(ps[m..l], base + m, level + 1, t);
      MessagesInPairs(ps[l..], base + l, level, t);
      MessagesAppend(ps[m..l], ps[l..], base + m);
      MessagesAppend(ps[..m], ps[m..l] + ps[l..], base);
      Cuts(ps, m, l);
    }
  }

  lemma ParseMessages(c: Context, entry: Entry, slot0: PartType)
    ensures var r := Parse(c, entry, slot0); r.Ok? ==> AllMessages(r.parts, 0)
  {
    hide Parse, MessageShape, ChoiceShape, PluralShape, AllMessages;
    ParseHasShape(c, entry, slot0);
    var r := Parse(c, entry, slot0);
    if r.Ok? {
      match entry
      case WholeMessage => MessagesInMessage(r.parts, 0, 0, NoArg);
      case TopChoice => MessagesInChoice(r.parts, 0, 0);
      case TopPlural => MessagesInPlural(r.parts, 0, 0, PluralArg);
      case TopSelect => MessagesInPlural(r.parts, 0, 0, SelectArg);
    }
  }

  // ---------- the visible pieces of a message ----------

  /** A unit of literal text, or an argument, named by its ARG_START. */
  datatype Piece = Text(u: Unit) | Arg(part: int)

  function Texts(msg: seq<Unit>, a: int, b: int): (r: seq<Piece>)
    ensures 0 <= a <= b <= |msg| ==> |r| == b - a && forall k :: 0 <= k < |r| ==> r[k] == Text(msg[a + k])
  {
    if 0 <= a <= b <= |msg| then seq(b - a, k requires 0 <= k < b - a => Text(msg[a + k])) else []
  }

  function LimitIndex(p: Part): int { p.index + p.length }

  /** What is left when syntax is skipped, from part i on, with msg[prev..] still to be copied. */
  function Visible(msg: seq<Unit>, ps: seq<Part>, i: int, prev: int): seq<Piece>
    decreases |ps| - i
  {
    if !(0 <= i < |ps|) then []
    else if ps[i].kind == MsgLimit then Texts(msg, prev, ps[i].index)
    else if ps[i].kind == SkipSyntax then Texts(msg, prev, ps[i].index) + Visible(msg, ps, i + 1, LimitIndex(ps[i]))
    else if ps[i].kind == ArgStart then
      var l := ps[i].limitPartIndex;
      if !(i < l < |ps|) then []
      else Texts(msg, prev, ps[i].index) + [Arg(i)] + Visible(msg, ps, l + 1, LimitIndex(ps[l]))
    else Visible(msg, ps, i + 1, prev)
  }

  /** Apostrophes in argument text: a pair stands for one, a single one is dropped. */
  function Reduced(s: seq<Unit>): seq<Unit> {
    if |s| == 0 then []
    else if s[0] != APOS then [s[0]] + Reduced(s[1..])
    else if |s| > 1 && s[1] == APOS then [APOS] + Reduced(s[2..])
    else Reduced(s[1..])
  }

  function ArgText(msg: seq<Unit>, ps: seq<Part>, k: int): seq<Unit> {
    if 0 <= k < |ps| && k < ps[k].limitPartIndex < |ps|
       && 0 <= ps[k].index <= LimitIndex(ps[ps[k].limitPartIndex]) <= |msg| then
      Reduced(msg[ps[k].index..LimitIndex(ps[ps[k].limitPartIndex])])
    else []
  }

  function Rendered(msg: seq<Unit>, ps: seq<Part>, pieces: seq<Piece>): seq<Unit> {
    if |pieces| == 0 then []
    else (match pieces[0] case Text(u) => [u] case Arg(k) => ArgText(msg, ps, k)) + Rendered(msg, ps, pieces[1..])
  }

  lemma {:induction false} RenderedAppend(msg: seq<Unit>, ps: seq<Part>, a: seq<Piece>, b: seq<Piece>)
    ensures Rendered(msg, ps, a + b) == Rendered(msg, ps, a) + Rendered(msg, ps, b)
    decreases |a|
  {
    if |a| == 0 {
      assert a + b == b;
    } else {
      assert (a + b)[1..] == a[1..] + b;
      RenderedAppend(msg, ps, a[1..], b);
    }
  }

  lemma {:induction false} RenderedTexts(msg: seq<Unit>, ps: seq<Part>, a: int, b: int)
    requires 0 <= a <= b <= |msg|
    ensures Rendered(msg, ps, Texts(msg, a, b)) == msg[a..b]
    decreases b - a
  {
    if a < b {
      assert Texts(msg, a, b)[1..] == Texts(msg, a + 1, b);
      RenderedTexts(msg, ps, a + 1, b);
      assert msg[a..b] == [msg[a]] + msg[a + 1..b];
    }
  }

  // ---------- the loops ----------

  /** appendReducedApostrophes(s, start, limit, sb) */
  method AppendReducedApostrophes(s: seq<Unit>, start0: nat, limit: nat, sb: seq<Unit>) returns (out: seq<Unit>)
    requires start0 <= limit <= |s|
    ensures out == sb + Reduced(s[start0..limit])
  {
    hide Skip, Reduced, ReducedAfter;
    var start := start0;
    var doubleApos := -1;
    out := sb;
    ghost var goal := sb + Reduced(s[start0..limit]);
    NotAfter(s[start0..limit]);
    while true
      invariant start0 <= start <= limit
      invariant doubleApos == -1 || doubleApos == start
      invariant goal == out + ReducedAfter(s[start..limit], doubleApos == start)
      decreases limit - start, if doubleApos == start then 0 else 1
    {
      var i := Skip(NotApostrophe, s, start);
      if i >= limit {
        PlainReduced(s[start..limit], doubleApos == start);
        out := out + s[start..limit];
        break;
      }
      ReducedSplit(s, start, i, limit, doubleApos == start);
      if i == doubleApos {
        out := out + [APOS];
        start := start + 1;
        doubleApos := -1;
      } else {
        out := out + s[start..i];
        start := i + 1;
        doubleApos := start;
      }
    }
  }

  /** Reduced text when the unit before it was an apostrophe that was skipped as a first one. */
  function ReducedAfter(s: seq<Unit>, afterFirst: bool): seq<Unit> {
    if afterFirst && |s| > 0 && s[0] == APOS then [APOS] + Reduced(s[1..]) else Reduced(s)
  }

  lemma NotAfter(s: seq<Unit>)
    ensures ReducedAfter(s, false) == Reduced(s)
  {
  }

  lemma {:induction false} PlainReduced(s: seq<Unit>, afterFirst: bool)
    requires forall k :: 0 <= k < |s| ==> s[k] != APOS
    ensures ReducedAfter(s, afterFirst) == s
    decreases |s|
  {
    if |s| > 0 {
      PlainReduced(s[1..], false);
      assert s == [s[0]] + s[1..];
    }
  }

  lemma {:induction false} ReducedSplit(s: seq<Unit>, start: nat, i: nat, limit: nat, afterFirst: bool)
    requires start <= i < limit <= |s| && s[i] == APOS && forall k :: start <= k < i ==> s[k] != APOS
    ensures afterFirst && i == start ==>
              ReducedAfter(s[start..limit], afterFirst) == [APOS] + ReducedAfter(s[start + 1..limit], false)
    ensures !(afterFirst && i == start) ==>
              ReducedAfter(s[start..limit], afterFirst) == s[start..i] + ReducedAfter(s[i + 1..limit], true)
    decreases i - start
  {
    hide Reduced, ReducedAfter;
    var t := s[start..limit];
    assert t[1..] == s[start + 1..limit] && t[0] == s[start];
    NotAfter(t);
    NotAfter(t[1..]);
    if i == start {
      AtApostrophe(t);
      assert [] + ReducedAfter(t[1..], true) == ReducedAfter(t[1..], true);
    } else {
      AtPlain(t, afterFirst);
      ReducedSplit(s, start + 1, i, limit, false);
      assert s[start..i] == [s[start]] + s[start + 1..i];
      Reassociate([s[start]], s[start + 1..i], ReducedAfter(s[i + 1..limit], true));
    }
  }

  lemma Reassociate(a: seq<Unit>, b: seq<Unit>, c: seq<Unit>)
    ensures a + (b + c) == a + b + c
  {
  }

  lemma AtPlain(t: seq<Unit>, afterFirst: bool)
    requires |t| > 0 && t[0] != APOS
    ensures ReducedAfter(t, afterFirst) == [t[0]] + Reduced(t[1..])
  {
  }

  lemma AtApostrophe(t: seq<Unit>)
    requires |t| > 0 && t[0] == APOS
    ensures ReducedAfter(t, true) == [APOS] + Reduced(t[1..])
    ensures Reduced(t) == ReducedAfter(t[1..], true)
  {
    if |t| > 1 { assert t[1..][1..] == t[2..] && t[1..][0] == t[1]; }
  }

  /** From part i on only items of one message, up to its limit at l. */
  ghost predicate ItemsFrom(ps: seq<Part>, i: int, l: int) {
    && 0 <= i <= l < |ps| && ps[l].kind == MsgLimit
    && exists level: int, parent: ArgType :: ItemsShape(ps[i..l], i, level, parent)
  }

  lemma MessageItems(ps: seq<Part>, k: int)
    requires 0 <= k < |ps| && ps[k].kind == MsgStart && IsMessageAt(ps, 0, k)
    ensures k < ps[k].limitPartIndex < |ps| && ItemsFrom(ps, k + 1, ps[k].limitPartIndex)
  {
    hide ItemsShape;
    var l := ps[k].limitPartIndex;
    var m := ps[k..l + 1];
    var level: int, parent: ArgType :| MessageShape(m, k, level, parent);
    Inner(ps, k, l);
    assert m[|m| - 1] == ps[l];
    assert ItemsShape(ps[k + 1..l], k + 1, level, parent);
  }

  lemma Inner(ps: seq<Part>, k: int, l: int)
    requires 0 <= k < l < |ps|
    ensures ps[k..l + 1][1..|ps[k..l + 1]| - 1] == ps[k + 1..l]
  {
    var m := ps[k..l + 1];
    var a, b := m[1..|m| - 1], ps[k + 1..l];
    assert |a| == |b|;
    assert forall i :: 0 <= i < |a| ==> a[i] == m[i + 1] && m[i + 1] == ps[k + i + 1] && b[i] == ps[k + 1 + i];
  }

  /** One step of reading items: a leaf, or a whole argument. */
  lemma NextItem(ps: seq<Part>, i: int, l: int)
    requires ItemsFrom(ps, i, l) && i < l
    ensures ps[i].kind != MsgLimit
    ensures ps[i].kind == ArgStart ==>
              && i < ps[i].limitPartIndex < l && ps[ps[i].limitPartIndex].kind == ArgLimit
              && ItemsFrom(ps, ps[i].limitPartIndex + 1, l)
    ensures ps[i].kind != ArgStart ==>
              ItemsFrom(ps, i + 1, l) && (ps[i].kind == SkipSyntax || ps[i].kind == InsertChar
                || ps[i].kind == ReplaceNumber)
  {
    var items := ps[i..l];
    var level: int, parent: ArgType :| ItemsShape(items, i, level, parent);
    assert items[0] == ps[i];
    if IsLeaf(items[0], parent) && ItemsShape(items[1..], i + 1, level, parent) {
      assert items[1..] == ps[i + 1..l];
    } else {
      var e := LimitOf(items[0], i) + 1;
      ArgumentEnds(items[..e], i, level);
      assert items[e..] == ps[i + e..l];
      assert items[..e][e - 1] == ps[i + e - 1];
      assert i + e == ps[i].limitPartIndex + 1;
      assert ItemsShape(ps[ps[i].limitPartIndex + 1..l], ps[i].limitPartIndex + 1, level, parent);
    }
  }

  lemma ArgumentEnds(ps: seq<Part>, base: int, level: int)
    requires ArgumentShape(ps, base, level)
    ensures |ps| >= 3 && ps[0].kind == ArgStart && ps[|ps| - 1].kind == ArgLimit && LimitOf(ps[0], base) == |ps| - 1
  {
  }

  /** One step of Visible. */
  lemma VisibleStep(msg: seq<Unit>, ps: seq<Part>, i: int, prev: int)
    requires 0 <= i < |ps|
    ensures ps[i].kind == MsgLimit ==> Visible(msg, ps, i, prev) == Texts(msg, prev, ps[i].index)
    ensures ps[i].kind == SkipSyntax ==>
              Visible(msg, ps, i, prev) == Texts(msg, prev, ps[i].index) + Visible(msg, ps, i + 1, LimitIndex(ps[i]))
    ensures ps[i].kind == ArgStart && i < ps[i].limitPartIndex < |ps| ==>
              var l := ps[i].limitPartIndex;
              Visible(msg, ps, i, prev) == Texts(msg, prev, ps[i].index) + [Arg(i)]
                + Visible(msg, ps, l + 1, LimitIndex(ps[l]))
    ensures ps[i].kind != MsgLimit && ps[i].kind != SkipSyntax && ps[i].kind != ArgStart ==>
              Visible(msg, ps, i, prev) == Visible(msg, ps, i + 1, prev)
  {
  }

  lemma ArgStep(msg: seq<Unit>, ps: seq<Part>, i: int, prev: int)
    requires 0 <= i < |ps| && ps[i].kind == ArgStart && i < ps[i].limitPartIndex < |ps|
    requires 0 <= prev <= ps[i].index <= LimitIndex(ps[ps[i].limitPartIndex]) <= |msg|
    ensures var l := ps[i].limitPartIndex;
            Rendered(msg, ps, Visible(msg, ps, i, prev))
            == msg[prev..ps[i].index] + Reduced(msg[ps[i].index..LimitIndex(ps[l])])
               + Rendered(msg, ps, Visible(msg, ps, l + 1, LimitIndex(ps[l])))
  {
    hide Visible, Reduced;
    var l := ps[i].limitPartIndex;
    VisibleStep(msg, ps, i, prev);
    var t, rest := Texts(msg, prev, ps[i].index), Visible(msg, ps, l + 1, LimitIndex(ps[l]));
    RenderedAppend(msg, ps, t + [Arg(i)], rest);
    RenderedAppend(msg, ps, t, [Arg(i)]);
    RenderedTexts(msg, ps, prev, ps[i].index);
    assert Rendered(msg, ps, [Arg(i)]) == ArgText(msg, ps, i);
  }

  lemma StopsAtLimit(ps: seq<Part>, i: int, l: int)
    requires ItemsFrom(ps, i, l)
    ensures 0 <= i <= l < |ps| && ps[l].kind == MsgLimit
    ensures ps[i].kind == MsgLimit <==> i == l
  {
    if i < l { NextItem(ps, i, l); }
  }

  /** Facts about the places of part i and of a later part. */
  lemma Places(msg: seq<Unit>, ps: seq<Part>, hi: int, i: int, j: int)
    requires Placed(ps, 0, hi, |msg|) && 0 <= i < |ps|
    ensures 0 <= ps[i].index <= LimitIndex(ps[i]) <= |msg|
    ensures i < j < |ps| ==> ps[i].index <= ps[j].index && (IsSolid(ps[i]) ==> LimitIndex(ps[i]) <= ps[j].index)
  {
  }

  /**
    appendSubMessageWithoutSkipSyntax(): appends the message that starts at part msgStart; the loop stops
    exactly at the limit part of that message.
   */
  method AppendSubMessageWithoutSkipSyntax(msg: seq<Unit>, ps: seq<Part>, msgStart: nat, result: seq<Unit>,
                                           ghost hi: int)
    returns (out: seq<Unit>, stop: nat)
    requires Placed(ps, 0, hi, |msg|) && msgStart < |ps| && ps[msgStart].kind == MsgStart
             && IsMessageAt(ps, 0, msgStart)
    ensures stop == ps[msgStart].limitPartIndex
    ensures out == result + Rendered(msg, ps, Visible(msg, ps, msgStart + 1, LimitIndex(ps[msgStart])))
  {
    hide Visible, Rendered, ItemsFrom, IsMessageAt, Placed, Reduced;
    MessageItems(ps, msgStart);
    ghost var l := ps[msgStart].limitPartIndex;
    Places(msg, ps, hi, msgStart, msgStart + 1);
    var prevIndex := LimitIndex(ps[msgStart]);
    var i := msgStart;
    out := result;
    ghost var goal := result + Rendered(msg, ps, Visible(msg, ps, msgStart + 1, prevIndex));
    StopsAtLimit(ps, msgStart + 1, l);
    while true
      invariant msgStart <= i < l < |ps| && ItemsFrom(ps, i + 1, l)
      invariant 0 <= prevIndex <= ps[i + 1].index
      invariant goal == out + Rendered(msg, ps, Visible(msg, ps, i + 1, prevIndex))
      decreases l - i
    {
      i := i + 1;
      var part := ps[i];
      NextPlaces(msg, ps, hi, i, l);
      RenderStep(msg, ps, i, prevIndex);
      if part.kind == MsgLimit {
        out := out + msg[prevIndex..part.index];
        stop := i;
        return;
      }
      if part.kind == SkipSyntax {
        Later(out, msg[prevIndex..part.index], Rendered(msg, ps, Visible(msg, ps, i + 1, LimitIndex(part))));
        out := out + msg[prevIndex..part.index];
        prevIndex := LimitIndex(part);
      } else if part.kind == ArgStart {
        var argLimit := part.limitPartIndex;
        var index := LimitIndex(ps[argLimit]);
        ghost var rest := Rendered(msg, ps, Visible(msg, ps, argLimit + 1, index));
        Later(out, msg[prevIndex..part.index], Reduced(msg[part.index..index]) + rest);
        out := out + msg[prevIndex..part.index];
        prevIndex := part.index;
        i := argLimit;
        Later(out, Reduced(msg[prevIndex..index]), rest);
        out := AppendReducedApostrophes(msg, prevIndex, index, out);
        prevIndex := index;
      }
    }
  }

  lemma Later(a: seq<Unit>, b: seq<Unit>, c: seq<Unit>)
    ensures a + (b + c) == (a + b) + c
  {
  }

  /** Where the part at i, up to the limit l of its message, and the one behind it stand. */
  lemma NextPlaces(msg: seq<Unit>, ps: seq<Part>, hi: int, i: int, l: int)
    requires Placed(ps, 0, hi, |msg|) && ItemsFrom(ps, i, l)
    ensures 0 <= i <= l < |ps| && 0 <= ps[i].index <= LimitIndex(ps[i]) <= |msg| && (ps[i].kind == MsgLimit <==> i == l)
    ensures i < l && ps[i].kind == ArgStart ==>
              var j := ps[i].limitPartIndex;
              && i < j < l && ItemsFrom(ps, j + 1, l)
              && ps[i].index <= LimitIndex(ps[j]) <= ps[j + 1].index && LimitIndex(ps[j]) <= |msg|
    ensures i < l && ps[i].kind != ArgStart ==>
              && ItemsFrom(ps, i + 1, l) && ps[i].index <= ps[i + 1].index
              && (ps[i].kind == SkipSyntax ==> LimitIndex(ps[i]) <= ps[i + 1].index)
  {
    hide ItemsFrom, Placed;
    StopsAtLimit(ps, i, l);
    Places(msg, ps, hi, i, i + 1);
    if i < l {
      NextItem(ps, i, l);
      if ps[i].kind == ArgStart {
        var j := ps[i].limitPartIndex;
        Places(msg, ps, hi, i, j);
        Places(msg, ps, hi, j, j + 1);
      }
    }
  }

  /** One step of the rendered text. */
  lemma RenderStep(msg: seq<Unit>, ps: seq<Part>, i: int, prev: int)
    requires 0 <= i < |ps| && 0 <= prev <= ps[i].index <= |msg|
    ensures ps[i].kind == MsgLimit ==> Rendered(msg, ps, Visible(msg, ps, i, prev)) == msg[prev..ps[i].index]
    ensures ps[i].kind == SkipSyntax ==>
              Rendered(msg, ps, Visible(msg, ps, i, prev))
              == msg[prev..ps[i].index] + Rendered(msg, ps, Visible(msg, ps, i + 1, LimitIndex(ps[i])))
    ensures ps[i].kind == ArgStart && i < ps[i].limitPartIndex < |ps|
            && ps[i].index <= LimitIndex(ps[ps[i].limitPartIndex]) <= |msg| ==>
              var l := ps[i].limitPartIndex;
              Rendered(msg, ps, Visible(msg, ps, i, prev))
              == msg[prev..ps[i].index] + (Reduced(msg[ps[i].index..LimitIndex(ps[l])])
                 + Rendered(msg, ps, Visible(msg, ps, l + 1, LimitIndex(ps[l]))))
    ensures ps[i].kind != MsgLimit && ps[i].kind != SkipSyntax && ps[i].kind != ArgStart ==>
              Visible(msg, ps, i, prev) == Visible(msg, ps, i + 1, prev)
  {
    hide Visible, Rendered, Reduced, Texts;
    VisibleStep(msg, ps, i, prev);
    RenderedTexts(msg, ps, prev, ps[i].index);
    if ps[i].kind == SkipSyntax {
      RenderedAppend(msg, ps, Texts(msg, prev, ps[i].index), Visible(msg, ps, i + 1, LimitIndex(ps[i])));
    } else if ps[i].kind == ArgStart && i < ps[i].limitPartIndex < |ps|
              && ps[i].index <= LimitIndex(ps[ps[i].limitPartIndex]) <= |msg| {
      var l := ps[i].limitPartIndex;
      ArgStep(msg, ps, i, prev);
      Later(msg[prev..ps[i].index], Reduced(msg[ps[i].index..LimitIndex(ps[l])]),
            Rendered(msg, ps, Visible(msg, ps, l + 1, LimitIndex(ps[l]))));
    }
  }

  // ---------- auto-quoting keeps the literal text ----------

  lemma TextsSplit(msg: seq<Unit>, a: int, x: int, b: int)
    requires 0 <= a <= x <= b <= |msg|
    ensures Texts(msg, a, b) == Texts(msg, a, x) + Texts(msg, x, b)
  {
  }

  /** Text before the next part may be copied now or later. */
  lemma {:induction false} CopyEarly(msg: seq<Unit>, ps: seq<Part>, hi: int, i: int, l: int, prev: int, x: int)
    requires Placed(ps, 0, hi, |msg|) && ItemsFrom(ps, i, l) && 0 <= prev <= x <= ps[i].index
    ensures Visible(msg, ps, i, prev) == Texts(msg, prev, x) + Visible(msg, ps, i, x)
    decreases l - i
  {
    hide Placed, ItemsFrom, Visible, Texts;
    StopsAtLimit(ps, i, l);
    VisibleStep(msg, ps, i, prev);
    VisibleStep(msg, ps, i, x);
    Places(msg, ps, hi, i, i + 1);
    TextsSplit(msg, prev, x, ps[i].index);
    if i < l {
      NextItem(ps, i, l);
      if ps[i].kind != SkipSyntax && ps[i].kind != ArgStart {
        CopyEarly(msg, ps, hi, i + 1, l, prev, x);
      }
    }
  }

  /** ps2 and quoted are the parts and text after auto-quoting. */
  ghost predicate Twin(msg: seq<Unit>, ps: seq<Part>, quoted: seq<Unit>, ps2: seq<Part>) {
    && |ps2| == |ps| && (forall k :: 0 <= k < |ps| ==> ps2[k] == Reparsed(ps, k))
    && Located(msg, quoted, ps)
  }

  /** Every insertion among the first i parts stands at or before x. */
  ghost predicate InsertedBy(ps: seq<Part>, i: int, x: int) {
    forall j :: 0 <= j < i && j < |ps| && ps[j].kind == InsertChar ==> ps[j].index <= x
  }

  lemma UnitKept(msg: seq<Unit>, ps: seq<Part>, hi: int, quoted: seq<Unit>, i: int, prev: int, x: int)
    requires Placed(ps, 0, hi, |msg|) && hi <= |msg| && Located(msg, quoted, ps)
    requires 0 <= i < |ps| && 0 <= prev <= x < ps[i].index && InsertedBy(ps, i, prev)
    ensures var d := InsertCount(ps[..i]); x < |msg| && x + d < |quoted| && quoted[x + d] == msg[x]
  {
    hide CountInserts, InsertCount;
    assert InPlace(ps[i], 0, hi, |msg|);
    CountPrefix(ps, i, x);
  }

  lemma RoomKept(msg: seq<Unit>, ps: seq<Part>, hi: int, quoted: seq<Unit>, i: int)
    requires Placed(ps, 0, hi, |msg|) && hi <= |msg| && Located(msg, quoted, ps) && 0 <= i < |ps|
    ensures 0 <= ps[i].index <= |msg| && ps[i].index + InsertCount(ps[..i]) <= |quoted|
  {
    hide CountInserts, InsertCount;
    assert InPlace(ps[i], 0, hi, |msg|);
    CountAtLeast(ps, i, |msg|);
  }

  /** Between the insertions before part i and part i itself the two texts are the same. */
  lemma SameGap(msg: seq<Unit>, ps: seq<Part>, hi: int, quoted: seq<Unit>, i: int, prev: int)
    requires Placed(ps, 0, hi, |msg|) && hi <= |msg| && Located(msg, quoted, ps)
    requires 0 <= i < |ps| && 0 <= prev <= ps[i].index && InsertedBy(ps, i, prev)
    ensures var d := InsertCount(ps[..i]); Texts(quoted, prev + d, ps[i].index + d) == Texts(msg, prev, ps[i].index)
  {
    hide CountInserts, InsertCount, Placed, Located, InsertedBy;
    var d, e := InsertCount(ps[..i]), ps[i].index;
    RoomKept(msg, ps, hi, quoted, i);
    forall x | prev <= x < e
      ensures x + d < |quoted| && quoted[x + d] == msg[x]
    {
      UnitKept(msg, ps, hi, quoted, i, prev, x);
    }
    var ta, tb := Texts(quoted, prev + d, e + d), Texts(msg, prev, e);
    forall y | 0 <= y < e - prev
      ensures ta[y] == tb[y]
    {
      var x := prev + y;
      assert quoted[x + d] == msg[x];
    }
  }

  lemma {:induction false} CountAtLeast(ps: seq<Part>, i: int, n: int)
    requires 0 <= i <= |ps| && InsertedBy(ps, i, n)
    ensures InsertCount(ps[..i]) <= CountInserts(ps, n)
    decreases |ps|
  {
    if |ps| > 0 {
      var init := ps[..|ps| - 1];
      if i == |ps| {
        CountAtLeast(init, i - 1, n);
        assert ps[..i][..i - 1] == init[..i - 1];
      } else {
        CountAtLeast(init, i, n);
        assert ps[..i] == init[..i];
      }
    }
  }

  lemma InsertsPassed(ps: seq<Part>, hi: int, n: int, i: int)
    requires Placed(ps, 0, hi, n) && 0 <= i < |ps|
    ensures InsertedBy(ps, i + 1, LimitIndex(ps[i]))
    ensures ps[i].kind == InsertChar ==> ps[i].length == 0
  {
    assert InPlace(ps[i], 0, hi, n);
  }

  lemma {:induction false} VisibleKept(msg: seq<Unit>, ps: seq<Part>, hi: int, quoted: seq<Unit>, ps2: seq<Part>,
                                       i: int, l: int, prev: int)
    requires Placed(ps, 0, hi, |msg|) && hi <= |msg| && Twin(msg, ps, quoted, ps2)
    requires ItemsFrom(ps, i, l) && 0 <= prev <= ps[i].index && InsertedBy(ps, i, prev)
    ensures Visible(quoted, ps2, i, prev + InsertCount(ps[..i])) == Visible(msg, ps, i, prev)
    decreases l - i
  {
    hide Placed, ItemsFrom, Visible, Texts, InsertCount, Located, InsertedBy;
    StopsAtLimit(ps, i, l);
    var d := InsertCount(ps[..i]);
    VisibleStep(msg, ps, i, prev);
    VisibleStep(quoted, ps2, i, prev + d);
    SameGap(msg, ps, hi, quoted, i, prev);
    Places(msg, ps, hi, i, i + 1);
    InsertsPassed(ps, hi, |msg|, i);
    if i < l {
      OneMore(ps, i);
      NextItem(ps, i, l);
      if ps[i].kind == ArgStart {
        ArgumentKept(msg, ps, hi, quoted, ps2, i, l);
      } else if ps[i].kind == InsertChar {
        CopyEarly(msg, ps, hi, i + 1, l, prev, ps[i].index);
        VisibleKept(msg, ps, hi, quoted, ps2, i + 1, l, ps[i].index);
      } else if ps[i].kind == SkipSyntax {
        VisibleKept(msg, ps, hi, quoted, ps2, i + 1, l, LimitIndex(ps[i]));
      } else {
        NumberKept(ps, i, prev);
        VisibleKept(msg, ps, hi, quoted, ps2, i + 1, l, prev);
      }
    }
  }

  lemma NumberKept(ps: seq<Part>, i: int, prev: int)
    requires 0 <= i < |ps| && ps[i].kind != InsertChar && InsertedBy(ps, i, prev)
    ensures InsertedBy(ps, i + 1, prev)
  {
  }

  /** After the argument at i the message goes on, and is kept. */
  lemma {:induction false} ArgumentKept(msg: seq<Unit>, ps: seq<Part>, hi: int, quoted: seq<Unit>, ps2: seq<Part>,
                                        i: int, l: int)
    requires Placed(ps, 0, hi, |msg|) && hi <= |msg| && Twin(msg, ps, quoted, ps2)
    requires 0 <= i < l < |ps| && ps[i].kind == ArgStart && i < ps[i].limitPartIndex < l
    requires ItemsFrom(ps, ps[i].limitPartIndex + 1, l) && ps[ps[i].limitPartIndex].kind == ArgLimit
    ensures var e := ps[i].limitPartIndex;
            Visible(quoted, ps2, e + 1, LimitIndex(ps2[e])) == Visible(msg, ps, e + 1, LimitIndex(ps[e]))
    decreases l - i, 0
  {
    hide Placed, ItemsFrom, Visible, Texts, InsertCount, Located, InsertedBy;
    var e := ps[i].limitPartIndex;
    OneMore(ps, e);
    Places(msg, ps, hi, e, e + 1);
    InsertsPassed(ps, hi, |msg|, e);
    VisibleKept(msg, ps, hi, quoted, ps2, e + 1, l, LimitIndex(ps[e]));
  }

  /**
    Auto-quoting keeps what every message and sub-message says: the literal units and the arguments that
    remain when syntax is skipped are the same, in the same order, before and after.
   */
  lemma LiteralTextKept(c: Context, entry: Entry, slot0: PartType, slot0': PartType, k: nat)
    requires Parse(c, entry, slot0).Ok?
    requires var ps := Parse(c, entry, slot0).parts; k < |ps| && ps[k].kind == MsgStart
    ensures var ps := Parse(c, entry, slot0).parts;
            var quoted := InsertAll(c.msg, ps);
            var r := Parse(Context(quoted, DoubleRequired, c.isNumber), entry, slot0');
            && r.Ok? && k < |r.parts|
            && Visible(quoted, r.parts, k + 1, LimitIndex(r.parts[k])) == Visible(c.msg, ps, k + 1, LimitIndex(ps[k]))
  {
    hide Parse, InsertAll, Placed, Located, Visible, IsMessageAt, ItemsFrom, InsertCount, InsertedBy;
    var r := Parse(c, entry, slot0);
    var ps := r.parts;
    var quoted := InsertAll(c.msg, ps);
    AutoQuoteSound(c, entry, slot0, slot0');
    var ps2 := Parse(Context(quoted, DoubleRequired, c.isNumber), entry, slot0').parts;
    ParseCoversText(c, entry, slot0);
    ParsePlaced(c, entry, slot0);
    PlacedInsertable(ps, r.index, |c.msg|);
    InsertAllLocated(c.msg, ps);
    ParseMessages(c, entry, slot0);
    MessageItems(ps, k);
    OneMore(ps, k);
    Places(c.msg, ps, r.index, k, k + 1);
    InsertsPassed(ps, r.index, |c.msg|, k);
    VisibleKept(c.msg, ps, r.index, quoted, ps2, k + 1, ps[k].limitPartIndex, LimitIndex(ps[k]));
  }
}
