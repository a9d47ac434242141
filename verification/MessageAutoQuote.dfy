/**
  The auto-quoted pattern: what autoQuoteApostropheDeep() builds, and what re-parsing it yields.
 */
module MessageAutoQuote {
  import opened Basics
  import opened MessageModel
  import opened MessageSpec
  import opened MessagePlaces
  import opened MessageQuoting
  import opened MessageReparse

  // ---------- inserting ----------

  /** text with the unit u inserted before index i */
  function Inserted(text: seq<Unit>, i: int, u: int): seq<Unit> {
    if 0 <= i <= |text| then text[..i] + [u % 0x10000] + text[i..] else text
  }

  /** The characters of all INSERT_CHAR parts inserted, last part first. */
  function InsertAll(text: seq<Unit>, ps: seq<Part>): seq<Unit>
    decreases |ps|
  {
    if |ps| == 0 then text
    else
      var p := ps[|ps| - 1];
      InsertAll(if p.kind == InsertChar then Inserted(text, p.index, p.value) else text, ps[..|ps| - 1])
  }

  /** How many INSERT_CHAR parts stand at k or before. */
  function CountInserts(ps: seq<Part>, k: int): nat {
    if |ps| == 0 then 0
    else CountInserts(ps[..|ps| - 1], k) + if ps[|ps| - 1].kind == InsertChar && ps[|ps| - 1].index <= k then 1 else 0
  }

  function Counts(ps: seq<Part>, n: nat): (r: seq<nat>)
    ensures |r| == n + 1 && forall k :: 0 <= k <= n ==> r[k] == CountInserts(ps, k)
  {
    seq(n + 1, k => CountInserts(ps, k))
  }

  /** Insertions are apostrophes, inside the text, at ascending places. */
  ghost predicate Insertable(ps: seq<Part>, n: int) {
    && (forall k :: 0 <= k < |ps| && ps[k].kind == InsertChar ==> 0 < ps[k].index <= n && ps[k].value == APOS)
    && (forall k, m :: 0 <= k < m < |ps| && ps[k].kind == InsertChar && ps[m].kind == InsertChar ==>
      ps[k].index < ps[m].index)
  }

  lemma {:induction false} CountMonotone(ps: seq<Part>, k: int, m: int)
    requires k <= m
    ensures CountInserts(ps, k) <= CountInserts(ps, m)
  {
    if |ps| > 0 { CountMonotone(ps[..|ps| - 1], k, m); }
  }

  lemma InsertsAtLast(ps: seq<Part>, p: int)
    requires |ps| > 0
    ensures InsertsAt(ps, p) <==>
              InsertsAt(ps[..|ps| - 1], p) || (ps[|ps| - 1].kind == InsertChar && ps[|ps| - 1].index == p)
  {
    var init := ps[..|ps| - 1];
    if InsertsAt(init, p) {
      var k :| 0 <= k < |init| && init[k].kind == InsertChar && init[k].index == p;
      assert ps[k].index == p;
    }
    if InsertsAt(ps, p) {
      var k :| 0 <= k < |ps| && ps[k].kind == InsertChar && ps[k].index == p;
      if k < |init| { assert init[k].index == p; }
    }
  }

  /** From one place to the next the count grows by one exactly where something is inserted. */
  lemma {:induction false} CountStep(ps: seq<Part>, n: int, p: int)
    requires Insertable(ps, n)
    ensures CountInserts(ps, p) == CountInserts(ps, p - 1) + (if InsertsAt(ps, p) then 1 else 0)
  {
    if |ps| > 0 {
      var init, last := ps[..|ps| - 1], ps[|ps| - 1];
      CountStep(init, n, p);
      InsertsAtLast(ps, p);
      assert last.kind == InsertChar && last.index == p ==> !InsertsAt(init, p);
    }
  }

  lemma {:induction false} NoneBefore(ps: seq<Part>, n: int, k: int)
    requires Insertable(ps, n) && k <= 0
    ensures CountInserts(ps, k) == 0
  {
    if |ps| > 0 { NoneBefore(ps[..|ps| - 1], n, k); }
  }

  /** All insertions of ps stand before p. */
  lemma {:induction false} AllBefore(ps: seq<Part>, p: int, k: int, m: int)
    requires forall j :: 0 <= j < |ps| && ps[j].kind == InsertChar ==> ps[j].index < p
    requires k >= p - 1 && m >= p - 1
    ensures CountInserts(ps, k) == CountInserts(ps, m)
  {
    if |ps| > 0 { AllBefore(ps[..|ps| - 1], p, k, m); }
  }

  /** Every unit of msg is found again after the insertions, and every inserted apostrophe at its place. */
  ghost predicate Located(msg: seq<Unit>, quoted: seq<Unit>, ps: seq<Part>) {
    && |quoted| == |msg| + CountInserts(ps, |msg|)
    && (forall k :: 0 <= k < |msg| ==> k + CountInserts(ps, k) < |quoted| && quoted[k + CountInserts(ps, k)] == msg[k])
    && (forall j :: 0 <= j < |ps| && ps[j].kind == InsertChar ==>
          var at := ps[j].index + CountInserts(ps, ps[j].index) - 1; 0 <= at < |quoted| && quoted[at] == APOS)
  }

  lemma {:induction false} InsertAllLocated(msg: seq<Unit>, ps: seq<Part>)
    requires Insertable(ps, |msg|)
    ensures Located(msg, InsertAll(msg, ps), ps)
    decreases |ps|
  {
    if |ps| > 0 {
      var init, last := ps[..|ps| - 1], ps[|ps| - 1];
      if last.kind != InsertChar {
        InsertAllLocated(msg, init);
        SkipLast(msg, InsertAll(msg, ps), ps);
      } else {
        var msg1 := Inserted(msg, last.index, APOS);
        InsertAllLocated(msg1, init);
        InsertLast(msg, InsertAll(msg, ps), ps);
      }
    }
  }

  lemma SkipLast(msg: seq<Unit>, quoted: seq<Unit>, ps: seq<Part>)
    requires |ps| > 0 && ps[|ps| - 1].kind != InsertChar && Located(msg, quoted, ps[..|ps| - 1])
    ensures Located(msg, quoted, ps)
  {
    var init := ps[..|ps| - 1];
    forall j | 0 <= j < |ps| && ps[j].kind == InsertChar
      ensures var at := ps[j].index + CountInserts(ps, ps[j].index) - 1; 0 <= at < |quoted| && quoted[at] == APOS
    {
      assert init[j] == ps[j];
    }
  }

  lemma InsertLast(msg: seq<Unit>, quoted: seq<Unit>, ps: seq<Part>)
    requires |ps| > 0 && ps[|ps| - 1].kind == InsertChar && Insertable(ps, |msg|)
    requires Located(Inserted(msg, ps[|ps| - 1].index, APOS), quoted, ps[..|ps| - 1])
    ensures Located(msg, quoted, ps)
  {
    hide CountInserts, Inserted;
    var init, p := ps[..|ps| - 1], ps[|ps| - 1].index;
    var msg1 := Inserted(msg, p, APOS);
    OneInserted(msg, p, APOS);
    LastCounts(ps, |msg|, |msg|);
    forall k | 0 <= k < |msg|
      ensures k + CountInserts(ps, k) < |quoted| && quoted[k + CountInserts(ps, k)] == msg[k]
    {
      LastCounts(ps, |msg|, k);
      if k < p { assert msg1[k] == msg[k]; } else { assert msg1[k + 1] == msg[k]; }
    }
    forall j | 0 <= j < |ps| && ps[j].kind == InsertChar
      ensures var at := ps[j].index + CountInserts(ps, ps[j].index) - 1; 0 <= at < |quoted| && quoted[at] == APOS
    {
      LastCounts(ps, |msg|, ps[j].index);
      if j < |init| {
        assert init[j] == ps[j];
      } else {
        assert msg1[p] == APOS;
      }
    }
  }

  lemma OneInserted(text: seq<Unit>, p: nat, u: Unit)
    requires p <= |text|
    ensures var t := Inserted(text, p, u);
            && |t| == |text| + 1 && t[p] == u && (forall k :: 0 <= k < p ==> t[k] == text[k])
            && forall k :: p <= k < |text| ==> t[k + 1] == text[k]
  {
  }

  /** The last insertion, at p, counts from p on; before it the count is that of the others, which ends at p. */
  lemma LastCounts(ps: seq<Part>, n: nat, k: int)
    requires |ps| > 0 && ps[|ps| - 1].kind == InsertChar && Insertable(ps, n)
    ensures var init, p := ps[..|ps| - 1], ps[|ps| - 1].index;
            && CountInserts(ps, k) == CountInserts(init, k) + (if p <= k then 1 else 0)
            && (p <= k ==> CountInserts(init, k) == CountInserts(init, k + 1) == CountInserts(init, p))
            && (forall j :: 0 <= j < |init| && init[j].kind == InsertChar ==> init[j].index < p)
  {
    var init, p := ps[..|ps| - 1], ps[|ps| - 1].index;
    forall j | 0 <= j < |init| && init[j].kind == InsertChar
      ensures init[j].index < p
    {
      assert ps[j] == init[j];
    }
    if p <= k {
      AllBefore(init, p, k, k + 1);
      AllBefore(init, p, k, p);
    }
  }

  ghost function QuotingOf(msg: seq<Unit>, ps: seq<Part>): Quoting {
    Quoting(msg, InsertAll(msg, ps), Counts(ps, |msg|))
  }

  lemma QuotingStep(msg: seq<Unit>, ps: seq<Part>, p: int)
    requires Insertable(ps, |msg|) && 0 < p <= |msg|
    ensures var q := QuotingOf(msg, ps);
            && q.cum[p] == q.cum[p - 1] + (if InsertsAt(ps, p) then 1 else 0)
            && (InsertsAt(ps, p) ==> p + q.cum[p] - 1 < |q.quoted| && q.quoted[p + q.cum[p] - 1] == APOS)
  {
    hide InsertAll, CountInserts, InsertsAt, Insertable, Located;
    InsertAllLocated(msg, ps);
    CountStep(ps, |msg|, p);
    ApostropheAt(msg, ps, p);
  }

  lemma QuotingGrows(msg: seq<Unit>, ps: seq<Part>, k: int, m: int)
    requires 0 <= k <= m <= |msg|
    ensures QuotingOf(msg, ps).cum[k] <= QuotingOf(msg, ps).cum[m]
  {
    hide InsertAll, CountInserts;
    CountMonotone(ps, k, m);
  }

  lemma QuotingUnits(msg: seq<Unit>, ps: seq<Part>)
    requires Insertable(ps, |msg|)
    ensures var q := QuotingOf(msg, ps);
            && q.cum[0] == 0 && |q.quoted| == |msg| + q.cum[|msg|]
            && forall k :: 0 <= k < |msg| ==> k + q.cum[k] < |q.quoted| && q.quoted[k + q.cum[k]] == msg[k]
  {
    hide InsertAll, CountInserts, InsertsAt, Insertable;
    InsertAllLocated(msg, ps);
    NoneBefore(ps, |msg|, 0);
  }

  lemma QuotingValid(msg: seq<Unit>, ps: seq<Part>)
    requires Insertable(ps, |msg|)
    ensures Valid(QuotingOf(msg, ps))
    ensures Agrees(QuotingOf(msg, ps), ps, 0, |msg|)
  {
    hide InsertsAt, Insertable, QuotingOf, Valid;
    QuotingIsValid(msg, ps);
    QuotingSize(msg, ps);
    var q := QuotingOf(msg, ps);
    forall p | 0 < p <= |msg|
      ensures q.cum[p] == q.cum[p - 1] + 1 <==> InsertsAt(ps, p)
    {
      QuotingStep(msg, ps, p);
    }
  }

  lemma QuotingIsValid(msg: seq<Unit>, ps: seq<Part>)
    requires Insertable(ps, |msg|)
    ensures Valid(QuotingOf(msg, ps))
  {
    hide InsertsAt, Insertable, QuotingOf;
    QuotingSize(msg, ps);
    QuotingUnits(msg, ps);
    var q := QuotingOf(msg, ps);
    forall k, m | 0 <= k <= m <= |msg|
      ensures q.cum[k] <= q.cum[m]
    {
      QuotingGrows(msg, ps, k, m);
    }
    forall p | 0 < p <= |msg|
      ensures q.cum[p] <= q.cum[p - 1] + 1
      ensures q.cum[p] == q.cum[p - 1] + 1 ==> p + q.cum[p] - 1 < |q.quoted| && q.quoted[p + q.cum[p] - 1] == APOS
    {
      QuotingStep(msg, ps, p);
    }
  }

  lemma QuotingSize(msg: seq<Unit>, ps: seq<Part>)
    ensures QuotingOf(msg, ps).msg == msg && |QuotingOf(msg, ps).cum| == |msg| + 1
  {
    hide InsertAll, CountInserts;
  }

  lemma ApostropheAt(msg: seq<Unit>, ps: seq<Part>, p: int)
    requires Located(msg, InsertAll(msg, ps), ps)
    ensures InsertsAt(ps, p) ==>
              var at := p + CountInserts(ps, p) - 1; 0 <= at < |InsertAll(msg, ps)| && InsertAll(msg, ps)[at] == APOS
  {
    hide InsertAll, CountInserts;
  }

  lemma PlacedInsertable(ps: seq<Part>, hi: int, n: int)
    requires Placed(ps, 0, hi, n)
    ensures Insertable(ps, n)
  {
  }

  // ---------- a parse covers the whole text ----------

  lemma {:induction false} AlternativesTop(c: Context, i: nat, n: Count)
    requires i <= |c.msg| && (n.parts == 0 || n.slot0 != MsgStart)
    ensures var r := Alternatives(c, i, 0, n); r.Ok? ==> r.index == |c.msg|
    decreases |c.msg| - i
  {
    hide Skip, ChoiceHead, Message, Doubles, Alternatives, AfterAlternative;
    var r := Alternatives(c, i, 0, n);
    if r.Ok? {
      AlternativesStep(c, i, 0, n);
      var head := ChoiceHead(c, i, n.doubles);
      var m := Message(c, head.index, 0, 1, ChoiceArg, Add(n, head.parts));
      var ps := head.parts + m.parts;
      ChoiceFirst(c, i, n.doubles);
      RestIs(c, 0, n, ps, m.index);
      if m.index < |c.msg| && c.msg[m.index] != RIGHT_BRACE {
        AlternativesTop(c, Skip(IsWhiteSpace, c.msg, m.index + 1), Add(n, ps));
      }
    }
  }

  lemma ChoiceFirst(c: Context, i: nat, doubles: nat)
    requires i <= |c.msg|
    ensures var r := ChoiceHead(c, i, doubles); r.Ok? ==> |r.parts| > 0 && r.parts[0].kind != MsgStart
  {
    hide Skip;
  }

  lemma SelectorFirst(c: Context, t: ArgType, i: nat, isEmpty: bool, doubles: nat)
    requires i < |c.msg|
    ensures var s := SelectorAt(c, t, i, isEmpty, doubles); !s.SelectorErr? ==>
            |s.parts| > 0 && s.parts[0].kind != MsgStart
  {
    hide Skip, IsOffsetWord;
  }

  lemma {:induction false} PluralTop(c: Context, t: ArgType, i: nat, n: Count, isEmpty: bool, hasOther: bool)
    requires i <= |c.msg| && (if n.parts == 0 then !hasOther else n.slot0 != MsgStart)
    ensures var r := PluralStyle(c, t, i, 0, n, isEmpty, hasOther); r.Ok? ==> r.index == |c.msg|
    decreases |c.msg| - i
  {
    hide Skip, SelectorAt, Message, Doubles, PluralStyle, IsOther;
    PluralStep(c, t, i, 0, n, isEmpty, hasOther);
    var r := PluralStyle(c, t, i, 0, n, isEmpty, hasOther);
    var k := Skip(IsWhiteSpace, c.msg, i);
    if r.Ok? && k < |c.msg| && c.msg[k] != RIGHT_BRACE {
      var turn := Turn(c, t, k, 0, n, isEmpty);
      SelectorFirst(c, t, k, isEmpty, n.doubles);
      PluralTop(c, t, turn.index, Add(n, turn.parts), false, hasOther || IsOther(c, t, k, isEmpty, n));
    }
  }

  /** A successful parse has read the whole pattern. */
  lemma ParseCoversText(c: Context, entry: Entry, slot0: PartType)
    ensures var r := Parse(c, entry, slot0); r.Ok? ==> r.index == |c.msg|
  {
    hide Items, Alternatives, PluralStyle, Doubles, Skip;
    var n := Count(0, 0, slot0);
    match entry
    case WholeMessage =>
    case TopChoice =>
      var k := Skip(IsWhiteSpace, c.msg, 0);
      AlternativesTop(c, k, n);
    case TopPlural => PluralTop(c, PluralArg, 0, n, true, false);
    case TopSelect => PluralTop(c, SelectArg, 0, n, true, false);
  }

  /** What an earlier parse left in the parts buffer does not matter to a successful parse. */
  lemma SlotIrrelevant(c: Context, entry: Entry, slot0: PartType, slot0': PartType)
    requires Parse(c, entry, slot0).Ok?
    ensures Parse(c, entry, slot0') == Parse(c, entry, slot0)
  {
    hide Items, Doubles, Skip, ChoiceHead, SelectorAt, PluralStyle, Alternatives, AfterAlternative;
    var n, n' := Count(0, 0, slot0), Count(0, 0, slot0');
    match entry
    case WholeMessage =>
    case TopChoice =>
      var k := Skip(IsWhiteSpace, c.msg, 0);
      ChoiceFirst(c, k, 0);
      AlternativesStep(c, k, 0, n);
      var head := ChoiceHead(c, k, 0);
      assert Add(n, head.parts) == Add(n', head.parts);
      var m := Message(c, head.index, 0, 1, ChoiceArg, Add(n, head.parts));
      AlternativesIs(c, k, 0, n', head, m);
      AfterSame(c, n, n', head.parts + m.parts, m.index);
    case TopPlural => PluralSlot(c, PluralArg, slot0, slot0');
    case TopSelect => PluralSlot(c, SelectArg, slot0, slot0');
  }

  lemma AfterSame(c: Context, n: Count, n': Count, ps: seq<Part>, j: nat)
    requires j <= |c.msg| && Add(n, ps) == Add(n', ps)
    ensures AfterAlternative(c, 0, n, ps, j) == AfterAlternative(c, 0, n', ps, j)
  {
    hide Skip, Alternatives, Doubles;
  }

  lemma PluralSlot(c: Context, t: ArgType, slot0: PartType, slot0': PartType)
    requires PluralStyle(c, t, 0, 0, Count(0, 0, slot0), true, false).Ok?
    ensures PluralStyle(c, t, 0, 0, Count(0, 0, slot0'), true, false)
            == PluralStyle(c, t, 0, 0, Count(0, 0, slot0), true, false)
  {
    hide Doubles, Skip, SelectorAt, PluralStyle, Message;
    var n, n' := Count(0, 0, slot0), Count(0, 0, slot0');
    PluralStep(c, t, 0, 0, n, true, false);
    PluralStep(c, t, 0, 0, n', true, false);
    var k := Skip(IsWhiteSpace, c.msg, 0);
    SelectorFirst(c, t, k, true, 0);
    assert Turn(c, t, k, 0, n, true) == Turn(c, t, k, 0, n', true) by {
      var s := SelectorAt(c, t, k, true, 0);
      assert Add(n, s.parts) == Add(n', s.parts);
    }
    var turn := Turn(c, t, k, 0, n, true);
    assert Add(n, turn.parts) == Add(n', turn.parts);
    assert IsOther(c, t, k, true, n) == IsOther(c, t, k, true, n');
  }

  // ---------- the theorem ----------

  function InsertCount(ps: seq<Part>): nat {
    if |ps| == 0 then 0 else InsertCount(ps[..|ps| - 1]) + if ps[|ps| - 1].kind == InsertChar then 1 else 0
  }

  /** The part that stands for ps[k] after quoting: moved by the insertions before it. */
  function Reparsed(ps: seq<Part>, k: nat): Part
    requires k < |ps|
  {
    var index := ps[k].index + InsertCount(ps[..k]);
    if ps[k].kind == InsertChar then NewPart(SkipSyntax, index, 1, 0) else ps[k].(index := index)
  }

  lemma {:induction false} CountPrefix(ps: seq<Part>, k: int, at: int)
    requires 0 <= k <= |ps|
    requires forall j :: 0 <= j < k && ps[j].kind == InsertChar ==> ps[j].index <= at
    requires forall j :: k <= j < |ps| && ps[j].kind == InsertChar ==> ps[j].index > at
    ensures CountInserts(ps, at) == InsertCount(ps[..k])
    decreases |ps|
  {
    if |ps| > 0 {
      var init := ps[..|ps| - 1];
      if k == |ps| {
        CountPrefix(init, k - 1, at);
        assert ps[..k][..k - 1] == init[..k - 1];
      } else {
        CountPrefix(init, k, at);
        assert ps[..k] == init[..k];
      }
    }
  }

  lemma ShiftedIsReparsed(ps: seq<Part>, hi: int, n: nat, k: nat)
    requires Placed(ps, 0, hi, n) && hi <= n && k < |ps|
    ensures Shifted(ps[k], Counts(ps, n)) == Reparsed(ps, k)
  {
    hide InsertsIn, CountInserts;
    var p := ps[k];
    assert InPlace(p, 0, hi, n);
    if p.kind == InsertChar {
      CountPrefix(ps, k + 1, p.index);
      assert ps[..k + 1][..k] == ps[..k];
      OneMore(ps, k);
    } else {
      CountPrefix(ps, k, p.index);
    }
  }

  lemma OneMore(ps: seq<Part>, k: nat)
    requires k < |ps|
    ensures InsertCount(ps[..k + 1]) == InsertCount(ps[..k]) + if ps[k].kind == InsertChar then 1 else 0
  {
    assert ps[..k + 1][..k] == ps[..k];
  }

  /**
    Auto-quoting is sound: if a pattern parses, in either apostrophe mode, then its auto-quoted text parses
    in DOUBLE_REQUIRED mode, part by part the same with indexes shifted, each INSERT_CHAR now being a
    SKIP_SYNTAX of one unit; so the quoted text needs no further quoting.
   */
  lemma AutoQuoteSound(c: Context, entry: Entry, slot0: PartType, slot0': PartType)
    requires Parse(c, entry, slot0).Ok?
    ensures var ps := Parse(c, entry, slot0).parts;
            var quoted := InsertAll(c.msg, ps);
            var r := Parse(Context(quoted, DoubleRequired, c.isNumber), entry, slot0');
            && r.Ok? && |r.parts| == |ps|
            && (forall k :: 0 <= k < |ps| ==> r.parts[k] == Reparsed(ps, k))
            && NoInserts(r.parts) && InsertAll(quoted, r.parts) == quoted
  {
    hide Parse, InsertAll, Placed, Valid, Agrees, CountInserts;
    var r := Parse(c, entry, slot0);
    var ps := r.parts;
    ParseCoversText(c, entry, slot0);
    ParsePlaced(c, entry, slot0);
    PlacedInsertable(ps, r.index, |c.msg|);
    QuotingValid(c.msg, ps);
    var q := QuotingOf(c.msg, ps);
    var c' := Requoted(q, c);
    ParseShift(q, c, entry, slot0);
    SlotIrrelevant(c', entry, slot0, slot0');
    var r' := Parse(c', entry, slot0');
    forall k | 0 <= k < |ps|
      ensures r'.parts[k] == Reparsed(ps, k)
    {
      ShiftedIsReparsed(ps, r.index, |c.msg|, k);
    }
    NothingToInsert(q.quoted, r'.parts);
  }

  lemma ParseShift(q: Quoting, c: Context, entry: Entry, slot0: PartType)
    requires Valid(q) && q.msg == c.msg
    requires var r := Parse(c, entry, slot0); r.Ok? && Agrees(q, r.parts, 0, r.index)
    ensures ShiftsTo(q, Parse(c, entry, slot0), Parse(Requoted(q, c), entry, slot0))
  {
    hide Message, ChoiceStyle, PluralStyle, Agrees, AllShifted;
    var n := Count(0, 0, slot0);
    match entry
    case WholeMessage => MessageShift(q, c, 0, 0, 0, NoArg, n);
    case TopChoice => ChoiceStyleShift(q, c, 0, 0, n);
    case TopPlural => PluralStyleShift(q, c, PluralArg, 0, 0, n, true, false);
    case TopSelect => PluralStyleShift(q, c, SelectArg, 0, 0, n, true, false);
  }

  /** Without INSERT_CHAR parts auto-quoting changes nothing. */
  lemma {:induction false} NothingToInsert(text: seq<Unit>, ps: seq<Part>)
    requires NoInserts(ps)
    ensures InsertAll(text, ps) == text
  {
    if |ps| > 0 { NothingToInsert(text, ps[..|ps| - 1]); }
  }
}
