/**
  autoQuoteApostropheDeep(): re-parsing the auto-quoted text in DOUBLE_REQUIRED mode gives the same parts,
  shifted, with every INSERT_CHAR turned into a SKIP_SYNTAX.
 */
module MessageQuoting {
  import opened Basics
  import opened MessageModel
  import opened MessageSpec
  import opened MessagePlaces

  /**
    A text and the same text with apostrophes inserted: cum[k] is the number of apostrophes
    inserted before position k or at it.
   */
  datatype Quoting = Quoting(msg: seq<Unit>, quoted: seq<Unit>, cum: seq<nat>)

  ghost predicate Valid(q: Quoting) {
    && |q.cum| == |q.msg| + 1 && q.cum[0] == 0
    && |q.quoted| == |q.msg| + q.cum[|q.msg|]
    && (forall k, m :: 0 <= k <= m <= |q.msg| ==> q.cum[k] <= q.cum[m])
    && (forall k :: 0 < k <= |q.msg| ==> q.cum[k] <= q.cum[k - 1] + 1)
    && (forall k :: 0 <= k < |q.msg| ==> k + q.cum[k] < |q.quoted| && q.quoted[k + q.cum[k]] == q.msg[k])
    && (forall k :: 0 < k <= |q.msg| && q.cum[k] == q.cum[k - 1] + 1 ==>
          k + q.cum[k] - 1 < |q.quoted| && q.quoted[k + q.cum[k] - 1] == APOS)
  }

  predicate InsertsAt(ps: seq<Part>, p: int) {
    exists k :: 0 <= k < |ps| && ps[k].kind == InsertChar && ps[k].index == p
  }

  /** Between i and j the inserted apostrophes are exactly those that ps asks for. */
  ghost predicate Agrees(q: Quoting, ps: seq<Part>, i: int, j: int) {
    && 0 <= i <= j <= |q.msg| && |q.cum| == |q.msg| + 1
    && forall p :: i < p <= j ==> (q.cum[p] == q.cum[p - 1] + 1 <==> InsertsAt(ps, p))
  }

  /** Nothing is inserted after i, up to j. */
  ghost predicate Flat(q: Quoting, i: int, j: int) {
    && 0 <= i <= j <= |q.msg| && |q.cum| == |q.msg| + 1
    && forall p :: i <= p <= j ==> q.cum[p] == q.cum[i]
  }

  ghost function Shifted(p: Part, cum: seq<nat>): Part {
    if !(0 <= p.index < |cum|) then p
    else if p.kind == InsertChar then SkipPart(p.index + cum[p.index] - 1)
    else p.(index := p.index + cum[p.index])
  }

  ghost function AllShifted(ps: seq<Part>, cum: seq<nat>): (r: seq<Part>)
    ensures |r| == |ps| && forall k :: 0 <= k < |ps| ==> r[k] == Shifted(ps[k], cum)
  {
    seq(|ps|, k requires 0 <= k < |ps| => Shifted(ps[k], cum))
  }

  lemma AllShiftedAppend(a: seq<Part>, b: seq<Part>, cum: seq<nat>)
    ensures AllShifted(a + b, cum) == AllShifted(a, cum) + AllShifted(b, cum)
  {
  }

  lemma AllShiftedOne(p: Part, cum: seq<nat>)
    ensures AllShifted([p], cum) == [Shifted(p, cum)]
  {
  }

  ghost function Requoted(q: Quoting, c: Context): Context {
    Context(q.quoted, DoubleRequired, c.isNumber)
  }

  // ---------- splitting ----------

  /** The insertions of ps lie after i, up to j. */
  ghost predicate InsertsIn(ps: seq<Part>, i: int, j: int) {
    forall k :: 0 <= k < |ps| && ps[k].kind == InsertChar ==> i < ps[k].index <= j
  }

  lemma PlacedInserts(ps: seq<Part>, i: int, j: int, n: int)
    requires Placed(ps, i, j, n)
    ensures InsertsIn(ps, i, j)
  {
  }

  lemma AgreesSplit(q: Quoting, a: seq<Part>, b: seq<Part>, i: int, m: int, j: int)
    requires Agrees(q, a + b, i, j) && Placed(a, i, m, |q.msg|) && Placed(b, m, j, |q.msg|)
    ensures Agrees(q, a, i, m) && Agrees(q, b, m, j)
  {
    PlacedInserts(a, i, m, |q.msg|);
    PlacedInserts(b, m, j, |q.msg|);
    hide Placed;
    SplitAt(q, a, b, i, m, j);
  }

  lemma SplitAt(q: Quoting, a: seq<Part>, b: seq<Part>, i: int, m: int, j: int)
    requires Agrees(q, a + b, i, j) && i <= m <= j && InsertsIn(a, i, m) && InsertsIn(b, m, j)
    ensures Agrees(q, a, i, m) && Agrees(q, b, m, j)
  {
    var ps := a + b;
    forall p | i < p <= m
      ensures InsertsAt(ps, p) <==> InsertsAt(a, p)
    {
      if InsertsAt(a, p) {
        var k :| 0 <= k < |a| && a[k].kind == InsertChar && a[k].index == p;
        assert ps[k] == a[k];
      }
      if InsertsAt(ps, p) {
        var k :| 0 <= k < |ps| && ps[k].kind == InsertChar && ps[k].index == p;
        if k >= |a| { assert false; }
        assert a[k].index == p;
      }
    }
    forall p | m < p <= j
      ensures InsertsAt(ps, p) <==> InsertsAt(b, p)
    {
      if InsertsAt(b, p) {
        var k :| 0 <= k < |b| && b[k].kind == InsertChar && b[k].index == p;
        assert ps[k + |a|] == b[k];
      }
      if InsertsAt(ps, p) {
        var k :| 0 <= k < |ps| && ps[k].kind == InsertChar && ps[k].index == p;
        if k < |a| { assert false; }
        assert b[k - |a|].index == p;
      }
    }
  }

  /** Parts from m on leave everything before m as it was. */
  lemma AgreesLater(q: Quoting, ps: seq<Part>, i: int, m: int, j: int)
    requires Valid(q) && Agrees(q, ps, i, j) && i <= m && Placed(ps, m, j, |q.msg|)
    ensures Flat(q, i, m) && Agrees(q, ps, m, j)
  {
    PlacedNone(i, m, |q.msg|);
    assert [] + ps == ps;
    AgreesSplit(q, [], ps, i, m, j);
    AgreesFlat(q, [], i, m);
  }

  predicate NoInserts(ps: seq<Part>) { forall k :: 0 <= k < |ps| ==> ps[k].kind != InsertChar }

  lemma UnitAt(q: Quoting, i: int)
    requires Valid(q) && 0 <= i < |q.msg|
    ensures |q.cum| == |q.msg| + 1 && i + q.cum[i] < |q.quoted| && q.quoted[i + q.cum[i]] == q.msg[i]
  {
  }

  lemma {:induction false} AgreesFlat(q: Quoting, ps: seq<Part>, i: int, j: int)
    requires Valid(q) && Agrees(q, ps, i, j) && NoInserts(ps)
    ensures Flat(q, i, j)
    decreases j - i
  {
    if i < j {
      AgreesFlat(q, ps, i, j - 1);
      assert !InsertsAt(ps, j);
      assert q.cum[j] == q.cum[j - 1];
    }
  }

  lemma FlatSizes(q: Quoting, i: int, j: int)
    requires Flat(q, i, j)
    ensures 0 <= i <= j <= |q.msg| && |q.cum| == |q.msg| + 1 && q.cum[i] == q.cum[j]
  {
  }

  lemma FlatSub(q: Quoting, i: int, j: int, i': int, j': int)
    requires Flat(q, i, j) && i <= i' <= j' <= j
    ensures Flat(q, i', j') && q.cum[i'] == q.cum[i] == q.cum[j']
  {
  }

  // ---------- scanners on equal text ----------

  lemma SameUnits(q: Quoting, i: int, j: int)
    requires Valid(q) && Flat(q, i, j)
    ensures forall k :: i <= k <= j && k < |q.msg| ==> k + q.cum[i] < |q.quoted| && q.quoted[k + q.cum[i]] == q.msg[k]
    ensures j == |q.msg| ==> j + q.cum[i] == |q.quoted|
    ensures j < |q.msg| ==> j + q.cum[i] < |q.quoted|
  {
  }

  lemma SameText(q: Quoting, i: int, j: int)
    requires Valid(q) && Flat(q, i, j)
    ensures j + q.cum[i] <= |q.quoted|
    ensures q.quoted[i + q.cum[i]..j + q.cum[i]] == q.msg[i..j]
  {
    SameUnits(q, i, j);
    var d := q.cum[i];
    forall k | 0 <= k < j - i
      ensures q.quoted[i + d..j + d][k] == q.msg[i..j][k]
    {
      assert q.quoted[(i + k) + d] == q.msg[i + k];
    }
  }

  /** Skip is the only index with its properties. */
  lemma {:induction false} SkipIs(p: Unit -> bool, msg: seq<Unit>, i: nat, r: nat)
    requires i <= r <= |msg| && (forall k :: i <= k < r ==> p(msg[k])) && (r < |msg| ==> !p(msg[r]))
    ensures Skip(p, msg, i) == r
    decreases r - i
  {
    if i < r { SkipIs(p, msg, i + 1, r); }
  }

  lemma SkipShift(p: Unit -> bool, q: Quoting, i: nat)
    requires Valid(q) && i <= |q.msg| && Flat(q, i, Skip(p, q.msg, i))
    ensures i + q.cum[i] <= |q.quoted|
    ensures Skip(p, q.quoted, i + q.cum[i]) == Skip(p, q.msg, i) + q.cum[i]
  {
    hide Skip, Valid;
    var d, r := q.cum[i], Skip(p, q.msg, i);
    SameUnits(q, i, r);
    forall k | i + d <= k < r + d
      ensures k < |q.quoted| && p(q.quoted[k])
    {
      assert q.quoted[(k - d) + d] == q.msg[k - d];
    }
    SkipIs(p, q.quoted, i + d, r + d);
  }

  /** The same result, seen from the quoted text. */
  ghost function ShiftedResult(q: Quoting, r: Result): Result {
    if r.Err? || !(r.index < |q.cum|) then r else Ok(r.index + q.cum[r.index], AllShifted(r.parts, q.cum))
  }

  lemma AgreesSplitFlat(q: Quoting, a: seq<Part>, b: seq<Part>, i: int, m: int, j: int)
    requires Valid(q) && Agrees(q, a + b, i, j) && NoInserts(a)
    requires Placed(a, i, m, |q.msg|) && Placed(b, m, j, |q.msg|)
    ensures Flat(q, i, m) && Agrees(q, b, m, j)
  {
    hide Valid, Agrees, Placed, NoInserts;
    AgreesSplit(q, a, b, i, m, j);
    AgreesFlat(q, a, i, m);
  }

  // ---------- apostrophes ----------

  /** Quoted text without an end: the inserted apostrophe ends it. */
  lemma InsertAtEnd(q: Quoting, k: nat, e: nat)
    requires Valid(q) && 0 < k <= e == |q.msg| == Skip(NotApostrophe, q.msg, k)
    requires Agrees(q, [InsertPart(e)], k - 1, e)
    ensures q.cum[e] == q.cum[k - 1] + 1
    ensures |q.quoted| == e + q.cum[k - 1] + 1 && q.quoted[e + q.cum[k - 1]] == APOS
    ensures Skip(NotApostrophe, q.quoted, k + q.cum[k - 1]) == e + q.cum[k - 1]
  {
    hide Skip, Valid;
    OnlyAtEnd(q, k, e);
    LastInsert(q, e);
    QuotedToEnd(q, k, e);
  }

  lemma OnlyAtEnd(q: Quoting, k: nat, e: nat)
    requires Valid(q) && 0 < k <= e == |q.msg| && Agrees(q, [InsertPart(e)], k - 1, e)
    ensures Flat(q, k - 1, e - 1) && |q.cum| == e + 1 && q.cum[e] == q.cum[e - 1] + 1
  {
    hide Valid;
    var ps := [InsertPart(e)];
    assert ps[0].index == e;
    assert InsertsAt(ps, e);
    assert Agrees(q, [], k - 1, e - 1) by {
      assert forall p :: k - 1 < p <= e - 1 ==> !InsertsAt(ps, p);
    }
    AgreesFlat(q, [], k - 1, e - 1);
  }

  lemma LastInsert(q: Quoting, e: nat)
    requires Valid(q) && 0 < e == |q.msg| && q.cum[e] == q.cum[e - 1] + 1
    ensures |q.quoted| == e + q.cum[e] && q.quoted[e + q.cum[e] - 1] == APOS
  {
  }

  lemma QuotedToEnd(q: Quoting, k: nat, e: nat)
    requires Valid(q) && 0 < k <= e == |q.msg| == Skip(NotApostrophe, q.msg, k) && |q.cum| == e + 1
    requires Flat(q, k - 1, e - 1) && |q.quoted| == e + q.cum[k - 1] + 1 && q.quoted[e + q.cum[k - 1]] == APOS
    ensures Skip(NotApostrophe, q.quoted, k + q.cum[k - 1]) == e + q.cum[k - 1]
  {
    hide Skip, Valid;
    var d := q.cum[k - 1];
    forall m | k + d <= m < e + d
      ensures NotApostrophe(q.quoted[m])
    {
      UnitAt(q, m - d);
    }
    SkipIs(NotApostrophe, q.quoted, k + d, e + d);
  }

  lemma SkipShiftAfter(p: Unit -> bool, q: Quoting, k: nat, m: nat)
    requires Valid(q) && 0 < k <= m && Flat(q, k - 1, m) && Skip(p, q.msg, k) <= m
    ensures k + q.cum[k - 1] <= |q.quoted|
    ensures Skip(p, q.quoted, k + q.cum[k - 1]) == Skip(p, q.msg, k) + q.cum[k - 1]
  {
    hide Skip, Valid;
    FlatSub(q, k - 1, m, k, Skip(p, q.msg, k));
    SkipShift(p, q, k);
  }

  /** Quoted text that starts after k-1 units of msg: whatever is inserted there comes later. */
  lemma {:induction false} QuotedShift(q: Quoting, c: Context, k: nat)
    requires Valid(q) && q.msg == c.msg && 0 < k <= |c.msg|
    requires Agrees(q, QuotedText(c, k).1, k - 1, QuotedText(c, k).0)
    ensures QuotedShifted(q, c, k)
    decreases |c.msg| - k
  {
    hide Skip, Valid, Agrees, AllShifted, Placed, QuotedShifted, QuotedText;
    var r := QuotedText(c, k);
    Sizes(q, r.1, k - 1, r.0);
    var e := Skip(NotApostrophe, c.msg, k);
    QuotedStep(c, k, e);
    QuotedPlaced(c, k);
    if e == |c.msg| {
      InsertAtEnd(q, k, e);
      QuotedShiftEnd(q, c, k);
    } else if e + 1 < |c.msg| && c.msg[e + 1] == APOS {
      var rest := QuotedText(c, e + 2);
      QuotedPlaced(c, e + 2);
      PlacedInserts(rest.1, e + 1, rest.0, |c.msg|);
      SplitAt(q, [SkipPart(e + 1)], rest.1, k - 1, e + 1, rest.0);
      AgreesFlat(q, [SkipPart(e + 1)], k - 1, e + 1);
      QuotedShift(q, c, e + 2);
      QuotedShiftDouble(q, c, k);
    } else {
      AgreesFlat(q, r.1, k - 1, e + 1);
      QuotedShiftStop(q, c, k);
    }
  }

  ghost predicate QuotedShifted(q: Quoting, c: Context, k: nat)
    requires 0 < k <= |c.msg|
  {
    var r := QuotedText(c, k);
    && |q.cum| == |c.msg| + 1 && k + q.cum[k - 1] <= |q.quoted|
    && QuotedText(Requoted(q, c), k + q.cum[k - 1]) == (r.0 + q.cum[r.0], AllShifted(r.1, q.cum))
  }

  lemma QuotedShiftEnd(q: Quoting, c: Context, k: nat)
    requires q.msg == c.msg && 0 < k <= |c.msg| == Skip(NotApostrophe, c.msg, k) && |q.cum| == |c.msg| + 1
    requires q.cum[|c.msg|] == q.cum[k - 1] + 1
    requires |q.quoted| == |c.msg| + q.cum[k - 1] + 1
    requires Skip(NotApostrophe, q.quoted, k + q.cum[k - 1]) == |c.msg| + q.cum[k - 1]
    ensures QuotedShifted(q, c, k)
  {
    hide Skip, QuotedText, AllShifted;
    QuotedStep(c, k, |c.msg|);
    QuotedStep(Requoted(q, c), k + q.cum[k - 1], |c.msg| + q.cum[k - 1]);
    AllShiftedOne(InsertPart(|c.msg|), q.cum);
  }

  lemma QuotedShiftStop(q: Quoting, c: Context, k: nat)
    requires Valid(q) && q.msg == c.msg && 0 < k <= |c.msg|
    requires var e := Skip(NotApostrophe, c.msg, k);
             && e < |c.msg| && !(e + 1 < |c.msg| && c.msg[e + 1] == APOS) && Flat(q, k - 1, e + 1)
    ensures QuotedShifted(q, c, k)
  {
    hide Skip, Valid, QuotedText, AllShifted;
    var e := Skip(NotApostrophe, c.msg, k);
    SkipShiftAfter(NotApostrophe, q, k, e + 1);
    SameUnits(q, k - 1, e + 1);
    QuotedStep(c, k, e);
    QuotedStep(Requoted(q, c), k + q.cum[k - 1], e + q.cum[k - 1]);
    AllShiftedOne(SkipPart(e), q.cum);
  }

  lemma QuotedShiftDouble(q: Quoting, c: Context, k: nat)
    requires Valid(q) && q.msg == c.msg && 0 < k <= |c.msg|
    requires var e := Skip(NotApostrophe, c.msg, k);
             && e + 1 < |c.msg| && c.msg[e + 1] == APOS && Flat(q, k - 1, e + 1) && QuotedShifted(q, c, e + 2)
    ensures QuotedShifted(q, c, k)
  {
    hide Skip, Valid, QuotedText, AllShifted;
    var e := Skip(NotApostrophe, c.msg, k);
    SkipShiftAfter(NotApostrophe, q, k, e + 1);
    SameUnits(q, k - 1, e + 1);
    QuotedStep(c, k, e);
    QuotedStep(Requoted(q, c), k + q.cum[k - 1], e + q.cum[k - 1]);
    AllShiftedOne(SkipPart(e + 1), q.cum);
    AllShiftedAppend([SkipPart(e + 1)], QuotedText(c, e + 2).1, q.cum);
  }

  lemma Sizes(q: Quoting, ps: seq<Part>, i: int, j: int)
    requires Agrees(q, ps, i, j)
    ensures 0 <= i <= j <= |q.msg| && |q.cum| == |q.msg| + 1
  {
  }

  lemma ApostropheStep(c: Context, i: nat, parent: ArgType)
    requires i < |c.msg|
    ensures i + 1 == |c.msg| ==> Apostrophe(c, i, parent) == (i + 1, [InsertPart(i + 1)])
    ensures i + 1 < |c.msg| && c.msg[i + 1] == APOS ==> Apostrophe(c, i, parent) == (i + 2, [SkipPart(i + 1)])
    ensures i + 1 < |c.msg| && c.msg[i + 1] != APOS && !StartsQuote(c, parent, c.msg[i + 1]) ==>
              Apostrophe(c, i, parent) == (i + 1, [InsertPart(i + 1)])
    ensures i + 1 < |c.msg| && c.msg[i + 1] != APOS && StartsQuote(c, parent, c.msg[i + 1]) ==>
              Apostrophe(c, i, parent) == (QuotedText(c, i + 2).0, [SkipPart(i)] + QuotedText(c, i + 2).1)
  {
  }

  ghost predicate ApostropheShifted(q: Quoting, c: Context, i: nat, parent: ArgType)
    requires i < |c.msg|
  {
    var r := Apostrophe(c, i, parent);
    && |q.cum| == |c.msg| + 1 && i + q.cum[i] < |q.quoted|
    && Apostrophe(Requoted(q, c), i + q.cum[i], parent) == (r.0 + q.cum[r.0], AllShifted(r.1, q.cum))
  }

  /** The apostrophe at i in the quoted text. */
  lemma ApostropheShift(q: Quoting, c: Context, i: nat, parent: ArgType)
    requires Valid(q) && q.msg == c.msg && i < |c.msg| && c.msg[i] == APOS
    requires Agrees(q, Apostrophe(c, i, parent).1, i, Apostrophe(c, i, parent).0)
    ensures ApostropheShifted(q, c, i, parent)
  {
    hide QuotedText, AllShifted, Placed, Agrees, Valid, Apostrophe, StartsQuote, ApostropheShifted;
    Sizes(q, Apostrophe(c, i, parent).1, i, Apostrophe(c, i, parent).0);
    ApostropheStep(c, i, parent);
    if i + 1 == |c.msg| || (c.msg[i + 1] != APOS && !StartsQuote(c, parent, c.msg[i + 1])) {
      LiteralApostrophe(q, c, i, parent);
    } else if c.msg[i + 1] == APOS {
      AgreesFlat(q, [SkipPart(i + 1)], i, i + 2);
      DoubledApostrophe(q, c, i, parent);
    } else {
      var t := QuotedText(c, i + 2);
      QuotedPlaced(c, i + 2);
      PlacedOne(SkipPart(i), i, i + 1, |c.msg|);
      AgreesSplitFlat(q, [SkipPart(i)], t.1, i, i + 1, t.0);
      QuotedShift(q, c, i + 2);
      QuotingApostrophe(q, c, i, parent);
    }
  }

  lemma LiteralApostrophe(q: Quoting, c: Context, i: nat, parent: ArgType)
    requires Valid(q) && q.msg == c.msg && i < |c.msg| && Agrees(q, [InsertPart(i + 1)], i, i + 1)
    requires Apostrophe(c, i, parent) == (i + 1, [InsertPart(i + 1)])
    ensures ApostropheShifted(q, c, i, parent)
  {
    InsertHere(q, i + 1);
    hide Valid, Apostrophe, AllShifted;
    AllShiftedOne(InsertPart(i + 1), q.cum);
    ApostropheStep(Requoted(q, c), i + q.cum[i], parent);
  }

  lemma DoubledApostrophe(q: Quoting, c: Context, i: nat, parent: ArgType)
    requires Valid(q) && q.msg == c.msg && i + 1 < |c.msg| && c.msg[i + 1] == APOS && Flat(q, i, i + 2)
    ensures ApostropheShifted(q, c, i, parent)
  {
    hide Valid, Apostrophe, AllShifted;
    SameUnits(q, i, i + 2);
    ApostropheStep(c, i, parent);
    ApostropheStep(Requoted(q, c), i + q.cum[i], parent);
    AllShiftedOne(SkipPart(i + 1), q.cum);
  }

  lemma QuotingApostrophe(q: Quoting, c: Context, i: nat, parent: ArgType)
    requires Valid(q) && q.msg == c.msg && i + 1 < |c.msg| && c.msg[i + 1] != APOS
             && StartsQuote(c, parent, c.msg[i + 1])
    requires Flat(q, i, i + 1) && QuotedShifted(q, c, i + 2)
    ensures ApostropheShifted(q, c, i, parent)
  {
    hide Valid, Apostrophe, AllShifted, QuotedText;
    SameUnits(q, i, i + 1);
    ApostropheStep(c, i, parent);
    ApostropheStep(Requoted(q, c), i + q.cum[i], parent);
    AllShiftedOne(SkipPart(i), q.cum);
    AllShiftedAppend([SkipPart(i)], QuotedText(c, i + 2).1, q.cum);
  }

  lemma InsertHere(q: Quoting, p: nat)
    requires Valid(q) && 0 < p <= |q.msg| && Agrees(q, [InsertPart(p)], p - 1, p)
    ensures q.cum[p] == q.cum[p - 1] + 1
    ensures p + q.cum[p - 1] < |q.quoted| && q.quoted[p + q.cum[p - 1]] == APOS
  {
    assert [InsertPart(p)][0].index == p;
    assert InsertsAt([InsertPart(p)], p);
  }

  // ---------- stretches of text without insertions ----------

  function Moved(p: Part, d: int): Part { p.(index := p.index + d) }

  function AllMoved(ps: seq<Part>, d: int): (r: seq<Part>)
    ensures |r| == |ps| && forall k :: 0 <= k < |ps| ==> r[k] == Moved(ps[k], d)
  {
    seq(|ps|, k requires 0 <= k < |ps| => Moved(ps[k], d))
  }

  function MovedResult(r: Result, d: nat): Result {
    if r.Err? then r else Ok(r.index + d, AllMoved(r.parts, d))
  }

  lemma AllMovedOne(p: Part, d: int)
    ensures AllMoved([p], d) == [Moved(p, d)]
  {
  }

  lemma AllMovedAppend(a: seq<Part>, b: seq<Part>, d: int)
    ensures AllMoved(a + b, d) == AllMoved(a, d) + AllMoved(b, d)
  {
  }

  lemma MovedIsShifted(q: Quoting, ps: seq<Part>, i: int, j: int)
    requires Flat(q, i, j) && NoInserts(ps) && Placed(ps, i, j, |q.msg|)
    ensures AllShifted(ps, q.cum) == AllMoved(ps, q.cum[i])
  {
  }

  lemma OnePartMoves(limit: nat, p: Part, d: nat)
    ensures MovedResult(Ok(limit, [p]), d) == Ok(limit + d, [Moved(p, d)])
  {
    AllMovedOne(p, d);
  }

  /** The text of a number and of its digits, and its first two units, are the same at the moved place. */
  lemma NumberText(q: Quoting, start: nat, limit: nat)
    requires Valid(q) && start < limit <= |q.msg| && Flat(q, start, limit)
    ensures |q.cum| == |q.msg| + 1 && limit + q.cum[start] <= |q.quoted|
    ensures var d := q.cum[start];
            && q.quoted[start + d..limit + d] == q.msg[start..limit] && q.quoted[start + d] == q.msg[start]
            && q.quoted[start + 1 + d..limit + d] == q.msg[start + 1..limit]
            && (start + 1 < limit ==> q.quoted[start + 1 + d] == q.msg[start + 1])
  {
    hide Valid, Flat;
    FlatSizes(q, start, limit);
    SameUnits(q, start, limit);
    SameText(q, start, limit);
    FlatSub(q, start, limit, start + 1, limit);
    SameText(q, start + 1, limit);
    assert start + 1 < limit ==> q.quoted[start + 1 + q.cum[start]] == q.msg[start + 1];
  }

  lemma NumberMoves(q: Quoting, c: Context, start: nat, limit: nat, allowInfinity: bool, doubles: nat)
    requires Valid(q) && q.msg == c.msg && start < limit <= |c.msg| && Flat(q, start, limit)
    ensures limit + q.cum[start] <= |q.quoted|
    ensures Number(Requoted(q, c), start + q.cum[start], limit + q.cum[start], allowInfinity, doubles)
         == MovedResult(Number(c, start, limit, allowInfinity, doubles), q.cum[start])
  {
    hide Valid, Flat, AllDigits, Decimal, Number, AllMoved;
    NumberText(q, start, limit);
    var d := q.cum[start];
    NumberStep(c, start, limit, allowInfinity, doubles);
    NumberStep(Requoted(q, c), start + d, limit + d, allowInfinity, doubles);
    var r := Number(c, start, limit, allowInfinity, doubles);
    if r.Ok? { OnePartMoves(limit, r.parts[0], d); }
  }

  lemma NameMoves(q: Quoting, c: Context, i: nat, end: nat)
    requires Valid(q) && q.msg == c.msg && i <= end <= |c.msg| && Flat(q, i, end)
    ensures end + q.cum[i] <= |q.quoted|
    ensures NamePart(Requoted(q, c), i + q.cum[i], end + q.cum[i]) == MovedResult(NamePart(c, i, end), q.cum[i])
  {
    hide Valid, ArgNumberOf;
    SameText(q, i, end);
  }

  ghost function MovedHead(h: Head, d: nat): Head {
    if h.HeadErr? then h else HeadOk(h.end + d, h.hasStyle, h.argType, AllMoved(h.parts, d))
  }

  /** Three scans in a row stop at the moved places. */
  lemma ScansMove(p1: Unit -> bool, p2: Unit -> bool, p3: Unit -> bool, q: Quoting, i: nat, j: nat, k: nat, m: nat,
                  end: nat)
    requires Valid(q) && i <= |q.msg| && j == Skip(p1, q.msg, i) && k == Skip(p2, q.msg, j) && m == Skip(p3, q.msg, k)
    requires m <= end < |q.msg| && Flat(q, i, end)
    ensures |q.cum| == |q.msg| + 1 && Flat(q, j, k) && q.cum[j] == q.cum[i] && q.cum[m] == q.cum[i]
            && q.cum[end] == q.cum[i]
    ensures var d := q.cum[i];
            && m + d < |q.quoted| && q.quoted[m + d] == q.msg[m]
            && Skip(p1, q.quoted, i + d) == j + d && Skip(p2, q.quoted, j + d) == k + d
              && Skip(p3, q.quoted, k + d) == m + d
  {
    hide Valid, Flat, Skip;
    FlatSizes(q, i, end);
    FlatSub(q, i, end, i, j);
    FlatSub(q, i, end, j, k);
    FlatSub(q, i, end, k, m);
    FlatSizes(q, i, j);
    FlatSizes(q, j, k);
    FlatSizes(q, k, m);
    UnitAt(q, m);
    SkipShift(p1, q, i);
    SkipShift(p2, q, j);
    SkipShift(p3, q, k);
  }

  lemma ArgHeadMoves(q: Quoting, c: Context, i: nat)
    requires Valid(q) && q.msg == c.msg && i <= |c.msg|
    requires var h := ArgHead(c, i); h.HeadOk? && Flat(q, i, h.end)
    ensures i + q.cum[i] <= |q.quoted|
    ensures ArgHead(Requoted(q, c), i + q.cum[i]) == MovedHead(ArgHead(c, i), q.cum[i])
  {
    hide Valid, Flat, Skip, NamePart, TypeHead, AllMoved, ArgHead, IsWhiteSpace, IsIdentifierUnit, AfterName, MovedHead,
         MovedResult;
    var h := ArgHead(c, i);
    var nameIndex := Skip(IsWhiteSpace, c.msg, i);
    var nameEnd := Skip(IsIdentifierUnit, c.msg, nameIndex);
    var k := Skip(IsWhiteSpace, c.msg, nameEnd);
    ArgHeadIs(c, i, nameIndex, nameEnd, k);
    NameEnds(c, k, NamePart(c, nameIndex, nameEnd));
    ScansMove(IsWhiteSpace, IsIdentifierUnit, IsWhiteSpace, q, i, nameIndex, nameEnd, k, h.end);
    var d := q.cum[i];
    NameMoves(q, c, nameIndex, nameEnd);
    ArgHeadIs(Requoted(q, c), i + d, nameIndex + d, nameEnd + d, k + d);
    AfterNameMoves(q, c, i, k, NamePart(c, nameIndex, nameEnd));
  }

  lemma NameEnds(c: Context, k: nat, name: Result)
    requires k <= |c.msg|
    ensures var h := AfterName(c, k, name); h.HeadOk? ==> name.Ok? && k <= h.end < |c.msg|
  {
    hide TypeHead;
  }

  lemma AfterNameMoves(q: Quoting, c: Context, i: nat, k: nat, name: Result)
    requires Valid(q) && q.msg == c.msg && i <= k < |c.msg| && name.Ok?
    requires var h := AfterName(c, k, name); h.HeadOk? && Flat(q, i, h.end)
    ensures |q.cum| == |q.msg| + 1 && k + q.cum[i] <= |q.quoted|
    ensures AfterName(Requoted(q, c), k + q.cum[i], MovedResult(name, q.cum[i]))
            == MovedHead(AfterName(c, k, name), q.cum[i])
  {
    hide Valid, Flat, TypeHead, AllMoved;
    var h := AfterName(c, k, name);
    FlatSizes(q, i, h.end);
    SameUnits(q, i, h.end);
    assert q.quoted[k + q.cum[i]] == c.msg[k];
    if c.msg[k] == COMMA { TypeHeadMovesBehind(q, c, i, k, h.end, name.parts); }
  }

  /** A type after the ',' at k moves by as much as the name before it. */
  lemma TypeHeadMovesBehind(q: Quoting, c: Context, i: nat, k: nat, end: nat, name: seq<Part>)
    requires Valid(q) && q.msg == c.msg && i <= k < end <= |c.msg| && Flat(q, i, end)
    requires var h := TypeHead(c, k + 1, name); h.HeadOk? && h.end == end
    ensures |q.cum| == |q.msg| + 1 && k + 1 + q.cum[i] <= |q.quoted|
    ensures TypeHead(Requoted(q, c), k + 1 + q.cum[i], AllMoved(name, q.cum[i]))
            == MovedHead(TypeHead(c, k + 1, name), q.cum[i])
  {
    hide Valid, Flat, TypeHead, AllMoved;
    FlatSizes(q, i, end);
    FlatSub(q, i, end, k + 1, end);
    FlatSizes(q, k + 1, end);
    TypeHeadMoves(q, c, k + 1, name);
  }

  lemma TypeHeadMoves(q: Quoting, c: Context, i: nat, name: seq<Part>)
    requires Valid(q) && q.msg == c.msg && i <= |c.msg|
    requires var h := TypeHead(c, i, name); h.HeadOk? && Flat(q, i, h.end)
    ensures i + q.cum[i] <= |q.quoted|
    ensures TypeHead(Requoted(q, c), i + q.cum[i], AllMoved(name, q.cum[i]))
            == MovedHead(TypeHead(c, i, name), q.cum[i])
  {
    hide Valid, Flat, Skip, TypeNamed, AllMoved, TypeHead, IsWhiteSpace, IsArgTypeUnit, AfterType, MovedHead;
    var h := TypeHead(c, i, name);
    var typeIndex := Skip(IsWhiteSpace, c.msg, i);
    var typeEnd := Skip(IsArgTypeUnit, c.msg, typeIndex);
    var m := Skip(IsWhiteSpace, c.msg, typeEnd);
    TypeHeadIs(c, i, name, typeIndex, typeEnd, m);
    TypeEnds(c, m, name, typeIndex, typeEnd - typeIndex, TypeNamed(c.msg[typeIndex..typeEnd]));
    ScansMove(IsWhiteSpace, IsArgTypeUnit, IsWhiteSpace, q, i, typeIndex, typeEnd, m, h.end);
    var d := q.cum[i];
    SameText(q, typeIndex, typeEnd);
    TypeHeadIs(Requoted(q, c), i + d, AllMoved(name, d), typeIndex + d, typeEnd + d, m + d);
    AfterTypeMoves(c, Requoted(q, c), m, name, typeIndex, typeEnd - typeIndex, TypeNamed(c.msg[typeIndex..typeEnd]), d);
  }

  lemma TypeEnds(c: Context, m: nat, name: seq<Part>, typeIndex: nat, length: int, argType: ArgType)
    requires m <= |c.msg|
    ensures var h := AfterType(c, m, name, typeIndex, length, argType); h.HeadOk? ==> h.end == m < |c.msg|
  {
  }

  lemma AfterTypeMoves(c: Context, c': Context, m: nat, name: seq<Part>, typeIndex: nat, length: int, argType: ArgType,
                       d: nat)
    requires m < |c.msg| && m + d < |c'.msg| && c'.msg[m + d] == c.msg[m]
    ensures AfterType(c', m + d, AllMoved(name, d), typeIndex + d, length, argType)
         == MovedHead(AfterType(c, m, name, typeIndex, length, argType), d)
  {
    hide AllMoved;
    TypePartMoves(name, NewPart(ArgTypeName, typeIndex, length, 0), d);
  }

  lemma TypePartMoves(name: seq<Part>, p: Part, d: int)
    ensures AllMoved(name + [p], d) == AllMoved(name, d) + [Moved(p, d)]
    ensures name + [] == name && AllMoved(name, d) + [] == AllMoved(name, d)
  {
    AllMovedOne(p, d);
    AllMovedAppend(name, [p], d);
  }

  lemma StyleEndStep(c: Context, i: nat, nested: nat)
    requires i < |c.msg|
    ensures c.msg[i] == APOS ==>
              var e := Skip(NotApostrophe, c.msg, i + 1);
              StyleEnd(c, i, nested) == if e == |c.msg| then Err(PatternSyntax) else StyleEnd(c, e + 1, nested)
    ensures c.msg[i] == LEFT_BRACE ==> StyleEnd(c, i, nested) == StyleEnd(c, i + 1, nested + 1)
    ensures c.msg[i] == RIGHT_BRACE ==>
              StyleEnd(c, i, nested) == if nested > 0 then StyleEnd(c, i + 1, nested - 1) else Ok(i, [])
    ensures c.msg[i] != APOS && c.msg[i] != LEFT_BRACE && c.msg[i] != RIGHT_BRACE ==>
              StyleEnd(c, i, nested) == StyleEnd(c, i + 1, nested)
  {
    hide Skip;
  }

  lemma QuoteMoves(q: Quoting, i: nat, e: nat, end: nat)
    requires Valid(q) && i < e < end <= |q.msg| && e == Skip(NotApostrophe, q.msg, i + 1) && Flat(q, i, end)
    ensures |q.cum| == |q.msg| + 1 && Flat(q, e + 1, end) && q.cum[e + 1] == q.cum[i]
    ensures i + 1 + q.cum[i] <= |q.quoted| && Skip(NotApostrophe, q.quoted, i + 1 + q.cum[i]) == e + q.cum[i]
    ensures |q.quoted| > e + q.cum[i]
  {
    hide Valid, Flat, Skip;
    FlatSub(q, i, end, i + 1, e);
    FlatSub(q, i, end, e + 1, end);
    FlatSub(q, i, end, e, end);
    SkipShift(NotApostrophe, q, i + 1);
    UnitAt(q, e);
  }

  lemma {:induction false} StyleEndMoves(q: Quoting, c: Context, i: nat, nested: nat)
    requires Valid(q) && q.msg == c.msg && i <= |c.msg|
    requires var r := StyleEnd(c, i, nested); r.Ok? && Flat(q, i, r.index)
    ensures i + q.cum[i] <= |q.quoted|
    ensures StyleEnd(Requoted(q, c), i + q.cum[i], nested) == Ok(StyleEnd(c, i, nested).index + q.cum[i], [])
    decreases |c.msg| - i
  {
    hide Valid, Flat, Skip, StyleEnd, NotApostrophe;
    var end := StyleEnd(c, i, nested).index;
    FlatSizes(q, i, end);
    var d := q.cum[i];
    UnitAt(q, i);
    if c.msg[i] == APOS {
      StyleEndStep(c, i, nested);
      StyleEndStep(Requoted(q, c), i + d, nested);
      var e := Skip(NotApostrophe, c.msg, i + 1);
      QuoteMoves(q, i, e, end);
      StyleEndMoves(q, c, e + 1, nested);
    } else {
      StyleEndPlain(c, i, nested);
      StyleEndPlain(Requoted(q, c), i + d, nested);
      if c.msg[i] != RIGHT_BRACE || nested > 0 {
        FlatSub(q, i, end, i + 1, end);
        StyleEndMoves(q, c, i + 1, NestedAfter(c.msg[i], nested));
      }
    }
  }

  function NestedAfter(u: Unit, nested: nat): nat
    requires u == RIGHT_BRACE ==> nested > 0
  {
    if u == LEFT_BRACE then nested + 1 else if u == RIGHT_BRACE then nested - 1 else nested
  }

  lemma StyleEndPlain(c: Context, i: nat, nested: nat)
    requires i < |c.msg| && c.msg[i] != APOS
    ensures StyleEnd(c, i, nested)
            == if c.msg[i] == RIGHT_BRACE && nested == 0 then Ok(i, [])
               else StyleEnd(c, i + 1, NestedAfter(c.msg[i], nested))
  {
    hide Skip;
  }

  lemma ChoiceHeadMoves(q: Quoting, c: Context, i: nat, doubles: nat)
    requires Valid(q) && q.msg == c.msg && i <= |c.msg|
    requires var r := ChoiceHead(c, i, doubles); r.Ok? && Flat(q, i, r.index)
    ensures i + q.cum[i] <= |q.quoted|
    ensures ChoiceHead(Requoted(q, c), i + q.cum[i], doubles) == MovedResult(ChoiceHead(c, i, doubles), q.cum[i])
  {
    hide Valid, Skip, Number, AllMoved;
    var r := ChoiceHead(c, i, doubles);
    var d := q.cum[i];
    var end := Skip(IsDoubleUnit, c.msg, i);
    var k := Skip(IsWhiteSpace, c.msg, end);
    FlatSub(q, i, r.index, i, end);
    FlatSub(q, i, r.index, end, k);
    SkipShift(IsDoubleUnit, q, i);
    SkipShift(IsWhiteSpace, q, end);
    NumberMoves(q, c, i, end, true, doubles);
    SameUnits(q, i, r.index);
    assert q.quoted[k + d] == c.msg[k];
    var p := NewPart(ArgSelector, k, 1, 0);
    AllMovedOne(p, d);
    AllMovedAppend(Number(c, i, end, true, doubles).parts, [p], d);
  }

  ghost function MovedSelector(s: Selector, d: nat): Selector {
    match s
    case SelectorErr(_) => s
    case Offset(j, ps) => Offset(j + d, AllMoved(ps, d))
    case Keyword(j, ps, isOther) => Keyword(j + d, AllMoved(ps, d), isOther)
  }

  lemma BeforeMessageMoves(q: Quoting, c: Context, i: nat, parts: seq<Part>, isOther: bool)
    requires Valid(q) && q.msg == c.msg && i <= |c.msg|
    requires var s := BeforeMessage(c, i, parts, isOther); s.Keyword? && Flat(q, i, s.index)
    ensures i + q.cum[i] <= |q.quoted|
    ensures BeforeMessage(Requoted(q, c), i + q.cum[i], AllMoved(parts, q.cum[i]), isOther)
         == MovedSelector(BeforeMessage(c, i, parts, isOther), q.cum[i])
  {
    hide Valid, Skip, AllMoved;
    var s := BeforeMessage(c, i, parts, isOther);
    SkipShift(IsWhiteSpace, q, i);
    SameUnits(q, i, s.index);
    assert q.quoted[s.index + q.cum[i]] == c.msg[s.index];
  }

  lemma OffsetValueMoves(q: Quoting, c: Context, i: nat, doubles: nat)
    requires Valid(q) && q.msg == c.msg && i <= |c.msg|
    requires var s := OffsetValue(c, i, doubles); s.Offset? && Flat(q, i, s.index)
    ensures i + q.cum[i] <= |q.quoted|
    ensures OffsetValue(Requoted(q, c), i + q.cum[i], doubles) == MovedSelector(OffsetValue(c, i, doubles), q.cum[i])
  {
    hide Valid, Skip, Number, AllMoved;
    var s := OffsetValue(c, i, doubles);
    var v := Skip(IsWhiteSpace, c.msg, i);
    var end := Skip(IsDoubleUnit, c.msg, v);
    FlatSub(q, i, s.index, i, v);
    FlatSub(q, i, s.index, v, end);
    SkipShift(IsWhiteSpace, q, i);
    SkipShift(IsDoubleUnit, q, v);
    NumberMoves(q, c, v, end, false, doubles);
  }

  lemma SelectorMoves(q: Quoting, c: Context, t: ArgType, i: nat, isEmpty: bool, doubles: nat)
    requires Valid(q) && q.msg == c.msg && i < |c.msg|
    requires var s := SelectorAt(c, t, i, isEmpty, doubles); !s.SelectorErr? && Flat(q, i, s.index)
    ensures i + q.cum[i] < |q.quoted|
    ensures SelectorAt(Requoted(q, c), t, i + q.cum[i], isEmpty, doubles)
         == MovedSelector(SelectorAt(c, t, i, isEmpty, doubles), q.cum[i])
  {
    hide Valid, ExplicitSelector, WordSelector;
    SameUnits(q, i, SelectorAt(c, t, i, isEmpty, doubles).index);
    assert q.quoted[i + q.cum[i]] == c.msg[i];
    if HasPluralStyle(t) && c.msg[i] == EQUAL {
      ExplicitMoves(q, c, i, doubles);
    } else {
      WordMoves(q, c, t, i, isEmpty, doubles);
    }
  }

  lemma ExplicitMoves(q: Quoting, c: Context, i: nat, doubles: nat)
    requires Valid(q) && q.msg == c.msg && i < |c.msg|
    requires var s := ExplicitSelector(c, i, doubles); s.Keyword? && Flat(q, i, s.index)
    ensures i + q.cum[i] < |q.quoted|
    ensures ExplicitSelector(Requoted(q, c), i + q.cum[i], doubles)
            == MovedSelector(ExplicitSelector(c, i, doubles), q.cum[i])
  {
    hide Valid, Skip, Number, AllMoved, BeforeMessage;
    var s := ExplicitSelector(c, i, doubles);
    var d := q.cum[i];
    var end := Skip(IsDoubleUnit, c.msg, i + 1);
    SameUnits(q, i, s.index);
    FlatSub(q, i, s.index, i + 1, end);
    FlatSub(q, i, s.index, end, s.index);
    SkipShift(IsDoubleUnit, q, i + 1);
    NumberMoves(q, c, i + 1, end, false, doubles);
    var number := Number(c, i + 1, end, false, doubles);
    var p := NewPart(ArgSelector, i, end - i, 0);
    AllMovedOne(p, d);
    AllMovedAppend([p], number.parts, d);
    BeforeMessageMoves(q, c, end, [p] + number.parts, false);
  }

  lemma WordStep(c: Context, t: ArgType, i: nat, isEmpty: bool, doubles: nat, end: nat)
    requires i < |c.msg| && end == Skip(IsIdentifierUnit, c.msg, i)
    ensures end == i ==> WordSelector(c, t, i, isEmpty, doubles) == SelectorErr(PatternSyntax)
    ensures end > i && IsOffsetWord(c, t, i, end) ==>
              WordSelector(c, t, i, isEmpty, doubles)
              == if !isEmpty then SelectorErr(PatternSyntax) else OffsetValue(c, end + 1, doubles)
    ensures end > i && !IsOffsetWord(c, t, i, end) ==>
              WordSelector(c, t, i, isEmpty, doubles)
              == if end - i > MAX_LENGTH then SelectorErr(IndexOutOfBounds)
                 else BeforeMessage(c, end, [NewPart(ArgSelector, i, end - i, 0)], c.msg[i..end] == OTHER_WORD)
  {
    hide Skip;
  }

  lemma WordMoves(q: Quoting, c: Context, t: ArgType, i: nat, isEmpty: bool, doubles: nat)
    requires Valid(q) && q.msg == c.msg && i < |c.msg|
    requires var s := WordSelector(c, t, i, isEmpty, doubles); !s.SelectorErr? && Flat(q, i, s.index)
    ensures i + q.cum[i] < |q.quoted|
    ensures WordSelector(Requoted(q, c), t, i + q.cum[i], isEmpty, doubles)
         == MovedSelector(WordSelector(c, t, i, isEmpty, doubles), q.cum[i])
  {
    hide Valid, Flat, Skip, AllMoved, BeforeMessage, OffsetValue, WordSelector, IsOffsetWord, MovedSelector,
         IsIdentifierUnit;
    var s := WordSelector(c, t, i, isEmpty, doubles);
    var end := Skip(IsIdentifierUnit, c.msg, i);
    WordStep(c, t, i, isEmpty, doubles, end);
    WordText(q, c, t, i, end, s.index);
    var d := q.cum[i];
    WordStep(Requoted(q, c), t, i + d, isEmpty, doubles, end + d);
    if IsOffsetWord(c, t, i, end) {
      OffsetValueMoves(q, c, end + 1, doubles);
    } else {
      AllMovedOne(NewPart(ArgSelector, i, end - i, 0), d);
      BeforeMessageMoves(q, c, end, [NewPart(ArgSelector, i, end - i, 0)], c.msg[i..end] == OTHER_WORD);
    }
  }

  /** A selector word is the same word at the moved place. */
  lemma WordText(q: Quoting, c: Context, t: ArgType, i: nat, end: nat, j: nat)
    requires Valid(q) && q.msg == c.msg && i < |c.msg| && end == Skip(IsIdentifierUnit, c.msg, i)
    requires i < j <= |c.msg| && end <= j && Flat(q, i, j)
    ensures |q.cum| == |q.msg| + 1 && i + q.cum[i] < |q.quoted| && end + q.cum[i] <= |q.quoted|
    ensures var d := q.cum[i];
            && q.cum[end] == d && Skip(IsIdentifierUnit, q.quoted, i + d) == end + d
            && q.quoted[i + d..end + d] == q.msg[i..end]
            && (IsOffsetWord(Requoted(q, c), t, i + d, end + d) <==> IsOffsetWord(c, t, i, end))
            && Flat(q, end, j) && (end < j ==> Flat(q, end + 1, j) && q.cum[end + 1] == d)
  {
    hide Valid, Flat, Skip, IsOffsetWord;
    FlatSizes(q, i, j);
    SameUnits(q, i, j);
    FlatSub(q, i, j, i, end);
    FlatSub(q, i, j, end, j);
    if end < j { FlatSub(q, i, j, end + 1, j); }
    SkipShift(IsIdentifierUnit, q, i);
    SameText(q, i, end);
    SevenUnits(q, c, t, i, end, j);
    assert i <= i <= j && i < |q.msg|;
  }

  /** The seven units compared with "offset:" are the same, or the text ends before them in both. */
  lemma SevenUnits(q: Quoting, c: Context, t: ArgType, i: nat, end: nat, j: nat)
    requires Valid(q) && q.msg == c.msg && i <= end <= j <= |c.msg| && Flat(q, i, j)
    ensures end + q.cum[i] <= |q.quoted|
    ensures IsOffsetWord(Requoted(q, c), t, i + q.cum[i], end + q.cum[i]) <==> IsOffsetWord(c, t, i, end)
  {
    hide Valid;
    FlatSub(q, i, j, i, end);
    SameUnits(q, i, end);
    SameText(q, i, end);
    if end - i == 6 && end < |c.msg| {
      var d := q.cum[i];
      assert c.msg[i..i + 7] == c.msg[i..end] + [c.msg[end]];
      assert q.quoted[i + d..i + d + 7] == q.quoted[i + d..end + d] + [q.quoted[end + d]];
    }
  }
}
