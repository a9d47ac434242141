/**
  For which texts the CJK engine finds a cheapest segmentation whatever the dictionary: exactly those in which all
  Katakana words are aligned.
 */
module DictCjkExact {
  import opened DictText
  import opened DictCjkText
  import opened DictCjk

  /** best[j] is the cost of a cheapest segmentation of the text up to j, or infinite if there is none. */
  ghost predicate EntryRight(pb: Problem, j: nat)
    requires Sound(pb) && j <= |pb.text|
  {
    var b := Run(pb, |pb.text|).best[j];
    if CanBeCovered(pb, j) then b != INFINITE && exists es :: Optimal(pb, es, j) && Cost(es) == b else b == INFINITE
  }

  ghost predicate TableRight(pb: Problem)
    requires Sound(pb)
  {
    forall j: nat :: j <= |pb.text| ==> EntryRight(pb, j)
  }

  /** The same text with another dictionary. */
  function With(pb: Problem, words: nat -> seq<Edge>): Problem { pb.(words := words) }

  ghost predicate TableRightForAll(pb: Problem) {
    forall words :: Sound(With(pb, words)) && Fits(With(pb, words)) ==> TableRight(With(pb, words))
  }

  ghost predicate FoundRightForAll(pb: Problem) {
    forall words :: Sound(With(pb, words)) && Fits(With(pb, words)) ==>
      DividesOptimally(With(pb, words), Found(With(pb, words)))
  }

  // ---------- runs of Katakana ----------

  /** Everything from i up to end is Katakana, and nothing more. */
  predicate IsRun(s: seq<int>, i: nat, end: nat) {
    && i < end <= |s| && (forall k :: i <= k < end ==> IsKatakana(s[k]))
    && (end < |s| ==> !IsKatakana(s[end]))
  }

  lemma {:induction false} RunIs(s: seq<int>, i: nat, length: nat)
    requires 1 <= length <= MAX_KATAKANA_GROUP_LENGTH && i + length <= |s|
    requires forall k :: i <= k < i + length ==> IsKatakana(s[k])
    ensures var r := KatakanaRun(s, i, length);
            && (forall k :: i <= k < i + r ==> IsKatakana(s[k]))
            && (r < MAX_KATAKANA_GROUP_LENGTH && i + r < |s| ==> !IsKatakana(s[i + r]))
    decreases |s| - i - length
  {
    hide IsKatakana;
    if i + length < |s| && length < MAX_KATAKANA_GROUP_LENGTH && IsKatakana(s[i + length]) {
      RunIs(s, i, length + 1);
    }
  }

  /** Where the Katakana word from i ends. */
  function EndOf(pb: Problem, i: nat): (end: nat)
    requires i < |pb.text| && KatakanaEdge(pb, i) != []
    ensures i < end <= |pb.text| && end < i + MAX_KATAKANA_GROUP_LENGTH
    ensures KatakanaEdge(pb, i) == [Edge(end - i, KatakanaCost(end - i))]
  {
    i + KatakanaEdge(pb, i)[0].length
  }

  lemma EdgeIsRun(pb: Problem, i: nat)
    requires i < |pb.text| && KatakanaEdge(pb, i) != []
    ensures IsRun(pb.text, i, EndOf(pb, i))
  {
    hide IsKatakana;
    RunIs(pb.text, i, 1);
  }

  /** Two Katakana words that overlap end at the same place. */
  lemma SameEnd(pb: Problem, i: nat, k: nat)
    requires i < |pb.text| && KatakanaEdge(pb, i) != [] && k < |pb.text| && KatakanaEdge(pb, k) != []
    requires i <= k < EndOf(pb, i)
    ensures EndOf(pb, k) == EndOf(pb, i)
  {
    hide IsKatakana, KatakanaEdge;
    EdgeIsRun(pb, i);
    EdgeIsRun(pb, k);
  }

  /** The first Katakana word that is not aligned, from i to end. */
  ghost predicate FirstMisaligned(pb: Problem, i: nat, end: nat) {
    && i < |pb.text| && KatakanaEdge(pb, i) != [] && end == EndOf(pb, i) && !KatakanaAligned(pb, i)
    && forall k: nat :: k < i ==> KatakanaAligned(pb, k)
  }

  lemma {:induction false} FindFirst(pb: Problem, k: nat) returns (i: nat, end: nat)
    requires k < |pb.text| && !KatakanaAligned(pb, k)
    ensures FirstMisaligned(pb, i, end)
  {
    hide KatakanaEdge, UnitIndex;
    if j: nat :| j < k && !KatakanaAligned(pb, j) {
      i, end := FindFirst(pb, j);
    } else {
      i, end := k, EndOf(pb, k);
    }
  }

  /** No Katakana word is entered at that end. */
  lemma NotEnteredAt(pb: Problem, i: nat, end: nat, k: nat)
    requires FirstMisaligned(pb, i, end) && k < |pb.text| && KatakanaEdge(pb, k) != []
    ensures var place := UnitIndex(pb.text, EndOf(pb, k));
            && EndOf(pb, k) <= place && place != end
            && (EndOf(pb, k) == end ==> i <= k && place > end)
            && (k <= i < EndOf(pb, k) ==> k == i)
  {
    hide KatakanaEdge, Native;
    UnitsBelow(pb.text, EndOf(pb, k));
    UnitsBelow(pb.text, end);
    if k < i {
      assert KatakanaAligned(pb, k);
      if i < EndOf(pb, k) { SameEnd(pb, k, i); }
    } else if k < end {
      SameEnd(pb, i, k);
    }
  }

  // ---------- a dictionary that shows it ----------

  const DEAR := 10000
  const DETOUR := 9000

  /** Every character is a word, a dear one inside the Katakana word and a free one elsewhere. */
  function Price(i: nat, end: nat, k: nat): nat { if i <= k < end then DEAR else 0 }

  /** Also, at x, a word of two characters that is not as dear; x may be -1. */
  function WitnessWords(i: nat, end: nat, x: int, k: nat): seq<Edge> {
    [Edge(1, Price(i, end, k))] + if k == x then [Edge(2, DETOUR)] else []
  }

  ghost predicate IsWitness(q: Problem, i: nat, end: nat, x: int) {
    && FirstMisaligned(q, i, end) && -1 <= x <= |q.text| - 2
    && forall k: nat :: q.words(k) == WitnessWords(i, end, x, k)
  }

  /** The cost of the text up to j in single characters. */
  function Singles(i: nat, end: nat, j: nat): (c: nat)
    requires i < end < i + MAX_KATAKANA_GROUP_LENGTH
    ensures c <= 190000
  {
    if j <= i then 0 else if j <= end then DEAR * (j - i) else DEAR * (end - i)
  }

  lemma Witness(pb: Problem, i: nat, end: nat, x: int) returns (words: nat -> seq<Edge>)
    requires FirstMisaligned(pb, i, end) && -1 <= x <= |pb.text| - 2
    ensures IsWitness(With(pb, words), i, end, x)
  {
    words := (k: nat) => WitnessWords(i, end, x, k);
    var q := With(pb, words);
    assert forall k: nat :: k < |pb.text| ==> KatakanaEdge(q, k) == KatakanaEdge(pb, k);
    assert forall k: nat :: k < |pb.text| ==> KatakanaAligned(q, k) == KatakanaAligned(pb, k);
  }

  lemma WitnessSound(q: Problem, i: nat, end: nat, x: int)
    requires IsWitness(q, i, end, x)
    ensures Sound(q)
  {
    hide FirstMisaligned;
    forall k: nat | k < |q.text|
      ensures GoodWords(q.words(k), |q.text| - k)
    {
    }
  }

  lemma WitnessEdges(q: Problem, i: nat, end: nat, x: int, k: nat)
    requires IsWitness(q, i, end, x) && k < |q.text|
    ensures Fallback(q, k) == [] && Edges(q, k) == WitnessWords(i, end, x, k) + KatakanaEdge(q, k)
  {
    hide FirstMisaligned, KatakanaEdge;
  }

  /** Only the Katakana word from i to end gets past i without a dear word or the detour. */
  lemma CheapEdge(q: Problem, i: nat, end: nat, x: int, k: nat, e: Edge)
    requires IsWitness(q, i, end, x) && k < |q.text| && e in Edges(q, k)
    ensures e.cost <= DEAR
    ensures e.cost < DETOUR && k < end && k + e.length > i ==> k + e.length == end && (k <= i ==> k == i)
  {
    hide FirstMisaligned, KatakanaEdge, EndOf, UnitIndex;
    WitnessEdges(q, i, end, x, k);
    if KatakanaEdge(q, k) != [] {
      NotEnteredAt(q, i, end, k);
      MisalignedEdge(q, i, end);
      if i <= k < end { SameEnd(q, i, k); }
    }
  }

  lemma MisalignedEdge(q: Problem, i: nat, end: nat)
    requires FirstMisaligned(q, i, end)
    ensures i < |q.text| && KatakanaEdge(q, i) != [] && end == EndOf(q, i) && UnitIndex(q.text, end) > end
  {
    UnitsBelow(q.text, end);
  }

  lemma {:induction false} CoverSingles(q: Problem, i: nat, end: nat, x: int, j: nat) returns (es: seq<Edge>)
    requires IsWitness(q, i, end, x) && j <= |q.text|
    ensures Covers(q, es, j) && Cost(es) == Singles(i, end, j)
  {
    hide FirstMisaligned, Covers, Cost, Ends, Edges, KatakanaEdge;
    MisalignedEdge(q, i, end);
    es := [];
    if j == 0 {
      NoWords(q);
    } else {
      var before := CoverSingles(q, i, end, x, j - 1);
      var e := Edge(1, Price(i, end, j - 1));
      WitnessEdges(q, i, end, x, j - 1);
      assert e in WitnessWords(i, end, x, j - 1);
      OneMoreWord(q, before, e, j - 1);
      es := before + [e];
    }
  }

  /** With the Katakana word the text costs at most 8192. */
  lemma {:induction false} CoverCheaply(q: Problem, i: nat, end: nat, x: int, j: nat) returns (es: seq<Edge>)
    requires IsWitness(q, i, end, x) && end <= j <= |q.text|
    ensures Covers(q, es, j) && Cost(es) <= 8192
  {
    hide FirstMisaligned, Covers, Cost, Ends, Edges, KatakanaEdge;
    MisalignedEdge(q, i, end);
    var start := if j == end then i else j - 1;
    var e := if j == end then KatakanaEdge(q, i)[0] else Edge(1, 0);
    var before;
    if j == end {
      before := CoverSingles(q, i, end, x, i);
    } else {
      before := CoverCheaply(q, i, end, x, j - 1);
    }
    WitnessEdges(q, i, end, x, start);
    assert e in WitnessWords(i, end, x, start) + KatakanaEdge(q, start);
    OneMoreWord(q, before, e, start);
    es := before + [e];
  }

  lemma WitnessFits(q: Problem, i: nat, end: nat, x: int)
    requires IsWitness(q, i, end, x)
    ensures Fits(q)
  {
    hide Covers, Cost, Edges, IsWitness;
    forall es, k: nat, e | k < |q.text| && Optimal(q, es, k) && e in Edges(q, k)
      ensures Cost(es) + e.cost < INFINITE
    {
      var fs := CoverSingles(q, i, end, x, k);
      CheapEdge(q, i, end, x, k, e);
      assert Cost(es) <= Cost(fs);
    }
  }

  /** A segmentation that ends inside the Katakana word is not cheap. */
  lemma InsideIsDear(q: Problem, i: nat, end: nat, x: int, es: seq<Edge>, j: nat)
    requires IsWitness(q, i, end, x) && Covers(q, es, j) && i < j < end
    ensures Cost(es) >= DETOUR
  {
    hide FirstMisaligned, Edges;
    var e := es[|es| - 1];
    CheapEdge(q, i, end, x, j - e.length, e);
  }

  /**
    A cheap segmentation has the Katakana word from i to end. If prev leads along its ends, then from end to i; and
    unless it ends there, some place leads to end.
   */
  lemma {:induction false} CheapEnds(q: Problem, i: nat, end: nat, x: int, prev: seq<int>, es: seq<Edge>, j: nat)
    requires IsWitness(q, i, end, x) && Covers(q, es, j) && end <= j <= |q.text| && Cost(es) < DETOUR
    requires |prev| == |q.text| + 1 && (forall y :: 0 <= y < |prev| ==> prev[y] < y) && Ends(es) == Trace(prev, j)
    ensures prev[end] == i || (i == 0 && prev[end] <= 0)
    ensures j == end || exists y :: 0 <= y < |prev| && prev[y] == end
    decreases |es|
  {
    hide FirstMisaligned, Edges, KatakanaEdge, Trace;
    MisalignedEdge(q, i, end);
    var e, before := es[|es| - 1], es[..|es| - 1];
    var k := j - e.length;
    CheapEdge(q, i, end, x, k, e);
    WitnessSound(q, i, end, x);
    EndsAscend(q, before, k);
    TraceStep(prev, j);
    assert Ends(es)[..|before|] == Ends(before);
    assert Ends(before) == Trace(prev, prev[j]);
    if prev[j] > 0 { TraceEnds(prev, prev[j]); } else { TraceStops(prev, prev[j]); }
    if k >= end {
      assert prev[j] == k;
      CheapEnds(q, i, end, x, prev, before, k);
    } else if i < k {
      InsideIsDear(q, i, end, x, before, k);
    }
  }

  // ---------- what the tables hold for it ----------

  /** A word from k of the given cost, when the sum does not wrap around. */
  ghost predicate Enters(t: Tables, u: Tables, k: nat, place: nat, end: nat, cost: nat) {
    && |t.best| == |t.prev| == |u.best| == |u.prev| && k < |t.best| && end < |t.best|
    && var better := place < |t.best| && t.best[k] + cost < t.best[place];
       && (forall y :: 0 <= y < |t.best| ==>
             u.best[y] == if better && y == place then t.best[k] + cost else t.best[y])
       && (forall y :: 0 <= y < |t.best| ==> u.prev[y] == if better && y == end then k else t.prev[y])
  }

  lemma RelaxedEnters(t: Tables, k: nat, place: nat, end: nat, cost: nat)
    requires |t.best| == |t.prev| && k < |t.best| && end < |t.best| && 0 <= t.best[k] + cost < 0x1_0000_0000
    ensures Enters(t, Relaxed(t, k, place, end, cost), k, place, end, cost)
  {
  }

  /** One turn: the single character, the detour and the Katakana word. */
  lemma WitnessTurn(q: Problem, i: nat, end: nat, x: int, t: Tables, k: nat) returns (u: Tables, v: Tables)
    requires IsWitness(q, i, end, x) && Sized(q, t) && k < |q.text| && 0 <= t.best[k] <= 190000
    ensures Enters(t, u, k, k + 1, k + 1, Price(i, end, k)) && u.best[k] == t.best[k]
    ensures if k == x then Enters(u, v, k, k + 2, k + 2, DETOUR) else v == u
    ensures v.best[k] == t.best[k] && AllEnd(q, k, q.words(k)) && Sized(q, v)
    ensures var w := Extended(q, t, k);
            if KatakanaEdge(q, k) == [] then w == v
            else Enters(v, w, k, UnitIndex(q.text, EndOf(q, k)), EndOf(q, k), KatakanaEdge(q, k)[0].cost)
  {
    hide FirstMisaligned, KatakanaEdge, UnitIndex, Relaxed, AllRelaxed;
    WitnessEdges(q, i, end, x, k);
    var ws := q.words(k);
    assert AllEnd(q, k, ws);
    NoneRelaxed(q, t, k);
    OneMoreRelaxed(q, t, k, ws, 0);
    assert ws[..0] == [] && ws[..|ws|] == ws && ws + [] == ws;
    RelaxedEnters(t, k, k + 1, k + 1, Price(i, end, k));
    u := Relaxed(t, k, k + 1, k + 1, Price(i, end, k));
    v := u;
    if k == x {
      OneMoreRelaxed(q, t, k, ws, 1);
      RelaxedEnters(u, k, k + 2, k + 2, DETOUR);
      v := Relaxed(u, k, k + 2, k + 2, DETOUR);
    } else {
      assert ws[..1] == ws;
    }
    assert v == AllRelaxed(q, t, k, ws);
    if KatakanaEdge(q, k) != [] {
      KatakanaPlace(q, k);
      RelaxedEnters(v, k, UnitIndex(q.text, EndOf(q, k)), EndOf(q, k), KatakanaEdge(q, k)[0].cost);
    }
  }

  /** The least cost that is entered at the end. */
  function Least(end: nat, x: int): nat { if x + 2 == end then DETOUR else DEAR }

  /** Whatever is before stage k has been reached by single characters at most, and the end only dearly. */
  ghost predicate Dear(q: Problem, i: nat, end: nat, x: int, t: Tables, k: nat)
    requires i < end < i + MAX_KATAKANA_GROUP_LENGTH
  {
    && Sized(q, t) && k <= |q.text| && end <= |q.text|
    && (forall y :: 0 <= y <= |q.text| ==> 0 <= t.best[y] && t.prev[y] < k)
    && (forall y :: 0 <= y <= k ==> t.best[y] <= Singles(i, end, y))
    && t.best[end] >= Least(end, x)
  }

  /** A word from k that is entered further on, and at the end only dearly, keeps that; costs never rise. */
  lemma EntersDearly(q: Problem, i: nat, end: nat, x: int, t: Tables, u: Tables, k: nat, place: nat, e: nat, cost: nat)
    requires k < |q.text| && i < end < i + MAX_KATAKANA_GROUP_LENGTH
    requires Dear(q, i, end, x, t, k) || DuringTurn(q, i, end, x, t, k)
    requires Enters(t, u, k, place, e, cost) && k < place && (place == end ==> cost >= Least(end, x))
    ensures DuringTurn(q, i, end, x, u, k)
    ensures forall y :: 0 <= y <= |q.text| ==> u.best[y] <= t.best[y]
  {
  }

  /** The same within turn k. */
  ghost predicate DuringTurn(q: Problem, i: nat, end: nat, x: int, t: Tables, k: nat)
    requires i < end < i + MAX_KATAKANA_GROUP_LENGTH
  {
    && Sized(q, t) && k < |q.text| && end <= |q.text|
    && (forall y :: 0 <= y <= |q.text| ==> 0 <= t.best[y] && t.prev[y] <= k)
    && (forall y :: 0 <= y <= k ==> t.best[y] <= Singles(i, end, y))
    && t.best[end] >= Least(end, x)
  }

  lemma DearTurn(q: Problem, i: nat, end: nat, x: int, t: Tables, k: nat)
    requires IsWitness(q, i, end, x) && k < |q.text| && i < end < i + MAX_KATAKANA_GROUP_LENGTH
    requires Dear(q, i, end, x, t, k)
    ensures AllEnd(q, k, q.words(k)) && Dear(q, i, end, x, Extended(q, t, k), k + 1)
  {
    hide IsWitness, KatakanaEdge, UnitIndex, Extended, EndOf, DuringTurn, Enters, Dear;
    BeforeTurn(q, i, end, x, t, k);
    var u, v := WitnessTurn(q, i, end, x, t, k);
    var w := Extended(q, t, k);
    EntersSizes(t, u, k, k + 1, k + 1, Price(i, end, k));
    EntersDearly(q, i, end, x, t, u, k, k + 1, k + 1, Price(i, end, k));
    SingleEntered(t, u, i, end, k);
    if k == x { EntersDearly(q, i, end, x, u, v, k, k + 2, k + 2, DETOUR); }
    if KatakanaEdge(q, k) != [] {
      EnteredElsewhere(q, i, end, x, k);
      var e := EndOf(q, k);
      EntersDearly(q, i, end, x, v, w, k, UnitIndex(q.text, e), e, KatakanaEdge(q, k)[0].cost);
    }
    AfterTurn(q, i, end, x, w, k);
  }

  lemma BeforeTurn(q: Problem, i: nat, end: nat, x: int, t: Tables, k: nat)
    requires i < end < i + MAX_KATAKANA_GROUP_LENGTH && k < |q.text| && Dear(q, i, end, x, t, k)
    ensures Sized(q, t) && 0 <= t.best[k] <= Singles(i, end, k)
  {
  }

  lemma EntersSizes(t: Tables, u: Tables, k: nat, place: nat, end: nat, cost: nat)
    requires Enters(t, u, k, place, end, cost)
    ensures |t.best| == |t.prev| == |u.best| == |u.prev|
  {
  }

  lemma SingleEntered(t: Tables, u: Tables, i: nat, end: nat, k: nat)
    requires i < end < i + MAX_KATAKANA_GROUP_LENGTH && k + 1 < |t.best| == |u.best|
    requires Enters(t, u, k, k + 1, k + 1, Price(i, end, k)) && t.best[k] <= Singles(i, end, k)
    ensures u.best[k + 1] <= Singles(i, end, k + 1)
  {
  }

  lemma AfterTurn(q: Problem, i: nat, end: nat, x: int, t: Tables, k: nat)
    requires i < end < i + MAX_KATAKANA_GROUP_LENGTH && DuringTurn(q, i, end, x, t, k)
    requires Sized(q, t) && k < |q.text| && t.best[k + 1] <= Singles(i, end, k + 1)
    ensures Dear(q, i, end, x, t, k + 1)
  {
  }

  lemma EnteredElsewhere(q: Problem, i: nat, end: nat, x: int, k: nat)
    requires IsWitness(q, i, end, x) && k < |q.text| && KatakanaEdge(q, k) != []
    ensures var place := UnitIndex(q.text, EndOf(q, k));
            place != end && k < EndOf(q, k) <= place && (EndOf(q, k) == end ==> i <= k && place > end)
  {
    hide KatakanaEdge, UnitIndex, FirstMisaligned;
    NotEnteredAt(q, i, end, k);
  }

  lemma {:induction false} DearRun(q: Problem, i: nat, end: nat, x: int, k: nat)
    requires IsWitness(q, i, end, x) && Sound(q) && k <= |q.text| && i < end < i + MAX_KATAKANA_GROUP_LENGTH
    ensures Dear(q, i, end, x, Run(q, k), k)
  {
    hide Extended, Sound, IsWitness;
    if k == 0 {
      Shape(q, i, end, x);
    } else {
      DearRun(q, i, end, x, k - 1);
      WordsEnd(q, k - 1);
      DearTurn(q, i, end, x, Run(q, k - 1), k - 1);
    }
  }

  /** So the table is wrong at the end. */
  lemma TableWrong(q: Problem, i: nat, end: nat, x: int)
    requires IsWitness(q, i, end, x)
    ensures Sound(q) && Fits(q) && !TableRight(q)
  {
    hide IsWitness, Run, Covers, Cost, Sound, Fits;
    WitnessSound(q, i, end, x);
    WitnessFits(q, i, end, x);
    Shape(q, i, end, x);
    DearRun(q, i, end, x, |q.text|);
    var es := CoverCheaply(q, i, end, x, end);
    assert CanBeCovered(q, end);
    assert !EntryRight(q, end);
  }

  lemma Shape(q: Problem, i: nat, end: nat, x: int)
    requires IsWitness(q, i, end, x)
    ensures i < end <= |q.text| && end < i + MAX_KATAKANA_GROUP_LENGTH
  {
    MisalignedEdge(q, i, end);
  }

  lemma AlignedAnyway(pb: Problem, words: nat -> seq<Edge>)
    ensures Aligned(With(pb, words)) == Aligned(pb)
  {
    hide UnitIndex, IsKatakana, KatakanaRun;
    var q := With(pb, words);
    assert forall k: nat :: k < |pb.text| ==> KatakanaAligned(q, k) == KatakanaAligned(pb, k);
  }

  /** The table is right for every dictionary whose sums fit exactly if all Katakana words are aligned. */
  lemma TableRightExactly(pb: Problem)
    ensures TableRightForAll(pb) <==> Aligned(pb)
  {
    hide Sound, Fits, Aligned, TableRight;
    if Aligned(pb) {
      forall words | Sound(With(pb, words)) && Fits(With(pb, words))
        ensures TableRight(With(pb, words))
      {
        AlignedAnyway(pb, words);
        AlignedTable(With(pb, words));
      }
    } else {
      var words := MisalignedWitness(pb);
    }
  }

  lemma AlignedTable(pb: Problem)
    requires Sound(pb) && Fits(pb) && Aligned(pb)
    ensures TableRight(pb)
  {
    hide Sound, Fits, Aligned, Run, Covers, Cost, Ends, Trace, Optimal;
    forall j: nat | j <= |pb.text|
      ensures EntryRight(pb, j)
    {
      TableIsOptimal(pb, j);
    }
  }

  lemma MisalignedWitness(pb: Problem) returns (words: nat -> seq<Edge>)
    requires !Aligned(pb)
    ensures Sound(With(pb, words)) && Fits(With(pb, words)) && !TableRight(With(pb, words))
  {
    hide KatakanaAligned, FirstMisaligned, IsWitness, Sound, Fits, TableRight;
    var k: nat :| k < |pb.text| && !KatakanaAligned(pb, k);
    var i, end := FindFirst(pb, k);
    words := Witness(pb, i, end, -1);
    TableWrong(With(pb, words), i, end, -1);
  }

  // ---------- and what is found ----------

  /** The place f that the end is entered from, by a dear word at its last character or by the detour. */
  ghost predicate EnteredFrom(end: nat, x: int, f: int, t: Tables, k: nat)
    requires end < |t.best| == |t.prev|
  {
    && (k <= f ==> t.best[end] == INFINITE)
    && (k > f ==> t.prev[end] == f && (x == f ==> t.best[end] <= DETOUR))
  }

  /** A Katakana word of several characters without the detour, or one of a single, last character with it. */
  predicate Setting(n: nat, i: nat, end: nat, x: int, f: int) {
    || (x == -1 && end > i + 1 && f == end - 1)
    || (0 < i && end == i + 1 == n && x == f == i - 1)
  }

  lemma EnteredTurn(q: Problem, i: nat, end: nat, x: int, f: int, t: Tables, k: nat)
    requires IsWitness(q, i, end, x) && k < |q.text| && i < end < i + MAX_KATAKANA_GROUP_LENGTH
    requires Dear(q, i, end, x, t, k) && Setting(|q.text|, i, end, x, f) && EnteredFrom(end, x, f, t, k)
    ensures AllEnd(q, k, q.words(k)) && EnteredFrom(end, x, f, Extended(q, t, k), k + 1)
  {
    hide IsWitness, KatakanaEdge, UnitIndex, Extended, EndOf;
    BeforeTurn(q, i, end, x, t, k);
    var u, v := WitnessTurn(q, i, end, x, t, k);
    assert EnteredFrom(end, x, f, v, k + 1);
    if KatakanaEdge(q, k) != [] { EnteredElsewhere(q, i, end, x, k); }
  }

  lemma {:induction false} EnteredRun(q: Problem, i: nat, end: nat, x: int, f: int, k: nat)
    requires IsWitness(q, i, end, x) && Sound(q) && k <= |q.text| && i < end < i + MAX_KATAKANA_GROUP_LENGTH
    requires end <= |q.text| && Setting(|q.text|, i, end, x, f)
    ensures EnteredFrom(end, x, f, Run(q, k), k)
  {
    hide Extended, Sound, IsWitness, Dear;
    if k > 0 {
      DearRun(q, i, end, x, k - 1);
      EnteredRun(q, i, end, x, f, k - 1);
      WordsEnd(q, k - 1);
      EnteredTurn(q, i, end, x, f, Run(q, k - 1), k - 1);
    }
  }

  /** With the detour from i over a word of one character, nothing comes from its end. */
  ghost predicate NothingFrom(end: nat, t: Tables, k: nat)
    requires end + 1 < |t.best| == |t.prev|
  {
    k >= end ==> t.best[end + 1] <= DETOUR && forall y :: 0 <= y < |t.prev| ==> t.prev[y] != end
  }

  lemma NothingTurn(q: Problem, i: nat, end: nat, t: Tables, k: nat)
    requires IsWitness(q, i, end, i) && k < |q.text| && end == i + 1 < |q.text|
    requires Dear(q, i, end, i, t, k) && NothingFrom(end, t, k)
    ensures AllEnd(q, k, q.words(k)) && NothingFrom(end, Extended(q, t, k), k + 1)
  {
    hide IsWitness, KatakanaEdge, UnitIndex, Extended, EndOf;
    BeforeTurn(q, i, end, i, t, k);
    var u, v := WitnessTurn(q, i, end, i, t, k);
    assert k >= i ==> v.best[end + 1] <= DETOUR;
    if k == end { NoneFromEnd(q, i, end, i); }
    if KatakanaEdge(q, k) != [] { EnteredElsewhere(q, i, end, i, k); }
  }

  lemma NoneFromEnd(q: Problem, i: nat, end: nat, x: int)
    requires IsWitness(q, i, end, x) && end < |q.text|
    ensures KatakanaEdge(q, end) == []
  {
    EdgeIsRun(q, i);
  }

  lemma {:induction false} NothingRun(q: Problem, i: nat, end: nat, k: nat)
    requires IsWitness(q, i, end, i) && Sound(q) && k <= |q.text| && end == i + 1 < |q.text|
    ensures NothingFrom(end, Run(q, k), k)
  {
    hide Extended, Sound, IsWitness, Dear;
    if k > 0 {
      DearRun(q, i, end, i, k - 1);
      NothingRun(q, i, end, k - 1);
      WordsEnd(q, k - 1);
      NothingTurn(q, i, end, Run(q, k - 1), k - 1);
    }
  }

  /** So what is found is not a cheapest segmentation. */
  lemma FoundWrong(q: Problem, i: nat, end: nat, x: int)
    requires IsWitness(q, i, end, x) && |q.text| > 1
    requires x == if end > i + 1 then -1 else if end < |q.text| then i else i - 1
    ensures Sound(q) && Fits(q) && !DividesOptimally(q, Found(q))
  {
    hide IsWitness, Run, Covers, Cost, Ends, Trace, Sound, Fits, Dear;
    WitnessSound(q, i, end, x);
    WitnessFits(q, i, end, x);
    Shape(q, i, end, x);
    var n, t := |q.text|, Run(q, |q.text|);
    RunBackward(q, n);
    DearRun(q, i, end, x, n);
    DearEnd(q, i, end, x, t, n);
    var cheap := CoverCheaply(q, i, end, x, n);
    if end == i + 1 < n {
      NothingRun(q, i, end, n);
    } else {
      EnteredRun(q, i, end, x, if x == -1 then end - 1 else x, n);
    }
    if DividesOptimally(q, Found(q)) {
      assert CanBeCovered(q, n);
      var es :| Optimal(q, es, n) && Found(q) == Ends(es);
      assert Cost(es) <= Cost(cheap);
      CheapEnds(q, i, end, x, t.prev, es, n);
    }
  }

  lemma DearEnd(q: Problem, i: nat, end: nat, x: int, t: Tables, k: nat)
    requires i < end < i + MAX_KATAKANA_GROUP_LENGTH && Dear(q, i, end, x, t, k)
    ensures Sized(q, t) && t.best[k] <= 190000
  {
    assert t.best[k] <= Singles(i, end, k);
  }

  lemma FoundWitness(pb: Problem) returns (words: nat -> seq<Edge>)
    requires !Aligned(pb) && |pb.text| > 1
    ensures var q := With(pb, words); Sound(q) && Fits(q) && !DividesOptimally(q, Found(q))
  {
    hide KatakanaAligned, IsWitness, Sound, Fits, DividesOptimally, KatakanaEdge;
    var k: nat :| k < |pb.text| && !KatakanaAligned(pb, k);
    var i, end := FindFirst(pb, k);
    var x := if end > i + 1 then -1 else if end < |pb.text| then i else i - 1;
    words := Witness(pb, i, end, x);
    FoundWrong(With(pb, words), i, end, x);
  }

  // ---------- text of one character ----------

  lemma {:induction false} Cheapest(pb: Problem, es: seq<Edge>, j: nat) returns (fs: seq<Edge>)
    requires Covers(pb, es, j)
    ensures Optimal(pb, fs, j)
    decreases Cost(es)
  {
    hide Covers, Cost;
    if gs :| Covers(pb, gs, j) && Cost(gs) < Cost(es) {
      fs := Cheapest(pb, gs, j);
    } else {
      fs := es;
    }
  }

  /** There is only one way to divide it. */
  lemma OneCharacterRight(pb: Problem)
    requires Sound(pb) && |pb.text| == 1
    ensures DividesOptimally(pb, Found(pb))
  {
    hide Sound, Found, Covers, Cost, Ends;
    FoundAscends(pb);
    var s := Found(pb);
    assert s == [1];
    if CanBeCovered(pb, 1) {
      var es :| Covers(pb, es, 1);
      var fs := Cheapest(pb, es, 1);
      EndsAscend(pb, fs, 1);
      assert Ends(fs) == [1];
    }
  }

  /** A cheapest segmentation is found for every dictionary whose sums fit exactly if all Katakana words are aligned. */
  lemma FoundRightExactly(pb: Problem)
    ensures FoundRightForAll(pb) <==> Aligned(pb) || |pb.text| == 1
  {
    hide Sound, Fits, Aligned, DividesOptimally, Found;
    if Aligned(pb) || |pb.text| == 1 {
      forall words | Sound(With(pb, words)) && Fits(With(pb, words))
        ensures DividesOptimally(With(pb, words), Found(With(pb, words)))
      {
        AlignedAnyway(pb, words);
        if Aligned(pb) { FoundIsOptimal(With(pb, words)); } else { OneCharacterRight(With(pb, words)); }
      }
    } else {
      NothingMisaligned(pb);
      var words := FoundWitness(pb);
    }
  }

  lemma NothingMisaligned(pb: Problem)
    requires !Aligned(pb)
    ensures |pb.text| > 0
  {
  }
}
