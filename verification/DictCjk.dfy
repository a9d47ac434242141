/**
  CjkBreakEngine::divideUpDictionaryRange() in source/common/dictbe.cpp: the cheapest segmentation of a text into
  words, by dynamic programming, and the breaks in the text it was made from.
 */
module DictCjk {
  import opened Basics
  import opened DictText
  import opened DictCjkText

  const INFINITE := 0xffff_ffff   // kuint32max
  const MAX_SNLP := 255
  const MAX_WORD_SIZE := 20
  const MAX_KATAKANA_LENGTH := 8
  const MAX_KATAKANA_GROUP_LENGTH := 20
  const KATAKANA_COST: seq<nat> := [8192, 984, 408, 240, 204, 252, 300, 372, 480]

  /** A word that may start at some position: its length in characters and its cost. */
  datatype Edge = Edge(length: nat, cost: nat)

  /** The characters to segment, what the dictionary matches at each position, and the Hangul set. */
  datatype Problem = Problem(text: seq<int>, words: nat -> seq<Edge>, hangul: int -> bool)

  function KatakanaCost(length: nat): (c: nat)
    ensures c <= 8192
  {
    if length > MAX_KATAKANA_LENGTH then 8192 else KATAKANA_COST[length]
  }

  /** The parameter of isKatakana() has 16 bits. */
  predicate IsKatakana(c: int) {
    var value := c % 0x10000;
    (0x30A1 <= value <= 0x30FE && value != 0x30FB) || 0xFF66 <= value <= 0xFF9F
  }

  // ---------- the segmentations to choose from ----------

  /** A character that is no word by itself is one at the highest cost, unless it is Hangul. */
  function Fallback(pb: Problem, i: nat): seq<Edge>
    requires i < |pb.text|
  {
    var ws := pb.words(i);
    if (|ws| == 0 || ws[0].length != 1) && !pb.hangul(pb.text[i]) then [Edge(1, MAX_SNLP)] else []
  }

  /** The length of the run of Katakana that contains i + length - 1, counted up to the group limit. */
  function KatakanaRun(text: seq<int>, i: nat, length: nat): (r: nat)
    requires 1 <= length && i + length <= |text| && length <= MAX_KATAKANA_GROUP_LENGTH
    ensures length <= r <= MAX_KATAKANA_GROUP_LENGTH && i + r <= |text|
    decreases |text| - i - length
  {
    if i + length < |text| && length < MAX_KATAKANA_GROUP_LENGTH
      && IsKatakana(text[i + length]) then KatakanaRun(text, i, length + 1)
    else length
  }

  /** A run of Katakana from i on is a candidate, if it is not too long. */
  function KatakanaEdge(pb: Problem, i: nat): seq<Edge>
    requires i < |pb.text|
  {
    if !IsKatakana(pb.text[i]) then []
    else
      var run := KatakanaRun(pb.text, i, 1);
      if run < MAX_KATAKANA_GROUP_LENGTH then [Edge(run, KatakanaCost(run))] else []
  }

  /** What a Katakana edge would be if only the first character of a run could start one. */
  function RunStartEdge(pb: Problem, i: nat): seq<Edge>
    requires i < |pb.text|
  {
    if i > 0 && IsKatakana(pb.text[i - 1]) then [] else KatakanaEdge(pb, i)
  }

  /** The two readings differ exactly inside runs, where the rest of the run is not too long. */
  lemma EdgesInsideRuns(pb: Problem, i: nat)
    requires i < |pb.text|
    ensures KatakanaEdge(pb, i) != RunStartEdge(pb, i)
       <==> && i > 0 && IsKatakana(pb.text[i - 1]) && IsKatakana(pb.text[i])
            && KatakanaRun(pb.text, i, 1) < MAX_KATAKANA_GROUP_LENGTH
  {
  }

  /** In U+30A2 U+30A2 the second character starts an edge too. */
  lemma SecondKatakanaStarts(pb: Problem)
    requires pb.text == [0x30A2, 0x30A2]
    ensures KatakanaEdge(pb, 1) == [Edge(1, 984)] && RunStartEdge(pb, 1) == []
  {
  }

  /** All words that may start at i. */
  function Edges(pb: Problem, i: nat): seq<Edge>
    requires i < |pb.text|
  {
    pb.words(i) + Fallback(pb, i) + KatakanaEdge(pb, i)
  }

  /** The words of es, one after the other, cover the text from its start up to j. */
  ghost predicate Covers(pb: Problem, es: seq<Edge>, j: nat)
    decreases |es|
  {
    if |es| == 0 then j == 0
    else
      var e := es[|es| - 1];
      e.length <= j && j - e.length < |pb.text| && e in Edges(pb, j - e.length)
        && Covers(pb, es[..|es| - 1], j - e.length)
  }

  function Cost(es: seq<Edge>): nat {
    if |es| == 0 then 0 else Cost(es[..|es| - 1]) + es[|es| - 1].cost
  }

  /** Where the words of es end. */
  function Ends(es: seq<Edge>): seq<nat> {
    if |es| == 0 then [] else
    var before := Ends(es[..|es| - 1]);
    before + [(if |before| == 0 then 0 else before[|before| - 1]) + es[|es| - 1].length]
  }

  ghost predicate CanBeCovered(pb: Problem, j: nat) { exists es :: Covers(pb, es, j) }

  ghost predicate Optimal(pb: Problem, es: seq<Edge>, j: nat) {
    Covers(pb, es, j) && forall fs :: Covers(pb, fs, j) ==> Cost(es) <= Cost(fs)
  }

  /** Dictionary words come in increasing length, up to the end of the text. */
  predicate GoodWords(ws: seq<Edge>, room: nat) {
    && (forall a, b :: 0 <= a < b < |ws| ==> ws[a].length < ws[b].length)
    && forall a :: 0 <= a < |ws| ==> 1 <= ws[a].length <= room
  }

  ghost predicate Sound(pb: Problem) {
    forall i: nat :: i < |pb.text| ==> GoodWords(pb.words(i), |pb.text| - i)
  }

  /** One word more behind a cheapest segmentation is not too dear for 32 bits. */
  ghost predicate Fits(pb: Problem) {
    forall es, i: nat, e ::
      i < |pb.text| && Optimal(pb, es, i) && e in Edges(pb, i) ==> Cost(es) + e.cost < INFINITE
  }

  lemma EdgesFit(pb: Problem, i: nat, e: Edge)
    requires Sound(pb) && i < |pb.text| && e in Edges(pb, i)
    ensures 1 <= e.length && i + e.length <= |pb.text|
  {
    assert GoodWords(pb.words(i), |pb.text| - i);
  }

  ghost predicate PricedAtMost(pb: Problem, most: nat) {
    forall i: nat, e :: i < |pb.text| && e in Edges(pb, i) ==> e.cost <= most
  }

  /** So it is if no word costs more than most, and the text is not too long for that. */
  lemma BoundedFits(pb: Problem, most: nat)
    requires Sound(pb) && PricedAtMost(pb, most) && |pb.text| * most < INFINITE
    ensures Fits(pb)
  {
    hide Covers, Cost, Edges;
    forall es, i: nat, e | i < |pb.text| && Optimal(pb, es, i) && e in Edges(pb, i)
      ensures Cost(es) + e.cost < INFINITE
    {
      EdgesFit(pb, i, e);
      CostBounded(pb, es, i, most);
      Multiply(i + 1, |pb.text|, most);
    }
  }

  /** Words that the dictionary does not have cost at most 8192. */
  lemma PricedByWords(pb: Problem, most: nat)
    requires 8192 <= most && forall i: nat, e :: i < |pb.text| && e in pb.words(i) ==> e.cost <= most
    ensures PricedAtMost(pb, most)
  {
    hide KatakanaRun, IsKatakana;
  }

  lemma {:induction false} CostBounded(pb: Problem, es: seq<Edge>, j: nat, most: nat)
    requires Sound(pb) && Covers(pb, es, j) && PricedAtMost(pb, most)
    ensures Cost(es) <= j * most
    decreases |es|
  {
    hide Sound, Edges;
    if |es| > 0 {
      var e := es[|es| - 1];
      var i := j - e.length;
      EdgesFit(pb, i, e);
      CostBounded(pb, es[..|es| - 1], i, most);
      OneMorePrice(i, j, Cost(es[..|es| - 1]), e.cost, most);
    }
  }

  lemma OneMorePrice(i: nat, j: nat, c: nat, price: nat, most: nat)
    requires i < j && c <= i * most && price <= most
    ensures c + price <= j * most
  {
    Multiply(i + 1, j, most);
  }

  lemma Multiply(a: nat, b: nat, m: nat)
    requires a <= b
    ensures a * m <= b * m
  {
    assert b * m == a * m + (b - a) * m;
  }

  /** The ends of the words of a segmentation ascend strictly from beyond 0 to the end of the text. */
  lemma {:induction false} EndsAscend(pb: Problem, es: seq<Edge>, j: nat)
    requires Sound(pb) && Covers(pb, es, j)
    ensures |Ends(es)| == |es| && (|es| == 0 <==> j == 0) && (|es| > 0 ==> Ends(es)[0] > 0 && Ends(es)[|es| - 1] == j)
    ensures forall a, b :: 0 <= a < b < |es| ==> Ends(es)[a] < Ends(es)[b]
    decreases |es|
  {
    hide Sound, Edges;
    if |es| > 0 {
      var e := es[|es| - 1];
      EdgesFit(pb, j - e.length, e);
      EndsAscend(pb, es[..|es| - 1], j - e.length);
    }
  }

  // ---------- the programme ----------

  /** best[j] is the cost of the text up to j, or infinite, and prev[j] where its last word starts. */
  datatype Tables = Tables(best: seq<int>, prev: seq<int>)

  /**
    A word from i of some cost: compared with the cost at place, and entered there and in prev at end. Places
    beyond the table read as zero.
   */
  function Relaxed(t: Tables, i: nat, place: nat, end: nat, cost: nat): Tables
    requires i < |t.best| && end < |t.prev|
  {
    var newSnlp := (t.best[i] + cost) % 0x1_0000_0000;
    if place < |t.best| && newSnlp < t.best[place] then Tables(t.best[place := newSnlp], t.prev[end := i]) else t
  }

  ghost predicate Sized(pb: Problem, t: Tables) { |t.best| == |t.prev| == |pb.text| + 1 }

  predicate AllEnd(pb: Problem, i: nat, ws: seq<Edge>) {
    forall e :: e in ws ==> 1 <= e.length && i + e.length <= |pb.text|
  }

  function AllRelaxed(pb: Problem, t: Tables, i: nat, ws: seq<Edge>): (r: Tables)
    requires |t.best| == |t.prev| == |pb.text| + 1 && i < |pb.text| && AllEnd(pb, i, ws)
    ensures |r.best| == |r.prev| == |pb.text| + 1
    decreases |ws|
  {
    if |ws| == 0 then t
    else
      var e := ws[|ws| - 1];
      assert e in ws;
      Relaxed(AllRelaxed(pb, t, i, ws[..|ws| - 1]), i, i + e.length, i + e.length, e.cost)
  }

  /** The Katakana word from i is compared and entered at a code unit index. */
  function KatakanaRelaxed(pb: Problem, t: Tables, i: nat): (r: Tables)
    requires |t.best| == |t.prev| == |pb.text| + 1 && i < |pb.text|
    ensures |r.best| == |r.prev| == |pb.text| + 1
  {
    var es := KatakanaEdge(pb, i);
    if es == [] then t
    else
      var end := i + es[0].length;
      Relaxed(t, i, UnitIndex(pb.text, end), end, es[0].cost)
  }

  /** All words from i. */
  function Extended(pb: Problem, t: Tables, i: nat): (r: Tables)
    requires |t.best| == |t.prev| == |pb.text| + 1 && i < |pb.text| && AllEnd(pb, i, pb.words(i))
    ensures |r.best| == |r.prev| == |pb.text| + 1
  {
    if t.best[i] == INFINITE then t
    else KatakanaRelaxed(pb, AllRelaxed(pb, t, i, pb.words(i) + Fallback(pb, i)), i)
  }

  function StartTables(n: nat): Tables {
    Tables(seq(n + 1, k => if k == 0 then 0 else INFINITE), seq(n + 1, _ => -1))
  }

  /** The tables when the words from positions before i have been considered. */
  ghost function Run(pb: Problem, i: nat): (t: Tables)
    requires Sound(pb) && i <= |pb.text|
    ensures Sized(pb, t)
  {
    if i == 0 then StartTables(|pb.text|)
    else
      WordsEnd(pb, i - 1);
      Extended(pb, Run(pb, i - 1), i - 1)
  }

  lemma WordsEnd(pb: Problem, i: nat)
    requires Sound(pb) && i < |pb.text|
    ensures AllEnd(pb, i, pb.words(i))
  {
    assert GoodWords(pb.words(i), |pb.text| - i);
  }

  /** The Katakana word that starts at i ends where its code unit index says. */
  predicate KatakanaAligned(pb: Problem, i: nat)
    requires i < |pb.text|
  {
    var es := KatakanaEdge(pb, i);
    es != [] ==> UnitIndex(pb.text, i + es[0].length) == i + es[0].length
  }

  predicate Aligned(pb: Problem) {
    forall i: nat :: i < |pb.text| ==> KatakanaAligned(pb, i)
  }

  /** That is, there is no supplementary character before the end of the word. */
  lemma AlignedMeaning(s: seq<int>, k: nat)
    requires k <= |s|
    ensures UnitIndex(s, k) == k <==> forall x :: 0 <= x < k ==> s[x] <= 0xffff
  {
    hide Native;
    if UnitIndex(s, k) == k {
      forall x | 0 <= x < k
        ensures s[x] <= 0xffff
      {
        NoPairsBelow(s, x, k);
      }
    } else if forall x :: 0 <= x < k ==> s[x] <= 0xffff {
      OnlySingles(s, k);
    }
  }

  lemma NoPairsBelow(s: seq<int>, x: nat, k: nat)
    requires x < k <= |s| && UnitIndex(s, k) == k
    ensures s[x] <= 0xffff
  {
    hide Native;
    var p := s[..k];
    assert p[..x] == s[..x] && p[..x + 1] == s[..x + 1];
    NoPairs(p, x);
    NoPairs(p, x + 1);
    NativeStep(Units, p, x);
  }

  lemma {:induction false} OnlySingles(s: seq<int>, k: nat)
    requires k <= |s| && forall x :: 0 <= x < k ==> s[x] <= 0xffff
    ensures UnitIndex(s, k) == k
    decreases k
  {
    if k > 0 {
      OnlySingles(s, k - 1);
      NativeStep(Units, s, k - 1);
    }
  }

  /** The step for the Katakana word is the one for a dictionary word, whatever the tables. */
  ghost predicate StepsAlike(pb: Problem, i: nat)
    requires i < |pb.text| && KatakanaEdge(pb, i) != []
  {
    forall t: Tables :: |t.best| == |t.prev| == |pb.text| + 1 ==> StepAlike(pb, t, i)
  }

  predicate StepAlike(pb: Problem, t: Tables, i: nat)
    requires |t.best| == |t.prev| == |pb.text| + 1 && i < |pb.text| && KatakanaEdge(pb, i) != []
  {
    var e := KatakanaEdge(pb, i)[0];
    KatakanaRelaxed(pb, t, i) == Relaxed(t, i, i + e.length, i + e.length, e.cost)
  }

  /** So it is exactly if the word is aligned. */
  lemma KatakanaStepExact(pb: Problem, i: nat)
    requires i < |pb.text| && KatakanaEdge(pb, i) != []
    ensures StepsAlike(pb, i) <==> KatakanaAligned(pb, i)
  {
    hide StepAlike, KatakanaAligned;
    if KatakanaAligned(pb, i) {
      forall t: Tables | |t.best| == |t.prev| == |pb.text| + 1
        ensures StepAlike(pb, t, i)
      {
        AlignedStep(pb, t, i);
      }
    } else {
      MisalignedStep(pb, i);
    }
  }

  lemma AlignedStep(pb: Problem, t: Tables, i: nat)
    requires |t.best| == |t.prev| == |pb.text| + 1 && i < |pb.text| && KatakanaEdge(pb, i) != []
    requires KatakanaAligned(pb, i)
    ensures StepAlike(pb, t, i)
  {
    hide KatakanaEdge, UnitIndex, Relaxed;
  }

  lemma MisalignedStep(pb: Problem, i: nat)
    requires i < |pb.text| && KatakanaEdge(pb, i) != [] && !KatakanaAligned(pb, i)
    ensures !StepsAlike(pb, i)
  {
    hide KatakanaEdge, UnitIndex, Relaxed;
    KatakanaPlace(pb, i);
    var n, e := |pb.text|, KatakanaEdge(pb, i)[0];
    var t := Tables(seq(n + 1, k => if k == i then 0 else INFINITE), seq(n + 1, _ => -1));
    OtherPlace(t, i, UnitIndex(pb.text, i + e.length), i + e.length, e.cost);
    assert !StepAlike(pb, t, i);
  }

  lemma OtherPlace(t: Tables, i: nat, place: nat, end: nat, cost: nat)
    requires i < end < place && end < |t.best| == |t.prev| && cost < INFINITE
    requires t.best[i] == 0 && t.best[end] == INFINITE
    ensures Relaxed(t, i, place, end, cost) != Relaxed(t, i, end, end, cost)
  {
    assert Relaxed(t, i, end, end, cost).best[end] == cost;
    assert Relaxed(t, i, place, end, cost).best[end] == INFINITE;
  }

  lemma KatakanaPlace(pb: Problem, i: nat)
    requires i < |pb.text| && KatakanaEdge(pb, i) != []
    ensures var e := KatakanaEdge(pb, i)[0];
            && 1 <= e.length && e.cost <= 8192 && i + e.length <= |pb.text|
            && i + e.length <= UnitIndex(pb.text, i + e.length)
  {
    UnitsBelow(pb.text, i + KatakanaEdge(pb, i)[0].length);
  }

  // ---------- what the tables hold ----------

  /** Whatever the costs and the text, prev leads backward. */
  ghost predicate Backward(pb: Problem, t: Tables) {
    Sized(pb, t) && t.best[0] == 0 && forall j :: 0 <= j <= |pb.text| ==> -1 <= t.prev[j] < j
  }

  lemma {:induction false} AllRelaxedBackward(pb: Problem, t: Tables, i: nat, ws: seq<Edge>)
    requires Backward(pb, t) && i < |pb.text| && AllEnd(pb, i, ws)
    ensures Backward(pb, AllRelaxed(pb, t, i, ws))
    decreases |ws|
  {
    if |ws| > 0 {
      assert ws[|ws| - 1] in ws;
      AllRelaxedBackward(pb, t, i, ws[..|ws| - 1]);
    }
  }

  lemma ExtendedBackward(pb: Problem, t: Tables, i: nat)
    requires Backward(pb, t) && i < |pb.text| && AllEnd(pb, i, pb.words(i))
    ensures Backward(pb, Extended(pb, t, i))
  {
    hide AllRelaxed, UnitIndex, KatakanaRun, IsKatakana;
    AllRelaxedBackward(pb, t, i, pb.words(i) + Fallback(pb, i));
    if KatakanaEdge(pb, i) != [] { KatakanaPlace(pb, i); }
  }

  lemma {:induction false} RunBackward(pb: Problem, i: nat)
    requires Sound(pb) && i <= |pb.text|
    ensures Backward(pb, Run(pb, i))
  {
    hide Extended;
    if i > 0 {
      RunBackward(pb, i - 1);
      WordsEnd(pb, i - 1);
      ExtendedBackward(pb, Run(pb, i - 1), i - 1);
    }
  }

  /** best[j] is infinite, or the cost of reaching j over prev[j] by one word. */
  ghost predicate Linked(pb: Problem, t: Tables, j: int)
    requires Sized(pb, t) && 0 <= j <= |pb.text|
  {
    || t.best[j] == INFINITE
    || (j == 0 && t.best[0] == 0 && t.prev[0] == -1)
    || (0 <= t.prev[j] < j && t.best[t.prev[j]] != INFINITE
        && exists e :: e in Edges(pb, t.prev[j]) && Links(t.best, t.prev[j], j, e))
  }

  predicate Links(best: seq<int>, i: int, j: int, e: Edge)
    requires 0 <= i < |best| && 0 <= j < |best|
  {
    i + e.length == j && best[j] == best[i] + e.cost
  }

  /** The state when words that start before i have been considered. */
  ghost predicate Table(pb: Problem, t: Tables, i: int) {
    && Sized(pb, t) && 0 <= i <= |pb.text| && t.best[0] == 0 && t.prev[0] == -1
    && forall j :: 0 <= j <= |pb.text| ==> Linked(pb, t, j) && t.prev[j] <= i && t.best[j] >= 0
  }

  /** No word that starts at k gives a better cost. */
  ghost predicate Settled(pb: Problem, best: seq<int>, k: int)
    requires |best| == |pb.text| + 1 && 0 <= k < |pb.text|
  {
    best[k] != INFINITE ==> forall e :: e in Edges(pb, k) ==> Served(best, k, e)
  }

  predicate Served(best: seq<int>, k: int, e: Edge)
    requires 0 <= k < |best|
  {
    k + e.length < |best| ==> best[k + e.length] <= best[k] + e.cost
  }

  ghost predicate AllSettled(pb: Problem, best: seq<int>, i: int)
    requires |best| == |pb.text| + 1 && i <= |pb.text|
  {
    forall k :: 0 <= k < i ==> Settled(pb, best, k)
  }

  /** The words of es that start at i have been considered. */
  ghost predicate AllServed(best: seq<int>, i: int, es: seq<Edge>)
    requires 0 <= i < |best|
  {
    forall e :: e in es ==> Served(best, i, e)
  }

  /** Every segmentation up to j costs at least what the table says. */
  lemma {:induction false} AtMost(pb: Problem, t: Tables, x: int, es: seq<Edge>, j: nat)
    requires Sound(pb) && Fits(pb) && Table(pb, t, x) && j <= |pb.text| && AllSettled(pb, t.best, j)
    requires Covers(pb, es, j)
    ensures t.best[j] != INFINITE && t.best[j] <= Cost(es)
    decreases j, 0
  {
    hide Sound, Fits, Edges, Linked;
    if |es| > 0 {
      var e := es[|es| - 1];
      var i := j - e.length;
      EdgesFit(pb, i, e);
      AtMost(pb, t, x, es[..|es| - 1], i);
      SumFits(pb, t, x, i, e);
      assert Settled(pb, t.best, i);
      assert Served(t.best, i, e);
    }
  }

  /** So the cost in the table is that of a cheapest segmentation, and one word more does not overflow. */
  lemma {:induction false} SumFits(pb: Problem, t: Tables, x: int, i: nat, e: Edge)
    requires Sound(pb) && Fits(pb) && Table(pb, t, x) && i < |pb.text| && AllSettled(pb, t.best, i)
    requires t.best[i] != INFINITE && e in Edges(pb, i)
    ensures 0 <= t.best[i] + e.cost < INFINITE
    decreases i, 1
  {
    hide Sound, Edges, Linked, Covers, Cost, Ends, Settled;
    var es := Achieved(pb, t, x, i);
    forall fs | Covers(pb, fs, i)
      ensures t.best[i] <= Cost(fs)
    {
      AtMost(pb, t, x, fs, i);
    }
    assert Optimal(pb, es, i);
  }

  /** The positions that following prev from j visits, up to the start. */
  function Trace(prev: seq<int>, j: int): seq<nat>
    decreases j
  {
    if j <= 0 then [] else (if j < |prev| && prev[j] < j then Trace(prev, prev[j]) else []) + [j]
  }

  /** Following prev from j back to the start gives a segmentation that costs what the table says. */
  lemma {:induction false} Achieved(pb: Problem, t: Tables, i: int, j: nat)
    returns (es: seq<Edge>)
    requires Table(pb, t, i) && j <= |pb.text| && t.best[j] != INFINITE
    ensures Covers(pb, es, j) && Cost(es) == t.best[j] && Ends(es) == Trace(t.prev, j)
    decreases j
  {
    hide Edges, Covers, Cost, Ends, Linked, Trace, Links;
    es := [];
    if j == 0 {
      NoWords(pb);
      TraceEnds(t.prev, 0);
    } else {
      var k, e := LastWord(pb, t, i, j);
      var before := Achieved(pb, t, i, k);
      es := before + [e];
      OneMoreWord(pb, before, e, k);
      TraceEnds(t.prev, k);
      TraceStep(t.prev, j);
    }
  }

  /** The word over which the table reaches j. */
  lemma LastWord(pb: Problem, t: Tables, i: int, j: nat) returns (k: nat, e: Edge)
    requires Table(pb, t, i) && 0 < j <= |pb.text| && t.best[j] != INFINITE
    ensures k == t.prev[j] < j && t.best[k] != INFINITE
    ensures e in Edges(pb, k) && k + e.length == j && t.best[j] == t.best[k] + e.cost
  {
    hide Edges;
    assert Linked(pb, t, j);
    k := t.prev[j];
    e :| e in Edges(pb, k) && Links(t.best, k, j, e);
  }

  lemma NoWords(pb: Problem)
    ensures Covers(pb, [], 0) && Cost([]) == 0 && Ends([]) == []
  {
  }

  lemma OneMoreWord(pb: Problem, es: seq<Edge>, e: Edge, k: nat)
    requires Covers(pb, es, k) && k < |pb.text| && e in Edges(pb, k)
    ensures Covers(pb, es + [e], k + e.length) && Cost(es + [e]) == Cost(es) + e.cost
    ensures var before := Ends(es);
            Ends(es + [e]) == before + [(if |before| == 0 then 0 else before[|before| - 1]) + e.length]
  {
    hide Edges;
    assert (es + [e])[..|es|] == es;
  }

  lemma TraceEnds(prev: seq<int>, j: nat)
    ensures j == 0 ==> Trace(prev, j) == []
    ensures j > 0 ==> var t := Trace(prev, j); |t| > 0 && t[|t| - 1] == j
  {
  }

  /** The cost at m was lowered to that of coming from i by e. */
  ghost predicate Lowers(pb: Problem, t: Tables, u: Tables, i: nat, e: Edge) {
    && Sized(pb, t) && i < |pb.text| && 1 <= e.length && i + e.length <= |pb.text|
    && t.best[i] != INFINITE && e in Edges(pb, i) && t.best[i] + e.cost < t.best[i + e.length]
    && u == Tables(t.best[i + e.length := t.best[i] + e.cost], t.prev[i + e.length := i])
  }

  lemma LoweredLinks(pb: Problem, t: Tables, u: Tables, i: nat, e: Edge, j: nat)
    requires Lowers(pb, t, u, i, e) && j <= |pb.text| && Linked(pb, t, j) && t.prev[j] <= i
    ensures Linked(pb, u, j)
  {
    hide Edges;
    if j == i + e.length {
      assert Links(u.best, i, j, e);
    } else if t.best[j] != INFINITE && j != 0 {
      var x :| x in Edges(pb, t.prev[j]) && Links(t.best, t.prev[j], j, x);
      assert Links(u.best, u.prev[j], j, x);
    }
  }

  lemma LoweredSettled(pb: Problem, t: Tables, u: Tables, i: nat, e: Edge, k: nat)
    requires Lowers(pb, t, u, i, e) && k < i && Settled(pb, t.best, k)
    ensures Settled(pb, u.best, k)
  {
    hide Edges;
    if t.best[k] != INFINITE {
      forall x | x in Edges(pb, k)
        ensures Served(u.best, k, x)
      {
        assert Served(t.best, k, x);
      }
    }
  }

  lemma Lowered(pb: Problem, t: Tables, u: Tables, i: nat, e: Edge)
    requires Table(pb, t, i) && AllSettled(pb, t.best, i) && Lowers(pb, t, u, i, e)
    ensures Table(pb, u, i) && AllSettled(pb, u.best, i)
  {
    hide Edges, Linked, Settled;
    forall j | 0 <= j <= |pb.text|
      ensures Linked(pb, u, j) && u.prev[j] <= i && u.best[j] >= 0
    {
      LoweredLinks(pb, t, u, i, e, j);
    }
    forall k | 0 <= k < i
      ensures Settled(pb, u.best, k)
    {
      LoweredSettled(pb, t, u, i, e, k);
    }
  }

  lemma StillServed(best: seq<int>, i: nat, m: int, v: int, es: seq<Edge>)
    requires i < m < |best| && v <= best[m] && AllServed(best, i, es)
    ensures AllServed(best[m := v], i, es)
  {
    var best' := best[m := v];
    forall e | e in es
      ensures Served(best', i, e)
    {
      assert Served(best, i, e);
    }
  }

  lemma OneMoreServed(best: seq<int>, i: nat, done: seq<Edge>, e: Edge)
    requires i < |best| && AllServed(best, i, done) && Served(best, i, e)
    ensures AllServed(best, i, done + [e])
  {
  }

  /** What every word from i keeps. */
  ghost predicate Considered(pb: Problem, t: Tables, i: nat, done: seq<Edge>) {
    && i < |pb.text| && Table(pb, t, i) && AllSettled(pb, t.best, i) && t.best[i] != INFINITE
    && AllServed(t.best, i, done)
  }

  /** One word: the sum does not wrap around, and the word is considered. */
  lemma RelaxedKeeps(pb: Problem, t: Tables, i: nat, e: Edge, done: seq<Edge>)
    requires Sound(pb) && Fits(pb) && Considered(pb, t, i, done) && e in Edges(pb, i)
    ensures i + e.length <= |pb.text|
    ensures Considered(pb, Relaxed(t, i, i + e.length, i + e.length, e.cost), i, done + [e])
  {
    hide Sound, Fits, Edges, AllServed, AllSettled, Linked;
    EdgesFit(pb, i, e);
    SumFits(pb, t, i, i, e);
    var m := i + e.length;
    var u := Relaxed(t, i, m, m, e.cost);
    if t.best[i] + e.cost < t.best[m] {
      Lowered(pb, t, u, i, e);
      StillServed(t.best, i, m, t.best[i] + e.cost, done);
    }
    OneMoreServed(u.best, i, done, e);
  }

  lemma ConsideredSizes(pb: Problem, t: Tables, i: nat)
    requires Considered(pb, t, i, [])
    ensures Sized(pb, t) && i < |pb.text|
  {
  }

  lemma {:induction false} AllRelaxedKeeps(pb: Problem, t: Tables, i: nat, ws: seq<Edge>)
    requires Sound(pb) && Fits(pb) && Considered(pb, t, i, []) && AllEnd(pb, i, ws)
    requires forall e :: e in ws ==> e in Edges(pb, i)
    ensures Considered(pb, AllRelaxed(pb, t, i, ws), i, ws)
    decreases |ws|
  {
    hide Sound, Fits, Edges, Relaxed, Considered;
    ConsideredSizes(pb, t, i);
    if |ws| > 0 {
      var e, before := ws[|ws| - 1], ws[..|ws| - 1];
      assert e in ws && before + [e] == ws;
      AllRelaxedKeeps(pb, t, i, before);
      RelaxedKeeps(pb, AllRelaxed(pb, t, i, before), i, e, before);
    }
  }

  lemma ExtendedKeeps(pb: Problem, t: Tables, i: nat)
    requires Sound(pb) && Fits(pb) && i < |pb.text| && KatakanaAligned(pb, i) && AllEnd(pb, i, pb.words(i))
    requires Table(pb, t, i) && AllSettled(pb, t.best, i)
    ensures var u := Extended(pb, t, i); Table(pb, u, i) && AllSettled(pb, u.best, i + 1)
  {
    hide Sound, Fits, Linked, AllSettled, AllRelaxed, Relaxed, UnitIndex, KatakanaRun, IsKatakana, Fallback,
         KatakanaCost, Edges;
    if t.best[i] == INFINITE {
      SettledAnyway(pb, t.best, i);
    } else {
      var ws := pb.words(i) + Fallback(pb, i);
      WordsAreEdges(pb, i, ws);
      AllRelaxedKeeps(pb, t, i, ws);
      var v := AllRelaxed(pb, t, i, ws);
      if KatakanaEdge(pb, i) != [] {
        var e := KatakanaEdge(pb, i)[0];
        assert KatakanaEdge(pb, i) == [e];
        RelaxedKeeps(pb, v, i, e, ws);
      } else {
        assert ws + [] == ws;
      }
      NowSettled(pb, Extended(pb, t, i), i);
    }
  }

  lemma WordsAreEdges(pb: Problem, i: nat, words: seq<Edge>)
    requires i < |pb.text| && words == pb.words(i) + Fallback(pb, i)
    ensures forall e :: e in words ==> e in Edges(pb, i)
    ensures forall e :: e in KatakanaEdge(pb, i) ==> e in Edges(pb, i)
    ensures Edges(pb, i) == words + KatakanaEdge(pb, i)
    ensures AllEnd(pb, i, pb.words(i)) ==> AllEnd(pb, i, words)
  {
  }

  lemma NowSettled(pb: Problem, t: Tables, i: nat)
    requires i < |pb.text| && Considered(pb, t, i, Edges(pb, i))
    ensures AllSettled(pb, t.best, i + 1)
  {
    hide Edges, Linked;
  }

  lemma SettledAnyway(pb: Problem, best: seq<int>, i: nat)
    requires |best| == |pb.text| + 1 && i < |pb.text| && AllSettled(pb, best, i) && best[i] == INFINITE
    ensures AllSettled(pb, best, i + 1)
  {
  }

  lemma {:induction false} RunKeeps(pb: Problem, i: nat)
    requires Sound(pb) && Fits(pb) && Aligned(pb) && i <= |pb.text|
    ensures Table(pb, Run(pb, i), i) && AllSettled(pb, Run(pb, i).best, i)
  {
    hide Sound, Fits, Extended, KatakanaAligned, AllSettled, Linked, Edges;
    if i == 0 {
      StartTable(pb);
    } else {
      RunKeeps(pb, i - 1);
      WordsEnd(pb, i - 1);
      ExtendedKeeps(pb, Run(pb, i - 1), i - 1);
    }
  }

  lemma StartTable(pb: Problem)
    ensures var t := StartTables(|pb.text|); Table(pb, t, 0) && AllSettled(pb, t.best, 0)
  {
    hide Edges;
  }

  /**
    At every place the finished table holds the minimum cost over all segmentations of the text up to there, or
    infinity if there is none; and following prev gives a segmentation of that cost.
   */
  lemma TableIsOptimal(pb: Problem, j: nat)
    requires Sound(pb) && Fits(pb) && Aligned(pb) && j <= |pb.text|
    ensures var t := Run(pb, |pb.text|);
            && (t.best[j] == INFINITE <==> !CanBeCovered(pb, j))
            && (t.best[j] != INFINITE ==>
                  exists es :: Optimal(pb, es, j) && Cost(es) == t.best[j] && Ends(es) == Trace(t.prev, j))
  {
    hide Sound, Fits, Aligned, Covers, Cost, Ends, Linked, Settled, Run;
    RunKeeps(pb, |pb.text|);
    var t := Run(pb, |pb.text|);
    forall es | Covers(pb, es, j)
      ensures t.best[j] != INFINITE && t.best[j] <= Cost(es)
    {
      AtMost(pb, t, |pb.text|, es, j);
    }
    if t.best[j] != INFINITE {
      var es := Achieved(pb, t, |pb.text|, j);
      assert Optimal(pb, es, j);
    }
  }

  // ---------- the loops ----------

  /** One word from i: a better cost for the place where it ends. */
  method Relax(best: array<int>, prev: array<int>, i: nat, place: nat, end: nat, cost: nat)
    requires best != prev && i < best.Length && end < prev.Length
    modifies best, prev
    ensures Tables(best[..], prev[..]) == Relaxed(old(Tables(best[..], prev[..])), i, place, end, cost)
  {
    var newSnlp := (best[i] + cost) % 0x1_0000_0000;
    var current := if place < best.Length then best[place] else 0;
    if newSnlp < current {
      best[place] := newSnlp;
      prev[end] := i;
    }
  }

  /** All words from i, which is at code unit index ix. */
  method Extend(pb: Problem, best: array<int>, prev: array<int>, i: nat, ix: nat)
    requires best != prev && best.Length == prev.Length == |pb.text| + 1 && Sound(pb) && i < |pb.text|
    requires ix == UnitIndex(pb.text, i) && best[i] != INFINITE && AllEnd(pb, i, pb.words(i))
    modifies best, prev
    ensures Tables(best[..], prev[..]) == Extended(pb, old(Tables(best[..], prev[..])), i)
  {
    hide Sound, Relaxed, AllRelaxed, UnitIndex, KatakanaRun, IsKatakana, Native;
    ghost var t0 := Tables(best[..], prev[..]);
    var words := pb.words(i);
    if (|words| == 0 || words[0].length != 1) && !pb.hangul(pb.text[i]) {
      RoomForOne(pb, i);
      words := words + [Edge(1, MAX_SNLP)];
    }
    WordsAreEdges(pb, i, pb.words(i) + Fallback(pb, i));
    assert words == pb.words(i) + Fallback(pb, i);
    NoneRelaxed(pb, t0, i);
    for j := 0 to |words|
      invariant AllEnd(pb, i, words[..j]) && Tables(best[..], prev[..]) == AllRelaxed(pb, t0, i, words[..j])
    {
      assert words[j] in words;
      OneMoreRelaxed(pb, t0, i, words, j);
      Relax(best, prev, i, i + words[j].length, i + words[j].length, words[j].cost);
    }
    assert words[..|words|] == words;
    if IsKatakana(pb.text[i]) {
      var run, j := MeasureKatakana(pb.text, i, ix);
      if run < MAX_KATAKANA_GROUP_LENGTH {
        Relax(best, prev, i, j, i + run, KatakanaCost(run));
      }
    }
  }

  lemma NoneRelaxed(pb: Problem, t: Tables, i: nat)
    requires Sized(pb, t) && i < |pb.text|
    ensures AllRelaxed(pb, t, i, []) == t
  {
  }

  lemma OneMoreRelaxed(pb: Problem, t: Tables, i: nat, ws: seq<Edge>, j: nat)
    requires Sized(pb, t) && i < |pb.text| && AllEnd(pb, i, ws) && j < |ws|
    ensures AllEnd(pb, i, ws[..j]) && AllEnd(pb, i, ws[..j + 1])
    ensures i + ws[j].length <= |pb.text|
    ensures AllRelaxed(pb, t, i, ws[..j + 1])
            == Relaxed(AllRelaxed(pb, t, i, ws[..j]), i, i + ws[j].length, i + ws[j].length, ws[j].cost)
  {
    hide Relaxed;
    assert ws[j] in ws;
    assert ws[..j + 1][..j] == ws[..j];
  }

  /** A list without a word of length 1 is shorter than the buffer, so the fallback has room. */
  lemma RoomForOne(pb: Problem, i: nat)
    requires Sound(pb) && i < |pb.text| && (|pb.words(i)| == 0 || pb.words(i)[0].length != 1)
    ensures |pb.words(i)| < |pb.text|
  {
    assert GoodWords(pb.words(i), |pb.text| - i);
    if |pb.words(i)| > 0 { LongLast(pb.words(i), |pb.words(i)| - 1, |pb.text| - i); }
  }

  lemma {:induction false} LongLast(ws: seq<Edge>, k: nat, room: nat)
    requires GoodWords(ws, room) && k < |ws| && ws[0].length != 1
    ensures ws[k].length >= k + 2
  {
    if k > 0 { LongLast(ws, k - 1, room); }
  }

  /** The length of the run in characters, and the code unit index of its end. */
  method MeasureKatakana(text: seq<int>, i: nat, ix: nat) returns (run: nat, j: nat)
    requires i < |text| && ix == UnitIndex(text, i)
    ensures run == KatakanaRun(text, i, 1) && j == UnitIndex(text, i + run)
  {
    hide IsKatakana, Native;
    NativeStep(Units, text, i);
    run, j := 1, ix + Units(text[i]);
    while i + run < |text| && run < MAX_KATAKANA_GROUP_LENGTH && IsKatakana(text[i + run])
      invariant i + run <= |text| && 1 <= run <= MAX_KATAKANA_GROUP_LENGTH && j == UnitIndex(text, i + run)
      invariant KatakanaRun(text, i, 1) == KatakanaRun(text, i, run)
      decreases |text| - i - run
    {
      NativeStep(Units, text, i + run);
      j := j + Units(text[i + run]);
      run := run + 1;
    }
  }

  /** Fills both tables from left to right. */
  method Segment(pb: Problem) returns (best: seq<int>, prev: seq<int>)
    requires Sound(pb)
    ensures Tables(best, prev) == Run(pb, |pb.text|)
  {
    hide Sound, Extended, UnitIndex, Native;
    var n := |pb.text|;
    var bestSnlp := new int[n + 1](k => if k == 0 then 0 else INFINITE);
    var prevs := new int[n + 1](_ => -1);
    var ix := 0;
    assert bestSnlp[..] == StartTables(n).best && prevs[..] == StartTables(n).prev;
    StartOf(pb.text);
    for i := 0 to n
      invariant Tables(bestSnlp[..], prevs[..]) == Run(pb, i) && ix == UnitIndex(pb.text, i)
    {
      WordsEnd(pb, i);
      if bestSnlp[i] != INFINITE {
        Extend(pb, bestSnlp, prevs, i, ix);
      } else {
        NotReached(pb, Run(pb, i), i);
      }
      NextUnit(pb.text, i);
      ix := ix + Units(pb.text[i]);
    }
    return bestSnlp[..], prevs[..];
  }

  lemma NotReached(pb: Problem, t: Tables, i: nat)
    requires Sized(pb, t) && i < |pb.text| && AllEnd(pb, i, pb.words(i)) && t.best[i] == INFINITE
    ensures Extended(pb, t, i) == t
  {
  }

  lemma NextUnit(s: seq<int>, k: nat)
    requires k < |s|
    ensures UnitIndex(s, k + 1) == UnitIndex(s, k) + Units(s[k])
  {
    NativeStep(Units, s, k);
  }

  // ---------- the boundaries ----------

  /** Where the words end: along prev, or at the end of the text if there is no segmentation. */
  ghost function Found(pb: Problem): seq<nat>
    requires Sound(pb)
  {
    var n, t := |pb.text|, Run(pb, |pb.text|);
    if t.best[n] == INFINITE then [n] else Trace(t.prev, n)
  }

  predicate Ascending(s: seq<int>) { forall a, b :: 0 <= a < b < |s| ==> s[a] < s[b] }

  lemma {:induction false} TraceAscends(pb: Problem, t: Tables, j: nat)
    requires Backward(pb, t) && 0 < j <= |pb.text|
    ensures var s := Trace(t.prev, j); |s| > 0 && s[0] > 0 && s[|s| - 1] == j && Ascending(s)
    decreases j
  {
    if t.prev[j] > 0 { TraceAscends(pb, t, t.prev[j]); }
  }

  /** Whatever the costs and the text, the ends ascend strictly from beyond 0 to the end of the text. */
  lemma FoundAscends(pb: Problem)
    requires Sound(pb)
    ensures var s := Found(pb);
            Ascending(s) && (|s| == 0 <==> |pb.text| == 0) && (|s| > 0 ==> s[0] > 0 && s[|s| - 1] == |pb.text|)
  {
    hide Run, Trace;
    RunBackward(pb, |pb.text|);
    if |pb.text| > 0 {
      TraceAscends(pb, Run(pb, |pb.text|), |pb.text|);
    } else {
      TraceEnds(Run(pb, 0).prev, 0);
    }
  }

  /** The ends of the words of a cheapest segmentation, or the end of the text if there is none. */
  ghost predicate DividesOptimally(pb: Problem, ends: seq<nat>) {
    if CanBeCovered(pb, |pb.text|) then exists es :: Optimal(pb, es, |pb.text|) && ends == Ends(es)
    else ends == [|pb.text|]
  }

  lemma FoundIsOptimal(pb: Problem)
    requires Sound(pb) && Fits(pb) && Aligned(pb)
    ensures DividesOptimally(pb, Found(pb))
  {
    hide Run, Trace, Sound, Fits, Aligned, CanBeCovered, Optimal, Cost, Ends;
    TableIsOptimal(pb, |pb.text|);
  }

  function Reversed(s: seq<nat>): seq<nat> {
    if |s| == 0 then [] else Reversed(s[1..]) + [s[0]]
  }

  lemma {:induction false} ReversedAppend(s: seq<nat>, x: nat)
    ensures Reversed(s + [x]) == [x] + Reversed(s)
  {
    if |s| > 0 {
      assert (s + [x])[1..] == s[1..] + [x];
      ReversedAppend(s[1..], x);
    } else {
      assert s + [x] == [x];
    }
  }

  lemma NothingReversed()
    ensures Reversed([]) == []
  {
  }

  /** t_boundary: the boundaries from the end of the range backward. */
  method Backtrace(pb: Problem, best: seq<int>, prev: seq<int>) returns (boundary: seq<nat>)
    requires Sound(pb) && Tables(best, prev) == Run(pb, |pb.text|)
    ensures Reversed(boundary) == Found(pb)
  {
    hide Trace, Reversed, Sound, Run;
    var n := |pb.text|;
    NothingReversed();
    RunBackward(pb, n);
    boundary := [];
    if best[n] == INFINITE {
      ReversedAppend([], n);
      assert [] + [n] == [n];
      return [n];
    }
    var i: int := n;
    ghost var goal := Trace(prev, n);
    assert goal == Trace(prev, i) + Reversed(boundary);
    while i > 0
      invariant -1 <= i <= n
      invariant goal == Trace(prev, i) + Reversed(boundary)
      decreases i
    {
      TraceStep(prev, i);
      ReversedAppend(boundary, i);
      assert Trace(prev, prev[i]) + [i] + Reversed(boundary) == Trace(prev, prev[i]) + ([i] + Reversed(boundary));
      boundary := boundary + [i];
      i := prev[i];
    }
    TraceStops(prev, i);
    assert [] + Reversed(boundary) == Reversed(boundary);
  }

  lemma TraceStep(prev: seq<int>, j: int)
    requires 0 < j < |prev| && prev[j] < j
    ensures Trace(prev, j) == Trace(prev, prev[j]) + [j]
  {
  }

  lemma TraceStops(prev: seq<int>, j: int)
    requires j <= 0
    ensures Trace(prev, j) == []
  {
  }

  // ---------- the whole engine ----------

  datatype Engine = Engine(nz: Normalizer, dictionary: seq<int> -> nat -> seq<Edge>, hangul: int -> bool)

  function ProblemOf(engine: Engine, inp: Input): Problem {
    var text := Text(engine.nz, inp);
    Problem(text, engine.dictionary(text), engine.hangul)
  }

  /** The positions to report: the start if the last break is before it, and the ends of the words. */
  ghost function Pushed(engine: Engine, inp: Input, foundBreaks: seq<int>): seq<nat>
    requires Sound(ProblemOf(engine, inp))
  {
    (if |foundBreaks| == 0 || foundBreaks[|foundBreaks| - 1] < inp.rangeStart then [0] else [])
    + Found(ProblemOf(engine, inp))
  }

  predicate Within(positions: seq<nat>, n: nat) { forall k :: 0 <= k < |positions| ==> positions[k] <= n }

  /** The native indexes of positions. */
  function At(places: seq<int>, positions: seq<nat>): (r: seq<int>)
    requires forall k :: 0 <= k < |positions| ==> positions[k] < |places|
    ensures |r| == |positions| && forall k :: 0 <= k < |r| ==> r[k] == places[positions[k]]
  {
    seq(|positions|, k requires 0 <= k < |positions| => places[positions[k]])
  }

  lemma PushedWithin(engine: Engine, inp: Input, foundBreaks: seq<int>)
    requires Sound(ProblemOf(engine, inp))
    ensures var s := Pushed(engine, inp, foundBreaks);
            && Within(s, |Text(engine.nz, inp)|) && Ascending(s)
            && (|Text(engine.nz, inp)| > 0 ==> |s| > 0 && s[|s| - 1] == |Text(engine.nz, inp)|)
  {
    hide Sound, Found, Text;
    FoundAscends(ProblemOf(engine, inp));
  }

  /** CjkBreakEngine::divideUpDictionaryRange() */
  method DivideUpDictionaryRange(engine: Engine, inp: Input, foundBreaks: seq<int>)
    returns (numBreaks: nat, breaks: seq<int>)
    requires Proper(inp) && Sound(ProblemOf(engine, inp))
    ensures |inp.chars| == 0 ==> numBreaks == 0 && breaks == foundBreaks
    ensures |inp.chars| > 0 ==>
              var s := Pushed(engine, inp, foundBreaks);
              && numBreaks == |s| && Within(s, |Text(engine.nz, inp)|)
              && breaks == foundBreaks + At(Places(engine.nz, inp), s)
  {
    hide Sound, Trace, Reversed, Found, Text, Places, Run, Native;
    NothingYet(inp);
    if |inp.chars| > 0 { PositionOrder(inp, 0, |inp.chars|); }
    if inp.rangeStart >= RangeEnd(inp) { return 0, foundBreaks; }
    var text, inputMap := Prepare(engine.nz, inp);
    var pb := Problem(text, engine.dictionary(text), engine.hangul);
    var best, prev := Segment(pb);
    var boundary := Backtrace(pb, best, prev);
    ReversedAppend(boundary, 0);
    assert [] + Reversed(boundary) == Reversed(boundary);
    if |foundBreaks| == 0 || foundBreaks[|foundBreaks| - 1] < inp.rangeStart { boundary := boundary + [0]; }
    PushedWithin(engine, inp, foundBreaks);
    assert Reversed(boundary) == Pushed(engine, inp, foundBreaks);
    ReversedWithin(boundary, |text|);
    numBreaks := |boundary|;
    breaks := PushBackward(boundary, inputMap, inp.rangeStart, foundBreaks, Places(engine.nz, inp));
  }

  lemma {:induction false} ReversedWithin(s: seq<nat>, n: nat)
    ensures |Reversed(s)| == |s|
    ensures Within(Reversed(s), n) ==> Within(s, n)
    ensures Within(s, n) ==> Within(Reversed(s), n)
  {
    if |s| > 0 {
      ReversedWithin(s[1..], n);
      var r := Reversed(s[1..]);
      assert Reversed(s)[..|r|] == r && Reversed(s)[|r|] == s[0];
      assert s == [s[0]] + s[1..];
      forall k | 0 <= k < |r|
        ensures r[k] == Reversed(s)[k] && s[1..][k] == s[k + 1]
      {
      }
    }
  }

  method PushBackward(boundary: seq<nat>, inputMap: Option<seq<int>>, rangeStart: nat, foundBreaks: seq<int>,
                      ghost places: seq<int>) returns (breaks: seq<int>)
    requires |places| > 0 && Within(boundary, |places| - 1) && Gives(inputMap, rangeStart, places)
    ensures Within(Reversed(boundary), |places| - 1)
    ensures breaks == foundBreaks + At(places, Reversed(boundary))
  {
    hide Reversed, Lookup;
    breaks := foundBreaks;
    var i := |boundary|;
    NothingReversed();
    assert boundary[i..] == [];
    while i > 0
      invariant 0 <= i <= |boundary| && Within(Reversed(boundary[i..]), |places| - 1)
      invariant breaks == foundBreaks + At(places, Reversed(boundary[i..]))
    {
      i := i - 1;
      OnePushed(places, boundary, i);
      assert places[boundary[i]] == Lookup(inputMap, rangeStart, boundary[i]);
      breaks := breaks + [Lookup(inputMap, rangeStart, boundary[i])];
    }
    assert boundary[0..] == boundary;
  }

  lemma OnePushed(places: seq<int>, boundary: seq<nat>, i: nat)
    requires |places| > 0 && i < |boundary| && Within(boundary, |places| - 1)
    requires Within(Reversed(boundary[i + 1..]), |places| - 1)
    ensures Within(Reversed(boundary[i..]), |places| - 1)
    ensures At(places, Reversed(boundary[i..])) == At(places, Reversed(boundary[i + 1..])) + [places[boundary[i]]]
  {
    assert boundary[i..][1..] == boundary[i + 1..];
  }

  /** Two positions that stand for different ones of the range. */
  ghost predicate Apart(engine: Engine, inp: Input, p: nat, q: nat) {
    exists x: nat :: p < x <= q && Represented(engine.nz, inp, x)
  }

  /**
    The breaks lie in the range, never decrease and end at its end. They ascend strictly exactly if no two of them
    come from within one fragment.
   */
  lemma BreaksAscend(engine: Engine, inp: Input, foundBreaks: seq<int>)
    requires Proper(inp) && Sound(ProblemOf(engine, inp))
    ensures var s, places := Pushed(engine, inp, foundBreaks), Places(engine.nz, inp);
            && Within(s, |places| - 1)
            && (forall k :: 0 <= k < |s| ==> inp.rangeStart <= places[s[k]] <= RangeEnd(inp))
            && (|Text(engine.nz, inp)| > 0 ==> |s| > 0 && places[s[|s| - 1]] == RangeEnd(inp))
            && (forall a, b :: 0 <= a < b < |s| ==> places[s[a]] <= places[s[b]])
            && (Ascending(At(places, s)) <==> forall a :: 0 < a < |s| ==> Apart(engine, inp, s[a - 1], s[a]))
  {
    hide Sound, Text, Places, Pushed, Represented;
    PushedWithin(engine, inp, foundBreaks);
    var s, places := Pushed(engine, inp, foundBreaks), Places(engine.nz, inp);
    forall k | 0 <= k < |s|
      ensures inp.rangeStart <= places[s[k]] <= RangeEnd(inp)
      ensures s[k] == |places| - 1 ==> places[s[k]] == RangeEnd(inp)
    {
      PlacesInRange(engine.nz, inp, s[k]);
    }
    forall a, b | 0 <= a < b < |s|
      ensures places[s[a]] <= places[s[b]] && (places[s[a]] < places[s[b]] <==> Apart(engine, inp, s[a], s[b]))
    {
      PlacesOrder(engine.nz, inp, s[a], s[b]);
    }
    Neighbours(At(places, s));
  }

  /**
    The first of them is beyond the last break found before; if that is the start of the range, exactly if the first
    word does not end within the first fragment.
   */
  lemma BreaksFollow(engine: Engine, inp: Input, foundBreaks: seq<int>)
    requires Proper(inp) && Sound(ProblemOf(engine, inp)) && |foundBreaks| > 0 && |Text(engine.nz, inp)| > 0
    ensures var s, places := Pushed(engine, inp, foundBreaks), Places(engine.nz, inp);
            var last := foundBreaks[|foundBreaks| - 1];
            && |s| > 0 && Within(s, |places| - 1)
            && (last < inp.rangeStart ==> last < places[s[0]])
            && (last == inp.rangeStart ==>
                  (last < places[s[0]] <==> places[0] > inp.rangeStart || Apart(engine, inp, 0, s[0])))
  {
    hide Sound, Text, Places, Found, Represented;
    PushedWithin(engine, inp, foundBreaks);
    FoundAscends(ProblemOf(engine, inp));
    var s := Pushed(engine, inp, foundBreaks);
    PlacesInRange(engine.nz, inp, 0);
    PlacesInRange(engine.nz, inp, s[0]);
    if s[0] > 0 { PlacesOrder(engine.nz, inp, 0, s[0]); }
  }

  lemma Neighbours(s: seq<int>)
    requires forall a, b :: 0 <= a < b < |s| ==> s[a] <= s[b]
    ensures Ascending(s) <==> forall a :: 0 < a < |s| ==> s[a - 1] < s[a]
  {
    if forall a :: 0 < a < |s| ==> s[a - 1] < s[a] {
      forall a, b | 0 <= a < b < |s|
        ensures s[a] < s[b]
      {
        assert s[a + 1 - 1] < s[a + 1];
      }
    }
  }

  /** In text that is in NFKC they do. */
  lemma NormalizedBreaksAscend(engine: Engine, inp: Input, foundBreaks: seq<int>)
    requires Proper(inp) && Sound(ProblemOf(engine, inp)) && engine.nz.isNormalized(inp.chars)
    ensures var s, places := Pushed(engine, inp, foundBreaks), Places(engine.nz, inp);
            Within(s, |places| - 1) && Ascending(At(places, s))
  {
    hide Sound, Text, Places, Pushed;
    PushedWithin(engine, inp, foundBreaks);
    BreaksAscend(engine, inp, foundBreaks);
    var s := Pushed(engine, inp, foundBreaks);
    forall a | 0 < a < |s|
      ensures Apart(engine, inp, s[a - 1], s[a])
    {
      assert Represented(engine.nz, inp, s[a]);
    }
  }

  // ---------- where the engine does not keep its promises ----------

  lemma OneRelaxed(pb: Problem, t: Tables, i: nat, e: Edge)
    requires Sized(pb, t) && i < |pb.text| && 1 <= e.length && i + e.length <= |pb.text|
    ensures AllEnd(pb, i, [e])
    ensures AllRelaxed(pb, t, i, [e]) == Relaxed(t, i, i + e.length, i + e.length, e.cost)
  {
    hide Relaxed, AllRelaxed;
    NoneRelaxed(pb, t, i);
    OneMoreRelaxed(pb, t, i, [e], 0);
    assert [e][..1] == [e] && [e][..0] == [];
  }

  /** The only word from i is the character itself. */
  lemma OneCharacter(pb: Problem, t: Tables, i: nat)
    requires Sized(pb, t) && i < |pb.text| && pb.words(i) == [] && !pb.hangul(pb.text[i]) && t.best[i] != INFINITE
    ensures AllEnd(pb, i, pb.words(i))
    ensures Extended(pb, t, i) == KatakanaRelaxed(pb, Relaxed(t, i, i + 1, i + 1, MAX_SNLP), i)
  {
    hide Relaxed, KatakanaRelaxed, KatakanaEdge, AllRelaxed;
    var e := Edge(1, MAX_SNLP);
    assert pb.words(i) + Fallback(pb, i) == [e];
    OneRelaxed(pb, t, i, e);
  }

  /** The dictionary has no words for the text. */
  predicate Plain(pb: Problem) {
    forall i: nat :: i < |pb.text| ==> pb.words(i) == [] && !pb.hangul(pb.text[i])
  }

  lemma PlainSound(pb: Problem)
    requires Plain(pb)
    ensures Sound(pb)
  {
  }

  /** Without words, and where the Katakana step changes nothing, the next character is a word. */
  lemma OneStep(pb: Problem, i: nat)
    requires Plain(pb) && Sound(pb) && i < |pb.text| && Run(pb, i).best[i] != INFINITE
    requires forall t: Tables :: |t.best| == |t.prev| == |pb.text| + 1 ==> KatakanaRelaxed(pb, t, i) == t
    ensures Run(pb, i + 1) == Relaxed(Run(pb, i), i, i + 1, i + 1, MAX_SNLP)
  {
    hide KatakanaRelaxed, Extended;
    OneCharacter(pb, Run(pb, i), i);
  }

  /** Two Katakana behind a supplementary character. */
  predicate Mixed(pb: Problem) { Plain(pb) && pb.text == [0x20000, 0x30A2, 0x30A2] }

  lemma MixedEdges(pb: Problem)
    requires Mixed(pb)
    ensures KatakanaEdge(pb, 0) == [] && KatakanaEdge(pb, 1) == [Edge(2, 408)] && KatakanaEdge(pb, 2) == [Edge(1, 984)]
    ensures UnitIndex(pb.text, 3) == 4
  {
    assert KatakanaRun(pb.text, 2, 1) == 1;
    assert KatakanaRun(pb.text, 1, 1) == KatakanaRun(pb.text, 1, 2) == 2;
    NativeStep(Units, pb.text, 2);
    NativeStep(Units, pb.text, 1);
    NativeStep(Units, pb.text, 0);
  }

  lemma MixedRun(pb: Problem)
    requires Mixed(pb)
    ensures Sound(pb) && Run(pb, 3) == Tables([0, 255, 510, 765], [-1, 0, 1, 2])
  {
    hide KatakanaEdge, UnitIndex, Extended, Sound;
    PlainSound(pb);
    MixedEdges(pb);
    assert Run(pb, 0) == Tables([0, INFINITE, INFINITE, INFINITE], [-1, -1, -1, -1]);
    OneStep(pb, 0);
    assert Run(pb, 1) == Tables([0, 255, INFINITE, INFINITE], [-1, 0, -1, -1]);
    OneStep(pb, 1);
    assert Run(pb, 2) == Tables([0, 255, 510, INFINITE], [-1, 0, 1, -1]);
    OneStep(pb, 2);
  }

  lemma {:induction false} MixedCost(pb: Problem, es: seq<Edge>, j: nat)
    requires Mixed(pb) && Covers(pb, es, j)
    ensures Cost(es) >= 255 * |es| && |Ends(es)| == |es|
    decreases |es|
  {
    hide KatakanaEdge;
    if |es| > 0 {
      MixedEdges(pb);
      var e := es[|es| - 1];
      assert e in Edges(pb, j - e.length);
      MixedCost(pb, es[..|es| - 1], j - e.length);
    }
  }

  /** They become three words that cost 765, though two words cost 663. */
  lemma KatakanaMissed(pb: Problem)
    requires Mixed(pb)
    ensures Sound(pb) && !KatakanaAligned(pb, 1) && Run(pb, 3).best[3] == 765
    ensures var es := [Edge(1, 255), Edge(2, 408)]; Covers(pb, es, 3) && Cost(es) == 663 && Ends(es) == [1, 3]
    ensures Found(pb) == [1, 2, 3] && !DividesOptimally(pb, Found(pb))
  {
    hide KatakanaEdge, UnitIndex, Run, Sound, Covers, Cost, Ends;
    MixedEdges(pb);
    MixedRun(pb);
    assert Trace([-1, 0, 1, 2], 3) == [1, 2, 3];
    NoWords(pb);
    OneMoreWord(pb, [], Edge(1, 255), 0);
    assert [] + [Edge(1, 255)] == [Edge(1, 255)];
    OneMoreWord(pb, [Edge(1, 255)], Edge(2, 408), 1);
    var two := [Edge(1, 255), Edge(2, 408)];
    assert [Edge(1, 255)] + [Edge(2, 408)] == two;
    forall es | Covers(pb, es, 3) && Ends(es) == [1, 2, 3]
      ensures Cost(es) > Cost(two)
    {
      MixedCost(pb, es, 3);
    }
  }

  /** Two words whose costs add up to 2^32, and one that is the same text for 5. */
  predicate Dear(pb: Problem) {
    && pb.text == [0x4E00, 0x4E00]
    && pb.words(0) == [Edge(1, 0x8000_0000), Edge(2, 5)] && pb.words(1) == [Edge(1, 0x8000_0000)]
  }

  lemma DearEdges(pb: Problem)
    requires Dear(pb)
    ensures Sound(pb) && Edges(pb, 0) == pb.words(0) && Edges(pb, 1) == pb.words(1)
    ensures Fallback(pb, 0) == Fallback(pb, 1) == [] && KatakanaEdge(pb, 0) == KatakanaEdge(pb, 1) == []
    ensures AllEnd(pb, 0, pb.words(0)) && AllEnd(pb, 1, pb.words(1))
  {
  }

  lemma DearRun(pb: Problem)
    requires Dear(pb)
    ensures Sound(pb) && Run(pb, 2) == Tables([0, 0x8000_0000, 0], [-1, 0, 1])
  {
    hide KatakanaEdge, UnitIndex, Sound, Fallback, AllRelaxed;
    DearEdges(pb);
    var t0, w := Run(pb, 0), pb.words(0);
    assert t0 == Tables([0, INFINITE, INFINITE], [-1, -1, -1]);
    NoneRelaxed(pb, t0, 0);
    OneMoreRelaxed(pb, t0, 0, w, 0);
    OneMoreRelaxed(pb, t0, 0, w, 1);
    assert w[..0] == [] && w[..2] == w && w + [] == w;
    var t1 := Run(pb, 1);
    assert t1 == Tables([0, 0x8000_0000, 5], [-1, 0, 0]);
    var w' := pb.words(1);
    NoneRelaxed(pb, t1, 1);
    OneMoreRelaxed(pb, t1, 1, w', 0);
    assert w'[..0] == [] && w'[..1] == w' && w' + [] == w';
  }

  /** The sum wraps around to 0, and the dear words are taken. */
  lemma DearWordsTaken(pb: Problem)
    requires Dear(pb)
    ensures Sound(pb) && Aligned(pb) && !Fits(pb)
    ensures Found(pb) == [1, 2] && !DividesOptimally(pb, Found(pb))
  {
    hide KatakanaEdge, UnitIndex, Run, Sound, Covers, Cost, Ends, Edges;
    DearEdges(pb);
    DearRun(pb);
    assert Trace([-1, 0, 1], 2) == [1, 2];
    NoWords(pb);
    OneMoreWord(pb, [], Edge(2, 5), 0);
    assert [] + [Edge(2, 5)] == [Edge(2, 5)];
    forall es | Covers(pb, es, 2) && Ends(es) == [1, 2]
      ensures Cost(es) > 5
    {
      DearCost(pb, es, 2);
    }
    if Fits(pb) { FoundIsOptimal(pb); }
  }

  lemma DearCost(pb: Problem, es: seq<Edge>, j: nat)
    requires Dear(pb) && Covers(pb, es, j) && Ends(es) == [1, 2]
    ensures Cost(es) > 5
  {
    hide KatakanaEdge, Fallback, Edges;
    DearEdges(pb);
    var e := es[|es| - 1];
    var before := es[..|es| - 1];
    assert |Ends(before)| == 1 && Ends(before)[0] == 1;
    assert e.length == 1 && e in Edges(pb, j - e.length);
  }

  /** U+309F has the NFKC U+3088 U+308A, two words; the break between them is the start of the range once more. */
  lemma BreakTwice(engine: Engine, inp: Input)
    requires Proper(inp) && inp.chars == [0x309F] && !engine.nz.isNormalized([0x309F])
    requires engine.nz.normalize([0x309F]) == [0x3088, 0x308A]
    requires Plain(ProblemOf(engine, inp))
    ensures Sound(ProblemOf(engine, inp)) && Pushed(engine, inp, []) == [0, 1, 2]
    ensures var start, places := inp.rangeStart, Places(engine.nz, inp);
            |places| == 3 && At(places, [0, 1, 2]) == [start, start, RangeEnd(inp)]
  {
    hide Sound, Native, Run, Trace, Text;
    TwoPlaces(engine.nz, inp);
    TwoFound(ProblemOf(engine, inp));
    assert [0] + [1, 2] == [0, 1, 2];
  }

  lemma TwoFound(pb: Problem)
    requires pb.text == [0x3088, 0x308A] && Plain(pb)
    ensures Sound(pb) && Found(pb) == [1, 2]
  {
    hide KatakanaEdge, UnitIndex, Extended, Sound;
    PlainSound(pb);
    NoKatakana(pb);
    assert Run(pb, 0) == Tables([0, INFINITE, INFINITE], [-1, -1, -1]);
    OneStep(pb, 0);
    assert Run(pb, 1) == Tables([0, 255, INFINITE], [-1, 0, -1]);
    OneStep(pb, 1);
    assert Run(pb, 2) == Tables([0, 255, 510], [-1, 0, 1]);
    assert Trace([-1, 0, 1], 2) == [1, 2];
  }

  lemma NoKatakana(pb: Problem)
    requires pb.text == [0x3088, 0x308A]
    ensures KatakanaEdge(pb, 0) == KatakanaEdge(pb, 1) == []
  {
  }

  lemma TwoPlaces(nz: Normalizer, inp: Input)
    requires inp.chars == [0x309F] && !nz.isNormalized([0x309F]) && nz.normalize([0x309F]) == [0x3088, 0x308A]
    ensures Text(nz, inp) == [0x3088, 0x308A] && Places(nz, inp) == [inp.rangeStart, inp.rangeStart, RangeEnd(inp)]
  {
    hide Native;
    assert NextBoundary(nz, inp.chars, 1) == 1 && inp.chars[0..1] == inp.chars;
    NoFragment(nz, inp);
    OneFragment(nz, inp, 0);
    NothingYet(inp);
    var start := inp.rangeStart;
    assert Repeat(start, 2) == [start, start] && [start, start] + [] == [start, start];
    assert [0x3088, 0x308A] + [] == [0x3088, 0x308A];
    assert [start, start] + [RangeEnd(inp)] == [start, start, RangeEnd(inp)];
  }
}
