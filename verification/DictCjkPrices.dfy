/**
  How dear words may be for the 32-bit sums of the CJK engine: in text without Katakana it finds a cheapest
  segmentation for all dictionaries with a given highest price exactly if that many of these prices do not overflow.
 */
module DictCjkPrices {
  import opened DictCjkText
  import opened DictCjk
  import opened DictCjkExact

  predicate NoKatakana(s: seq<int>) { forall k :: 0 <= k < |s| ==> !IsKatakana(s[k]) }

  ghost predicate TableRightUpTo(pb: Problem, most: nat) {
    forall words :: Sound(With(pb, words)) && PricedAtMost(With(pb, words), most) ==> TableRight(With(pb, words))
  }

  ghost predicate FoundRightUpTo(pb: Problem, most: nat) {
    forall words :: Sound(With(pb, words)) && PricedAtMost(With(pb, words), most) ==>
      DividesOptimally(With(pb, words), Found(With(pb, words)))
  }

  lemma NoKatakanaWords(pb: Problem, k: nat)
    requires NoKatakana(pb.text) && k < |pb.text|
    ensures KatakanaEdge(pb, k) == [] && KatakanaAligned(pb, k)
  {
  }

  lemma BoundedRight(pb: Problem, most: nat)
    requires NoKatakana(pb.text) && Sound(pb) && PricedAtMost(pb, most) && |pb.text| * most < INFINITE
    ensures TableRight(pb) && DividesOptimally(pb, Found(pb))
  {
    hide Sound, PricedAtMost, KatakanaAligned, NoKatakana, TableRight, DividesOptimally, Found, Fits;
    BoundedFits(pb, most);
    forall k: nat | k < |pb.text|
      ensures KatakanaAligned(pb, k)
    {
      NoKatakanaWords(pb, k);
    }
    AlignedTable(pb);
    FoundIsOptimal(pb);
  }

  // ---------- a dictionary that overflows ----------

  /** Characters cost most up to m and nothing from there on. Unless d is -1, two of them cost most at d. */
  function PricedWords(most: nat, m: nat, d: int, k: nat): seq<Edge> {
    [Edge(1, if k < m then most else 0)] + if k == d then [Edge(2, most)] else []
  }

  /** The sum overflows at m for the first time. */
  ghost predicate Overflows(q: Problem, most: nat, m: nat, d: int) {
    && NoKatakana(q.text) && 0 < most && 0 < m <= |q.text| && (m - 1) * most < INFINITE <= m * most
    && (d == -1 || 0 <= d == m - 2)
    && forall k: nat :: q.words(k) == PricedWords(most, m, d, k)
  }

  lemma {:induction false} FindOverflow(n: nat, most: nat) returns (m: nat)
    requires n * most >= INFINITE
    ensures 0 < m <= n && (m - 1) * most < INFINITE <= m * most
  {
    if (n - 1) * most < INFINITE {
      m := n;
    } else {
      m := FindOverflow(n - 1, most);
    }
  }

  lemma OverflowEdges(q: Problem, most: nat, m: nat, d: int, k: nat)
    requires Overflows(q, most, m, d) && k < |q.text|
    ensures Fallback(q, k) == [] && KatakanaEdge(q, k) == [] && Edges(q, k) == PricedWords(most, m, d, k)
    ensures GoodWords(q.words(k), |q.text| - k) && AllEnd(q, k, q.words(k))
  {
    NoKatakanaWords(q, k);
  }

  lemma OverflowSound(q: Problem, most: nat, m: nat, d: int)
    requires Overflows(q, most, m, d)
    ensures Sound(q) && PricedAtMost(q, most)
  {
    hide Overflows, Edges;
    forall k: nat | k < |q.text|
      ensures GoodWords(q.words(k), |q.text| - k) && forall e :: e in Edges(q, k) ==> e.cost <= most
    {
      OverflowEdges(q, most, m, d, k);
    }
  }

  /** One turn: the single character and the pair. */
  lemma OverflowTurn(q: Problem, most: nat, m: nat, d: int, t: Tables, k: nat)
    requires Overflows(q, most, m, d) && Sized(q, t) && k < |q.text| && AllEnd(q, k, q.words(k))
    ensures Extended(q, t, k)
            == if t.best[k] == INFINITE then t
               else var u := Relaxed(t, k, k + 1, k + 1, if k < m then most else 0);
                    if k == d then Relaxed(u, k, k + 2, k + 2, most) else u
  {
    hide KatakanaEdge, Relaxed, AllRelaxed;
    OverflowEdges(q, most, m, d, k);
    var ws := q.words(k);
    NoneRelaxed(q, t, k);
    OneMoreRelaxed(q, t, k, ws, 0);
    assert ws[..0] == [] && ws[..|ws|] == ws && ws + [] == ws;
    if k == d {
      OneMoreRelaxed(q, t, k, ws, 1);
    } else {
      assert ws[..1] == ws;
    }
  }

  /** Up to m the sums are right. */
  ghost predicate SumsRight(most: nat, m: nat, d: int, t: Tables, k: nat)
    requires k < m < |t.best| == |t.prev|
  {
    && (forall y :: 0 <= y <= k ==> t.best[y] == y * most && t.prev[y] == y - 1)
    && (forall y :: k < y < |t.best| && !(y == m && 0 <= d < k) ==> t.best[y] == INFINITE)
    && (0 <= d < k ==> t.best[m] == (m - 1) * most)
  }

  lemma {:induction false} SumsRun(q: Problem, most: nat, m: nat, d: int, k: nat)
    requires Overflows(q, most, m, d) && Sound(q) && k < m
    ensures SumsRight(most, m, d, Run(q, k), k)
  {
    hide Extended, Sound, NoKatakana, SumsRight, Relaxed;
    if k == 0 {
      SumsStart(q, most, m, d);
    } else {
      SumsRun(q, most, m, d, k - 1);
      SumsReached(most, m, d, Run(q, k - 1), k - 1);
      WordsEnd(q, k - 1);
      OverflowTurn(q, most, m, d, Run(q, k - 1), k - 1);
      Multiply(k, m - 1, most);
      SumsTurn(most, m, d, Run(q, k - 1), k - 1);
    }
  }

  lemma SumsStart(q: Problem, most: nat, m: nat, d: int)
    requires Overflows(q, most, m, d) && Sound(q)
    ensures SumsRight(most, m, d, Run(q, 0), 0)
  {
    hide Sound, NoKatakana;
  }

  lemma SumsReached(most: nat, m: nat, d: int, t: Tables, k: nat)
    requires k < m < |t.best| == |t.prev| && SumsRight(most, m, d, t, k) && (m - 1) * most < INFINITE
    ensures t.best[k] != INFINITE
  {
    Multiply(k, m - 1, most);
  }

  lemma SumsTurn(most: nat, m: nat, d: int, t: Tables, k: nat)
    requires k + 1 < m < |t.best| == |t.prev| && SumsRight(most, m, d, t, k) && (d == -1 || d == m - 2)
    requires 0 <= (k + 1) * most <= (m - 1) * most < INFINITE
    ensures var u := Relaxed(t, k, k + 1, k + 1, most);
            SumsRight(most, m, d, if k == d then Relaxed(u, k, k + 2, k + 2, most) else u, k + 1)
  {
    assert t.best[k] == k * most && k * most + most == (k + 1) * most;
  }

  /** From m on: the wrapped sum s stays at m, and if it reads as infinite nothing beyond m is reached. */
  ghost predicate SumWrong(m: nat, s: int, t: Tables, k: nat)
    requires m < |t.best| == |t.prev|
  {
    t.best[m] == s && (s == INFINITE ==> forall y :: m <= y < |t.best| ==> t.best[y] == INFINITE)
  }

  lemma {:induction false} WrongRun(q: Problem, most: nat, m: nat, k: nat)
    requires Overflows(q, most, m, -1) && Sound(q) && m <= k <= |q.text|
    ensures SumWrong(m, m * most % 0x1_0000_0000, Run(q, k), k)
    decreases k
  {
    hide Extended, Sound, NoKatakana;
    WordsEnd(q, k - 1);
    OverflowTurn(q, most, m, -1, Run(q, k - 1), k - 1);
    if k == m {
      SumsRun(q, most, m, -1, m - 1);
      assert (m - 1) * most + most == m * most;
    } else {
      WrongRun(q, most, m, k - 1);
    }
  }

  /** Without pairs there is one segmentation. */
  lemma {:induction false} OnlySegmentation(q: Problem, most: nat, m: nat, es: seq<Edge>, j: nat)
    requires Overflows(q, most, m, -1) && Covers(q, es, j) && j <= m
    ensures Cost(es) == j * most
    decreases |es|
  {
    hide Overflows, Edges;
    if |es| > 0 {
      var e := es[|es| - 1];
      OverflowEdges(q, most, m, -1, j - e.length);
      OnlySegmentation(q, most, m, es[..|es| - 1], j - e.length);
      assert (j - 1) * most + most == j * most;
    }
  }

  /** The text up to j in characters, with the pair if pair. */
  lemma {:induction false} CoverPriced(q: Problem, most: nat, m: nat, d: int, j: nat, pair: bool)
    returns (es: seq<Edge>)
    requires Overflows(q, most, m, d) && j <= |q.text| && (pair ==> d >= 0 && j >= m)
    ensures Covers(q, es, j)
    ensures pair ==> Cost(es) == (m - 1) * most
    ensures !pair && j <= m ==> Cost(es) == j * most
    decreases j
  {
    hide Covers, Cost, Ends, Edges, NoKatakana;
    es := [];
    if j == 0 {
      NoWords(q);
    } else {
      var start := if pair && j == m then j - 2 else j - 1;
      var e := if pair && j == m then Edge(2, most) else Edge(1, if start < m then most else 0);
      var before := CoverPriced(q, most, m, d, start, pair && j > m);
      OverflowEdges(q, most, m, d, start);
      assert e in PricedWords(most, m, d, start);
      OneMoreWord(q, before, e, start);
      es := before + [e];
      assert start * most + most == (start + 1) * most;
    }
  }

  lemma OverflowTable(q: Problem, most: nat, m: nat)
    requires Overflows(q, most, m, -1)
    ensures Sound(q) && PricedAtMost(q, most) && !TableRight(q)
  {
    hide Covers, Cost, Run, Sound, PricedAtMost, Edges, NoKatakana;
    OverflowSound(q, most, m, -1);
    WrongRun(q, most, m, |q.text|);
    var all := CoverPriced(q, most, m, -1, m, false);
    assert CanBeCovered(q, m);
    if EntryRight(q, m) {
      var es :| Optimal(q, es, m) && Cost(es) == Run(q, |q.text|).best[m];
      OnlySegmentation(q, most, m, es, m);
    }
  }

  lemma Overflowing(pb: Problem, most: nat, m: nat, d: int) returns (words: nat -> seq<Edge>)
    requires NoKatakana(pb.text) && 0 < most && 0 < m <= |pb.text| && (m - 1) * most < INFINITE <= m * most
    requires d == -1 || 0 <= d == m - 2
    ensures Overflows(With(pb, words), most, m, d)
  {
    words := (k: nat) => PricedWords(most, m, d, k);
  }

  /** The table is right for all dictionaries up to a price exactly if the text is not too long for it. */
  lemma TableBound(pb: Problem, most: nat)
    requires NoKatakana(pb.text)
    ensures TableRightUpTo(pb, most) <==> |pb.text| * most < INFINITE
  {
    hide Sound, PricedAtMost, TableRight, Overflows, NoKatakana;
    if |pb.text| * most < INFINITE {
      forall words | Sound(With(pb, words)) && PricedAtMost(With(pb, words), most)
        ensures TableRight(With(pb, words))
      {
        BoundedRight(With(pb, words), most);
      }
    } else {
      var m := FindOverflow(|pb.text|, most);
      var words := Overflowing(pb, most, m, -1);
      OverflowTable(With(pb, words), most, m);
    }
  }

  // ---------- and what is found ----------

  /** Nothing beyond m is reached, although all of the text can be divided. */
  lemma NothingFound(q: Problem, most: nat, m: nat)
    requires Overflows(q, most, m, -1) && m * most == INFINITE && |q.text| > 1
    ensures Sound(q) && PricedAtMost(q, most) && !DividesOptimally(q, Found(q))
  {
    hide Covers, Cost, Run, Sound, PricedAtMost, Edges, NoKatakana, Trace, Ends;
    var n := |q.text|;
    OverflowSound(q, most, m, -1);
    WrongRun(q, most, m, n);
    assert Found(q) == [n];
    var all := CoverPriced(q, most, m, -1, n, false);
    assert CanBeCovered(q, n);
    if DividesOptimally(q, Found(q)) {
      var es :| Optimal(q, es, n) && Ends(es) == [n];
      OneWord(q, most, m, es, n);
    }
  }

  lemma OneWord(q: Problem, most: nat, m: nat, es: seq<Edge>, n: nat)
    requires Overflows(q, most, m, -1) && Covers(q, es, n) && Ends(es) == [n]
    ensures n == 1
  {
    hide Edges, Overflows;
    OverflowSound(q, most, m, -1);
    EndsAscend(q, es, n);
    var e := es[0];
    assert es[..0] == [] && Covers(q, [], n - e.length);
    OverflowEdges(q, most, m, -1, 0);
  }

  /** All prev lead to the place before, because the wrapped sum looks better than the pair. */
  ghost predicate OneByOne(most: nat, m: nat, t: Tables, k: nat)
    requires m <= k < |t.best| == |t.prev|
  {
    && (forall y :: 0 <= y <= k ==> t.prev[y] == y - 1)
    && (forall y :: m <= y <= k ==> t.best[y] == m * most - 0x1_0000_0000)
    && (forall y :: k < y < |t.best| ==> t.best[y] == INFINITE)
  }

  lemma {:induction false} OneByOneRun(q: Problem, most: nat, m: nat, k: nat)
    requires Overflows(q, most, m, m - 2) && 2 <= m && Sound(q) && m <= k <= |q.text|
    requires most <= INFINITE && 0x1_0000_0000 <= m * most
    ensures OneByOne(most, m, Run(q, k), k)
    decreases k
  {
    hide Extended, Sound, NoKatakana;
    assert (m - 1) * most + most == m * most;
    WordsEnd(q, k - 1);
    OverflowTurn(q, most, m, m - 2, Run(q, k - 1), k - 1);
    if k == m {
      SumsRun(q, most, m, m - 2, m - 1);
      LastSum(most, m, Run(q, m - 1));
    } else {
      OneByOneRun(q, most, m, k - 1);
      FreeTurn(most, m, Run(q, k - 1), k - 1);
    }
  }

  lemma LastSum(most: nat, m: nat, t: Tables)
    requires 2 <= m < |t.best| == |t.prev| && SumsRight(most, m, m - 2, t, m - 1)
    requires (m - 1) * most < INFINITE && most <= INFINITE && 0x1_0000_0000 <= m * most == (m - 1) * most + most
    ensures OneByOne(most, m, Relaxed(t, m - 1, m, m, most), m)
  {
    assert t.best[m - 1] == (m - 1) * most;
    var s := m * most - 0x1_0000_0000;
    assert (t.best[m - 1] + most) % 0x1_0000_0000 == s;
  }

  lemma FreeTurn(most: nat, m: nat, t: Tables, k: nat)
    requires m <= k && k + 1 < |t.best| == |t.prev| && OneByOne(most, m, t, k)
    requires 0x1_0000_0000 <= m * most < 0x1_0000_0000 + INFINITE
    ensures OneByOne(most, m, Relaxed(t, k, k + 1, k + 1, 0), k + 1)
  {
    assert t.best[k] == m * most - 0x1_0000_0000;
  }

  /** All positions from 1 to n. */
  function UpTo(n: nat): (s: seq<nat>)
    ensures |s| == n && forall k :: 0 <= k < n ==> s[k] == k + 1
  {
    seq(n, k => k + 1)
  }

  lemma {:induction false} TraceAll(prev: seq<int>, j: nat)
    requires j < |prev| && forall y :: 0 <= y <= j ==> prev[y] == y - 1
    ensures Trace(prev, j) == UpTo(j)
  {
    if j > 0 { TraceAll(prev, j - 1); }
  }

  lemma LastCharacter(q: Problem, es: seq<Edge>, j: nat)
    requires Sound(q) && Covers(q, es, j) && Ends(es) == UpTo(j) && |es| > 0
    ensures var e, before := es[|es| - 1], es[..|es| - 1];
            0 < j <= |q.text| && e.length == 1 && Ends(before) == UpTo(j - 1)
  {
    hide Sound, Edges;
    EndsAscend(q, es, j);
    var e, before := es[|es| - 1], es[..|es| - 1];
    EdgesFit(q, j - e.length, e);
    EndsAscend(q, before, j - e.length);
    assert Ends(before) == Ends(es)[..j - 1] == UpTo(j - 1);
  }

  /** A segmentation into characters costs most for each of the first m. */
  lemma {:induction false} CharactersCost(q: Problem, most: nat, m: nat, d: int, es: seq<Edge>, j: nat)
    requires Overflows(q, most, m, d) && Sound(q) && Covers(q, es, j) && Ends(es) == UpTo(j)
    ensures Cost(es) == (if j <= m then j else m) * most
    decreases |es|
  {
    hide Overflows, Edges, Ends, Sound;
    if |es| > 0 {
      LastCharacter(q, es, j);
      OverflowEdges(q, most, m, d, j - 1);
      CharactersCost(q, most, m, d, es[..|es| - 1], j - 1);
      assert (j - 1) * most + most == j * most;
      LastPrice(most, m, d, j - 1, es[|es| - 1]);
    }
  }

  lemma LastPrice(most: nat, m: nat, d: int, k: nat, e: Edge)
    requires e in PricedWords(most, m, d, k) && e.length == 1
    ensures e.cost == if k < m then most else 0
  {
  }

  lemma CharactersFound(q: Problem, most: nat, m: nat)
    requires Overflows(q, most, m, m - 2) && 2 <= m && most <= INFINITE && 0x1_0000_0000 <= m * most
    ensures Sound(q) && PricedAtMost(q, most) && !DividesOptimally(q, Found(q))
  {
    hide Covers, Cost, Run, Sound, PricedAtMost, Edges, NoKatakana, Trace, Ends;
    var n := |q.text|;
    assert (m - 1) * most + most == m * most;
    OverflowSound(q, most, m, m - 2);
    OneByOneRun(q, most, m, n);
    TraceAll(Run(q, n).prev, n);
    assert Found(q) == UpTo(n);
    var cheap := CoverPriced(q, most, m, m - 2, n, true);
    assert CanBeCovered(q, n);
    if DividesOptimally(q, Found(q)) {
      var es :| Optimal(q, es, n) && Ends(es) == UpTo(n);
      assert Cost(es) <= Cost(cheap);
      CharactersCost(q, most, m, m - 2, es, n);
    }
  }

  lemma FoundOverflow(pb: Problem, most: nat) returns (words: nat -> seq<Edge>)
    requires NoKatakana(pb.text) && most <= INFINITE <= |pb.text| * most && |pb.text| > 1
    ensures var q := With(pb, words); Sound(q) && PricedAtMost(q, most) && !DividesOptimally(q, Found(q))
  {
    hide Sound, PricedAtMost, DividesOptimally, Overflows, NoKatakana, Found;
    var m := FindOverflow(|pb.text|, most);
    if m * most == INFINITE {
      words := Overflowing(pb, most, m, -1);
      NothingFound(With(pb, words), most, m);
    } else {
      words := Overflowing(pb, most, m, m - 2);
      CharactersFound(With(pb, words), most, m);
    }
  }

  /** A cheapest segmentation is found for all of them exactly then, or if the text has one character. */
  lemma FoundBound(pb: Problem, most: nat)
    requires NoKatakana(pb.text) && most <= INFINITE
    ensures FoundRightUpTo(pb, most) <==> |pb.text| * most < INFINITE || |pb.text| == 1
  {
    hide Sound, PricedAtMost, DividesOptimally, NoKatakana, Found;
    if |pb.text| * most < INFINITE || |pb.text| == 1 {
      forall words | Sound(With(pb, words)) && PricedAtMost(With(pb, words), most)
        ensures DividesOptimally(With(pb, words), Found(With(pb, words)))
      {
        var q := With(pb, words);
        if |pb.text| == 1 { OneCharacterRight(q); } else { BoundedRight(q, most); }
      }
    } else {
      var words := FoundOverflow(pb, most);
    }
  }
}
