/**
  For which texts the CJK engine pushes its breaks in ascending order whatever the dictionary: exactly those in which
  every character of the normalized text starts a fragment.
 */
module DictCjkOrder {
  import opened DictText
  import opened DictCjkText
  import opened DictCjk
  import opened DictCjkExact
  import opened DictCjkPrices

  /** Every character is a free word. */
  ghost predicate Free(q: Problem) { forall k: nat :: q.words(k) == [Edge(1, 0)] }

  /** One turn: the single character, and the Katakana word, which is not free. */
  lemma FreeStep(q: Problem, t: Tables, k: nat) returns (u: Tables)
    requires Free(q) && Sized(q, t) && k < |q.text| && t.best[k] == 0 && AllEnd(q, k, q.words(k))
    ensures Enters(t, u, k, k + 1, k + 1, 0) && Sized(q, u)
    ensures var w := Extended(q, t, k);
            if KatakanaEdge(q, k) == [] then w == u
            else
              var place := UnitIndex(q.text, EndOf(q, k));
              place > k && KatakanaEdge(q, k)[0].cost > 0
              && Enters(u, w, k, place, EndOf(q, k), KatakanaEdge(q, k)[0].cost)
  {
    hide KatakanaEdge, UnitIndex, Relaxed, AllRelaxed;
    OneRelaxed(q, t, k, Edge(1, 0));
    assert q.words(k) + Fallback(q, k) == [Edge(1, 0)];
    RelaxedEnters(t, k, k + 1, k + 1, 0);
    u := Relaxed(t, k, k + 1, k + 1, 0);
    if KatakanaEdge(q, k) != [] {
      KatakanaPlace(q, k);
      RelaxedEnters(u, k, UnitIndex(q.text, EndOf(q, k)), EndOf(q, k), KatakanaEdge(q, k)[0].cost);
    }
  }

  /** Up to k everything is reached one by one for nothing, and nothing else is. */
  ghost predicate Walked(q: Problem, t: Tables, k: nat) {
    && Sized(q, t) && k <= |q.text|
    && (forall y :: 0 <= y <= k ==> t.best[y] == 0 && t.prev[y] == y - 1)
    && (forall y :: k < y <= |q.text| ==> t.best[y] > 0)
  }

  lemma {:induction false} FreeRun(q: Problem, k: nat)
    requires Free(q) && Sound(q) && k <= |q.text|
    ensures Walked(q, Run(q, k), k)
  {
    hide Extended, Sound, KatakanaEdge, UnitIndex, EndOf;
    if k > 0 {
      FreeRun(q, k - 1);
      WordsEnd(q, k - 1);
      var u := FreeStep(q, Run(q, k - 1), k - 1);
    }
  }

  lemma FreeFound(q: Problem)
    requires Free(q)
    ensures Sound(q) && Found(q) == UpTo(|q.text|)
  {
    hide Run, Trace;
    assert forall k: nat :: k < |q.text| ==> GoodWords(q.words(k), |q.text| - k);
    FreeRun(q, |q.text|);
    TraceAll(Run(q, |q.text|).prev, |q.text|);
  }

  /** The breaks of a range with none before it. */
  ghost function BreaksOf(engine: Engine, inp: Input): seq<int>
    requires Sound(ProblemOf(engine, inp))
  {
    PushedWithin(engine, inp, []);
    At(Places(engine.nz, inp), Pushed(engine, inp, []))
  }

  ghost predicate AscendForAll(nz: Normalizer, inp: Input) {
    forall engine: Engine :: engine.nz == nz && Sound(ProblemOf(engine, inp)) ==> Ascending(BreaksOf(engine, inp))
  }

  /** Every position of the normalized text stands for one of the range. */
  ghost predicate AllRepresented(nz: Normalizer, inp: Input) {
    forall p: nat :: 0 < p <= |Text(nz, inp)| ==> Represented(nz, inp, p)
  }

  lemma FreeEngine(nz: Normalizer, inp: Input) returns (engine: Engine)
    ensures engine.nz == nz && Free(ProblemOf(engine, inp))
  {
    engine := Engine(nz, (text: seq<int>) => (k: nat) => [Edge(1, 0)], (c: int) => false);
  }

  /** With a free engine there is a break at every position. */
  lemma FreeBreaks(engine: Engine, inp: Input)
    requires Proper(inp) && Free(ProblemOf(engine, inp)) && Sound(ProblemOf(engine, inp))
    requires Ascending(BreaksOf(engine, inp))
    ensures AllRepresented(engine.nz, inp)
  {
    hide Sound, Found, Text, Places, Represented;
    FreeFound(ProblemOf(engine, inp));
    BreaksAscend(engine, inp, []);
    var s := Pushed(engine, inp, []);
    forall p: nat | 0 < p <= |Text(engine.nz, inp)|
      ensures Represented(engine.nz, inp, p)
    {
      assert s[p] == p && s[p - 1] == p - 1;
      assert Apart(engine, inp, s[p - 1], s[p]);
    }
  }

  lemma RepresentedBreaks(engine: Engine, inp: Input, foundBreaks: seq<int>)
    requires Proper(inp) && Sound(ProblemOf(engine, inp)) && AllRepresented(engine.nz, inp)
    ensures var s, places := Pushed(engine, inp, foundBreaks), Places(engine.nz, inp);
            Within(s, |places| - 1) && Ascending(At(places, s))
  {
    hide Sound, Text, Places, Pushed, Represented;
    PushedWithin(engine, inp, foundBreaks);
    BreaksAscend(engine, inp, foundBreaks);
    var s := Pushed(engine, inp, foundBreaks);
    forall a | 0 < a < |s|
      ensures Apart(engine, inp, s[a - 1], s[a])
    {
      assert 0 <= s[a - 1] < s[a] <= |Text(engine.nz, inp)|;
      assert Represented(engine.nz, inp, s[a]);
    }
  }

  /** The breaks ascend for every dictionary exactly if every position stands for one of the range. */
  lemma AscendExactly(nz: Normalizer, inp: Input)
    requires Proper(inp)
    ensures AscendForAll(nz, inp) <==> AllRepresented(nz, inp)
  {
    hide Sound, Ascending, Free, AllRepresented, Pushed, Places, Proper;
    if AllRepresented(nz, inp) {
      forall engine: Engine | engine.nz == nz && Sound(ProblemOf(engine, inp))
        ensures Ascending(BreaksOf(engine, inp))
      {
        RepresentedBreaks(engine, inp, []);
      }
    }
    if AscendForAll(nz, inp) {
      var engine := FreeEngine(nz, inp);
      FreeFound(ProblemOf(engine, inp));
      FreeBreaks(engine, inp);
    }
  }
}
