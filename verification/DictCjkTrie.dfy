/** The trie-driven matcher as the dictionary of the CJK engine. */
module DictCjkTrie {
  import opened Basics
  import opened TrieModel
  import opened DictMatcher
  import opened DictCjkText
  import opened DictCjk

  /** A value is the cost of a word, taken for an unsigned number. */
  function EdgesOf(ws: seq<Candidate>): (es: seq<Edge>)
    ensures |es| == |ws| && forall i :: 0 <= i < |ws| ==> es[i] == Edge(ws[i].length, ws[i].value % 0x1_0000_0000)
  {
    seq(|ws|, i requires 0 <= i < |ws| => Edge(ws[i].length, ws[i].value % 0x1_0000_0000))
  }

  /** What Matches() reports at a position of UTF-16 text, with room for as many words as there are characters. */
  function TrieWords(m: Transform, t: Trie, text: seq<int>, i: nat): seq<Edge> {
    if i <= |text| then
      var s := text[i..];
      EdgesOf(First(Words(t, Key(m, s), Bound(Units, s, MAX_WORD_SIZE, 0)), |text|))
    else []
  }

  function TrieEngine(nz: Normalizer, m: Transform, t: Trie, hangul: int -> bool): Engine {
    Engine(nz, (text: seq<int>) => (i: nat) => TrieWords(m, t, text, i), hangul)
  }

  /** So what is proved about the engine holds for every dictionary trie. */
  lemma TrieEngineIsSound(nz: Normalizer, m: Transform, t: Trie, hangul: int -> bool, inp: Input)
    requires WellFormed(t)
    ensures Sound(ProblemOf(TrieEngine(nz, m, t, hangul), inp))
  {
    hide Words, WellFormed, Bound, Text, TrieWords, GoodWords;
    var text := Text(nz, inp);
    var pb := ProblemOf(TrieEngine(nz, m, t, hangul), inp);
    forall i: nat | i < |text|
      ensures GoodWords(pb.words(i), |text| - i)
    {
      TrieWordsGood(m, t, text, i);
    }
  }

  lemma TrieWordsGood(m: Transform, t: Trie, text: seq<int>, i: nat)
    requires WellFormed(t) && i < |text|
    ensures GoodWords(TrieWords(m, t, text, i), |text| - i)
  {
    hide Words, WellFormed, Bound, First;
    var s := text[i..];
    var bound := Bound(Units, s, MAX_WORD_SIZE, 0);
    var found := First(Words(t, Key(m, s), bound), |text|);
    MatchesAreShortest(t, Key(m, s), bound, |text|);
    forall k | 0 <= k < |found|
      ensures 1 <= found[k].length <= |text| - i
    {
      assert found[k] in found;
    }
  }
}
