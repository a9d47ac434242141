/** The trie-driven matcher as the dictionary of the break engines. */
module DictTrie {
  import opened TrieModel
  import opened DictText
  import opened DictMatcher
  import opened DictWords

  function LengthsOf(ws: seq<Candidate>): (ls: seq<nat>)
    ensures |ls| == |ws| && forall i :: 0 <= i < |ws| ==> ls[i] == ws[i].length
  {
    seq(|ws|, i requires 0 <= i < |ws| => ws[i].length)
  }

  /** What BytesDictionaryMatcher.Matches() reports at p with room for 20 words. */
  function TrieMatch(m: Transform, t: Trie, text: seq<int>, size: Sizes, p: nat, maxLength: nat): Match {
    if p <= |text| then
      var key := Key(m, text[p..]);
      var bound := Bound(size, text[p..], maxLength, 0);
      Match(LengthsOf(First(Words(t, key, bound), POSSIBLE_WORD_LIST_MAX)), Consumed(t, key, 0, bound))
    else Match([], 0)
  }

  function TrieRange(m: Transform, t: Trie, text: seq<int>, size: Sizes, end: nat): Range {
    Range(text, size, end, (p: nat, n: nat) => TrieMatch(m, t, text, size, p, n))
  }

  /** So what is proved about division holds for every dictionary trie. */
  lemma TrieIsSound(m: Transform, t: Trie, text: seq<int>, size: Sizes, end: nat)
    requires WellFormed(t) && end <= |text| && Positive(size)
    ensures Sound(TrieRange(m, t, text, size, end))
  {
    hide Words, Consumed, WellFormed, Native;
    var r := TrieRange(m, t, text, size, end);
    forall p: nat | p < r.end
      ensures GoodMatch(MatchAt(r, p), r.end - p)
    {
      var key := Key(m, text[p..]);
      var bound := Bound(size, text[p..], Room(r, p), 0);
      BoundInRange(text, size, p, end);
      MatchesAreShortest(t, key, bound, POSSIBLE_WORD_LIST_MAX);
      var found := First(Words(t, key, bound), POSSIBLE_WORD_LIST_MAX);
      var ls := LengthsOf(found);
      forall i | 0 <= i < |ls|
        ensures 1 <= ls[i] <= r.end - p
      {
        assert found[i] in found;
      }
    }
  }

  /** The native length up to the end of the range keeps the scan inside it. */
  lemma BoundInRange(text: seq<int>, size: Sizes, p: nat, end: nat)
    requires p < end <= |text|
    ensures Bound(size, text[p..], Native(size, text[p..end]), 0) <= end - p
  {
    hide Native;
    var s := text[p..];
    assert s[..end - p] == text[p..end];
  }
}
