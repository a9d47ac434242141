/**
  The trie-driven dictionary matcher of source/common/dictionarydata.cpp.
 */
module DictMatcher {
  import opened Basics
  import opened TrieModel
  import opened TrieLayout
  import opened TrieReader
  import opened DictText

  const TRANSFORM_TYPE_OFFSET := 0x100_0000
  const ZERO_WIDTH_JOINER := 0x200D
  const ZERO_WIDTH_NON_JOINER := 0x200C
  const SENTINEL := -1

  /** The transformation of text characters: an offset, or none. */
  datatype Transform = OffsetBy(offset: int) | Identity

  /** transformConstant: type in bits 30..24, offset in bits 20..0 */
  function TransformOf(constant: int): Transform {
    var bits := constant % 0x1_0000_0000;
    if bits / 0x100_0000 % 0x80 * 0x100_0000 == TRANSFORM_TYPE_OFFSET then OffsetBy(bits % 0x20_0000) else Identity
  }

  /** transform(c) */
  function Transformed(m: Transform, c: int): int {
    match m
    case OffsetBy(offset) =>
      if c == ZERO_WIDTH_JOINER then 0xFF
      else if c == ZERO_WIDTH_NON_JOINER then 0xFE
      else if c - offset < 0 || 0xFD < c - offset then SENTINEL
      else c - offset
    case Identity => c
  }

  /** The trie byte that the reader sees for c. */
  function KeyByte(m: Transform, c: int): int { InByte(Transformed(m, c)) }

  function Key(m: Transform, s: seq<int>): (k: seq<int>)
    ensures |k| == |s| && forall i :: 0 <= i < |s| ==> k[i] == KeyByte(m, s[i])
  {
    seq(|s|, i requires 0 <= i < |s| => KeyByte(m, s[i]))
  }

  /** A dictionary word found in the text: its length in characters, and its value. */
  datatype Candidate = Candidate(length: nat, value: int)

  /** The sub-trie that the first n bytes of a key lead to. */
  function After(t: Trie, key: seq<int>, n: nat): Option<Trie>
    requires n <= |key|
  {
    Descend(Some(t), key[..n])
  }

  /** All dictionary words among the prefixes of up to n bytes, from short to long. */
  function Words(t: Trie, key: seq<int>, n: nat): seq<Candidate>
    requires n <= |key|
  {
    if n == 0 then []
    else
      var o := After(t, key, n);
      Words(t, key, n - 1) + if o.Some? && HasValue(o.value) then [Candidate(n, o.value.value)] else []
  }

  /** The scan ends where no longer word is possible, or at the bound. */
  predicate Stops(t: Trie, key: seq<int>, n: nat)
    requires n <= |key|
  {
    var r := Report(After(t, key, n));
    r == NoMatch || r == FinalValue
  }

  /** How many characters the scan consumes; a character that does not match is counted. */
  function Consumed(t: Trie, key: seq<int>, n: nat, bound: nat): (r: nat)
    requires n <= bound <= |key|
    ensures n <= r <= bound
    decreases bound - n
  {
    if n == bound then n else if Stops(t, key, n + 1) then n + 1 else Consumed(t, key, n + 1, bound)
  }

  /** Where the scan of s ends at the latest: at the first character that reaches maxLength native units. */
  function Bound(size: Sizes, s: seq<int>, maxLength: int, n: nat): (b: nat)
    requires n <= |s|
    ensures n <= b <= |s|
    ensures b < |s| ==> b > 0 && Native(size, s[..b]) >= maxLength
    ensures forall k :: n <= k < b && k > 0 ==> Native(size, s[..k]) < maxLength
    decreases |s| - n
  {
    if n == |s| || (n > 0 && Native(size, s[..n]) >= maxLength) then n else Bound(size, s, maxLength, n + 1)
  }

  function First(ws: seq<Candidate>, limit: nat): seq<Candidate> {
    if |ws| <= limit then ws else ws[..limit]
  }

  class BytesDictionaryMatcher {
    const characters: seq<Byte>
    const transform: Transform

    constructor (c: seq<Byte>, transformConstant: int)
      ensures characters == c && transform == TransformOf(transformConstant)
    {
      characters, transform := c, TransformOf(transformConstant);
    }

    /** first() for the first character, next() for the others. */
    method Follow(bt: BytesTrie, c: int, isFirst: bool, ghost t: Trie, ghost cur: Option<Trie>) returns (result: Result)
      requires WellFormed(t) && Lays(characters, 0, t) && bt.bytes == characters && bt.At(cur)
               && (isFirst ==> cur == Some(t))
      modifies bt
      ensures bt.At(StepOpt(cur, KeyByte(transform, c))) && result == Report(StepOpt(cur, KeyByte(transform, c)))
    {
      hide Transformed, Lays, WellFormed, InByte, RemainingAfter;
      if isFirst {
        result := bt.First(Transformed(transform, c), t);
      } else {
        result := bt.Next(Transformed(transform, c), cur);
      }
    }

    /** A word that ends here is noted if there is room. */
    method Note(bt: BytesTrie, result: Result, found0: seq<Candidate>, lengths0: seq<nat>, prefix: nat,
                lengthMatched: nat, limit: nat, ghost size: Sizes, ghost t: Trie, ghost s: seq<int>,
                ghost key: seq<int>)
      returns (found: seq<Candidate>, lengths: seq<nat>)
      requires |key| == |s| && 0 < prefix <= |key| && lengthMatched == Native(size, s[..prefix])
      requires bt.bytes == characters && bt.At(After(t, key, prefix)) && result == Report(After(t, key, prefix))
      requires found0 == First(Words(t, key, prefix - 1), limit) && NativeLengths(size, s, found0, lengths0)
      ensures found == First(Words(t, key, prefix), limit) && NativeLengths(size, s, found, lengths)
    {
      hide Words, Native, First, After, NativeLengths, Report, HasValue;
      ghost var o := After(t, key, prefix);
      found, lengths := found0, lengths0;
      WordsStep(t, key, prefix);
      FirstStep(Words(t, key, prefix - 1), Words(t, key, prefix), limit);
      ReportsValue(o);
      if result == FinalValue || result == IntermediateValue {
        if |found| < limit {
          var value := bt.GetValue(o.value);
          OneMoreLength(size, s, found, lengths, prefix, value);
          found := found + [Candidate(prefix, value)];
          lengths := lengths + [lengthMatched];
        }
      }
    }

    /**
      matches(): the shortest limit words that start at the index, their native lengths, and the new index. The
      characters consumed are those up to the longest prefix, and one more if that one does not match.
     */
    method Matches(text: seq<int>, size: Sizes, start: nat, maxLength: int, limit: nat, ghost t: Trie)
      returns (found: seq<Candidate>, lengths: seq<nat>, prefix: nat, index: nat)
      requires WellFormed(t) && Lays(characters, 0, t)
      requires start <= |text| && forall i :: 0 <= i < |text| ==> text[i] >= 0
      ensures var s := text[start..];
              var key, bound := Key(transform, s), Bound(size, s, maxLength, 0);
              && found == First(Words(t, key, bound), limit) && NativeLengths(size, s, found, lengths)
              && prefix == Consumed(t, key, 0, bound) && index == start + prefix
    {
      hide Words, Consumed, Transformed, Lays, Descend, WellFormed, InByte, Native, First, Bound, After,
           NativeLengths, RemainingAfter, Step, KeyByte, BytesTrie.At;
      ghost var s := text[start..];
      ghost var key, bound := Key(transform, s), Bound(size, s, maxLength, 0);
      var bt := new BytesTrie(characters, t);
      found, lengths, prefix, index := [], [], 0, start;
      var lengthMatched := 0;
      NoWords(t, key);
      NothingNative(size, s);
      ghost var cur := Some(t);
      while index < |text|
        invariant index == start + prefix && prefix <= bound <= |key| && bound == Bound(size, s, maxLength, prefix)
        invariant lengthMatched == Native(size, s[..prefix])
                  && (prefix > 0 ==> lengthMatched < maxLength || index == |text|)
        invariant bt.bytes == characters && bt.At(cur) && cur == After(t, key, prefix)
        invariant found == First(Words(t, key, prefix), limit) && NativeLengths(size, s, found, lengths)
        invariant Consumed(t, key, 0, bound) == Consumed(t, key, prefix, bound)
        decreases |text| - index
      {
        var c := text[index];
        index := index + 1;
        ghost var n := prefix;
        AfterStep(t, key, n);
        BoundStep(size, s, maxLength, n);
        var result := Follow(bt, c, prefix == 0, t, cur);
        cur := After(t, key, n + 1);
        lengthMatched := lengthMatched + size(c);
        prefix := prefix + 1;
        found, lengths := Note(bt, result, found, lengths, prefix, lengthMatched, limit, size, t, s, key);
        ConsumedStep(t, key, n, bound);
        if result == FinalValue || result == NoMatch {
          NothingLonger(t, key, n + 1, bound);
          break;
        }
        if lengthMatched >= maxLength { break; }
      }
      ConsumedAll(t, key, bound);
      if index == |text| { BoundAtEnd(size, s, maxLength); }
    }
  }

  lemma ReportsValue(o: Option<Trie>)
    ensures Report(o) == FinalValue || Report(o) == IntermediateValue <==> o.Some? && HasValue(o.value)
  {
  }

  ghost predicate NativeLengths(size: Sizes, s: seq<int>, found: seq<Candidate>, lengths: seq<nat>) {
    && |lengths| == |found|
    && forall i :: 0 <= i < |found| ==> found[i].length <= |s| && lengths[i] == Native(size, s[..found[i].length])
  }

  lemma OneMoreLength(size: Sizes, s: seq<int>, found: seq<Candidate>, lengths: seq<nat>, n: nat, value: int)
    requires NativeLengths(size, s, found, lengths) && n <= |s|
    ensures NativeLengths(size, s, found + [Candidate(n, value)], lengths + [Native(size, s[..n])])
  {
  }

  lemma NothingNative(size: Sizes, s: seq<int>)
    ensures Native(size, s[..0]) == 0 && NativeLengths(size, s, [], [])
    ensures forall limit: nat :: First([], limit) == []
  {
  }

  lemma BoundStep(size: Sizes, s: seq<int>, maxLength: int, n: nat)
    requires n < |s| && (n > 0 ==> Native(size, s[..n]) < maxLength)
    ensures Bound(size, s, maxLength, n) == Bound(size, s, maxLength, n + 1)
    ensures Native(size, s[..n + 1]) == Native(size, s[..n]) + size(s[n])
    ensures Native(size, s[..n + 1]) >= maxLength ==> Bound(size, s, maxLength, n + 1) == n + 1
  {
    hide Native;
    NativeStep(size, s, n);
  }

  lemma BoundAtEnd(size: Sizes, s: seq<int>, maxLength: int)
    ensures Bound(size, s, maxLength, |s|) == |s|
  {
  }

  /** One more word at the end is among the first ones exactly if there was room. */
  lemma FirstStep(ws: seq<Candidate>, ws': seq<Candidate>, limit: nat)
    requires ws <= ws' && |ws'| <= |ws| + 1
    ensures First(ws', limit) == if |First(ws, limit)| < limit then ws' else First(ws, limit)
    ensures |First(ws, limit)| < limit ==> First(ws, limit) == ws
  {
  }

  lemma NoWords(t: Trie, key: seq<int>)
    ensures Words(t, key, 0) == [] && key[..0] == [] && After(t, key, 0) == Some(t)
  {
  }

  lemma AfterStep(t: Trie, key: seq<int>, n: nat)
    requires n < |key|
    ensures After(t, key, n + 1) == StepOpt(After(t, key, n), key[n])
  {
    assert key[..n + 1] == key[..n] + [key[n]];
    DescendAppend(Some(t), key[..n], [key[n]]);
    assert Descend(After(t, key, n), [key[n]]) == StepOpt(After(t, key, n), key[n]);
  }

  lemma WordsStep(t: Trie, key: seq<int>, n: nat)
    requires 0 < n <= |key|
    ensures var o := After(t, key, n);
            Words(t, key, n) == Words(t, key, n - 1) + if o.Some?
              && HasValue(o.value) then [Candidate(n, o.value.value)] else []
  {
  }

  lemma ConsumedStep(t: Trie, key: seq<int>, n: nat, bound: nat)
    requires n < bound <= |key|
    ensures Consumed(t, key, n, bound) == if Stops(t, key, n + 1) then n + 1 else Consumed(t, key, n + 1, bound)
  {
  }

  lemma ConsumedAll(t: Trie, key: seq<int>, bound: nat)
    requires bound <= |key|
    ensures Consumed(t, key, bound, bound) == bound
  {
  }

  /** Behind a final value, or where nothing matches, there is no longer word. */
  lemma {:induction false} NothingLonger(t: Trie, key: seq<int>, n: nat, m: nat)
    requires n <= m <= |key| && Stops(t, key, n)
    ensures Words(t, key, m) == Words(t, key, n)
    ensures n < m ==> After(t, key, m).None?
    decreases m
  {
    hide After;
    if n < m {
      NothingLonger(t, key, n, m - 1);
      AfterStep(t, key, m - 1);
    }
  }

  // ---------- what the matcher's answer means ----------

  /** Exactly the stored keys, in strictly increasing length. */
  lemma {:induction false} WordsMeaning(t: Trie, key: seq<int>, n: nat)
    requires WellFormed(t) && n <= |key|
    ensures forall i, j :: 0 <= i < j < |Words(t, key, n)| ==> Words(t, key, n)[i].length < Words(t, key, n)[j].length
    ensures forall m: nat, v :: Candidate(m, v) in Words(t, key, n) <==> 1 <= m <= n && HasEntry(t, key[..m], v)
  {
    if n > 0 {
      WordsMeaning(t, key, n - 1);
      var o := After(t, key, n);
      CursorMeaning(t, key[..n]);
      var ws := Words(t, key, n - 1);
      forall i | 0 <= i < |ws|
        ensures ws[i].length < n
      {
        assert Candidate(ws[i].length, ws[i].value) in ws;
      }
      forall m: nat, v | Candidate(m, v) in Words(t, key, n)
        ensures 1 <= m <= n && HasEntry(t, key[..m], v)
      {
      }
    }
  }

  /** The first limit words are the shortest ones. */
  lemma MatchesAreShortest(t: Trie, key: seq<int>, n: nat, limit: nat)
    requires WellFormed(t) && n <= |key|
    ensures var found := First(Words(t, key, n), limit);
            && |found| <= limit
            && (forall i, j :: 0 <= i < j < |found| ==> found[i].length < found[j].length)
            && (forall c :: c in found ==> 1 <= c.length <= n && HasEntry(t, key[..c.length], c.value))
            && (forall m, v :: 1 <= m <= n && HasEntry(t, key[..m], v) ==>
                  Candidate(m, v) in found || (|found| == limit && forall c :: c in found ==> c.length < m))
  {
    WordsMeaning(t, key, n);
    var ws := Words(t, key, n);
    var found := First(ws, limit);
    forall c | c in found
      ensures 1 <= c.length <= n && HasEntry(t, key[..c.length], c.value)
    {
      assert Candidate(c.length, c.value) in ws;
    }
    forall m, v | 1 <= m <= n && HasEntry(t, key[..m], v)
      ensures Candidate(m, v) in found || (|found| == limit && forall c :: c in found ==> c.length < m)
    {
      assert Candidate(m, v) in ws;
      var i :| 0 <= i < |ws| && ws[i] == Candidate(m, v);
      if i < |found| { assert found[i] == Candidate(m, v); }
    }
  }

  /**
    The reported prefix: no word is longer; every shorter non-empty prefix starts some key and is not behind a
    final value; and it is the bound, or ends in a character where the scan cannot go on.
   */
  lemma {:induction false} PrefixMeaning(t: Trie, key: seq<int>, n: nat, bound: nat)
    requires WellFormed(t) && n <= bound <= |key|
    ensures var r := Consumed(t, key, n, bound);
            && (forall m :: n < m < r ==> !Stops(t, key, m))
            && (r == bound || Stops(t, key, r))
            && (forall m, v :: r < m <= bound ==> !HasEntry(t, key[..m], v))
    decreases bound - n
  {
    hide WellFormed, Descend, Entries;
    var r := Consumed(t, key, n, bound);
    if n < bound {
      if Stops(t, key, n + 1) {
        forall m, v | r < m <= bound
          ensures !HasEntry(t, key[..m], v)
        {
          NothingLonger(t, key, r, m);
          CursorMeaning(t, key[..m]);
        }
      } else {
        PrefixMeaning(t, key, n + 1, bound);
      }
    }
  }

  /** The longest prefix of up to n bytes that some key starts with. */
  function LongestMatch(t: Trie, key: seq<int>, n: nat): (m: nat)
    requires n <= |key|
    ensures m <= n && After(t, key, m).Some? && forall k :: m < k <= n ==> After(t, key, k).None?
  {
    if n == 0 then
      assert key[..0] == [];
      0
    else if After(t, key, n).Some? then n
    else LongestMatch(t, key, n - 1)
  }

  /**
    The reported prefix is the length of the longest match exactly if the scan ended on a match - which is
    when the longest match fills the bound, or is not empty and ends in a final value; otherwise it is one more.
   */
  lemma PrefixIsMatch(t: Trie, key: seq<int>, bound: nat)
    requires WellFormed(t) && bound <= |key|
    ensures var r, m := Consumed(t, key, 0, bound), LongestMatch(t, key, bound);
            && (r == m <==> After(t, key, r).Some?)
            && (r == m <==> m == bound || (m > 0 && After(t, key, m).value.Final?))
            && (r != m ==> r == m + 1)
  {
    hide WellFormed, Descend, Entries, Consumed;
    PrefixMeaning(t, key, 0, bound);
    var r, m := Consumed(t, key, 0, bound), LongestMatch(t, key, bound);
    NoWords(t, key);
    if bound > 0 { ConsumedStep(t, key, 0, bound); }
    forall k | r < k <= bound
      ensures After(t, key, k).None?
    {
      NothingLonger(t, key, r, k);
    }
    if r > 1 { assert !Stops(t, key, r - 1); }
  }

  /** At a text of one character that starts no key the reported prefix is 1, though nothing matched. */
  lemma PrefixCountsMiss()
    ensures var t, key := Linear([1], Final(1)), [2];
            WellFormed(t) && Consumed(t, key, 0, 1) == 1 && LongestMatch(t, key, 1) == 0
  {
    var t, key := Linear([1], Final(1)), [2];
    assert key[..1] == [2];
    assert After(t, key, 1) == Descend(Step(t, 2), []);
    NoWords(t, key);
  }

  // ---------- characters outside the dictionary's range ----------

  predicate IsMapped(m: Transform, c: int) { Transformed(m, c) != SENTINEL }

  /** The text with every unmapped character replaced by a zero width joiner. */
  function Joined(m: Transform, s: seq<int>): (r: seq<int>)
    ensures |r| == |s|
  {
    seq(|s|, i requires 0 <= i < |s| => if IsMapped(m, s[i]) then s[i] else ZERO_WIDTH_JOINER)
  }

  /** An unmapped character is read as byte 0xFF, which is the byte of the zero width joiner. */
  lemma UnmappedIsJoiner(m: Transform, s: seq<int>)
    requires m.OffsetBy?
    ensures Key(m, s) == Key(m, Joined(m, s))
  {
    var a, b := Key(m, s), Key(m, Joined(m, s));
    assert forall i :: 0 <= i < |s| ==> a[i] == b[i];
  }

  /** s is a word of the dictionary: all its characters are mapped and its bytes are a key. */
  ghost predicate IsWord(m: Transform, t: Trie, s: seq<int>, v: int) {
    (forall i :: 0 <= i < |s| ==> IsMapped(m, s[i])) && HasEntry(t, Key(m, s), v)
  }

  /**
    The matcher accepts s exactly when s is a word, except that it also accepts s with unmapped characters
    when the text with joiners in their place is a word.
   */
  lemma AcceptsExactly(m: Transform, t: Trie, s: seq<int>, v: int)
    requires m.OffsetBy?
    ensures HasEntry(t, Key(m, s), v) <==> IsWord(m, t, s, v) || IsWord(m, t, Joined(m, s), v)
    ensures (HasEntry(t, Key(m, s), v) <==> IsWord(m, t, s, v))
            <==> (forall i :: 0 <= i < |s| ==> IsMapped(m, s[i])) || !IsWord(m, t, Joined(m, s), v)
  {
    UnmappedIsJoiner(m, s);
    var j := Joined(m, s);
    assert forall i :: 0 <= i < |j| ==> IsMapped(m, j[i]);
  }

  /** Without byte 0xFF in the dictionary the matcher accepts words only. */
  lemma WithoutJoiner(m: Transform, t: Trie, s: seq<int>, v: int)
    requires m.OffsetBy? && forall k, x :: HasEntry(t, k, x) ==> 0xFF !in k
    ensures HasEntry(t, Key(m, s), v) <==> IsWord(m, t, s, v)
  {
    if HasEntry(t, Key(m, s), v) {
      var k := Key(m, s);
      forall i | 0 <= i < |s|
        ensures IsMapped(m, s[i])
      {
        assert k[i] in k;
      }
    }
  }

  /** A dictionary with the one-character word U+200D accepts a letter outside its range. */
  lemma JoinerConfusion()
    ensures var t := Linear([0xFF], Final(1));
            WellFormed(t) && HasEntry(t, Key(OffsetBy(0xE00), [0x41]), 1) && !IsWord(OffsetBy(0xE00), t, [0x41], 1)
  {
    var t := Linear([0xFF], Final(1));
    assert Key(OffsetBy(0xE00), [0x41]) == [0xFF];
    assert Entries(Final(1), -1) == [Entry([], 1)];
    assert Prefixed([0xFF], [Entry([], 1)])[0] == Entry([0xFF] + [], 1);
    assert Entries(t, -1)[0] == Entry([0xFF], 1);
    assert !IsMapped(OffsetBy(0xE00), [0x41][0]);
  }
}
