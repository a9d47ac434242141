/**
  divideUpDictionaryRange() of the Lao, Burmese and Khmer engines of source/common/dictbe.cpp, which are the same
  up to their character sets. Positions and lengths are counted in characters, and turned into native indexes where
  the code's result or a test depends on it.
 */
module DictBreaks {
  import opened DictText
  import opened DictWords

  const LOOKAHEAD := 3
  const ROOT_COMBINE_THRESHOLD := 3
  const PREFIX_COMBINE_THRESHOLD := 3
  const MIN_WORD_SPAN := 4

  /** The character sets of an engine. */
  datatype Sets = Sets(endWord: int -> bool, beginWord: int -> bool, marks: int -> bool)

  // ---------- the rule for one break ----------

  /** The length of the word chosen at p, or 0 if no dictionary word starts there. */
  ghost predicate IsChosen(r: Range, p: nat, w: nat) {
    if |Lengths(r, p)| == 0 then w == 0
    else exists i: nat :: i < |Lengths(r, p)| && Preferred(r, p, i) && w == Lengths(r, p)[i]
  }

  /** A plausible word boundary: characters that may end and begin words, and a dictionary word behind it. */
  predicate Plausible(r: Range, sets: Sets, q: nat)
    requires 0 < q < |r.text|
  {
    sets.endWord(r.text[q - 1]) && sets.beginWord(r.text[q]) && Followed(r, q)
  }

  /** The first plausible boundary behind q, or the end of the range. */
  function ScanEnd(r: Range, sets: Sets, q: nat): (e: nat)
    requires q < r.end <= |r.text|
    ensures q < e <= r.end
    ensures e < r.end ==> Plausible(r, sets, e)
    ensures forall k :: q < k < e ==> !Plausible(r, sets, k)
    decreases r.end - q
  {
    if q + 1 == r.end || Plausible(r, sets, q + 1) then q + 1 else ScanEnd(r, sets, q + 1)
  }

  /** Whether text that is not a word is taken into the word of length w that ends at q. */
  predicate Combines(r: Range, q: nat, w: nat) {
    q < r.end && w < ROOT_COMBINE_THRESHOLD && !Followed(r, q) && (w == 0 || Prefix(r, q) < PREFIX_COMBINE_THRESHOLD)
  }

  /** The first position from q on that no mark stands at, or the end of the range. */
  function SkipMarks(r: Range, sets: Sets, q: nat): (e: nat)
    requires q <= r.end <= |r.text|
    ensures q <= e <= r.end && (e < r.end ==> !sets.marks(r.text[e]))
    ensures forall k :: q <= k < e ==> sets.marks(r.text[k])
    decreases r.end - q
  {
    if q < r.end && sets.marks(r.text[q]) then SkipMarks(r, sets, q + 1) else q
  }

  /** The break that follows a word of length w at p. */
  function BreakAfter(r: Range, sets: Sets, p: nat, w: nat): nat
    requires p + w <= r.end <= |r.text|
  {
    var q := p + w;
    SkipMarks(r, sets, if Combines(r, q, w) then ScanEnd(r, sets, q) else q)
  }

  /** The break that follows p. */
  ghost predicate NextBreak(r: Range, sets: Sets, p: nat, b: nat) {
    r.end <= |r.text| && exists w: nat :: IsChosen(r, p, w) && p + w <= r.end && b == BreakAfter(r, sets, p, w)
  }

  /** Breaks from p on, each following the one before, up to the end of the range. */
  ghost predicate Division(r: Range, sets: Sets, p: nat, breaks: seq<nat>)
    decreases |breaks|
  {
    if p >= r.end then breaks == []
    else |breaks| > 0 && NextBreak(r, sets, p, breaks[0]) && Division(r, sets, breaks[0], breaks[1..])
  }

  lemma ChosenFits(r: Range, p: nat, w: nat)
    requires Sound(r) && p < r.end && IsChosen(r, p, w)
    ensures p + w <= r.end && (w == 0 <==> !Followed(r, p))
  {
    hide Preferred;
    if |Lengths(r, p)| > 0 {
      var i: nat :| i < |Lengths(r, p)| && Preferred(r, p, i) && w == Lengths(r, p)[i];
      Shorter(r, p, i);
    }
  }

  /** Every break lies beyond the place it follows, within the range, and not before a combining mark. */
  lemma NextBreakPlace(r: Range, sets: Sets, p: nat, b: nat)
    requires Sound(r) && p < r.end && NextBreak(r, sets, p, b)
    ensures p < b <= r.end && (b < r.end ==> !sets.marks(r.text[b]))
  {
    hide IsChosen, Sound;
    var w: nat :| IsChosen(r, p, w) && p + w <= r.end && b == BreakAfter(r, sets, p, w);
    ChosenFits(r, p, w);
  }

  /** The break is determined by the text and the dictionary. */
  lemma NextBreakUnique(r: Range, sets: Sets, p: nat, b: nat, b': nat)
    requires NextBreak(r, sets, p, b) && NextBreak(r, sets, p, b')
    ensures b == b'
  {
    hide Preferred, BreakAfter;
    var w: nat :| IsChosen(r, p, w) && p + w <= r.end && b == BreakAfter(r, sets, p, w);
    var w': nat :| IsChosen(r, p, w') && p + w' <= r.end && b' == BreakAfter(r, sets, p, w');
    if |Lengths(r, p)| > 0 {
      var i: nat :| i < |Lengths(r, p)| && Preferred(r, p, i) && w == Lengths(r, p)[i];
      var i': nat :| i' < |Lengths(r, p)| && Preferred(r, p, i') && w' == Lengths(r, p)[i'];
      PreferredUnique(r, p, i, i');
    }
  }

  /** The pieces between the breaks partition the range. */
  ghost predicate Partitions(r: Range, p: nat, breaks: seq<nat>) {
    && |breaks| > 0 && p < breaks[0] && breaks[|breaks| - 1] == r.end
    && forall i :: 0 <= i < |breaks| - 1 ==> breaks[i] < breaks[i + 1]
  }

  lemma {:induction false} DivisionPartitions(r: Range, sets: Sets, p: nat, breaks: seq<nat>)
    requires Sound(r) && p < r.end && Division(r, sets, p, breaks)
    ensures Partitions(r, p, breaks)
    ensures forall i :: 0 <= i < |breaks| && breaks[i] < r.end ==> !sets.marks(r.text[breaks[i]])
    decreases |breaks|
  {
    hide NextBreak;
    var b := breaks[0];
    NextBreakPlace(r, sets, p, b);
    if b < r.end {
      var rest := breaks[1..];
      DivisionPartitions(r, sets, b, rest);
      assert forall i :: 0 < i < |breaks| ==> breaks[i] == rest[i - 1];
    }
  }

  lemma {:induction false} DivisionUnique(r: Range, sets: Sets, p: nat, bs: seq<nat>, bs': seq<nat>)
    requires Division(r, sets, p, bs) && Division(r, sets, p, bs')
    ensures bs == bs'
    decreases |bs|
  {
    hide NextBreak;
    if p < r.end {
      NextBreakUnique(r, sets, p, bs[0], bs'[0]);
      DivisionUnique(r, sets, bs[0], bs[1..], bs'[1..]);
      assert bs == [bs[0]] + bs[1..] && bs' == [bs'[0]] + bs'[1..];
    }
  }

  /** Adding one more break at the end of what is already divided. */
  ghost predicate Divided(r: Range, sets: Sets, p: nat, breaks: seq<nat>, q: nat)
    decreases |breaks|
  {
    if |breaks| == 0 then p == q
    else p < r.end && NextBreak(r, sets, p, breaks[0]) && Divided(r, sets, breaks[0], breaks[1..], q)
  }

  lemma {:induction false} DividedMore(r: Range, sets: Sets, p: nat, breaks: seq<nat>, q: nat, b: nat)
    requires Divided(r, sets, p, breaks, q) && q < r.end && NextBreak(r, sets, q, b)
    ensures Divided(r, sets, p, breaks + [b], b)
    decreases |breaks|
  {
    hide NextBreak;
    if |breaks| > 0 {
      assert (breaks + [b])[1..] == breaks[1..] + [b];
      DividedMore(r, sets, breaks[0], breaks[1..], q, b);
    }
  }

  lemma {:induction false} DividedAll(r: Range, sets: Sets, p: nat, breaks: seq<nat>, q: nat)
    requires Divided(r, sets, p, breaks, q) && q >= r.end
    ensures Division(r, sets, p, breaks)
    decreases |breaks|
  {
    hide NextBreak;
    if |breaks| > 0 { DividedAll(r, sets, breaks[0], breaks[1..], q); }
  }

  // ---------- the engine ----------

  /** Chooses the word at the current position by the lookahead rule, if there is one, and moves behind it. */
  method FindWord(first: PossibleWord, second: PossibleWord, third: PossibleWord, text: Cursor, r: Range)
    returns (length: nat)
    requires Sound(r) && first != second && first != third && second != third
    requires first.Agrees(r) && second.Agrees(r) && third.Agrees(r) && text.index < r.end
    modifies first, second, third, text
    ensures first.Agrees(r) && second.Agrees(r) && third.Agrees(r)
    ensures IsChosen(r, old(text.index), length) && text.index == old(text.index) + length
  {
    hide Sound, Lengths;
    ghost var p := text.index;
    length := 0;
    var candidates := first.Candidates(text, r);
    if candidates == 1 {
      length := first.AcceptMarked(text, r);
      assert Preferred(r, p, 0);
    } else if candidates > 1 {
      MarkPreferred(first, second, third, text, r);
      length := first.AcceptMarked(text, r);
      ghost var i: nat := first.mark;
      assert Preferred(r, p, i) && length == Lengths(r, p)[i];
    }
  }

  /** Looks for a plausible word boundary behind q. */
  method Resynchronize(next: PossibleWord, text: Cursor, r: Range, sets: Sets) returns (chars: nat)
    requires Sound(r) && next.Agrees(r) && text.index < r.end
    modifies next, text
    ensures next.Agrees(r) && text.index == old(text.index) + chars == ScanEnd(r, sets, old(text.index))
  {
    hide Lengths, Sound, Prefix, ScanEnd, Plausible, Followed, Last;
    Bounded(r);
    var q := text.index;
    var remaining := r.end - q;
    chars := 0;
    while true
      invariant next.Agrees(r) && text.index == q + chars < r.end && remaining == r.end - q - chars
      invariant ScanEnd(r, sets, q) == ScanEnd(r, sets, q + chars)
      decreases remaining
    {
      ScanStep(r, sets, q + chars);
      var pc := r.text[text.index];
      text.index := text.index + 1;
      chars := chars + 1;
      remaining := remaining - 1;
      if remaining <= 0 { break; }
      var uc := r.text[text.index];
      if sets.endWord(pc) && sets.beginWord(uc) {
        var candidates := next.Candidates(text, r);
        text.index := q + chars;
        if candidates > 0 { break; }
      }
    }
  }

  lemma ScanStep(r: Range, sets: Sets, q: nat)
    requires q < r.end <= |r.text|
    ensures ScanEnd(r, sets, q)
            == if q + 1 == r.end
                  || (sets.endWord(r.text[q]) && sets.beginWord(r.text[q + 1]) && |Lengths(r, q + 1)| > 0) then q + 1
               else ScanEnd(r, sets, q + 1)
  {
    hide Lengths;
  }

  /** One turn of the main loop: from one break to the next. */
  method OneBreak(first: PossibleWord, second: PossibleWord, third: PossibleWord, text: Cursor, r: Range, sets: Sets)
    returns (b: nat)
    requires Sound(r) && first != second && first != third && second != third
    requires first.Agrees(r) && second.Agrees(r) && third.Agrees(r) && text.index < r.end
    modifies first, second, third, text
    ensures first.Agrees(r) && second.Agrees(r) && third.Agrees(r)
    ensures NextBreak(r, sets, old(text.index), b) && text.index == b
  {
    hide Sound, Lengths, IsChosen, ScanEnd, Prefix, SkipMarks, Followed, PossibleWord.Agrees, Combines, NextBreak,
         BreakAfter;
    var current := text.index;
    var length := FindWord(first, second, third, text, r);
    ChosenFits(r, current, length);
    Bounded(r);
    ghost var w := length;
    BreakIs(r, sets, current, w);
    if text.index < r.end && length < ROOT_COMBINE_THRESHOLD {
      length := CombineNext(first, second, third, text, r, sets, current, length);
    }
    length := PassMarks(text, r, sets, length);
    return current + length;
  }

  /** Combines from the next list of the circular array, or from the same one if no word was found. */
  method CombineNext(first: PossibleWord, second: PossibleWord, third: PossibleWord, text: Cursor, r: Range, sets: Sets,
                     current: nat, length0: nat)
    returns (length: nat)
    requires Sound(r) && first != second && first != third && second != third
    requires first.Agrees(r) && second.Agrees(r) && third.Agrees(r)
    requires text.index == current + length0 < r.end <= |r.text| && length0 < ROOT_COMBINE_THRESHOLD
    modifies first, second, third, text
    ensures first.Agrees(r) && second.Agrees(r) && third.Agrees(r) && text.index == current + length
    ensures current + length == if Combines(r, current + length0, length0) then ScanEnd(r, sets, current + length0)
            else current + length0
  {
    hide Sound, ScanEnd, PossibleWord.Agrees, Combines;
    if length0 > 0 {
      length := Combine(second, third, text, r, sets, current, length0);
    } else {
      length := Combine(first, second, text, r, sets, current, length0);
    }
  }

  /** The break behind a chosen word, from where the scan for it ends. */
  lemma BreakIs(r: Range, sets: Sets, p: nat, w: nat)
    requires IsChosen(r, p, w) && p + w <= r.end <= |r.text|
    ensures Combines(r, p + w, w) ==> p + w < r.end && w < ROOT_COMBINE_THRESHOLD
    ensures var q := if Combines(r, p + w, w) then ScanEnd(r, sets, p + w) else p + w;
            q <= r.end && NextBreak(r, sets, p, SkipMarks(r, sets, q))
  {
    hide IsChosen, ScanEnd, SkipMarks, Followed, Prefix;
    assert SkipMarks(r, sets, if Combines(r, p + w, w) then ScanEnd(r, sets, p + w) else p + w)
        == BreakAfter(r, sets, p, w);
  }

  method PassMarks(text: Cursor, r: Range, sets: Sets, length0: nat) returns (length: nat)
    requires text.index <= r.end <= |r.text|
    modifies text
    ensures text.index == SkipMarks(r, sets, old(text.index)) && length - length0 == text.index - old(text.index)
  {
    ghost var q := text.index;
    length := length0;
    while text.index < r.end && sets.marks(r.text[text.index])
      invariant q <= text.index <= r.end && SkipMarks(r, sets, q) == SkipMarks(r, sets, text.index)
      invariant length - length0 == text.index - q
      decreases r.end - text.index
    {
      text.index := text.index + 1;
      length := length + 1;
    }
  }

  lemma Bounded(r: Range)
    requires Sound(r)
    ensures r.end <= |r.text|
  {
  }

  /**
    Takes text that is not a word into the word before it, if there is none or the text shares too little with a word.
   */
  method Combine(here: PossibleWord, next: PossibleWord, text: Cursor, r: Range, sets: Sets, current: nat, length0: nat)
    returns (length: nat)
    requires Sound(r) && here != next && here.Agrees(r) && next.Agrees(r)
    requires text.index == current + length0 < r.end <= |r.text| && length0 < ROOT_COMBINE_THRESHOLD
    modifies here, next, text
    ensures here.Agrees(r) && next.Agrees(r) && text.index == current + length
    ensures current + length == if Combines(r, current + length0, length0) then ScanEnd(r, sets, current + length0)
            else current + length0
  {
    hide Sound, Lengths, ScanEnd, Prefix;
    length := length0;
    var candidates := here.Candidates(text, r);
    if candidates <= 0 && (length == 0 || here.prefix < PREFIX_COMBINE_THRESHOLD) {
      var chars := Resynchronize(next, text, r, sets);
      length := length + chars;
    } else {
      text.index := current + length;
    }
  }

  /** One turn of the main loop, with the candidate lists in circular order from n on. */
  method NthBreak(w0: PossibleWord, w1: PossibleWord, w2: PossibleWord, n: nat, text: Cursor, r: Range, sets: Sets)
    returns (b: nat)
    requires Sound(r) && w0 != w1 && w0 != w2 && w1 != w2
    requires w0.Agrees(r) && w1.Agrees(r) && w2.Agrees(r) && text.index < r.end
    modifies w0, w1, w2, text
    ensures w0.Agrees(r) && w1.Agrees(r) && w2.Agrees(r)
    ensures NextBreak(r, sets, old(text.index), b) && text.index == b
  {
    hide Sound, NextBreak, PossibleWord.Agrees;
    var words := [w0, w1, w2];
    var k := n % LOOKAHEAD;
    b := OneBreak(words[k], words[(k + 1) % LOOKAHEAD], words[(k + 2) % LOOKAHEAD], text, r, sets);
  }

  /** The main loop: all breaks of the range, the last one at its end. */
  method AllBreaks(text: Cursor, r: Range, sets: Sets, rangeStart: nat) returns (all: seq<nat>)
    requires Sound(r) && rangeStart < r.end
    modifies text
    ensures Division(r, sets, rangeStart, all) && |all| > 0 && all[|all| - 1] == r.end
  {
    hide Sound, NextBreak, Division, Divided, PossibleWord.Agrees;
    all := [];
    var w0 := new PossibleWord();
    var w1 := new PossibleWord();
    var w2 := new PossibleWord();
    text.index := rangeStart;
    NothingDivided(r, sets, rangeStart);
    while text.index < r.end
      invariant w0.Agrees(r) && w1.Agrees(r) && w2.Agrees(r)
      invariant rangeStart <= text.index <= r.end && Divided(r, sets, rangeStart, all, text.index)
      invariant if |all| > 0 then all[|all| - 1] == text.index else text.index == rangeStart
      decreases r.end - text.index
    {
      ghost var p := text.index;
      var b := NthBreak(w0, w1, w2, |all|, text, r, sets);
      NextBreakPlace(r, sets, p, b);
      DividedMore(r, sets, rangeStart, all, p, b);
      all := all + [b];
    }
    DividedAll(r, sets, rangeStart, all, text.index);
  }

  /** divideUpDictionaryRange(): appends the native indexes of the breaks inside the range, and returns how many. */
  method DivideUpDictionaryRange(text: Cursor, r: Range, sets: Sets, rangeStart: nat, foundBreaks: seq<int>)
    returns (wordsFound: int, breaks: seq<int>, ghost all: seq<nat>)
    requires Sound(r) && rangeStart <= r.end
    modifies text
    ensures Room(r, rangeStart) < MIN_WORD_SPAN ==> wordsFound == 0 && breaks == foundBreaks
    ensures Room(r, rangeStart) >= MIN_WORD_SPAN ==>
              && Division(r, sets, rangeStart, all) && InRange(r, all) && |all| > 0 && all[|all| - 1] == r.end
              && wordsFound == |all| - 1 && breaks == foundBreaks + NativeAll(r.size, r.text, all[..|all| - 1])
  {
    hide Sound, Division, Native;
    wordsFound, breaks, all := 0, foundBreaks, [];
    if Room(r, rangeStart) < MIN_WORD_SPAN { return; }
    NotEmpty(r, rangeStart);
    var found := AllBreaks(text, r, sets, rangeStart);
    all := found;
    DivisionInRange(r, sets, rangeStart, found);
    var pushed := NativeAll(r.size, r.text, found);
    wordsFound, breaks := |found|, foundBreaks + pushed;
    if breaks[|breaks| - 1] >= Native(r.size, r.text[..r.end]) {
      breaks := breaks[..|breaks| - 1];
      wordsFound := wordsFound - 1;
      assert NativeAll(r.size, r.text, found[..|found| - 1]) == pushed[..|pushed| - 1];
    }
  }

  ghost predicate InRange(r: Range, breaks: seq<nat>) {
    forall i :: 0 <= i < |breaks| ==> breaks[i] <= r.end <= |r.text|
  }

  lemma NotEmpty(r: Range, p: nat)
    requires Sound(r) && p <= r.end && Room(r, p) >= MIN_WORD_SPAN
    ensures p < r.end
  {
  }

  lemma {:induction false} DivisionInRange(r: Range, sets: Sets, p: nat, breaks: seq<nat>)
    requires Sound(r) && Division(r, sets, p, breaks)
    ensures InRange(r, breaks)
    decreases |breaks|
  {
    hide NextBreak;
    if p < r.end {
      NextBreakPlace(r, sets, p, breaks[0]);
      DivisionInRange(r, sets, breaks[0], breaks[1..]);
      assert forall i :: 0 < i < |breaks| ==> breaks[i] == breaks[1..][i - 1];
    }
  }

  /** The native breaks, in strictly ascending order, partition the range as well. */
  lemma NativeBreaksAscend(r: Range, sets: Sets, p: nat, breaks: seq<nat>, i: nat, j: nat)
    requires Sound(r) && p < r.end && Division(r, sets, p, breaks) && i < j < |breaks|
    ensures breaks[i] < breaks[j] <= |r.text|
    ensures Native(r.size, r.text[..p]) < Native(r.size, r.text[..breaks[i]]) < Native(r.size, r.text[..breaks[j]])
  {
    hide Division, Native;
    DivisionPartitions(r, sets, p, breaks);
    DivisionInRange(r, sets, p, breaks);
    Ascending(r, p, breaks, i, j);
    Ascending(r, p, breaks, 0, i);
    NativeOrder(r.size, r.text, p, breaks[i]);
    NativeOrder(r.size, r.text, breaks[i], breaks[j]);
  }

  lemma {:induction false} Ascending(r: Range, p: nat, breaks: seq<nat>, i: nat, j: nat)
    requires Partitions(r, p, breaks) && i <= j < |breaks|
    ensures breaks[i] <= breaks[j] && (i < j ==> breaks[i] < breaks[j])
    decreases j
  {
    if i < j { Ascending(r, p, breaks, i, j - 1); }
  }

  lemma NothingDivided(r: Range, sets: Sets, p: nat)
    ensures Divided(r, sets, p, [], p)
  {
  }
}
