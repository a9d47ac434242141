/**
  Candidate words and the three-word lookahead of source/common/dictbe.cpp. The rule comes first, as functions of
  the text; the classes and loops are proved to follow it. Positions and lengths are counted in characters.
 */
module DictWords {
  import opened DictText

  /** What a dictionary matcher reports at a position: word lengths in increasing order, and the longest prefix. */
  datatype Match = Match(lengths: seq<nat>, prefix: nat)

  /**
    A range of text to divide, ending at end; matches(p, maxLength) is the dictionary's answer at p for words of up
    to maxLength native units.
   */
  datatype Range = Range(text: seq<int>, size: Sizes, end: nat, matches: (nat, nat) -> Match)

  const POSSIBLE_WORD_LIST_MAX := 20

  predicate Increasing(lengths: seq<nat>) { forall i, j :: 0 <= i < j < |lengths| ==> lengths[i] < lengths[j] }

  /** What is known of every matcher: lengths are increasing, positive and within the range. */
  predicate GoodMatch(m: Match, room: nat) {
    && Increasing(m.lengths) && |m.lengths| <= POSSIBLE_WORD_LIST_MAX
    && forall i :: 0 <= i < |m.lengths| ==> 1 <= m.lengths[i] <= room
  }

  /** The native length from p to the end of the range. */
  function Room(r: Range, p: nat): nat {
    if p <= r.end <= |r.text| then Native(r.size, r.text[p..r.end]) else 0
  }

  function MatchAt(r: Range, p: nat): Match { r.matches(p, Room(r, p)) }

  ghost predicate Sound(r: Range) {
    && r.end <= |r.text| && Positive(r.size)
    && forall p: nat :: p < r.end ==> GoodMatch(MatchAt(r, p), r.end - p)
  }

  // ---------- the rule ----------

  /** The lengths of the words that start at p and end in the range. */
  function Lengths(r: Range, p: nat): seq<nat> {
    if p < r.end then MatchAt(r, p).lengths else []
  }

  function Prefix(r: Range, p: nat): nat {
    if p < r.end then MatchAt(r, p).prefix else 0
  }

  predicate Followed(r: Range, p: nat) { |Lengths(r, p)| > 0 }

  function Last(lengths: seq<nat>): nat
    requires |lengths| > 0
  {
    lengths[|lengths| - 1]
  }

  /** Some word that starts at p is followed by another one. */
  predicate FollowedTwice(r: Range, p: nat) {
    exists j :: 0 <= j < |Lengths(r, p)| && Followed(r, p + Lengths(r, p)[j])
  }

  /** A second word at p is good enough: the longest one reaches the end, or some one is followed by a third word. */
  predicate GoodSecond(r: Range, p: nat) {
    Followed(r, p) && (p + Last(Lengths(r, p)) >= r.end || FollowedTwice(r, p))
  }

  /**
    The preferred candidate i among those at p: the longest if it reaches the end of the range; else the longest
    with a good second word; else the shortest that is followed by a word; else the longest.
   */
  ghost predicate Preferred(r: Range, p: nat, i: nat) {
    var ls := Lengths(r, p);
    var n := |ls|;
    && i < n
    && if n == 1 || p + Last(ls) >= r.end then i == n - 1
       else if exists k :: 0 <= k < n && GoodSecond(r, p + ls[k]) then
         GoodSecond(r, p + ls[i]) && forall k :: i < k < n ==> !GoodSecond(r, p + ls[k])
       else if exists k :: 0 <= k < n && Followed(r, p + ls[k]) then
         Followed(r, p + ls[i]) && forall k :: 0 <= k < i ==> !Followed(r, p + ls[k])
       else i == n - 1
  }

  /** The rule determines one candidate. */
  lemma PreferredUnique(r: Range, p: nat, i: nat, j: nat)
    requires Preferred(r, p, i) && Preferred(r, p, j)
    ensures i == j
  {
    hide GoodSecond, Followed, Lengths;
    if i < j { PreferredOrder(r, p, i, j); } else if j < i { PreferredOrder(r, p, j, i); }
  }

  lemma PreferredOrder(r: Range, p: nat, i: nat, j: nat)
    requires Preferred(r, p, i) && Preferred(r, p, j)
    ensures i >= j
  {
    hide GoodSecond, Followed, Lengths;
  }

  // ---------- the text cursor and the candidate cache ----------

  /** UText, reduced to its current position. */
  class Cursor {
    var index: nat

    constructor (i: nat)
      ensures index == i
    {
      index := i;
    }
  }

  class PossibleWord {
    var count: nat     // number of candidates
    var prefix: nat    // characters that the last scan consumed
    var offset: int    // the position that the cache is about, -1 if none
    var mark: int      // index of the candidate to accept
    var current: int   // index of the candidate that is being tried
    var lengths: seq<nat>  // their lengths in characters; the native ones follow from them

    /** The cache holds what a fresh match at its offset would give. */
    ghost predicate Agrees(r: Range)
      reads this
    {
      && count == |lengths|
      && (count > 0 ==> 0 <= mark < count && 0 <= current < count)
      && (offset == -1 ==> count == 0)
      && (offset != -1 ==> 0 <= offset < r.end && lengths == Lengths(r, offset) && prefix == Prefix(r, offset))
    }

    constructor ()
      ensures offset == -1 && count == 0 && forall r :: Agrees(r)
    {
      count, prefix, offset, mark, current, lengths := 0, 0, -1, 0, 0, [];
    }

    /** candidates(): a fresh match unless the cached one is for this place; behind the longest word, with the count. */
    method Candidates(text: Cursor, r: Range) returns (n: nat)
      requires Sound(r) && Agrees(r) && text.index < r.end
      modifies this, text
      ensures Agrees(r) && offset == old(text.index) && n == count == |Lengths(r, old(text.index))|
      ensures current == mark == n - 1
      ensures text.index == old(text.index) + if n > 0 then Last(Lengths(r, old(text.index))) else 0
    {
      hide GoodMatch;
      var start := text.index;
      if start != offset {
        offset := start;
        var m := MatchAt(r, start);
        lengths, prefix, count := m.lengths, m.prefix, |m.lengths|;
        text.index := start + prefix;
        if count <= 0 { text.index := start; }
      }
      if count > 0 { text.index := start + lengths[count - 1]; }
      current := count - 1;
      mark := current;
      return count;
    }

    /** acceptMarked(): moves behind the marked candidate. */
    method AcceptMarked(text: Cursor, ghost r: Range) returns (length: nat)
      requires Agrees(r) && count > 0
      modifies text
      ensures length == lengths[mark] && text.index == offset + length
    {
      text.index := offset + lengths[mark];
      return lengths[mark];
    }

    /** backUp(): moves behind the next shorter candidate, if there is one. */
    method BackUp(text: Cursor, ghost r: Range) returns (ok: bool)
      requires Agrees(r) && count > 0
      modifies this`current, text
      ensures Agrees(r) && ok == (old(current) > 0)
      ensures ok ==> current == old(current) - 1 && text.index == offset + lengths[current]
      ensures !ok ==> current == old(current) && text.index == old(text.index)
    {
      if current > 0 {
        current := current - 1;
        text.index := offset + lengths[current];
        return true;
      }
      return false;
    }

    method MarkCurrent(ghost r: Range)
      requires Agrees(r)
      modifies this`mark
      ensures Agrees(r) && mark == current
    {
      mark := current;
    }
  }

  lemma Shorter(r: Range, p: nat, i: nat)
    requires Sound(r) && p < r.end && i < |Lengths(r, p)|
    ensures 1 <= Lengths(r, p)[i] <= Last(Lengths(r, p)) && p + Last(Lengths(r, p)) <= r.end
    ensures i < |Lengths(r, p)| - 1 ==> Lengths(r, p)[i] < Last(Lengths(r, p))
  {
    hide MatchAt;
    assert GoodMatch(MatchAt(r, p), r.end - p);
  }

  // ---------- the lookahead loops ----------

  /**
    The inner loop: whether some possible second word is followed by a third word; text is behind the longest second
    one.
   */
  method HasThird(second: PossibleWord, third: PossibleWord, text: Cursor, r: Range) returns (found: bool)
    requires Sound(r) && second != third && second.Agrees(r) && third.Agrees(r)
    requires second.count > 0 && second.current == second.count - 1
    requires text.index == second.offset + Last(second.lengths) < r.end
    modifies second`current, third, text
    ensures second.Agrees(r) && third.Agrees(r) && found == FollowedTwice(r, second.offset)
  {
    hide GoodMatch, Lengths, Sound;
    ghost var q := second.offset;
    ghost var ls := Lengths(r, q);
    while true
      invariant second.Agrees(r) && third.Agrees(r) && second.offset == q && second.lengths == ls && second.count > 0
      invariant text.index == q + ls[second.current] < r.end
      invariant forall k :: second.current < k < |ls| ==> !Followed(r, q + ls[k])
      decreases second.current
    {
      ghost var at := second.current;
      var n := third.Candidates(text, r);
      if n > 0 {
        assert Followed(r, q + ls[at]);
        return true;
      }
      assert !Followed(r, q + ls[at]);
      var more := second.BackUp(text, r);
      if !more { return false; }
      Shorter(r, q, second.current);
    }
  }

  /** One candidate's second words, as the body of the outer loop looks at them; text is behind the candidate. */
  method TryCurrent(first: PossibleWord, second: PossibleWord, third: PossibleWord, text: Cursor, r: Range)
    returns (best: bool)
    requires Sound(r) && first != second && first != third && second != third
    requires first.Agrees(r) && second.Agrees(r) && third.Agrees(r) && first.count > 0 && text.index < r.end
    modifies first`mark, second, third, text
    ensures first.Agrees(r) && second.Agrees(r) && third.Agrees(r)
    ensures best == GoodSecond(r, old(text.index))
    ensures first.mark == if Followed(r, old(text.index)) then first.current else old(first.mark)
  {
    hide GoodMatch, Lengths, Sound, FollowedTwice;
    ghost var q := text.index;
    best := false;
    var n := second.Candidates(text, r);
    if n > 0 {
      first.MarkCurrent(r);
      if text.index >= r.end { return true; }
      best := HasThird(second, third, text, r);
    }
  }

  /** The lookahead for more than one candidate: marks the preferred one. */
  method MarkPreferred(first: PossibleWord, second: PossibleWord, third: PossibleWord, text: Cursor, r: Range)
    requires Sound(r) && first != second && first != third && second != third
    requires first.Agrees(r) && second.Agrees(r) && third.Agrees(r)
    requires first.count > 1 && first.offset >= 0 && first.current == first.mark == first.count - 1
    requires text.index == first.offset + Last(first.lengths)
    modifies first`mark, first`current, second, third, text
    ensures first.Agrees(r) && second.Agrees(r) && third.Agrees(r) && Preferred(r, first.offset, first.mark)
  {
    hide GoodMatch, Lengths, Sound, GoodSecond, Followed, Preferred, MarksShortest, Last;
    ghost var p, ls := first.offset, first.lengths;
    LastIs(ls);
    if text.index >= r.end {
      PreferLast(r, p);
      return;
    }
    NoMarks(r, p, ls);
    var done := false;
    while !done
      invariant first.Agrees(r) && second.Agrees(r) && third.Agrees(r) && first.offset == p && first.lengths == ls
      invariant !done ==> Searching(r, p, ls, first.current, first.mark, text.index)
      invariant done ==> Preferred(r, p, first.mark)
      decreases !done, first.current
    {
      done := TryNext(first, second, third, text, r);
    }
  }

  /** No candidate behind current has a good second word, and mark is the shortest of them with any. */
  ghost predicate Searching(r: Range, p: nat, ls: seq<nat>, current: int, mark: int, index: int) {
    && 0 <= current < |ls| && |ls| > 1 && p + Last(ls) < r.end && index == p + ls[current] < r.end
    && (forall k :: current < k < |ls| ==> !GoodSecond(r, p + ls[k]))
    && MarksShortest(r, p, ls, current + 1, mark)
  }

  /** One turn: the current candidate is good, or the next shorter one is current, or there is none. */
  method TryNext(first: PossibleWord, second: PossibleWord, third: PossibleWord, text: Cursor, r: Range)
    returns (done: bool)
    requires Sound(r) && first != second && first != third && second != third
    requires first.Agrees(r) && second.Agrees(r) && third.Agrees(r) && first.offset >= 0
    requires Searching(r, first.offset, first.lengths, first.current, first.mark, text.index)
    modifies first`mark, first`current, second, third, text
    ensures first.Agrees(r) && second.Agrees(r) && third.Agrees(r)
    ensures done ==> Preferred(r, first.offset, first.mark)
    ensures !done ==> first.current < old(first.current)
                      && Searching(r, first.offset, first.lengths, first.current, first.mark, text.index)
  {
    hide GoodMatch, Lengths, Sound, GoodSecond, Followed, Preferred, MarksShortest, Last;
    ghost var p, ls, i := first.offset, first.lengths, first.current;
    MarksMore(r, p, ls, i, first.mark);
    done := TryCurrent(first, second, third, text, r);
    if done {
      GoodIsFollowed(r, p + ls[i]);
      PreferGood(r, p, i);
      return;
    }
    var more := first.BackUp(text, r);
    if more {
      Shorter(r, p, first.current);
    } else {
      PreferMarked(r, p, first.mark);
      done := true;
    }
  }

  lemma LastIs(ls: seq<nat>)
    requires |ls| > 0
    ensures Last(ls) == ls[|ls| - 1]
  {
  }

  lemma PreferLast(r: Range, p: nat)
    requires |Lengths(r, p)| > 0 && p + Last(Lengths(r, p)) >= r.end
    ensures Preferred(r, p, |Lengths(r, p)| - 1)
  {
  }

  /** The longest candidate with a good second word is preferred. */
  lemma PreferGood(r: Range, p: nat, i: nat)
    requires var ls := Lengths(r, p);
             i < |ls| && |ls| > 1 && p + Last(ls) < r.end && GoodSecond(r, p + ls[i])
             && forall k :: i < k < |ls| ==> !GoodSecond(r, p + ls[k])
    ensures Preferred(r, p, i)
  {
    hide Lengths, GoodSecond, Followed, Last;
  }

  /** Without one, the marked candidate is preferred. */
  lemma PreferMarked(r: Range, p: nat, mark: nat)
    requires var ls := Lengths(r, p);
             |ls| > 1 && p + Last(ls) < r.end && MarksShortest(r, p, ls, 0, mark)
             && forall k :: 0 <= k < |ls| ==> !GoodSecond(r, p + ls[k])
    ensures Preferred(r, p, mark)
  {
    hide Lengths, GoodSecond, Followed, Last;
  }

  lemma NoMarks(r: Range, p: nat, ls: seq<nat>)
    requires |ls| > 0
    ensures MarksShortest(r, p, ls, |ls|, |ls| - 1)
  {
  }

  lemma MarksMore(r: Range, p: nat, ls: seq<nat>, i: nat, mark: nat)
    requires i < |ls| && MarksShortest(r, p, ls, i + 1, mark)
    ensures MarksShortest(r, p, ls, i, if Followed(r, p + ls[i]) then i else mark)
  {
    hide Followed;
  }

  /** Among the candidates from i on, mark is the shortest that is followed by a word, or else the longest. */
  ghost predicate MarksShortest(r: Range, p: nat, ls: seq<nat>, i: int, mark: int) {
    && 0 <= i <= |ls| && 0 <= mark < |ls|
    && ((exists k :: i <= k < |ls| && Followed(r, p + ls[k])) ==>
          i <= mark && Followed(r, p + ls[mark]) && forall k :: i <= k < mark ==> !Followed(r, p + ls[k]))
    && (!(exists k :: i <= k < |ls| && Followed(r, p + ls[k])) ==> mark == |ls| - 1)
  }

  lemma GoodIsFollowed(r: Range, p: nat)
    requires GoodSecond(r, p)
    ensures Followed(r, p)
  {
  }
}
