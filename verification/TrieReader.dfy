/**
  The resumable cursor of source/common/bytestrie.cpp, proved against the abstract trie.
 */
module TrieReader {
  import opened Basics
  import opened TrieModel
  import opened TrieLayout

  /** UStringTrieResult */
  datatype Result = NoMatch | NoValue | FinalValue | IntermediateValue

  function ValueResult(node: Byte): Result {
    if IsFinalLead(node) then FinalValue else IntermediateValue
  }

  /** What the reader reports for a cursor: no match, or whether and how it carries a value. */
  function Report(o: Option<Trie>): Result {
    if o.None? then NoMatch
    else if o.value.Final? then FinalValue
    else if o.value.Value? then IntermediateValue
    else NoValue
  }

  /** The cursor (pos, remaining) stands at trie t, possibly inside a linear-match node. */
  ghost predicate CursorAt(b: seq<Byte>, pos: int, remaining: int, t: Trie) {
    if remaining >= 0 then
      && t.Linear? && |t.units| == remaining + 1
      && LaysUnits(b, pos, t.units) && Lays(b, pos + remaining + 1, t.rest)
    else
      remaining == -1 && Lays(b, pos, t)
  }

  /** A byte given as int32_t: negative values stand for char bytes above 0x7f. */
  function InByte(c: int): int {
    if c < 0 then c + 0x100 else c
  }

  lemma IndexOfUnique(keys: seq<Byte>, i: nat)
    requires Ascending(keys) && i < |keys|
    ensures IndexOf(keys, keys[i]) == i
  {
  }

  lemma IndexOfAbsent(keys: seq<Byte>, c: int)
    requires c !in keys
    ensures IndexOf(keys, c) == |keys|
  {
  }

  /** Halving a sorted branch keeps the child selected by c. */
  lemma ChildSplit(keys: seq<Byte>, kids: seq<Trie>, m: nat, c: int)
    requires |keys| == |kids| && Ascending(keys) && 0 < m < |keys|
    ensures c < keys[m] ==> Child(keys, kids, c) == Child(keys[..m], kids[..m], c)
    ensures c >= keys[m] ==> Child(keys, kids, c) == Child(keys[m..], kids[m..], c)
  {
    var i := IndexOf(keys, c);
    if i < |keys| {
      if i < m {
        assert keys[..m][i] == c;
        IndexOfUnique(keys[..m], i);
      } else {
        assert keys[m..][i - m] == c;
        IndexOfUnique(keys[m..], i - m);
      }
    } else {
      IndexOfAbsent(keys[..m], c);
      IndexOfAbsent(keys[m..], c);
    }
  }

  lemma DropFirst(keys: seq<Byte>, kids: seq<Trie>, c: int)
    requires |keys| == |kids| > 1 && Ascending(keys) && c != keys[0]
    ensures Child(keys, kids, c) == Child(keys[1..], kids[1..], c)
  {
  }

  // ---------- the remaining match length ----------

  /** The node behind an intermediate value. */
  function NodeOf(t: Trie): Trie { if t.Value? then t.rest else t }

  /**
    The remaining match length that next(c) leaves: stop() does not touch it, so a mismatch inside a pending
    linear-match node leaves what was pending.
   */
  function RemainingAfter(o: Option<Trie>, remaining: int, c: int): int {
    if o.None? then remaining
    else if remaining >= 0 then if Step(o.value, c).Some? then remaining - 1 else remaining
    else
      match NodeOf(o.value)
      case Linear(units, _) => if |units| > 0 && units[0] == c then |units| - 2 else -1
      case _ => -1
  }

  /** What a run of next() calls leaves. */
  function RemainingAll(o: Option<Trie>, remaining: int, s: seq<int>): int
    decreases |s|
  {
    if |s| == 0 then remaining else RemainingAll(StepOpt(o, s[0]), RemainingAfter(o, remaining, s[0]), s[1..])
  }

  /** A pending linear-match node that text does not match to its end. */
  predicate MissesPending(o: Option<Trie>, remaining: int, text: seq<int>) {
    o.Some? && remaining >= 0 && o.value.Linear? && !(o.value.units <= text)
  }

  /** What the bulk form leaves: it writes the field only when it leaves a pending node, or at the end. */
  function BulkRemaining(o: Option<Trie>, remaining: int, text: seq<int>): int {
    if Descend(o, text).Some? then RemainingAll(o, remaining, text)
    else if o.None? || MissesPending(o, remaining, text) then remaining
    else -1
  }

  lemma RemainingNone(o: Option<Trie>, remaining: int, text: seq<int>)
    requires text == []
    ensures RemainingAll(o, remaining, text) == remaining
  {
  }

  lemma RemainingAdvance(o: Option<Trie>, remaining: int, text: seq<int>, i: nat)
    requires i < |text|
    ensures RemainingAll(o, remaining, text[i..])
         == RemainingAll(StepOpt(o, text[i]), RemainingAfter(o, remaining, text[i]), text[i + 1..])
  {
    assert text[i..][1..] == text[i + 1..];
  }

  lemma RemainingAtNode(t: Trie, c: int)
    requires WellFormed(t)
    ensures t.Branch? || t.Final? ==> RemainingAfter(Some(t), -1, c) == -1
    ensures t.Linear? && |t.units| > 0 ==>
              RemainingAfter(Some(t), -1, c) == if t.units[0] == c then |t.units| - 2 else -1
    ensures t.Value? ==> RemainingAfter(Some(t), -1, c) == RemainingAfter(Some(t.rest), -1, c)
  {
  }

  lemma PendingLinear(b: seq<Byte>, p: int, length: int, t: Trie)
    requires WellFormed(t) && CursorAt(b, p, length, t)
    ensures length >= 0 ==> t.Linear? && |t.units| == length + 1
    ensures length < 0 ==> length == -1
  {
  }

  /** From i0 to i the text matched the first units of the linear-match node t0; t is what is left of it. */
  ghost predicate UnitsMatched(t0: Trie, length0: int, t: Trie, length: int, text: seq<int>, i0: nat, i: nat) {
    && t0.Linear? && |t0.units| == length0 + 1 && i0 <= i <= |text| && length == length0 - (i - i0) >= -1
    && t0.units[..i - i0] == text[i0..i]
    && (length >= 0 ==> t == Linear(t0.units[i - i0..], t0.rest))
  }

  lemma AllMatched(t0: Trie, length0: int, t: Trie, text: seq<int>, i0: nat, i: nat)
    requires UnitsMatched(t0, length0, t, -1, text, i0, i)
    ensures t0.units <= text[i0..]
  {
    assert t0.units == t0.units[..i - i0];
    assert text[i0..][..i - i0] == text[i0..i];
  }

  lemma MatchMore(t0: Trie, length0: int, t: Trie, length: int, text: seq<int>, i0: nat, i: nat)
    requires length0 >= 0 && length >= 0 && i < |text| && UnitsMatched(t0, length0, t, length, text, i0, i)
    ensures text[i] != t.units[0] ==> !(t0.units <= text[i0..])
    ensures text[i] == t.units[0] ==>
              Step(t, text[i]).Some? && UnitsMatched(t0, length0, Step(t, text[i]).value, length - 1, text, i0, i + 1)
  {
    var j := i - i0;
    assert t.units[0] == t0.units[j] && text[i0..][j] == text[i];
    if text[i] == t.units[0] {
      assert t0.units[..j + 1] == t0.units[..j] + [t0.units[j]];
      assert text[i0..i + 1] == text[i0..i] + [text[i]];
      assert t.units[1..] == t0.units[j + 1..];
    }
  }

  class BytesTrie {
    const bytes: seq<Byte>
    var pos: int        // next byte to read, -1 for NULL: no more matches
    var remaining: int  // units of a linear-match node left after the next one, -1 outside such a node

    ghost predicate At(o: Option<Trie>)
      reads this
    {
      match o
      case None => pos == -1 && remaining >= -1
      case Some(t) => pos >= 0 && WellFormed(t) && CursorAt(bytes, pos, remaining, t)
    }

    constructor (trieBytes: seq<Byte>, ghost t: Trie)
      requires WellFormed(t) && Lays(trieBytes, 0, t)
      ensures bytes == trieBytes && At(Some(t))
    {
      bytes, pos, remaining := trieBytes, 0, -1;
    }

    method Reset(ghost t: Trie)
      requires WellFormed(t) && Lays(bytes, 0, t)
      modifies this
      ensures At(Some(t))
    {
      pos, remaining := 0, -1;
    }

    method Current(ghost o: Option<Trie>) returns (r: Result)
      requires At(o)
      ensures r == Report(o)
    {
      if pos == -1 {
        return NoMatch;
      }
      if remaining < 0 {
        LeadByte(bytes, pos, o.value);
        if bytes[pos] >= MIN_VALUE_LEAD {
          return ValueResult(bytes[pos]);
        }
      }
      r := NoValue;
    }

    /** Legal only where a value was reported; the reader then stands on that value. */
    method GetValue(ghost t: Trie) returns (v: int)
      requires At(Some(t)) && HasValue(t)
      ensures v == t.value
    {
      v := ReadValue(bytes, pos + 1, bytes[pos] / 2);
    }

    /** stop(): forgets the position, and only that. */
    method Stop()
      requires remaining >= -1
      modifies this`pos
      ensures At(None) && remaining == old(remaining)
    {
      pos := -1;
    }

    method ResultHere(p: int, ghost t: Trie) returns (r: Result)
      requires WellFormed(t) && Lays(bytes, p, t)
      ensures r == Report(Some(t))
    {
      LeadByte(bytes, p, t);
      r := if bytes[p] >= MIN_VALUE_LEAD then ValueResult(bytes[p]) else NoValue;
    }

    /** Enters the child for c: halving while the sub-node is long, then a scan of its list. */
    method BranchNext(p0: int, length0: int, c: int, ghost keys: seq<Byte>, ghost kids: seq<Trie>)
      returns (r: Result)
      requires remaining == -1 && WellFormed(Branch(keys, kids))
      requires 0 < p0 <= |bytes| && bytes[p0 - 1] == length0
      requires BranchHead(bytes, p0 - 1, |keys|) && LaysBranch(bytes, AfterHead(bytes, p0 - 1), keys, kids)
      modifies this
      ensures At(Child(keys, kids, c)) && remaining == -1
      ensures r == Report(Child(keys, kids, c))
    {
      var p, length := p0, length0;
      if length == 0 {
        length := bytes[p];
        p := p + 1;
      }
      length := length + 1;
      ghost var ks, ts;
      p, length, ks, ts := Halve(p, length, c, keys, kids);
      r := ScanList(p, length, c, ks, ts);
    }

    /** The linear scan of a list sub-node. */
    method ScanList(p0: int, length0: int, c: int, ghost keys: seq<Byte>, ghost kids: seq<Trie>) returns (r: Result)
      requires remaining == -1 && 1 <= |keys| == |kids| == length0 <= MAX_BRANCH_LINEAR_SUB_NODE_LENGTH
      requires SubBranch(p0, keys, kids)
      modifies this
      ensures At(Child(keys, kids, c)) && remaining == -1
      ensures r == Report(Child(keys, kids, c))
    {
      hide Lays, LaysEdge, LaysBranch, WellFormed, Child, SubBranch, AfterValue, Report, At, ValueFits;
      var p, length := p0, length0;
      ghost var ks, ts := keys, kids;
      while length > 1
        invariant |ks| == |ts| == length <= MAX_BRANCH_LINEAR_SUB_NODE_LENGTH && 1 <= length
        invariant remaining == -1 && SubBranch(p, ks, ts)
        invariant Child(ks, ts, c) == Child(keys, kids, c)
      {
        FirstOfList(p, ks, ts, c);
        if c == bytes[p] {
          r := TakeEdge(p + 1, ts[0]);
          return;
        }
        length := length - 1;
        p := AfterValue(bytes, p + 1);
        ks, ts := ks[1..], ts[1..];
      }
      LastOfList(p, ks, ts, c);
      if c == bytes[p] {
        p := p + 1;
        pos := p;
        Arrived(p, ts[0]);
        r := ResultHere(p, ts[0]);
      } else {
        Stop();
        r := NoMatch;
        ReportNone();
      }
    }

    lemma Arrived(p: int, t: Trie)
      requires pos == p >= 0 && remaining == -1 && WellFormed(t) && Lays(bytes, p, t)
      ensures At(Some(t))
    {
    }

    lemma ReportNone()
      ensures Report(None) == NoMatch
    {
    }

    /** A list of several keys: its first edge is the one for c, or the others go on. */
    lemma FirstOfList(p: int, ks: seq<Byte>, ts: seq<Trie>, c: int)
      requires 1 < |ks| == |ts| <= MAX_BRANCH_LINEAR_SUB_NODE_LENGTH && SubBranch(p, ks, ts)
      ensures 0 <= p < |bytes| && WellFormed(ts[0]) && LaysEdge(bytes, p + 1, ts[0]) && ValueFits(bytes, p + 1)
      ensures c == bytes[p] ==> Child(ks, ts, c) == Some(ts[0])
      ensures c != bytes[p] ==>
                SubBranch(AfterValue(bytes, p + 1), ks[1..], ts[1..]) && Child(ks[1..], ts[1..], c) == Child(ks, ts, c)
    {
      hide Lays, WellFormed, AfterValue;
      if c == bytes[p] { IndexOfUnique(ks, 0); } else { DropFirst(ks, ts, c); }
    }

    lemma LastOfList(p: int, ks: seq<Byte>, ts: seq<Trie>, c: int)
      requires |ks| == |ts| == 1 && SubBranch(p, ks, ts)
      ensures 0 <= p < |bytes| && WellFormed(ts[0]) && Lays(bytes, p + 1, ts[0])
      ensures Child(ks, ts, c) == if c == bytes[p] then Some(ts[0]) else None
    {
      hide WellFormed;
      if c == bytes[p] { IndexOfUnique(ks, 0); } else { IndexOfAbsent(ks, c); }
    }

    /** p lays out a sorted part of a branch. */
    ghost predicate SubBranch(p: int, ks: seq<Byte>, ts: seq<Trie>)
      requires |ks| == |ts|
    {
      && Ascending(ks) && (forall i :: 0 <= i < |ts| ==> WellFormed(ts[i]))
      && LaysBranch(bytes, p, ks, ts)
    }

    /** The binary-search part: narrow the branch down to at most five keys. */
    method Halve(p0: int, length0: int, c: int, ghost keys: seq<Byte>, ghost kids: seq<Trie>)
      returns (p: int, length: int, ghost ks: seq<Byte>, ghost ts: seq<Trie>)
      requires |keys| == |kids| == length0 && 2 <= length0 && SubBranch(p0, keys, kids)
      ensures |ks| == |ts| == length && 2 <= length <= MAX_BRANCH_LINEAR_SUB_NODE_LENGTH
      ensures SubBranch(p, ks, ts)
      ensures Child(ks, ts, c) == Child(keys, kids, c)
    {
      p, length, ks, ts := p0, length0, keys, kids;
      while length > MAX_BRANCH_LINEAR_SUB_NODE_LENGTH
        invariant |ks| == |ts| == length && 2 <= length
        invariant SubBranch(p, ks, ts)
        invariant Child(ks, ts, c) == Child(keys, kids, c)
      {
        ChildSplit(ks, ts, length / 2, c);
        if c < bytes[p] {
          ks, ts := ks[..length / 2], ts[..length / 2];
          length := length / 2;
          p := JumpByDelta(bytes, p + 1);
        } else {
          ks, ts := ks[length / 2..], ts[length / 2..];
          length := length - length / 2;
          p := SkipDelta(bytes, p + 1);
        }
      }
    }

    /** The byte before p matched: leave a final value for GetValue, or follow the jump. */
    method TakeEdge(p: int, ghost kid: Trie) returns (r: Result)
      requires remaining == -1 && WellFormed(kid) && LaysEdge(bytes, p, kid)
      modifies this
      ensures At(Some(kid)) && remaining == -1
      ensures r == Report(Some(kid))
    {
      var node := bytes[p];
      if IsFinalLead(node) {
        pos := p;
        r := FinalValue;
      } else {
        var delta := ReadValue(bytes, p + 1, node / 2);
        pos := AfterValue(bytes, p) + delta;
        r := ResultHere(pos, kid);
      }
    }

    method NextImpl(p0: int, c: int, ghost t0: Trie) returns (r: Result)
      requires remaining == -1 && WellFormed(t0) && Lays(bytes, p0, t0)
      modifies this
      ensures At(Step(t0, c)) && remaining == RemainingAfter(Some(t0), -1, c)
      ensures r == Report(Step(t0, c))
    {
      hide Lays, LaysBranch, Step, WellFormed, Child, RemainingAfter, BranchHead, AfterHead, AfterValue, ValueFits,
           CursorAt, NodeKeys;
      var p := p0;
      ghost var t := t0;
      while true
        invariant remaining == -1 && WellFormed(t) && Lays(bytes, p, t)
        invariant Step(t, c) == Step(t0, c) && RemainingAfter(Some(t), -1, c) == RemainingAfter(Some(t0), -1, c)
        decreases t
      {
        NodeAt(bytes, p, t);
        RemainingAtNode(t, c);
        var node := bytes[p];
        p := p + 1;
        if node < MIN_LINEAR_MATCH {
          r := BranchNext(p, node, c, t.keys, t.kids);
          return;
        } else if node < MIN_VALUE_LEAD {
          var length := node - MIN_LINEAR_MATCH;
          PendingLinear(bytes, p, length, t);
          LinearStep(bytes, p, length, t);
          if c == bytes[p] {
            r := MatchUnit(p, length, t);
            return;
          } else {
            break;
          }
        } else if IsFinalLead(node) {
          break;
        } else {
          p := AfterValue(bytes, p - 1);
          t := t.rest;
        }
      }
      Stop();
      r := NoMatch;
    }

    /** Consume one matching byte of a linear-match node with length+1 bytes left. */
    method MatchUnit(p: int, length: int, ghost t: Trie) returns (r: Result)
      requires 0 <= length && WellFormed(t) && CursorAt(bytes, p, length, t) && 0 <= p < |bytes|
      modifies this
      ensures At(Step(t, bytes[p])) && remaining == length - 1
      ensures r == Report(Step(t, bytes[p]))
    {
      hide Lays, WellFormed, Step, NodeKeys;
      LinearStep(bytes, p, length, t);
      ghost var rest := Step(t, bytes[p]).value;
      remaining := length - 1;
      pos := p + 1;
      if remaining < 0 {
        r := ResultHere(pos, rest);
      } else {
        r := NoValue;
      }
    }

    /** next(int32_t): from any cursor, one more byte. */
    method Next(inByte: int, ghost o: Option<Trie>) returns (r: Result)
      requires At(o)
      modifies this
      ensures At(StepOpt(o, InByte(inByte))) && remaining == RemainingAfter(o, old(remaining), InByte(inByte))
      ensures r == Report(StepOpt(o, InByte(inByte)))
    {
      if pos == -1 {
        return NoMatch;
      }
      var c := if inByte < 0 then inByte + 0x100 else inByte;
      var length := remaining;
      if length >= 0 {
        LinearStep(bytes, pos, length, o.value);
        if c == bytes[pos] {
          r := MatchUnit(pos, length, o.value);
        } else {
          Stop();
          r := NoMatch;
        }
        return;
      }
      r := NextImpl(pos, c, o.value);
    }

    /** first(int32_t): from the root. */
    method First(inByte: int, ghost t: Trie) returns (r: Result)
      requires WellFormed(t) && Lays(bytes, 0, t)
      modifies this
      ensures At(Step(t, InByte(inByte))) && remaining == RemainingAfter(Some(t), -1, InByte(inByte))
      ensures r == Report(Step(t, InByte(inByte)))
    {
      remaining := -1;
      r := NextImpl(0, InByte(inByte), t);
    }

    // ---------- several bytes at once ----------

    /** Repeated next(int32_t), for any run of bytes. */
    method NextEach(s: seq<int>, ghost o: Option<Trie>) returns (r: Result)
      requires At(o)
      modifies this
      ensures At(Descend(o, InBytes(s))) && remaining == RemainingAll(o, old(remaining), InBytes(s))
      ensures r == Report(Descend(o, InBytes(s)))
    {
      r := Current(o);
      ghost var cur := o;
      for i := 0 to |s|
        invariant At(cur) && r == Report(cur)
        invariant Descend(o, InBytes(s)) == Descend(cur, InBytes(s)[i..])
        invariant RemainingAll(o, old(remaining), InBytes(s)) == RemainingAll(cur, remaining, InBytes(s)[i..])
      {
        r := Next(s[i], cur);
        cur := StepOpt(cur, InByte(s[i]));
        assert InBytes(s)[i..][1..] == InBytes(s)[i + 1..];
      }
    }

    /**
      next(const char *s, int32_t sLength): sLength < 0 means that s ends before its first NUL.
      The units of s are plain chars, taken as they are.
     */
    method NextString(s: seq<int>, sLength: int, ghost text: seq<int>, ghost o: Option<Trie>) returns (r: Result)
      requires At(o) && Denotes(s, sLength, text)
      modifies this
      ensures At(Descend(o, text)) && remaining == BulkRemaining(o, old(remaining), text)
      ensures r == Report(Descend(o, text))
    {
      hide Descend, RemainingAll, Step, Lays, WellFormed, CursorAt, LaysUnits;
      if AtEnd(s, 0, sLength) {
        DescendEmpty(o, text);
        RemainingNone(o, remaining, text);
        r := Current(o);
        return;
      }
      if pos == -1 {
        DescendNone(text);
        return NoMatch;
      }
      var p, length, i := pos, remaining, 0;
      ghost var t, first := o.value, true;
      PendingLinear(bytes, p, length, t);
      assert text[0..] == text;
      while true
        invariant 0 <= i <= |text| && On(p, length, t)
        invariant Descend(o, text) == Descend(Some(t), text[i..])
        invariant RemainingAll(o, old(remaining), text) == RemainingAll(Some(t), length, text[i..])
        invariant if first then i == 0 && t == o.value && length == remaining == old(remaining)
                  else remaining == -1 && (old(remaining) >= 0 ==> o.value.Linear? && o.value.units <= text)
        decreases |text| - i
      {
        var done: bool;
        done, r, i, p, t := MatchPending(s, sLength, i, p, length, text, t);
        if done { return; }
        first := false;
        done, r, i, p, length, t := FollowNodes(s, sLength, i, p, text, t);
        if done { return; }
      }
    }

    ghost predicate On(p: int, length: int, t: Trie) {
      WellFormed(t) && CursorAt(bytes, p, length, t)
    }

    /** The fetch loop of next(s, sLength): consume the rest of a linear-match node. */
    method MatchPending(s: seq<int>, sLength: int, i0: nat, p0: int, length0: int, ghost text: seq<int>, ghost t0: Trie)
      returns (done: bool, r: Result, i: nat, p: int, ghost t: Trie)
      requires Denotes(s, sLength, text) && i0 <= |text| && On(p0, length0, t0) && remaining >= -1
      modifies this
      ensures done ==> At(Descend(Some(t0), text[i0..])) && r == Report(Descend(Some(t0), text[i0..]))
      ensures done && r == NoMatch ==>
                remaining == old(remaining) && length0 >= 0 && t0.Linear? && !(t0.units <= text[i0..])
      ensures done && r != NoMatch ==> remaining == RemainingAll(Some(t0), length0, text[i0..])
      ensures !done ==>
                && i0 <= i < |text| && remaining == -1 && On(p, -1, t)
                && Descend(Some(t0), text[i0..]) == Descend(Some(t), text[i..])
                && RemainingAll(Some(t0), length0, text[i0..]) == RemainingAll(Some(t), -1, text[i..])
                && (length0 >= 0 ==> t0.Linear? && t0.units <= text[i0..])
    {
      hide Lays, LaysUnits, WellFormed, Descend, Step, CursorAt, RemainingAll;
      var length := length0;
      i, p, t, done, r := i0, p0, t0, true, NoMatch;
      PendingLinear(bytes, p, length, t);
      while true
        invariant i0 <= i <= |text| && On(p, length, t) && remaining == old(remaining)
        invariant length0 >= 0 ==> UnitsMatched(t0, length0, t, length, text, i0, i)
        invariant length0 < 0 ==> length == -1 && i == i0
        invariant Descend(Some(t0), text[i0..]) == Descend(Some(t), text[i..])
        invariant RemainingAll(Some(t0), length0, text[i0..]) == RemainingAll(Some(t), length, text[i..])
        decreases |text| - i
      {
        CursorPosition(bytes, p, length, t);
        if AtEnd(s, i, sLength) {
          DescendEmpty(Some(t), text[i..]);
          RemainingNone(Some(t), length, text[i..]);
          remaining, pos := length, p;
          r := Current(Some(t));
          return;
        }
        if length < 0 {
          if length0 >= 0 { AllMatched(t0, length0, t, text, i0, i); }
          remaining := length;
          done := false;
          return;
        }
        LinearStep(bytes, p, length, t);
        Advance(Some(t), text, i);
        RemainingAdvance(Some(t), length, text, i);
        MatchMore(t0, length0, t, length, text, i0, i);
        if s[i] != bytes[p] {
          DescendNone(text[i + 1..]);
          Stop();
          return;
        }
        t := Step(t, s[i]).value;
        i, p, length := i + 1, p + 1, length - 1;
      }
    }

    /**
      The node loop of next(s, sLength): consume units from s[i] on while the cursor passes through
      branch and value nodes; leaves after the first unit of a linear-match node.
     */
    method FollowNodes(s: seq<int>, sLength: int, i0: nat, p0: int, ghost text: seq<int>, ghost t0: Trie)
      returns (done: bool, r: Result, i: nat, p: int, length: int, ghost t: Trie)
      requires Denotes(s, sLength, text) && i0 < |text|
      requires remaining == -1 && On(p0, -1, t0)
      modifies this
      ensures done ==> At(Descend(Some(t0), text[i0..])) && r == Report(Descend(Some(t0), text[i0..]))
      ensures remaining == -1
      ensures done && r != NoMatch ==> RemainingAll(Some(t0), -1, text[i0..]) == -1
      ensures !done ==>
                && i0 < i <= |text| && On(p, length, t)
                && Descend(Some(t0), text[i0..]) == Descend(Some(t), text[i..])
                && RemainingAll(Some(t0), -1, text[i0..]) == RemainingAll(Some(t), length, text[i..])
    {
      hide Lays, LaysBranch, Step, Descend, WellFormed, Child, RemainingAll, RemainingAfter, BranchHead, AfterHead,
           AfterValue, ValueFits, NodeKeys;
      ghost var goal := Descend(Some(t0), text[i0..]);
      ghost var left := RemainingAll(Some(t0), -1, text[i0..]);
      i, p, t, length, done, r := i0, p0, t0, -1, true, NoMatch;
      var inByte := s[i];
      i := i + 1;
      Advance(Some(t), text, i0);
      RemainingAdvance(Some(t), -1, text, i0);
      while true
        invariant i0 < i <= |text| && remaining == -1 && On(p, -1, t)
        invariant goal == Descend(Step(t, inByte), text[i..])
        invariant left == RemainingAll(Step(t, inByte), RemainingAfter(Some(t), -1, inByte), text[i..])
        decreases |text| - i, t
      {
        NodeAt(bytes, p, t);
        RemainingAtNode(t, inByte);
        var node := bytes[p];
        p := p + 1;
        if node < MIN_LINEAR_MATCH {
          ghost var next := Step(t, inByte);
          r := BranchNext(p, node, inByte, t.keys, t.kids);
          if r == NoMatch {
            DescendNone(text[i..]);
            return;
          }
          if AtEnd(s, i, sLength) {
            DescendEmpty(next, text[i..]);
            RemainingNone(next, -1, text[i..]);
            return;
          }
          inByte := s[i];
          i := i + 1;
          Advance(next, text, i - 1);
          RemainingAdvance(next, -1, text, i - 1);
          t, p := next.value, pos;
          if r == FinalValue {
            NodeAt(bytes, p, t);
            break;
          }
        } else if node < MIN_VALUE_LEAD {
          length := node - MIN_LINEAR_MATCH;
          LinearStep(bytes, p, length, t);
          if inByte != bytes[p] {
            break;
          }
          t := Step(t, inByte).value;
          p, length, done := p + 1, length - 1, false;
          return;
        } else if IsFinalLead(node) {
          break;
        } else {
          p := AfterValue(bytes, p - 1);
          t := t.rest;
        }
      }
      assert goal == None by { DescendNone(text[i..]); }
      Stop();
      r := NoMatch;
    }

    // ---------- getNextBytes ----------

    /** The bytes with which some key continues here, in order, and their number. */
    method GetNextBytes(ghost o: Option<Trie>) returns (count: int, out: seq<Byte>)
      requires At(o)
      ensures out == NextKeys(o) && count == |out|
    {
      hide Lays, LaysBranch, WellFormed, NodeKeys, ValueTail, Step, Child, ReadValue, AfterValue, ValueFits;
      if pos == -1 {
        return 0, [];
      }
      ghost var t := o.value;
      var p := pos;
      if remaining >= 0 {
        LinearStep(bytes, p, remaining, t);
        return 1, [bytes[p]];
      }
      NodeAt(bytes, p, t);
      var node := bytes[p];
      p := p + 1;
      if node >= MIN_VALUE_LEAD {
        if node % 2 == 1 {
          return 0, [];
        }
        p := AfterValue(bytes, p - 1);
        t := t.rest;
        NodeAt(bytes, p, t);
        node := bytes[p];
        p := p + 1;
      }
      if node < MIN_LINEAR_MATCH {
        var length := node;
        if length == 0 {
          length := bytes[p];
          p := p + 1;
        }
        length := length + 1;
        out := GetNextBranchBytes(p, length, [], t.keys, t.kids);
        count := length;
      } else {
        LinearStep(bytes, p, node - MIN_LINEAR_MATCH, t);
        count, out := 1, [bytes[p]];
      }
    }

    /** Appends the keys of a branch sub-node to the sink. */
    method GetNextBranchBytes(p0: int, length0: int, sink: seq<Byte>, ghost keys: seq<Byte>, ghost kids: seq<Trie>)
      returns (out: seq<Byte>)
      requires |keys| == |kids| == length0 && 2 <= length0 && LaysBranch(bytes, p0, keys, kids)
      ensures out == sink + keys
      decreases length0
    {
      hide LaysBranch, Lays, LaysEdge, AfterValue, ValueFits, JumpByDelta, SkipDelta, DeltaFits;
      var p, length := p0, length0;
      ghost var ks, ts := keys, kids;
      out := sink;
      while length > MAX_BRANCH_LINEAR_SUB_NODE_LENGTH
        invariant |ks| == |ts| == length && 2 <= length <= length0 && LaysBranch(bytes, p, ks, ts)
        invariant out + ks == sink + keys
      {
        var h := length / 2;
        HalvesLaid(bytes, p, ks, ts);
        out := GetNextBranchBytes(JumpByDelta(bytes, p + 1), h, out, ks[..h], ts[..h]);
        assert ks == ks[..h] + ks[h..];
        length := length - h;
        p := SkipDelta(bytes, p + 1);
        ks, ts := ks[h..], ts[h..];
      }
      while length > 1
        invariant |ks| == |ts| == length && 1 <= length <= MAX_BRANCH_LINEAR_SUB_NODE_LENGTH
        invariant LaysBranch(bytes, p, ks, ts)
        invariant out + ks == sink + keys
      {
        ListLaid(bytes, p, ks, ts);
        out := out + [bytes[p]];
        p := AfterValue(bytes, p + 1);
        length := length - 1;
        assert ks == [ks[0]] + ks[1..];
        ks, ts := ks[1..], ts[1..];
      }
      ListLaid(bytes, p, ks, ts);
      out := out + [bytes[p]];
      assert ks == [bytes[p]];
    }
  }

  lemma HalvesLaid(b: seq<Byte>, p: int, ks: seq<Byte>, ts: seq<Trie>)
    requires |ks| == |ts| > MAX_BRANCH_LINEAR_SUB_NODE_LENGTH && LaysBranch(b, p, ks, ts)
    ensures 0 <= p < |b| && DeltaFits(b, p + 1)
    ensures var h := |ks| / 2;
            && LaysBranch(b, JumpByDelta(b, p + 1), ks[..h], ts[..h])
            && LaysBranch(b, SkipDelta(b, p + 1), ks[h..], ts[h..])
  {
  }

  lemma ListLaid(b: seq<Byte>, p: int, ks: seq<Byte>, ts: seq<Trie>)
    requires 1 <= |ks| == |ts| <= MAX_BRANCH_LINEAR_SUB_NODE_LENGTH && LaysBranch(b, p, ks, ts)
    ensures 0 <= p < |b| && b[p] == ks[0]
    ensures |ks| > 1 ==> ValueFits(b, p + 1) && LaysBranch(b, AfterValue(b, p + 1), ks[1..], ts[1..])
  {
    hide Lays;
  }

  function InBytes(s: seq<int>): (r: seq<int>)
    ensures |r| == |s| && forall i :: 0 <= i < |s| ==> r[i] == InByte(s[i])
  {
    seq(|s|, i requires 0 <= i < |s| => InByte(s[i]))
  }

  /** The text that a pointer and length argument denote. */
  ghost predicate Denotes(s: seq<int>, sLength: int, text: seq<int>) {
    && text <= s
    && if sLength < 0 then |text| < |s| && s[|text|] == 0 && 0 !in text else |text| == sLength
  }

  /** The end test of next(s, sLength) before unit i. */
  predicate AtEnd(s: seq<int>, i: nat, sLength: int)
    requires sLength < 0 ==> i < |s|
  {
    if sLength < 0 then s[i] == 0 else sLength - i == 0
  }

  /** Everything a reader needs to know about the node at p. */
  lemma NodeAt(b: seq<Byte>, p: int, t: Trie)
    requires WellFormed(t) && Lays(b, p, t)
    ensures 0 <= p < |b|
    ensures b[p] >= MIN_VALUE_LEAD <==> HasValue(t)
    ensures HasValue(t) ==> (IsFinalLead(b[p]) <==> t.Final?)
    ensures b[p] < MIN_LINEAR_MATCH <==> t.Branch?
    ensures t.Branch? ==>
              && |t.keys| == |t.kids| && BranchHead(b, p, |t.keys|) && LaysBranch(b, AfterHead(b, p), t.keys, t.kids)
              && NodeKeys(t) == t.keys && forall c :: Step(t, c) == Child(t.keys, t.kids, c)
    ensures t.Linear? ==>
              && |t.units| > 0 && CursorAt(b, p + 1, b[p] - MIN_LINEAR_MATCH, t)
              && NodeKeys(t) == t.units[..1]
    ensures t.Value? ==>
              && ValueFits(b, p) && WellFormed(t.rest) && Lays(b, AfterValue(b, p), t.rest)
              && NodeKeys(t) == NodeKeys(t.rest) && !HasValue(t.rest)
              && forall c :: Step(t, c) == Step(t.rest, c)
    ensures t.Final? ==> NodeKeys(t) == [] && forall c :: Step(t, c) == None
  {
  }

  lemma CursorPosition(b: seq<Byte>, p: int, length: int, t: Trie)
    requires WellFormed(t) && CursorAt(b, p, length, t)
    ensures p >= 0 && (length < 0 ==> length == -1)
  {
  }

  lemma DescendEmpty(o: Option<Trie>, text: seq<int>)
    requires text == []
    ensures Descend(o, text) == o
  {
  }

  lemma Advance(o: Option<Trie>, text: seq<int>, i: nat)
    requires i < |text|
    ensures Descend(o, text[i..]) == Descend(StepOpt(o, text[i]), text[i + 1..])
  {
    assert text[i..][1..] == text[i + 1..];
  }

  /** Inside a linear-match node the next byte is the next unit, and matching it moves the cursor on. */
  lemma LinearStep(b: seq<Byte>, p: int, length: int, t: Trie)
    requires length >= 0 && WellFormed(t) && CursorAt(b, p, length, t)
    ensures 0 <= p < |b| && b[p] == t.units[0]
    ensures forall c :: c != b[p] ==> Step(t, c) == None
    ensures Step(t, b[p]).Some? && WellFormed(Step(t, b[p]).value)
    ensures CursorAt(b, p + 1, length - 1, Step(t, b[p]).value)
    ensures NodeKeys(t) == [b[p]]
  {
    if length > 0 {
      assert b[p + 1..p + 1 + length] == b[p..p + 1 + length][1..];
    }
  }

  /** The bytes b for which Step(t, b) leads somewhere, listed from the node. */
  function NextKeys(o: Option<Trie>): seq<Byte> {
    if o.None? then [] else NodeKeys(o.value)
  }

  function NodeKeys(t: Trie): seq<Byte> {
    match t
    case Final(_) => []
    case Value(_, rest) => NodeKeys(rest)
    case Linear(units, _) => units[..if |units| == 0 then 0 else 1]
    case Branch(keys, kids) => keys
  }

  /** NextKeys lists, in ascending order and once each, exactly the bytes that next() would accept. */
  lemma NextKeysExact(o: Option<Trie>)
    requires o.Some? ==> WellFormed(o.value)
    ensures Ascending(NextKeys(o))
    ensures forall c: Byte :: c in NextKeys(o) <==> Report(StepOpt(o, c)) != NoMatch
  {
    if o.Some? {
      forall c: Byte
        ensures c in NextKeys(o) <==> Report(StepOpt(o, c)) != NoMatch
      {
        NodeKeysExact(o.value, c);
      }
      AscendingNodeKeys(o.value);
    }
  }

  lemma {:induction false} AscendingNodeKeys(t: Trie)
    requires WellFormed(t)
    ensures Ascending(NodeKeys(t))
  {
    if t.Value? { AscendingNodeKeys(t.rest); }
  }

  lemma {:induction false} NodeKeysExact(t: Trie, c: Byte)
    requires WellFormed(t)
    ensures c in NodeKeys(t) <==> Step(t, c).Some?
  {
    match t
    case Final(_) =>
    case Value(_, rest) => NodeKeysExact(rest, c);
    case Linear(units, rest) =>
    case Branch(keys, kids) =>
      if c !in keys { IndexOfAbsent(keys, c); }
  }

  lemma {:induction false} NegativeUnit(o: Option<Trie>, s: seq<int>, i: nat)
    requires o.Some? ==> WellFormed(o.value)
    requires i < |s| && s[i] < 0
    ensures Descend(o, s).None?
    decreases |s|
  {
    if o.Some? {
      StepWellFormed(o.value, s[0]);
      if i == 0 { NegativeStep(o.value, s[0]); }
    }
    if i == 0 {
      DescendNone(s[1..]);
    } else {
      NegativeUnit(StepOpt(o, s[0]), s[1..], i - 1);
    }
  }

  lemma {:induction false} NegativeStep(t: Trie, c: int)
    requires WellFormed(t) && c < 0
    ensures Step(t, c).None?
  {
    match t
    case Final(_) =>
    case Value(_, rest) => NegativeStep(rest, c);
    case Linear(_, _) =>
    case Branch(keys, kids) =>
      IndexOfAbsent(keys, c);
  }

  /**
    The bulk form takes each unit as a plain char, the one-byte form maps negative chars to 0x80..0xff.
    Where char is signed the two agree exactly if no unit is negative or no stored key
    starts with the given bytes.
   */
  lemma BulkAgreesWithSingle(t: Trie, s: seq<int>)
    requires WellFormed(t)
    ensures Descend(Some(t), s) == Descend(Some(t), InBytes(s))
       <==> || (forall i :: 0 <= i < |s| ==> s[i] >= 0)
            || !exists k, v :: HasEntry(t, InBytes(s) + k, v)
  {
    CursorMeaning(t, InBytes(s));
    if forall i :: 0 <= i < |s| ==> s[i] >= 0 {
      assert InBytes(s) == s;
    } else {
      var i :| 0 <= i < |s| && s[i] < 0;
      NegativeUnit(Some(t), s, i);
    }
  }

  /** A trie for the bytes 61 62 FF: as chars the last one is -1, which the two forms read differently. */
  lemma BulkMissesHighByte()
    ensures var t := Linear([0x61, 0x62, 0xFF], Final(1));
            WellFormed(t) && Descend(Some(t), InBytes([0x61, 0x62, -1])) == Some(Final(1))
              && Descend(Some(t), [0x61, 0x62, -1]) == None
  {
    var t := Linear([0x61, 0x62, 0xFF], Final(1));
    var s := [0x61, 0x62, -1];
    assert InBytes(s) == [0x61, 0x62, 0xFF];
    Three(Some(t), s);
    Three(Some(t), InBytes(s));
  }

  lemma Three(o: Option<Trie>, s: seq<int>)
    requires |s| == 3
    ensures Descend(o, s) == StepOpt(StepOpt(StepOpt(o, s[0]), s[1]), s[2])
  {
    var s1 := s[1..];
    var s2 := s1[1..];
    assert s1[0] == s[1] && s2[0] == s[2] && s2[1..] == [];
    assert Descend(o, s) == Descend(StepOpt(o, s[0]), s1);
    assert Descend(StepOpt(o, s[0]), s1) == Descend(StepOpt(StepOpt(o, s[0]), s[1]), s2);
    assert Descend(StepOpt(StepOpt(o, s[0]), s[1]), s2) == Descend(StepOpt(StepOpt(StepOpt(o, s[0]), s[1]), s[2]), []);
  }

  // ---------- where a stopped cursor stopped ----------

  lemma {:induction false} RemainingStopped(remaining: int, s: seq<int>)
    ensures RemainingAll(None, remaining, s) == remaining
    decreases |s|
  {
    if |s| > 0 { RemainingStopped(remaining, s[1..]); }
  }

  lemma {:induction false} RemainingAppend(o: Option<Trie>, remaining: int, a: seq<int>, b: seq<int>)
    ensures RemainingAll(o, remaining, a + b) == RemainingAll(Descend(o, a), RemainingAll(o, remaining, a), b)
    decreases |a|
  {
    hide Step, RemainingAfter;
    if |a| == 0 {
      assert a + b == b;
    } else {
      assert (a + b)[1..] == a[1..] + b;
      RemainingAppend(StepOpt(o, a[0]), RemainingAfter(o, remaining, a[0]), a[1..], b);
    }
  }

  /** Single steps that stop at unit k leave what was pending there, or -1 if no linear-match node was. */
  lemma RemainingAtStop(o: Option<Trie>, remaining: int, s: seq<int>, k: nat)
    requires k < |s| && Descend(o, s[..k]).Some? && Descend(o, s[..k + 1]).None?
    ensures var pending := RemainingAll(o, remaining, s[..k]);
            RemainingAll(o, remaining, s) == if pending >= 0 then pending else -1
  {
    hide Step, RemainingAfter, Descend, RemainingAll;
    assert s == s[..k + 1] + s[k + 1..] && s[..k + 1] == s[..k] + [s[k]];
    RemainingAppend(o, remaining, s[..k + 1], s[k + 1..]);
    RemainingAppend(o, remaining, s[..k], [s[k]]);
    DescendAppend(o, s[..k], [s[k]]);
    LastStop(Descend(o, s[..k]), RemainingAll(o, remaining, s[..k]), s[k]);
    RemainingStopped(RemainingAll(o, remaining, s[..k + 1]), s[k + 1..]);
  }

  lemma LastStop(o: Option<Trie>, remaining: int, c: int)
    requires o.Some? && Descend(o, [c]).None?
    ensures RemainingAll(o, remaining, [c]) == if remaining >= 0 then remaining else -1
  {
    assert Descend(o, [c]) == StepOpt(o, c);
    assert Step(o.value, c) == Step(NodeOf(o.value), c);
    assert RemainingAll(o, remaining, [c]) == RemainingAfter(o, remaining, c);
  }

  lemma {:induction false} PendingRun(t: Trie, remaining: int, text: seq<int>)
    requires t.Linear? && |t.units| == remaining + 1 > 0 && |text| > 0
    requires Descend(Some(t), text).None? && !(t.units <= text)
    ensures 0 <= RemainingAll(Some(t), remaining, text) <= remaining
    ensures RemainingAll(Some(t), remaining, text) == remaining <==> text[0] != t.units[0]
    decreases |text|
  {
    if text[0] != t.units[0] {
      RemainingStopped(remaining, text[1..]);
    } else {
      var t' := Linear(t.units[1..], t.rest);
      assert t.units == [t.units[0]] + t.units[1..] && text == [text[0]] + text[1..];
      assert remaining > 0;
      assert Step(t, text[0]) == Some(t');
      assert Descend(Some(t), text) == Descend(Some(t'), text[1..]);
      PendingRun(t', remaining - 1, text[1..]);
    }
  }

  /**
    After a stop the two forms leave the same remaining match length exactly if single steps leave none, or the
    very first unit missed a node that was already pending.
   */
  lemma BulkStopAgrees(o: Option<Trie>, remaining: int, text: seq<int>)
    requires o.Some? && |text| > 0 && Descend(o, text).None? && remaining >= -1
    requires remaining >= 0 ==> o.value.Linear? && |o.value.units| == remaining + 1
    ensures RemainingAll(o, remaining, text) == BulkRemaining(o, remaining, text)
       <==> RemainingAll(o, remaining, text) == -1 || (remaining >= 0 && text[0] != o.value.units[0])
  {
    if MissesPending(o, remaining, text) { PendingRun(o.value, remaining, text); }
  }

  /**
    On a trie for the bytes 61 62 63, stepping over 61 78 leaves one pending unit and no position; the bulk form
    leaves none.
   */
  lemma StopInsideNode()
    ensures var t := Linear([0x61, 0x62, 0x63], Final(1));
            && WellFormed(t) && Descend(Some(t), [0x61, 0x78]) == None
            && RemainingAll(Some(t), -1, [0x61, 0x78]) == 1 && BulkRemaining(Some(t), -1, [0x61, 0x78]) == -1
  {
    var t, s := Linear([0x61, 0x62, 0x63], Final(1)), [0x61, 0x78];
    var t1 := Linear([0x62, 0x63], Final(1));
    assert t.units[1..] == [0x62, 0x63] && Step(t, 0x61) == Some(t1);
    assert s[1..] == [0x78] && Step(t1, 0x78) == None;
    assert Descend(Some(t), s) == Descend(Some(t1), [0x78]) == Descend(None, []);
    assert RemainingAll(Some(t), -1, s) == RemainingAll(Some(t1), 1, [0x78]) == RemainingAll(None, 1, []);
  }
}
