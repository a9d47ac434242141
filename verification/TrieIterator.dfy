/**
  The depth-first iterator of source/common/bytestrieiterator.cpp with its packed stack, proved to deliver
  exactly the remaining entries of the trie, one per call, in order.
 */
module TrieIterator {
  import opened Basics
  import opened TrieModel
  import opened TrieLayout
  import opened TrieReader

  /** What one pair of stack integers stands for: part of a branch still to be visited. */
  datatype Frame = Frame(prefix: seq<int>, keys: seq<Byte>, kids: seq<Trie>)

  function RoomFor(maxLength: int, n: nat): int {
    if maxLength > 0 then maxLength - n else -1
  }

  /** ((length)<<16)|strLength, for a strLength that fits 16 bits. */
  function Pack(length: nat, strLength: nat): int
    requires strLength <= 0xffff
  {
    length * 0x10000 + strLength
  }

  /** A key of n bytes may still grow. */
  predicate HasRoom(maxLength: int, n: nat) {
    maxLength > 0 ==> n < maxLength
  }

  ghost function FrameEntries(f: Frame, maxLength: int): seq<Entry>
    requires |f.keys| == |f.kids|
  {
    Prefixed(f.prefix, BranchEntries(f.keys, f.kids, RoomFor(maxLength, |f.prefix|)))
  }

  ghost predicate FrameOk(b: seq<Byte>, f: Frame, maxLength: int, offset: int, packed: int) {
    && |f.keys| == |f.kids| > 0 && Ascending(f.keys)
    && (forall i :: 0 <= i < |f.kids| ==> WellFormed(f.kids[i]))
    && LaysBranch(b, offset, f.keys, f.kids)
    && |f.prefix| <= 0xffff && packed == Pack(|f.keys|, |f.prefix|)
    && HasRoom(maxLength, |f.prefix|)
  }

  ghost predicate StackOk(b: seq<Byte>, stack: seq<int>, frames: seq<Frame>, maxLength: int, str: seq<int>) {
    && |stack| == 2 * |frames|
    && forall i {:trigger frames[i]} :: 0 <= i < |frames| ==>
         && frames[i].prefix <= str
         && FrameOk(b, frames[i], maxLength, stack[2 * i], stack[2 * i + 1])
         && forall j :: 0 <= j < i ==> frames[j].prefix <= frames[i].prefix
  }

  /** The entries behind the stack, top first. */
  ghost function StackEntries(frames: seq<Frame>, maxLength: int): seq<Entry>
    requires Balanced(frames)
  {
    if |frames| == 0 then []
    else FrameEntries(frames[|frames| - 1], maxLength) + StackEntries(frames[..|frames| - 1], maxLength)
  }

  // ---------- facts about entries ----------

  lemma PrefixedAppend(p: seq<int>, a: seq<Entry>, b: seq<Entry>)
    ensures Prefixed(p, a + b) == Prefixed(p, a) + Prefixed(p, b)
  {
  }

  lemma PrefixedTwice(p: seq<int>, q: seq<int>, a: seq<Entry>)
    ensures Prefixed(p, Prefixed(q, a)) == Prefixed(p + q, a)
  {
    forall i | 0 <= i < |a|
      ensures Prefixed(p, Prefixed(q, a))[i] == Prefixed(p + q, a)[i]
    {
      assert p + (q + a[i].key) == (p + q) + a[i].key;
    }
  }

  lemma {:induction false} BranchEntriesSplit(keys: seq<Byte>, kids: seq<Trie>, h: nat, room: int)
    requires |keys| == |kids| && h <= |keys|
    ensures BranchEntries(keys, kids, room)
         == BranchEntries(keys[..h], kids[..h], room) + BranchEntries(keys[h..], kids[h..], room)
    decreases |keys|
  {
    if h == 0 {
      assert keys[h..] == keys && kids[h..] == kids;
    } else {
      assert keys[..h][1..] == keys[1..][..h - 1] && kids[..h][1..] == kids[1..][..h - 1];
      assert keys[1..][h - 1..] == keys[h..] && kids[1..][h - 1..] == kids[h..];
      BranchEntriesSplit(keys[1..], kids[1..], h - 1, room);
    }
  }

  lemma {:induction false} EntriesNonEmpty(t: Trie, room: int)
    requires WellFormed(t)
    ensures |Entries(t, room)| > 0
  {
    match t
    case Final(_) =>
    case Value(_, _) =>
    case Linear(units, rest) => EntriesNonEmpty(rest, Less(room, |units|));
    case Branch(keys, kids) => EntriesNonEmpty(kids[0], Less(room, 1));
  }

  /** The first child of a branch part, and the rest of it. */
  lemma BranchEntriesFirst(p: seq<int>, keys: seq<Byte>, kids: seq<Trie>, maxLength: int)
    requires |keys| == |kids| > 0
    requires HasRoom(maxLength, |p|)
    ensures Prefixed(p, BranchEntries(keys, kids, RoomFor(maxLength, |p|)))
         == Prefixed(p + [keys[0]], Entries(kids[0], RoomFor(maxLength, |p| + 1)))
          + Prefixed(p, BranchEntries(keys[1..], kids[1..], RoomFor(maxLength, |p|)))
  {
    var room := RoomFor(maxLength, |p|);
    assert Less(room, 1) == RoomFor(maxLength, |p| + 1);
    var es := Entries(kids[0], Less(room, 1));
    PrefixedAppend(p, Prefixed([keys[0]], es), BranchEntries(keys[1..], kids[1..], room));
    PrefixedTwice(p, [keys[0]], es);
  }

  lemma Push(frames: seq<Frame>, f: Frame, maxLength: int)
    requires |f.keys| == |f.kids|
    requires Balanced(frames)
    ensures StackEntries(frames + [f], maxLength) == FrameEntries(f, maxLength) + StackEntries(frames, maxLength)
  {
    assert (frames + [f])[..|frames|] == frames;
  }

  lemma PushOk(b: seq<Byte>, stack: seq<int>, frames: seq<Frame>, maxLength: int, str: seq<int>, f: Frame, offset: int)
    requires StackOk(b, stack, frames, maxLength, str)
    requires f.prefix == str && |str| <= 0xffff
    requires FrameOk(b, f, maxLength, offset, Pack(|f.keys|, |str|))
    ensures StackOk(b, stack + [offset, Pack(|f.keys|, |str|)], frames + [f], maxLength, str)
  {
  }

  /** A split sub-node: both halves are laid out, in order, and ready to be framed. */
  lemma SplitAt(b: seq<Byte>, p: int, ks: seq<Byte>, ts: seq<Trie>)
    requires |ks| == |ts| > MAX_BRANCH_LINEAR_SUB_NODE_LENGTH && Ascending(ks) && LaysBranch(b, p, ks, ts)
    requires forall i :: 0 <= i < |ts| ==> WellFormed(ts[i])
    ensures 0 <= p < |b| && DeltaFits(b, p + 1)
    ensures var h := |ks| / 2;
            && Ascending(ks[..h]) && Ascending(ks[h..])
            && (forall i :: 0 <= i < h ==> WellFormed(ts[..h][i]))
            && (forall i :: 0 <= i < |ks| - h ==> WellFormed(ts[h..][i]))
            && LaysBranch(b, JumpByDelta(b, p + 1), ks[..h], ts[..h])
            && LaysBranch(b, SkipDelta(b, p + 1), ks[h..], ts[h..])
  {
  }

  /** A list sub-node: the first edge, and the rest ready to be framed. */
  lemma ListAt(b: seq<Byte>, p: int, ks: seq<Byte>, ts: seq<Trie>)
    requires 2 <= |ks| == |ts| <= MAX_BRANCH_LINEAR_SUB_NODE_LENGTH && Ascending(ks) && LaysBranch(b, p, ks, ts)
    requires forall i :: 0 <= i < |ts| ==> WellFormed(ts[i])
    ensures 0 <= p < |b| && b[p] == ks[0] && LaysEdge(b, p + 1, ts[0])
    ensures Ascending(ks[1..]) && forall i :: 0 <= i < |ks| - 1 ==> WellFormed(ts[1..][i])
    ensures LaysBranch(b, AfterValue(b, p + 1), ks[1..], ts[1..])
  {
  }

  /** keys and kids are laid out at p and may be entered with the present string. */
  ghost predicate Enterable(b: seq<Byte>, p: int, keys: seq<Byte>, kids: seq<Trie>,
                            stack: seq<int>, frames: seq<Frame>, maxLength: int, str: seq<int>) {
    && |keys| == |kids| > 0 && Ascending(keys) && (forall i :: 0 <= i < |kids| ==> WellFormed(kids[i]))
    && LaysBranch(b, p, keys, kids)
    && HasRoom(maxLength, |str|) && |str| <= 0xffff
    && StackOk(b, stack, frames, maxLength, str)
  }

  lemma EnterableSizes(b: seq<Byte>, p: int, keys: seq<Byte>, kids: seq<Trie>,
                       stack: seq<int>, frames: seq<Frame>, maxLength: int, str: seq<int>)
    requires Enterable(b, p, keys, kids, stack, frames, maxLength, str)
    ensures |keys| == |kids| > 0
  {
  }

  ghost predicate Balanced(frames: seq<Frame>) {
    forall i :: 0 <= i < |frames| ==> |frames[i].keys| == |frames[i].kids|
  }

  /** The entries of a branch part under the present string, and those behind the stack. */
  ghost function BranchPending(keys: seq<Byte>, kids: seq<Trie>, frames: seq<Frame>, maxLength: int,
                               str: seq<int>): seq<Entry> {
    if |keys| != |kids| || !Balanced(frames) then []
    else Prefixed(str, BranchEntries(keys, kids, RoomFor(maxLength, |str|))) + StackEntries(frames, maxLength)
  }

  /** fs grew only by frames for the present string. */
  ghost predicate Extends(fs: seq<Frame>, before: seq<Frame>, str: seq<int>) {
    && |before| <= |fs| && fs[..|before|] == before
    && forall i :: |before| <= i < |fs| ==> fs[i].prefix == str
  }

  /** Pushing the upper half of a split loses and repeats nothing. */
  lemma SplitPush(b: seq<Byte>, p: int, ks: seq<Byte>, ts: seq<Trie>,
                  stack: seq<int>, frames: seq<Frame>, maxLength: int, str: seq<int>)
    requires Enterable(b, p, ks, ts, stack, frames, maxLength, str)
    requires |ks| > MAX_BRANCH_LINEAR_SUB_NODE_LENGTH
    ensures 0 <= p < |b| && DeltaFits(b, p + 1) && |str| <= 0xffff
    ensures var h := |ks| / 2;
            var f := Frame(str, ks[h..], ts[h..]);
            var stack' := stack + [SkipDelta(b, p + 1), Pack(|ks| - h, |str|)];
            && Enterable(b, JumpByDelta(b, p + 1), ks[..h], ts[..h], stack', frames + [f], maxLength, str)
            && BranchPending(ks[..h], ts[..h], frames + [f], maxLength, str)
              == BranchPending(ks, ts, frames, maxLength, str)
  {
    hide LaysBranch, Lays, WellFormed, StackOk, BranchPending, Balanced, JumpByDelta;
    SplitAt(b, p, ks, ts);
    StackBalanced(b, stack, frames, maxLength, str);
    var h := |ks| / 2;
    var f := Frame(str, ks[h..], ts[h..]);
    assert FrameOk(b, f, maxLength, SkipDelta(b, p + 1), Pack(|f.keys|, |str|));
    PushOk(b, stack, frames, maxLength, str, f, SkipDelta(b, p + 1));
    SplitPending(ks, ts, frames, maxLength, str, h);
  }

  lemma SplitPending(ks: seq<Byte>, ts: seq<Trie>, frames: seq<Frame>, maxLength: int, str: seq<int>, h: nat)
    requires |ks| == |ts| && h <= |ks| && Balanced(frames)
    ensures BranchPending(ks[..h], ts[..h], frames + [Frame(str, ks[h..], ts[h..])], maxLength, str)
         == BranchPending(ks, ts, frames, maxLength, str)
  {
    hide BranchEntries, StackEntries, Prefixed;
    Push(frames, Frame(str, ks[h..], ts[h..]), maxLength);
    var room := RoomFor(maxLength, |str|);
    BranchEntriesSplit(ks, ts, h, room);
    PrefixedAppend(str, BranchEntries(ks[..h], ts[..h], room), BranchEntries(ks[h..], ts[h..], room));
  }

  lemma StackBalanced(b: seq<Byte>, stack: seq<int>, frames: seq<Frame>, maxLength: int, str: seq<int>)
    requires StackOk(b, stack, frames, maxLength, str)
    ensures Balanced(frames)
  {
  }

  /** Taking the first key of a list and pushing the rest. */
  lemma FirstPush(b: seq<Byte>, p: int, ks: seq<Byte>, ts: seq<Trie>,
                  stack: seq<int>, frames: seq<Frame>, maxLength: int, str: seq<int>)
    requires Enterable(b, p, ks, ts, stack, frames, maxLength, str)
    requires 2 <= |ks| <= MAX_BRANCH_LINEAR_SUB_NODE_LENGTH
    ensures 0 <= p < |b| && b[p] == ks[0] && ValueFits(b, p + 1) && |str| <= 0xffff && |ks| == |ts|
    ensures var f := Frame(str, ks[1..], ts[1..]);
            var stack' := stack + [AfterValue(b, p + 1), Pack(|ks| - 1, |str|)];
            && StackOk(b, stack', frames + [f], maxLength, str + [ks[0]])
            && BranchPending(ks, ts, frames, maxLength, str)
               == Prefixed(str + [ks[0]], Entries(ts[0], RoomFor(maxLength, |str| + 1)))
                 + StackEntries(frames + [f], maxLength)
    ensures if IsFinalLead(b[p + 1])
            then Prefixed(str + [ks[0]], Entries(ts[0], RoomFor(maxLength, |str| + 1)))
                 == [Entry(str + [ks[0]], ValueAt(b, p + 1))]
            else var q := AfterValue(b, p + 1) + ValueAt(b, p + 1); 0 <= q && Lays(b, q, ts[0])
  {
    hide LaysBranch, Lays, LaysEdge, WellFormed, StackOk, BranchPending, Prefixed, Entries, StackEntries, Balanced,
         ReadValue;
    ListAt(b, p, ks, ts);
    StackBalanced(b, stack, frames, maxLength, str);
    FirstEdge(b, p + 1, ts[0], str + [ks[0]], RoomFor(maxLength, |str| + 1));
    var f := Frame(str, ks[1..], ts[1..]);
    assert FrameOk(b, f, maxLength, AfterValue(b, p + 1), Pack(|f.keys|, |str|));
    PushOk(b, stack, frames, maxLength, str, f, AfterValue(b, p + 1));
    FirstPending(ks, ts, frames, maxLength, str);
    StackGrow(b, stack + [AfterValue(b, p + 1), Pack(|ks| - 1, |str|)], frames + [f], maxLength, str, ks[0]);
  }

  lemma FirstPending(ks: seq<Byte>, ts: seq<Trie>, frames: seq<Frame>, maxLength: int, str: seq<int>)
    requires |ks| == |ts| > 0 && Balanced(frames) && HasRoom(maxLength, |str|)
    ensures Balanced(frames + [Frame(str, ks[1..], ts[1..])])
    ensures BranchPending(ks, ts, frames, maxLength, str)
         == Prefixed(str + [ks[0]], Entries(ts[0], RoomFor(maxLength, |str| + 1)))
            + StackEntries(frames + [Frame(str, ks[1..], ts[1..])], maxLength)
  {
    hide BranchEntries, StackEntries, Prefixed, Entries;
    Push(frames, Frame(str, ks[1..], ts[1..]), maxLength);
    BranchEntriesFirst(str, ks, ts, maxLength);
  }

  lemma FirstEdge(b: seq<Byte>, p: int, kid: Trie, key: seq<int>, room: int)
    requires WellFormed(kid) && LaysEdge(b, p, kid)
    ensures ValueFits(b, p)
    ensures if IsFinalLead(b[p]) then Prefixed(key, Entries(kid, room)) == [Entry(key, ValueAt(b, p))]
            else var q := AfterValue(b, p) + ValueAt(b, p); 0 <= q && Lays(b, q, kid)
  {
    if !IsFinalLead(b[p]) { LeadByte(b, AfterValue(b, p) + ValueAt(b, p), kid); }
    else { assert key + [] == key; }
  }

  lemma StackGrow(b: seq<Byte>, stack: seq<int>, frames: seq<Frame>, maxLength: int, str: seq<int>, c: int)
    requires StackOk(b, stack, frames, maxLength, str)
    ensures StackOk(b, stack, frames, maxLength, str + [c])
  {
  }

  /** Two keys that are the same up to n, and differ there. */
  predicate Diverge(a: seq<int>, b: seq<int>, n: nat) { n < |a| && n < |b| && a[..n] == b[..n] && a[n] != b[n] }

  /** No keys diverge behind more bytes than the 16 bits of a stack entry can count. */
  ghost predicate Shallow(es: seq<Entry>) {
    forall i, j, n: nat :: 0 <= i < j < |es| && Diverge(es[i].key, es[j].key, n) ==> n <= 0xffff
  }

  /** Of ((length)<<16)|strLength the length of the string is read back exactly if it has 16 bits. */
  lemma LengthKept(length: bv32, strLength: bv32)
    ensures ((length << 16) | strLength) & 0xffff == strLength <==> strLength <= 0xffff
  {
  }

  class Iterator {
    const bytes: seq<Byte>
    const initialPos: int
    const initialRemaining: int
    const maxLength: int
    const illegalArgument: bool  // the error code of construction
    var pos: int        // -1 for NULL
    var remaining: int
    var str: seq<int>
    var sp: seq<int>    // the delivered string
    var value: int
    var stack: seq<int> // pairs (offset, remaining branch length and string length)
    ghost var frames: seq<Frame>
    ghost var cur: Option<Trie>
    ghost const start: Option<Trie>
    ghost const head: seq<int>  // what a pending node contributed to str at the start

    ghost predicate Valid()
      reads this
    {
      && StartOk()
      && StackOk(bytes, stack, frames, maxLength, str)
      && (pos == -1 <==> cur.None?)
      && (cur.Some? && remaining >= 0 ==> frames == [] && str == head)
      && (cur.Some? && remaining < 0 ==> NodeOk(bytes, pos, cur.value, maxLength, str))
      && (remaining < 0 || frames == [])
      && Shallow(Pending())
      && HeadOk(head, str, frames)
    }

    /** What the iterator remembers of the cursor that it was made from. */
    ghost predicate StartOk() {
      if start.None? then initialPos == -1 && initialRemaining == -1 && head == []
      else
        && initialPos >= 0 && WellFormed(start.value) && CursorAt(bytes, initialPos, initialRemaining, start.value)
        && head == HeadOf(start.value, initialRemaining, maxLength)
        && Shallow(Entries(start.value, RoomFor(maxLength, 0)))
    }

    /** Exactly the entries that have not been delivered yet, in order. */
    ghost function Pending(): seq<Entry>
      reads this
    {
      if !Balanced(frames) then []
      else CurEntries(cur, remaining >= 0, str, maxLength) + StackEntries(frames, maxLength)
    }

    /** Iterates over all strings of the trie at the start of the bytes. */
    constructor (trieBytes: seq<Byte>, maxStringLength: int, ghost t: Trie)
      requires WellFormed(t) && Lays(trieBytes, 0, t)
      ensures Valid() <==> Shallow(Entries(t, RoomFor(maxStringLength, 0)))
      ensures start == Some(t) && maxLength == maxStringLength && !illegalArgument
      ensures Pending() == Entries(t, RoomFor(maxStringLength, 0))
    {
      bytes, pos, initialPos, remaining, initialRemaining := trieBytes, 0, 0, -1, -1;
      maxLength, value, str, sp, stack := maxStringLength, 0, [], [], [];
      illegalArgument := false;
      frames, cur, start, head := [], Some(t), Some(t), [];
      new;
      StartPending(t, -1, maxLength);
    }

    /**
      Iterates over the continuations of the strings matched by trie's cursor so far. A cursor that stopped
      inside a pending linear-match node still claims pending bytes but has no position: appending them is the
      illegal argument, and the position is then an offset from NULL.
     */
    constructor From(trie: BytesTrie, maxStringLength: int, ghost o: Option<Trie>)
      requires trie.At(o)
      ensures illegalArgument <==> o.None? && trie.remaining != -1
      ensures Valid() <==> !illegalArgument && (o.Some? ==> Shallow(Entries(o.value, RoomFor(maxStringLength, 0))))
      ensures start == o && maxLength == maxStringLength
      ensures Valid() ==> Pending() == if o.None? then [] else Entries(o.value, RoomFor(maxStringLength, 0))
    {
      bytes, pos, initialPos := trie.bytes, trie.pos, trie.pos;
      remaining, initialRemaining := trie.remaining, trie.remaining;
      maxLength, value, str, sp, stack := maxStringLength, 0, [], [], [];
      illegalArgument := trie.pos == -1 && trie.remaining >= 0;
      frames, start := [], o;
      head := if o.None? then [] else HeadOf(o.value, trie.remaining, maxStringLength);
      cur := if o.None? then None else StartTrie(o.value, trie.remaining, maxStringLength);
      new;
      hide Entries, Lays, WellFormed, Shallow, HeadOf, StartTrie, NodeOk, Pending, StackOk;
      if o.Some? { StartNode(bytes, pos, remaining, o.value, maxLength); }
      var length := remaining;
      if length >= 0 {
        length := length + 1;
        if maxLength > 0 && length > maxLength {
          length := maxLength;
        }
        if pos != -1 { str := bytes[pos..pos + length]; }
        pos := pos + length;
        remaining := remaining - length;
      }
      if !illegalArgument && (o.Some? ==> Shallow(Entries(o.value, RoomFor(maxStringLength, 0)))) { Started(); }
    }

    /** Back to the state after construction: everything is pending again. */
    method Reset()
      requires Valid()
      modifies this
      ensures Valid()
      ensures Pending() == if start.None? then [] else Entries(start.value, RoomFor(maxLength, 0))
    {
      hide Entries, Lays, WellFormed, Shallow, HeadOf, StartTrie, NodeOk, StackOk, Pending;
      if start.Some? { StartNode(bytes, initialPos, initialRemaining, start.value, maxLength); }
      pos := initialPos;
      remaining := initialRemaining;
      var length := remaining + 1;
      if maxLength > 0 && length > maxLength {
        length := maxLength;
      }
      assert length == |head|;
      str := str[..length];
      assert str == head;
      pos := pos + length;
      remaining := remaining - length;
      stack := [];
      frames := [];
      cur := if start.None? then None else StartTrie(start.value, initialRemaining, maxLength);
      Started();
    }

    /** With an empty stack and the string of the start cursor, everything is pending. */
    lemma Started()
      requires StartOk() && stack == [] && frames == [] && str == head
      requires start.None? ==> pos == -1 && cur == None && remaining == -1
      requires start.Some? ==>
                 && pos == initialPos + |head| && remaining == initialRemaining - |head|
                 && cur == StartTrie(start.value, initialRemaining, maxLength)
      ensures Valid()
      ensures Pending() == if start.None? then [] else Entries(start.value, RoomFor(maxLength, 0))
    {
      hide Entries, Lays, WellFormed, StackEntries, HeadOf, NodeOk, Prefixed;
      EmptyStack(frames, maxLength);
      if start.Some? {
        StartNode(bytes, initialPos, initialRemaining, start.value, maxLength);
        StartPending(start.value, initialRemaining, maxLength);
      }
      assert Pending() == if start.None? then [] else Entries(start.value, RoomFor(maxLength, 0));
    }

    /** Calling next() until it returns FALSE delivers every pending entry once and in order. */
    method DeliverAll() returns (out: seq<Entry>)
      requires Valid()
      modifies this
      ensures Valid() && Pending() == []
      ensures out == old(Pending())
    {
      hide Valid, Pending;
      out := [];
      var ok := true;
      while ok
        invariant Valid()
        invariant old(Pending()) == out + Pending()
        invariant !ok ==> Pending() == []
        decreases |Pending()|, ok
      {
        ok := Next();
        if ok {
          out := out + [Entry(sp, value)];
        }
      }
    }

    /** Follow less-than edges, pushing the greater-or-equal halves, down to a list of at most five keys. */
    method Descend(p0: int, length0: int, ghost keys: seq<Byte>, ghost kids: seq<Trie>)
      returns (p: int, length: int, ghost ks: seq<Byte>, ghost ts: seq<Trie>)
      requires Enterable(bytes, p0, keys, kids, stack, frames, maxLength, str) && |keys| == length0 >= 2
      modifies this`stack, this`frames
      ensures |ks| == length && 2 <= length <= MAX_BRANCH_LINEAR_SUB_NODE_LENGTH
      ensures Enterable(bytes, p, ks, ts, stack, frames, maxLength, str) && ks[0] == keys[0] && ts[0] == kids[0]
      ensures BranchPending(ks, ts, frames, maxLength, str) == BranchPending(keys, kids, old(frames), maxLength, str)
      ensures Extends(frames, old(frames), str)
    {
      hide Enterable, BranchPending;
      p, length, ks, ts := p0, length0, keys, kids;
      EnterableSizes(bytes, p, ks, ts, stack, frames, maxLength, str);
      while length > MAX_BRANCH_LINEAR_SUB_NODE_LENGTH
        invariant |ks| == |ts| == length >= 2
        invariant Enterable(bytes, p, ks, ts, stack, frames, maxLength, str)
        invariant ks[0] == keys[0] && ts[0] == kids[0]
        invariant BranchPending(ks, ts, frames, maxLength, str)
                  == BranchPending(keys, kids, old(frames), maxLength, str)
        invariant Extends(frames, old(frames), str)
      {
        SplitPush(bytes, p, ks, ts, stack, frames, maxLength, str);
        stack := stack + [SkipDelta(bytes, p + 1), Pack(length - length / 2, |str|)];
        frames := frames + [Frame(str, ks[length / 2..], ts[length / 2..])];
        ks, ts := ks[..length / 2], ts[..length / 2];
        length := length / 2;
        p := JumpByDelta(bytes, p + 1);
      }
    }

    /**
      Enters the first child; the other children go onto the stack. The result is the position of that child, or -1
      if it is a final value, which is delivered at once.
     */
    method BranchNext(p0: int, length0: int, ghost keys: seq<Byte>, ghost kids: seq<Trie>) returns (q: int)
      requires Enterable(bytes, p0, keys, kids, stack, frames, maxLength, str) && |keys| == length0 >= 2
      modifies this`stack, this`frames, this`str, this`pos, this`sp, this`value
      ensures StackOk(bytes, stack, frames, maxLength, str)
      ensures str == old(str) + [keys[0]]
      ensures Extends(frames, old(frames), old(str))
      ensures q == -1 ==> pos == -1 && sp == str
      ensures q == -1 ==> BranchPending(keys, kids, old(frames), maxLength, old(str))
                          == [Entry(sp, value)] + StackEntries(frames, maxLength)
      ensures q != -1 ==> 0 <= q && Lays(bytes, q, kids[0])
      ensures q != -1 ==> BranchPending(keys, kids, old(frames), maxLength, old(str))
                          == Prefixed(str, Entries(kids[0], RoomFor(maxLength, |str|)))
                            + StackEntries(frames, maxLength)
    {
      hide Enterable, BranchPending, StackOk, StackEntries, Lays, Entries;
      ghost var ks, ts;
      var p, length;
      p, length, ks, ts := Descend(p0, length0, keys, kids);
      FirstPush(bytes, p, ks, ts, stack, frames, maxLength, str);
      var trieByte := bytes[p];
      var node := bytes[p + 1];
      var v := ReadValue(bytes, p + 2, node / 2);
      p := AfterValue(bytes, p + 1);
      stack := stack + [p, Pack(length - 1, |str|)];
      frames := frames + [Frame(str, ks[1..], ts[1..])];
      str := str + [trieByte];
      if IsFinalLead(node) {
        pos, sp, value := -1, str, v;
        q := -1;
      } else {
        q := p + v;
      }
    }

    method TruncateAndStop()
      modifies this`pos, this`sp, this`value
      ensures pos == -1 && sp == str && value == -1
    {
      pos, sp, value := -1, str, -1;
    }

    /** The node loop of next(): walk from the node at p to the next entry and deliver it. */
    method Deliver(p0: int, ghost t0: Trie)
      requires remaining < 0 && StartOk() && StackOk(bytes, stack, frames, maxLength, str)
      requires NodeOk(bytes, p0, t0, maxLength, str) && HeadOk(head, str, frames)
      requires Shallow(NodePending(t0, frames, maxLength, str))
      modifies this
      ensures Valid() && remaining == old(remaining)
      ensures NodePending(t0, old(frames), maxLength, old(str)) == [Entry(sp, value)] + Pending()
    {
      hide NodePending, HeadOk, StackOk, StartOk, Shallow, Entries, StackEntries, Prefixed,
           Lays, LaysBranch, WellFormed, Balanced, Enterable, BranchPending, Extends, Valid, Pending;
      var p := p0;
      ghost var t := t0;
      ghost var all := NodePending(t0, frames, maxLength, str);
      while true
        invariant remaining == old(remaining) && StackOk(bytes, stack, frames, maxLength, str)
        invariant NodeOk(bytes, p, t, maxLength, str) && HeadOk(head, str, frames)
        invariant NodePending(t, frames, maxLength, str) == all
        decreases t
      {
        LeadByte(bytes, p, t);
        StackBalanced(bytes, stack, frames, maxLength, str);
        var node := bytes[p];
        p := p + 1;
        if node >= MIN_VALUE_LEAD {
          DeliverValue(p, t, all);
          return;
        }
        if maxLength > 0 && |str| == maxLength {
          VisitFull(bytes, p - 1, t, frames, maxLength, str);
          TruncateAndStop();
          cur := None;
          Delivered(all);
          return;
        }
        if node < MIN_LINEAR_MATCH {
          VisitBranch(bytes, p - 1, t, stack, frames, maxLength, str);
          var length := node;
          if length == 0 {
            length := bytes[p];
            p := p + 1;
          }
          ghost var str0, frames0 := str, frames;
          p := BranchNext(p, length + 1, t.keys, t.kids);
          HeadExtends(head, str0, frames0, str, frames, t.keys[0]);
          StackBalanced(bytes, stack, frames, maxLength, str);
          if p == -1 {
            cur := None;
            Delivered(all);
            return;
          }
          EnterChild(bytes, p, t.kids[0], frames, maxLength, str);
          t := t.kids[0];
        } else {
          var done := PassLinear(p, t, all);
          if done { return; }
          p := p + node - MIN_LINEAR_MATCH + 1;
          t := t.rest;
        }
      }
    }

    /** The value node in front of p: its value belongs to the string so far. */
    method DeliverValue(p: int, ghost t: Trie, ghost all: seq<Entry>)
      requires remaining < 0 && StartOk() && StackOk(bytes, stack, frames, maxLength, str) && HasValue(t)
      requires NodeOk(bytes, p - 1, t, maxLength, str) && HeadOk(head, str, frames)
      requires NodePending(t, frames, maxLength, str) == all && Shallow(all)
      modifies this
      ensures Valid() && remaining == old(remaining) && all == [Entry(sp, value)] + Pending()
    {
      hide NodePending, HeadOk, StackOk, StartOk, Shallow, Entries, StackEntries, Prefixed,
           Lays, WellFormed, Balanced, ReadValue, Valid, Pending;
      LeadByte(bytes, p - 1, t);
      StackBalanced(bytes, stack, frames, maxLength, str);
      VisitValue(bytes, p - 1, t, frames, maxLength, str);
      var node := bytes[p - 1];
      value := ReadValue(bytes, p, node / 2);
      sp := str;
      if node % 2 == 1 || (maxLength > 0 && |str| == maxLength) {
        pos, cur := -1, None;
      } else {
        pos, cur := AfterValue(bytes, p - 1), Some(t.rest);
      }
      Delivered(all);
    }

    /** The units from p on of a linear-match node: all of them if they fit, or else a cut string is delivered. */
    method PassLinear(p: int, ghost t: Trie, ghost all: seq<Entry>) returns (done: bool)
      requires remaining < 0 && StartOk() && StackOk(bytes, stack, frames, maxLength, str) && t.Linear?
      requires NodeOk(bytes, p - 1, t, maxLength, str) && HeadOk(head, str, frames)
               && (maxLength > 0 ==> |str| < maxLength)
      requires NodePending(t, frames, maxLength, str) == all && Shallow(all)
      modifies this
      ensures remaining == old(remaining)
      ensures done ==> Valid() && all == [Entry(sp, value)] + Pending()
      ensures !done ==>
                && StackOk(bytes, stack, frames, maxLength, str) && HeadOk(head, str, frames) && frames == old(frames)
                && NodeOk(bytes, p + |t.units|, t.rest, maxLength, str)
                && bytes[p - 1] - MIN_LINEAR_MATCH + 1 == |t.units|
                && NodePending(t.rest, frames, maxLength, str) == all
    {
      hide NodePending, HeadOk, StackOk, StartOk, Shallow, Entries, StackEntries, Prefixed,
           Lays, WellFormed, Balanced, Valid, Pending;
      LeadByte(bytes, p - 1, t);
      StackBalanced(bytes, stack, frames, maxLength, str);
      VisitLinear(bytes, p - 1, t, frames, maxLength, str);
      var length := bytes[p - 1] - MIN_LINEAR_MATCH + 1;
      done := maxLength > 0 && |str| + length > maxLength;
      ghost var str0 := str;
      if done {
        str := str + bytes[p..p + (maxLength - |str|)];
        StrGrows(bytes, stack, frames, maxLength, head, str0, str);
        TruncateAndStop();
        cur := None;
        Delivered(all);
      } else {
        str := str + bytes[p..p + length];
        StrGrows(bytes, stack, frames, maxLength, head, str0, str);
      }
    }

    /**
      Deliver the next entry: FALSE exactly when none is left, otherwise the first pending entry,
      and what stays pending is exactly the rest.
     */
    method Next() returns (ok: bool)
      requires Valid()
      modifies this
      ensures Valid()
      ensures ok <==> |old(Pending())| > 0
      ensures ok ==> old(Pending()) == [Entry(sp, value)] + Pending()
      ensures !ok ==> Pending() == []
    {
      hide NodeOk, NodePending, HeadOk, StackOk, StartOk, Shallow, Entries, StackEntries, Prefixed,
           Lays, LaysBranch, WellFormed, Balanced, Enterable, BranchPending, Extends;
      ghost var all := Pending();
      var p := pos;
      ghost var t: Trie;
      StackBalanced(bytes, stack, frames, maxLength, str);
      if p == -1 {
        StackSize(bytes, stack, frames, maxLength, str);
        if |stack| == 0 {
          EmptyStack(frames, maxLength);
          return false;
        }
        assert all == StackEntries(frames, maxLength);
        PopFacts(bytes, stack, frames, maxLength, str, head);
        ghost var f := frames[|frames| - 1];
        var packed := stack[|stack| - 1];
        p := stack[|stack| - 2];
        stack := stack[..|stack| - 2];
        frames := frames[..|frames| - 1];
        str := str[..packed % 0x10000];
        var length := packed / 0x10000;
        StackBalanced(bytes, stack, frames, maxLength, str);
        if length > 1 {
          ghost var str0, frames0 := str, frames;
          p := BranchNext(p, length, f.keys, f.kids);
          HeadExtends(head, str0, frames0, str, frames, f.keys[0]);
          StackBalanced(bytes, stack, frames, maxLength, str);
          if p == -1 {
            Delivered(all);
            return true;
          }
          EnterChild(bytes, p, f.kids[0], frames, maxLength, str);
        } else {
          LastChild(bytes, p, f, stack, frames, maxLength, str);
          StrGrows(bytes, stack, frames, maxLength, head, str, str + [bytes[p]]);
          str := str + [bytes[p]];
          p := p + 1;
        }
        t := f.kids[0];
      } else {
        t := cur.value;
        if remaining < 0 { CurrentNode(bytes, p, t, frames, maxLength, str); }
      }
      if remaining >= 0 {
        EmptyStack(frames, maxLength);
        TruncateAndStop();
        cur := None;
        assert Pending() == [];
        ShortEmpty();
        return true;
      }
      assert all == NodePending(t, frames, maxLength, str);
      NonEmptyPending(t, frames, maxLength, str, bytes, p);
      Deliver(p, t);
      ok := true;
    }

    method HasNext() returns (b: bool)
      requires Valid()
      ensures b <==> |Pending()| > 0
    {
      hide NodeOk, HeadOk, StackOk, StartOk, Shallow, Entries, StackEntries, Prefixed, Balanced;
      StackBalanced(bytes, stack, frames, maxLength, str);
      StackSize(bytes, stack, frames, maxLength, str);
      if |stack| == 0 {
        EmptyStack(frames, maxLength);
      } else {
        NonEmptyStack(bytes, stack, frames, maxLength, str);
      }
      if cur.Some? && remaining < 0 { NonEmptyNode(bytes, pos, cur.value, maxLength, str); }
      b := pos != -1 || |stack| != 0;
    }

    /** Gluing lemma: after a delivery the remaining keys diverge as all of them did. */
    lemma Delivered(all: seq<Entry>)
      requires StackOk(bytes, stack, frames, maxLength, str) && Shallow(all) && remaining < 0
      requires all == [Entry(sp, value)] + CurEntries(cur, remaining >= 0, str, maxLength)
               + StackEntries(frames, maxLength)
      requires StartOk() && HeadOk(head, str, frames)
      requires (pos == -1 <==> cur.None?) && (cur.Some? ==> NodeOk(bytes, pos, cur.value, maxLength, str))
      ensures Valid() && all == [Entry(sp, value)] + Pending()
    {
      hide StackOk, StartOk, HeadOk, NodeOk, CurEntries, StackEntries, Balanced;
      StackBalanced(bytes, stack, frames, maxLength, str);
      assert all == [Entry(sp, value)] + Pending();
      forall i, j, n: nat | 0 <= i < j < |Pending()| && Diverge(Pending()[i].key, Pending()[j].key, n)
        ensures n <= 0xffff
      {
        assert Diverge(all[i + 1].key, all[j + 1].key, n);
      }
    }
  }

  lemma StackSize(b: seq<Byte>, stack: seq<int>, frames: seq<Frame>, maxLength: int, str: seq<int>)
    requires StackOk(b, stack, frames, maxLength, str)
    ensures |stack| == 2 * |frames|
  {
  }

  lemma EmptyStack(frames: seq<Frame>, maxLength: int)
    requires frames == []
    ensures Balanced(frames) && StackEntries(frames, maxLength) == []
  {
  }

  lemma ShortEmpty()
    ensures Shallow([])
  {
  }

  /** Popping a frame: its part of the branch may be entered with the truncated string. */
  lemma PopFacts(b: seq<Byte>, stack: seq<int>, frames: seq<Frame>, maxLength: int, str: seq<int>, head: seq<int>)
    requires StackOk(b, stack, frames, maxLength, str) && |frames| > 0 && HeadOk(head, str, frames)
    ensures Balanced(frames) && |stack| == 2 * |frames|
    ensures var n := |frames| - 1;
            var f, packed := frames[n], stack[2 * n + 1];
            && 0 <= packed % 0x10000 <= |str| && packed / 0x10000 == |f.keys| == |f.kids| > 0
            && WellFormed(f.kids[0])
            && str[..packed % 0x10000] == f.prefix && HasRoom(maxLength, |f.prefix|)
            && Enterable(b, stack[2 * n], f.keys, f.kids, stack[..2 * n], frames[..n], maxLength, f.prefix)
            && StackOk(b, stack[..2 * n], frames[..n], maxLength, f.prefix)
            && HeadOk(head, f.prefix, frames[..n])
            && BranchPending(f.keys, f.kids, frames[..n], maxLength, f.prefix) == StackEntries(frames, maxLength)
  {
    hide LaysBranch, WellFormed, BranchEntries;
    var n := |frames| - 1;
    assert FrameOk(b, frames[n], maxLength, stack[2 * n], stack[2 * n + 1]);
    assert frames[n].prefix <= str;
  }

  /** A frame with one key left: that byte, and then the node behind it. */
  lemma LastChild(b: seq<Byte>, p: int, f: Frame, stack: seq<int>, frames: seq<Frame>, maxLength: int, str: seq<int>)
    requires Enterable(b, p, f.keys, f.kids, stack, frames, maxLength, str) && |f.keys| == 1
    ensures 0 <= p < |b|
    ensures NodeOk(b, p + 1, f.kids[0], maxLength, str + [b[p]])
    ensures NodePending(f.kids[0], frames, maxLength, str + [b[p]])
            == BranchPending(f.keys, f.kids, frames, maxLength, str)
  {
    hide StackOk, Lays, WellFormed, StackEntries, Entries;
    StackBalanced(b, stack, frames, maxLength, str);
    assert b[p] == f.keys[0] && Lays(b, p + 1, f.kids[0]);
    BranchEntriesFirst(str, f.keys, f.kids, maxLength);
    NoEntries(f.keys[1..], f.kids[1..], RoomFor(maxLength, |str|));
  }

  lemma NoEntries(keys: seq<Byte>, kids: seq<Trie>, room: int)
    requires keys == [] && kids == []
    ensures BranchEntries(keys, kids, room) == []
  {
  }

  lemma CurrentNode(b: seq<Byte>, p: int, t: Trie, frames: seq<Frame>, maxLength: int, str: seq<int>)
    requires NodeOk(b, p, t, maxLength, str) && Balanced(frames)
    ensures NodePending(t, frames, maxLength, str)
         == CurEntries(Some(t), false, str, maxLength) + StackEntries(frames, maxLength)
  {
  }

  lemma NonEmptyNode(b: seq<Byte>, p: int, t: Trie, maxLength: int, str: seq<int>)
    requires NodeOk(b, p, t, maxLength, str)
    ensures |Prefixed(str, Entries(t, RoomFor(maxLength, |str|)))| > 0
  {
    EntriesNonEmpty(t, RoomFor(maxLength, |str|));
  }

  lemma NonEmptyPending(t: Trie, frames: seq<Frame>, maxLength: int, str: seq<int>, b: seq<Byte>, p: int)
    requires NodeOk(b, p, t, maxLength, str) && Balanced(frames)
    ensures |NodePending(t, frames, maxLength, str)| > 0
  {
    EntriesNonEmpty(t, RoomFor(maxLength, |str|));
  }

  lemma NonEmptyStack(b: seq<Byte>, stack: seq<int>, frames: seq<Frame>, maxLength: int, str: seq<int>)
    requires StackOk(b, stack, frames, maxLength, str) && |frames| > 0
    ensures Balanced(frames) && |StackEntries(frames, maxLength)| > 0
  {
    var f := frames[|frames| - 1];
    BranchEntriesFirst(f.prefix, f.keys, f.kids, maxLength);
    EntriesNonEmpty(f.kids[0], RoomFor(maxLength, |f.prefix| + 1));
  }

  lemma ValueLaid(b: seq<Byte>, p: int, t: Trie)
    requires (t.Final? || t.Value?) && WellFormed(t) && Lays(b, p, t)
    ensures ValueFits(b, p) && ReadValue(b, p + 1, b[p] / 2) == t.value
    ensures t.Value? ==> AfterValue(b, p) >= 0 && WellFormed(t.rest) && Lays(b, AfterValue(b, p), t.rest)
  {
  }

  lemma ValueEntries(t: Trie, room: int)
    requires t.Final? || t.Value?
    ensures Entries(t, room) == [Entry([], t.value)] + if t.Final? || room == 0 then [] else Entries(t.rest, room)
  {
    if t.Final? { assert [Entry([], t.value)] + [] == [Entry([], t.value)]; }
  }

  lemma VisitValue(b: seq<Byte>, p: int, t: Trie, frames: seq<Frame>, maxLength: int, str: seq<int>)
    requires NodeOk(b, p, t, maxLength, str) && (t.Final? || t.Value?) && Balanced(frames)
    ensures ValueFits(b, p) && ReadValue(b, p + 1, b[p] / 2) == t.value
    ensures var last := t.Final? || (maxLength > 0 && |str| == maxLength);
            var cur := if last then None else Some(t.rest);
            && NodePending(t, frames, maxLength, str)
               == [Entry(str, t.value)] + CurEntries(cur, false, str, maxLength) + StackEntries(frames, maxLength)
            && (!last ==> NodeOk(b, AfterValue(b, p), t.rest, maxLength, str))
  {
    hide StackEntries, Entries, Lays, WellFormed, ReadValue, AfterValue, ValueFits, Prefixed, Balanced;
    ValueLaid(b, p, t);
    ValuePending(t, RoomFor(maxLength, |str|), str);
  }

  lemma ValuePending(t: Trie, room: int, str: seq<int>)
    requires t.Final? || t.Value?
    ensures Prefixed(str, Entries(t, room))
            == [Entry(str, t.value)] + if t.Final? || room == 0 then [] else Prefixed(str, Entries(t.rest, room))
  {
    hide Entries;
    ValueEntries(t, room);
    assert str + [] == str;
    if t.Value? && room != 0 { PrefixedAppend(str, [Entry([], t.value)], Entries(t.rest, room)); }
  }

  lemma VisitFull(b: seq<Byte>, p: int, t: Trie, frames: seq<Frame>, maxLength: int, str: seq<int>)
    requires NodeOk(b, p, t, maxLength, str) && !(t.Final? || t.Value?) && Balanced(frames)
    requires maxLength > 0 && |str| == maxLength
    ensures NodePending(t, frames, maxLength, str)
         == [Entry(str, -1)] + CurEntries(None, false, str, maxLength) + StackEntries(frames, maxLength)
  {
    hide StackEntries;
    assert str + [] == str;
    assert t.Linear? ==> t.units[..0] == [];
  }

  lemma VisitBranch(b: seq<Byte>, p: int, t: Trie, stack: seq<int>, frames: seq<Frame>, maxLength: int, str: seq<int>)
    requires NodeOk(b, p, t, maxLength, str) && t.Branch? && HasRoom(maxLength, |str|)
    requires StackOk(b, stack, frames, maxLength, str) && Shallow(NodePending(t, frames, maxLength, str))
    ensures BranchHead(b, p, |t.keys|) && |t.kids| > 0 && WellFormed(t.kids[0])
    ensures Enterable(b, AfterHead(b, p), t.keys, t.kids, stack, frames, maxLength, str)
    ensures BranchPending(t.keys, t.kids, frames, maxLength, str) == NodePending(t, frames, maxLength, str)
  {
    NodeAt(b, p, t);
    StackBalanced(b, stack, frames, maxLength, str);
    hide Lays, LaysBranch, StackOk, StackEntries, Prefixed, BranchEntries, Diverge;
    var all := NodePending(t, frames, maxLength, str);
    var j := BranchDiverges(t.keys, t.kids, maxLength, str);
    assert all[0] == Prefixed(str, BranchEntries(t.keys, t.kids, RoomFor(maxLength, |str|)))[0];
    assert Diverge(all[0].key, all[j].key, |str|);
  }

  lemma FrontOf(key: seq<int>, str: seq<int>, c: int)
    requires |key| > |str| && key[..|str| + 1] == str + [c]
    ensures key[..|str|] == str && key[|str|] == c
  {
    assert key[..|str|] == key[..|str| + 1][..|str|] && key[|str|] == key[..|str| + 1][|str|];
  }

  /** The first entries of the first two children diverge where the branch is. */
  lemma BranchDiverges(keys: seq<Byte>, kids: seq<Trie>, maxLength: int, str: seq<int>) returns (j: nat)
    requires 2 <= |keys| == |kids| && Ascending(keys) && (forall i :: 0 <= i < |kids| ==> WellFormed(kids[i]))
    requires HasRoom(maxLength, |str|)
    ensures var es := Prefixed(str, BranchEntries(keys, kids, RoomFor(maxLength, |str|)));
            0 < j < |es| && Diverge(es[0].key, es[j].key, |str|)
  {
    hide BranchEntries, Entries, WellFormed;
    var room := RoomFor(maxLength, |str| + 1);
    BranchEntriesFirst(str, keys, kids, maxLength);
    BranchEntriesFirst(str, keys[1..], kids[1..], maxLength);
    EntriesNonEmpty(kids[0], room);
    EntriesNonEmpty(kids[1], room);
    j := |Entries(kids[0], room)|;
    var es := Prefixed(str, BranchEntries(keys, kids, RoomFor(maxLength, |str|)));
    assert es[0].key[..|str| + 1] == str + [keys[0]] && es[j].key[..|str| + 1] == str + [keys[1]];
    FrontOf(es[0].key, str, keys[0]);
    FrontOf(es[j].key, str, keys[1]);
  }

  lemma VisitLinear(b: seq<Byte>, p: int, t: Trie, frames: seq<Frame>, maxLength: int, str: seq<int>)
    requires NodeOk(b, p, t, maxLength, str) && t.Linear? && HasRoom(maxLength, |str|) && Balanced(frames)
    ensures 0 <= p < |b| && b[p] - MIN_LINEAR_MATCH + 1 == |t.units| && p + 1 + |t.units| <= |b|
    ensures maxLength > 0 && |str| + |t.units| > maxLength ==>
              var str' := str + b[p + 1..p + 1 + (maxLength - |str|)];
              NodePending(t, frames, maxLength, str)
              == [Entry(str', -1)] + CurEntries(None, false, str', maxLength) + StackEntries(frames, maxLength)
    ensures !(maxLength > 0 && |str| + |t.units| > maxLength) ==>
              var str' := str + b[p + 1..p + 1 + |t.units|];
              && NodePending(t, frames, maxLength, str) == NodePending(t.rest, frames, maxLength, str')
              && NodeOk(b, p + 1 + |t.units|, t.rest, maxLength, str')
  {
    hide StackEntries;
    var room := RoomFor(maxLength, |str|);
    assert b[p + 1..p + 1 + |t.units|] == t.units;
    if maxLength > 0 && |str| + |t.units| > maxLength {
      assert t.units[..room] == b[p + 1..p + 1 + room];
    } else {
      assert Less(room, |t.units|) == RoomFor(maxLength, |str| + |t.units|);
      PrefixedTwice(str, t.units, Entries(t.rest, Less(room, |t.units|)));
    }
  }

  lemma EnterChild(b: seq<Byte>, p: int, t: Trie, frames: seq<Frame>, maxLength: int, str: seq<int>)
    requires p >= 0 && WellFormed(t) && Lays(b, p, t) && Balanced(frames) && (maxLength > 0 ==> |str| <= maxLength)
    ensures NodeOk(b, p, t, maxLength, str)
    ensures NodePending(t, frames, maxLength, str)
         == Prefixed(str, Entries(t, RoomFor(maxLength, |str|))) + StackEntries(frames, maxLength)
  {
  }

  lemma HeadExtends(head: seq<int>, str: seq<int>, frames: seq<Frame>, str': seq<int>, frames': seq<Frame>, c: int)
    requires HeadOk(head, str, frames) && Extends(frames', frames, str) && str' == str + [c]
    ensures HeadOk(head, str', frames')
  {
  }

  lemma StrGrows(b: seq<Byte>, stack: seq<int>, frames: seq<Frame>, maxLength: int, head: seq<int>, str: seq<int>,
                 str': seq<int>)
    requires StackOk(b, stack, frames, maxLength, str) && HeadOk(head, str, frames) && str <= str'
    ensures StackOk(b, stack, frames, maxLength, str') && HeadOk(head, str', frames)
  {
  }

  /** Where iteration starts: past the bytes of a pending linear-match node, if they all fit. */
  ghost function StartTrie(t: Trie, remaining: int, maxLength: int): Option<Trie> {
    if remaining < 0 || !t.Linear? || 0 < maxLength < |t.units| then Some(t) else Some(t.rest)
  }

  lemma StartNode(b: seq<Byte>, pos: int, remaining: int, t: Trie, maxLength: int)
    requires pos >= 0 && WellFormed(t) && CursorAt(b, pos, remaining, t)
    ensures var h := HeadOf(t, remaining, maxLength);
            && h == b[pos..pos + |h|]
            && |h| == (if 0 < maxLength < remaining + 1 then maxLength else remaining + 1)
            && (remaining - |h| >= 0 <==> remaining >= 0 && 0 < maxLength < |t.units|)
            && (remaining - |h| < 0 ==> NodeOk(b, pos + |h|, StartTrie(t, remaining, maxLength).value, maxLength, h))
  {
    if remaining >= 0 {
      assert b[pos..pos + |t.units|] == t.units;
    }
  }

  lemma StartPending(t: Trie, remaining: int, maxLength: int)
    requires WellFormed(t) && (remaining >= 0 ==> t.Linear? && |t.units| == remaining + 1)
    ensures var truncated := remaining >= 0 && 0 < maxLength < |t.units|;
            CurEntries(StartTrie(t, remaining, maxLength), truncated, HeadOf(t, remaining, maxLength), maxLength)
            == Entries(t, RoomFor(maxLength, 0))
  {
    if remaining < 0 {
      PrefixedEmpty(Entries(t, RoomFor(maxLength, 0)));
    }
  }

  lemma PrefixedEmpty(es: seq<Entry>)
    ensures Prefixed([], es) == es
  {
    forall i | 0 <= i < |es|
      ensures Prefixed([], es)[i] == es[i]
    {
      assert [] + es[i].key == es[i].key;
    }
  }

  /** The node at p is laid out there and the string so far leaves room or is exactly full. */
  ghost predicate NodeOk(b: seq<Byte>, p: int, t: Trie, maxLength: int, str: seq<int>) {
    p >= 0 && WellFormed(t) && Lays(b, p, t) && (maxLength > 0 ==> |str| <= maxLength)
  }

  /** The bytes matched before iteration started stay at the front of every string. */
  ghost predicate HeadOk(head: seq<int>, str: seq<int>, frames: seq<Frame>) {
    head <= str && forall i :: 0 <= i < |frames| ==> head <= frames[i].prefix
  }

  ghost function NodePending(t: Trie, frames: seq<Frame>, maxLength: int, str: seq<int>): seq<Entry> {
    if !Balanced(frames) then []
    else Prefixed(str, Entries(t, RoomFor(maxLength, |str|))) + StackEntries(frames, maxLength)
  }

  ghost function CurEntries(cur: Option<Trie>, truncated: bool, str: seq<int>, maxLength: int): seq<Entry> {
    match cur
    case None => []
    case Some(t) =>
      if truncated then [Entry(str, -1)]
      else Prefixed(str, Entries(t, RoomFor(maxLength, |str|)))
  }

  ghost function HeadOf(t: Trie, remaining: int, maxLength: int): seq<int> {
    if remaining < 0 || !t.Linear? then []
    else if 0 < maxLength < |t.units| then t.units[..maxLength] else t.units
  }
}
