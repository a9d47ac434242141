/**
  The abstract trie behind source/common/bytestrie.cpp: what a serialized trie means,
  independently of how its bytes are laid out.
 */
module TrieModel {
  import opened Basics

  predicate IsInt32(v: int) {
    -0x8000_0000 <= v < 0x8000_0000
  }

  /** One node and everything reachable from it. */
  datatype Trie =
    | Final(value: int)
    | Value(value: int, rest: Trie)
    | Linear(units: seq<Byte>, rest: Trie)
    | Branch(keys: seq<Byte>, kids: seq<Trie>)

  ghost predicate Ascending(keys: seq<Byte>) {
    forall i, j :: 0 <= i < j < |keys| ==> keys[i] < keys[j]
  }

  /** The shapes the serialized form can express. */
  ghost predicate WellFormed(t: Trie) {
    match t
    case Final(v) => IsInt32(v)
    case Value(v, rest) => IsInt32(v) && !rest.Final? && !rest.Value? && WellFormed(rest)
    case Linear(units, rest) => 1 <= |units| <= 0x10 && WellFormed(rest)
    case Branch(keys, kids) =>
      && |keys| == |kids| >= 2
      && Ascending(keys)
      && forall i :: 0 <= i < |kids| ==> WellFormed(kids[i])
  }

  // ---------- the keys and values a trie stores ----------

  datatype Entry = Entry(key: seq<int>, value: int)

  function Prefixed(p: seq<int>, es: seq<Entry>): (r: seq<Entry>)
    ensures |r| == |es|
    ensures forall i :: 0 <= i < |es| ==> r[i] == Entry(p + es[i].key, es[i].value)
  {
    seq(|es|, i requires 0 <= i < |es| => Entry(p + es[i].key, es[i].value))
  }

  /** Remaining room for key bytes after n more; negative room means no limit. */
  function Less(room: int, n: nat): int {
    if room < 0 then -1 else room - n
  }

  /**
    The entries of t in delivery order, each key cut to `room` bytes. A key that is cut carries -1.
    With a negative room nothing is cut.
   */
  ghost function Entries(t: Trie, room: int): seq<Entry>
    decreases t, 1
  {
    match t
    case Final(v) => [Entry([], v)]
    case Value(v, rest) => [Entry([], v)] + (if room == 0 then [] else Entries(rest, room))
    case Linear(units, rest) =>
      if 0 <= room < |units| then [Entry(units[..room], -1)]
      else Prefixed(units, Entries(rest, Less(room, |units|)))
    case Branch(keys, kids) =>
      if room == 0 || |keys| != |kids| then [Entry([], -1)] else BranchEntries(keys, kids, room)
  }

  ghost function BranchEntries(keys: seq<Byte>, kids: seq<Trie>, room: int): seq<Entry>
    requires |keys| == |kids|
    decreases kids, 0
  {
    if |keys| == 0 then []
    else Prefixed([keys[0]], Entries(kids[0], Less(room, 1))) + BranchEntries(keys[1..], kids[1..], room)
  }

  // ---------- following one byte ----------

  /** Index of c among keys, or |keys|. */
  function IndexOf(keys: seq<Byte>, c: int): (r: nat)
    ensures r <= |keys|
    ensures r < |keys| ==> keys[r] == c
    ensures forall i :: 0 <= i < r ==> keys[i] != c
  {
    if |keys| == 0 || keys[0] == c then 0 else 1 + IndexOf(keys[1..], c)
  }

  function Child(keys: seq<Byte>, kids: seq<Trie>, c: int): Option<Trie>
    requires |keys| == |kids|
  {
    var i := IndexOf(keys, c);
    if i < |keys| then Some(kids[i]) else None
  }

  /** The sub-trie reached from t by one byte, if any key continues with it. */
  function Step(t: Trie, c: int): Option<Trie> {
    match t
    case Final(_) => None
    case Value(_, rest) => Step(rest, c)
    case Linear(units, rest) =>
      if |units| == 0 || units[0] != c then None
      else if |units| == 1 then Some(rest) else Some(Linear(units[1..], rest))
    case Branch(keys, kids) =>
      if |keys| == |kids| then Child(keys, kids, c) else None
  }

  function StepOpt(o: Option<Trie>, c: int): Option<Trie> {
    if o.None? then None else Step(o.value, c)
  }

  /** Following the bytes of s one after the other. */
  function Descend(o: Option<Trie>, s: seq<int>): Option<Trie>
    decreases |s|
  {
    if |s| == 0 then o else Descend(StepOpt(o, s[0]), s[1..])
  }

  function HasValue(t: Trie): bool { t.Final? || t.Value? }

  // ---------- Step against Entries ----------

  ghost predicate HasEntry(t: Trie, key: seq<int>, v: int) {
    Entry(key, v) in Entries(t, -1)
  }

  lemma InPrefixed(p: seq<int>, es: seq<Entry>, k: seq<int>, v: int)
    ensures Entry(p + k, v) in Prefixed(p, es) <==> Entry(k, v) in es
  {
    var r := Prefixed(p, es);
    if Entry(k, v) in es {
      var i :| 0 <= i < |es| && es[i] == Entry(k, v);
      assert r[i] == Entry(p + k, v);
    }
    if Entry(p + k, v) in r {
      var i :| 0 <= i < |r| && r[i] == Entry(p + k, v);
      assert k == (p + k)[|p|..] == (p + es[i].key)[|p|..] == es[i].key;
    }
  }

  lemma PrefixedStart(p: seq<int>, es: seq<Entry>, e: Entry)
    requires e in Prefixed(p, es)
    ensures |e.key| >= |p| && e.key[..|p|] == p
  {
    var i :| 0 <= i < |es| && Prefixed(p, es)[i] == e;
  }

  /** A branch entry under byte c is an entry of the child selected by c. */
  lemma {:induction false} InBranch(keys: seq<Byte>, kids: seq<Trie>, c: int, k: seq<int>, v: int)
    requires |keys| == |kids| && Ascending(keys)
    ensures Entry([c] + k, v) in BranchEntries(keys, kids, -1)
       <==> Child(keys, kids, c).Some? && HasEntry(Child(keys, kids, c).value, k, v)
    decreases |keys|
  {
    if |keys| > 0 {
      var first := Prefixed([keys[0]], Entries(kids[0], -1));
      var others := BranchEntries(keys[1..], kids[1..], -1);
      InBranch(keys[1..], kids[1..], c, k, v);
      if keys[0] == c {
        InPrefixed([c], Entries(kids[0], -1), k, v);
        assert Child(keys[1..], kids[1..], c).None? by {
          assert forall i :: 0 <= i < |keys[1..]| ==> keys[1..][i] == keys[i + 1];
        }
      } else if Entry([c] + k, v) in first {
        PrefixedStart([keys[0]], Entries(kids[0], -1), Entry([c] + k, v));
        assert false;
      }
    }
  }

  lemma {:induction false} NoEmptyKeyInBranch(keys: seq<Byte>, kids: seq<Trie>, e: Entry)
    requires |keys| == |kids|
    requires e in BranchEntries(keys, kids, -1)
    ensures e.key != []
    decreases |keys|
  {
    var first := Prefixed([keys[0]], Entries(kids[0], -1));
    if e in first {
      PrefixedStart([keys[0]], Entries(kids[0], -1), e);
    } else {
      NoEmptyKeyInBranch(keys[1..], kids[1..], e);
    }
  }

  /** The empty key is stored exactly when the node itself carries a value. */
  lemma {:induction false} EmptyKey(t: Trie, v: int)
    requires WellFormed(t)
    ensures HasEntry(t, [], v) <==> HasValue(t) && t.value == v
  {
    match t
    case Final(_) =>
    case Value(w, rest) =>
      EmptyKey(rest, v);
    case Linear(units, rest) =>
      if HasEntry(t, [], v) {
        PrefixedStart(units, Entries(rest, -1), Entry([], v));
        assert false;
      }
    case Branch(keys, kids) =>
      if HasEntry(t, [], v) {
        NoEmptyKeyInBranch(keys, kids, Entry([], v));
        assert false;
      }
  }

  /** One byte: the longer keys of t starting with c are the keys of Step(t, c). */
  lemma {:induction false} StepEntries(t: Trie, c: int, k: seq<int>, v: int)
    requires WellFormed(t)
    ensures HasEntry(t, [c] + k, v) <==> Step(t, c).Some? && HasEntry(Step(t, c).value, k, v)
  {
    match t
    case Final(w) =>
    case Value(w, rest) =>
      StepEntries(rest, c, k, v);
    case Linear(units, rest) =>
      var tail := Entries(rest, -1);
      if units[0] != c {
        if HasEntry(t, [c] + k, v) {
          PrefixedStart(units, tail, Entry([c] + k, v));
          assert false;
        }
      } else if |units| == 1 {
        assert units == [c];
        InPrefixed([c], tail, k, v);
      } else {
        LinearTail(units, tail, k, v);
      }
    case Branch(keys, kids) =>
      InBranch(keys, kids, c, k, v);
  }

  lemma LinearTail(units: seq<Byte>, es: seq<Entry>, k: seq<int>, v: int)
    requires |units| > 1
    ensures Entry([units[0]] + k, v) in Prefixed(units, es) <==> Entry(k, v) in Prefixed(units[1..], es)
  {
    var a, b := Prefixed(units, es), Prefixed(units[1..], es);
    assert [units[0]] + units[1..] == units;
    forall i | 0 <= i < |es|
      ensures a[i].key == [units[0]] + b[i].key
    {
      assert units + es[i].key == [units[0]] + (units[1..] + es[i].key);
    }
    if Entry([units[0]] + k, v) in a {
      var i :| 0 <= i < |a| && a[i] == Entry([units[0]] + k, v);
      assert k == ([units[0]] + k)[1..] == ([units[0]] + b[i].key)[1..] == b[i].key;
    }
    if Entry(k, v) in b {
      var i :| 0 <= i < |b| && b[i] == Entry(k, v);
      assert a[i] == Entry([units[0]] + k, v);
    }
  }

  lemma {:induction false} StepWellFormed(t: Trie, c: int)
    requires WellFormed(t)
    ensures Step(t, c).Some? ==> WellFormed(Step(t, c).value)
  {
    match t
    case Final(_) =>
    case Value(_, rest) => StepWellFormed(rest, c);
    case Linear(units, rest) =>
    case Branch(keys, kids) =>
  }

  lemma {:induction false} DescendWellFormed(o: Option<Trie>, s: seq<int>)
    requires o.Some? ==> WellFormed(o.value)
    ensures Descend(o, s).Some? ==> WellFormed(Descend(o, s).value)
    decreases |s|
  {
    if |s| > 0 {
      if o.Some? { StepWellFormed(o.value, s[0]); }
      DescendWellFormed(StepOpt(o, s[0]), s[1..]);
    }
  }

  lemma {:induction false} DescendNone(s: seq<int>)
    ensures Descend(None, s) == None
    decreases |s|
  {
    if |s| > 0 { DescendNone(s[1..]); }
  }

  lemma {:induction false} DescendAppend(o: Option<Trie>, s: seq<int>, r: seq<int>)
    ensures Descend(o, s + r) == Descend(Descend(o, s), r)
    decreases |s|
  {
    if |s| == 0 {
      assert s + r == r;
    } else {
      assert (s + r)[1..] == s[1..] + r;
      DescendAppend(StepOpt(o, s[0]), s[1..], r);
    }
  }

  /** The keys of t that start with s are s followed by the keys of the sub-trie reached by s. */
  lemma {:induction false} DescendEntries(t: Trie, s: seq<int>, k: seq<int>, v: int)
    requires WellFormed(t)
    ensures HasEntry(t, s + k, v)
       <==> Descend(Some(t), s).Some? && HasEntry(Descend(Some(t), s).value, k, v)
    decreases |s|
  {
    if |s| == 0 {
      assert s + k == k;
    } else {
      assert s + k == [s[0]] + (s[1..] + k);
      StepEntries(t, s[0], s[1..] + k, v);
      StepWellFormed(t, s[0]);
      if Step(t, s[0]).Some? {
        DescendEntries(Step(t, s[0]).value, s[1..], k, v);
      } else {
        DescendNone(s[1..]);
      }
    }
  }

  lemma {:induction false} SomeEntry(t: Trie) returns (e: Entry)
    requires WellFormed(t)
    ensures e in Entries(t, -1)
  {
    match t
    case Final(v) => e := Entry([], v);
    case Value(v, rest) => e := Entry([], v);
    case Linear(units, rest) =>
      e := SomeEntry(rest);
      InPrefixed(units, Entries(rest, -1), e.key, e.value);
      e := Entry(units + e.key, e.value);
    case Branch(keys, kids) =>
      e := SomeEntry(kids[0]);
      InBranch(keys, kids, keys[0], e.key, e.value);
      e := Entry([keys[0]] + e.key, e.value);
  }

  /**
    What a cursor at Descend(t, s) tells about the stored keys: it exists exactly when some key starts
    with s, and it carries a value exactly when s itself is a key, and then that key's value.
   */
  lemma {:induction false} CursorMeaning(t: Trie, s: seq<int>)
    requires WellFormed(t)
    ensures Descend(Some(t), s).Some? <==> exists k, v :: HasEntry(t, s + k, v)
    ensures Descend(Some(t), s).Some? && HasValue(Descend(Some(t), s).value)
        ==> HasEntry(t, s, Descend(Some(t), s).value.value)
    ensures forall v | HasEntry(t, s, v) ::
              Descend(Some(t), s).Some? && HasValue(Descend(Some(t), s).value) && Descend(Some(t), s).value.value == v
  {
    var d := Descend(Some(t), s);
    if d.Some? {
      DescendWellFormed(Some(t), s);
      var e := SomeEntry(d.value);
      DescendEntries(t, s, e.key, e.value);
      assert HasEntry(t, s + e.key, e.value);
      if HasValue(d.value) {
        EmptyKey(d.value, d.value.value);
        DescendEntries(t, s, [], d.value.value);
        assert s + [] == s;
      }
    }
    forall k, v | HasEntry(t, s + k, v)
      ensures d.Some?
    {
      DescendEntries(t, s, k, v);
    }
    forall v | HasEntry(t, s, v)
      ensures d.Some? && HasValue(d.value) && d.value.value == v
    {
      assert s + [] == s;
      DescendEntries(t, s, [], v);
      DescendWellFormed(Some(t), s);
      EmptyKey(d.value, v);
    }
  }

  // ---------- order of delivery ----------

  /** Byte-wise lexicographic order, a proper prefix first. */
  ghost predicate Before(a: seq<int>, b: seq<int>) {
    exists n: nat :: n <= |a| && n < |b| && a[..n] == b[..n] && (n == |a| || a[n] < b[n])
  }

  ghost predicate Sorted(es: seq<Entry>) {
    forall i, j :: 0 <= i < j < |es| ==> Before(es[i].key, es[j].key)
  }

  lemma BeforePrefixed(p: seq<int>, a: seq<int>, b: seq<int>)
    requires Before(a, b)
    ensures Before(p + a, p + b)
  {
    var n: nat :| n <= |a| && n < |b| && a[..n] == b[..n] && (n == |a| || a[n] < b[n]);
    var m := |p| + n;
    assert (p + a)[..m] == p + a[..n] == p + b[..n] == (p + b)[..m];
  }

  lemma SortedPrefixed(p: seq<int>, es: seq<Entry>)
    requires Sorted(es)
    ensures Sorted(Prefixed(p, es))
  {
    forall i, j | 0 <= i < j < |es|
      ensures Before(Prefixed(p, es)[i].key, Prefixed(p, es)[j].key)
    {
      BeforePrefixed(p, es[i].key, es[j].key);
    }
  }

  /** All entries of a branch start with one of its keys. */
  lemma {:induction false} BranchFirstUnits(keys: seq<Byte>, kids: seq<Trie>, room: int)
    requires |keys| == |kids|
    ensures forall e :: e in BranchEntries(keys, kids, room) ==> |e.key| > 0 && e.key[0] in keys
    decreases |keys|
  {
    if |keys| > 0 {
      BranchFirstUnits(keys[1..], kids[1..], room);
      var es := Entries(kids[0], Less(room, 1));
      forall e | e in Prefixed([keys[0]], es)
        ensures |e.key| > 0 && e.key[0] in keys
      {
        PrefixedStart([keys[0]], es, e);
        assert e.key[0] == e.key[..1][0] == keys[0];
      }
    }
  }

  lemma {:induction false} SortedBranch(keys: seq<Byte>, kids: seq<Trie>, room: int)
    requires |keys| == |kids| && Ascending(keys)
    requires forall i :: 0 <= i < |kids| ==> WellFormed(kids[i])
    ensures Sorted(BranchEntries(keys, kids, room))
    decreases kids, 0
  {
    if |keys| > 0 {
      var es := Entries(kids[0], Less(room, 1));
      var first := Prefixed([keys[0]], es);
      var others := BranchEntries(keys[1..], kids[1..], room);
      SortedEntries(kids[0], Less(room, 1));
      SortedPrefixed([keys[0]], es);
      SortedBranch(keys[1..], kids[1..], room);
      BranchFirstUnits(keys[1..], kids[1..], room);
      forall i, j | 0 <= i < |first| && 0 <= j < |others|
        ensures Before(first[i].key, others[j].key)
      {
        assert others[j] in others;
        var a, b := first[i].key, others[j].key;
        assert a[..0] == b[..0];
        assert a[0] == keys[0] < b[0];
      }
    }
  }

  /** Entries come in strictly ascending byte order, so no key is delivered twice. */
  lemma {:induction false} SortedEntries(t: Trie, room: int)
    requires WellFormed(t)
    ensures Sorted(Entries(t, room))
    decreases t, 1
  {
    match t
    case Final(_) =>
    case Value(v, rest) =>
      if room != 0 {
        SortedEntries(rest, room);
        forall e | e in Entries(rest, room)
          ensures Before([], e.key)
        {
          NonEmptyKeys(rest, room, e);
          var n: nat := 0;
          var a: seq<int> := [];
          assert a[..n] == e.key[..n];
        }
      }
    case Linear(units, rest) =>
      if !(0 <= room < |units|) {
        SortedEntries(rest, Less(room, |units|));
        SortedPrefixed(units, Entries(rest, Less(room, |units|)));
      }
    case Branch(keys, kids) =>
      if room != 0 { SortedBranch(keys, kids, room); }
  }

  lemma NonEmptyKeys(t: Trie, room: int, e: Entry)
    requires WellFormed(t) && !HasValue(t) && room != 0
    requires e in Entries(t, room)
    ensures |e.key| > 0
  {
    match t
    case Linear(units, rest) =>
      if !(0 <= room < |units|) {
        PrefixedStart(units, Entries(rest, Less(room, |units|)), e);
      }
    case Branch(keys, kids) =>
      BranchFirstUnits(keys, kids, room);
  }
}
