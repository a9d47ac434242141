/**
  The constrained permutation generator of source/common/caniter.cpp, on strings of code points.
 */
module CanonPermute {

  type Text = seq<int>

  // ---------- rearrangements ----------

  /** order lists each of 0..n-1 once. */
  ghost predicate IsOrder(order: seq<int>, n: nat) {
    && |order| == n
    && (forall x :: 0 <= x < n ==> 0 <= order[x] < n)
    && (forall x, y :: 0 <= x < y < n ==> order[x] != order[y])
    && (forall v :: 0 <= v < n ==> v in order)
  }

  /** What moves ahead of something that preceded it is not of combining class 0. */
  ghost predicate KeepsStarters(ccc: int -> int, s: Text, order: seq<int>)
    requires IsOrder(order, |s|)
  {
    forall x, y :: 0 <= x < y < |s| && order[x] > order[y] ==> ccc(s[order[x]]) != 0
  }

  /** t is s rearranged by order; with skipZeros no character of class 0 moves ahead of one that preceded it. */
  ghost predicate RearrangedBy(ccc: int -> int, s: Text, t: Text, skipZeros: bool, order: seq<int>) {
    && |t| == |s| && IsOrder(order, |s|)
    && (forall x :: 0 <= x < |s| ==> t[x] == s[order[x]])
    && (skipZeros ==> KeepsStarters(ccc, s, order))
  }

  ghost predicate Rearranged(ccc: int -> int, s: Text, t: Text, skipZeros: bool) {
    exists order: seq<int> :: RearrangedBy(ccc, s, t, skipZeros, order)
  }

  function Without(s: Text, i: nat): Text
    requires i < |s|
  {
    s[..i] + s[i + 1..]
  }

  /** Which characters may come first. */
  predicate MayLead(ccc: int -> int, s: Text, i: nat, skipZeros: bool)
    requires i < |s|
  {
    !(skipZeros && i != 0 && ccc(s[i]) == 0)
  }

  function Lowered(v: int, i: int): int { if v > i then v - 1 else v }

  function Raised(v: int, i: int): int { if v >= i then v + 1 else v }

  function Rest(order: seq<int>): (r: seq<int>)
    requires |order| > 0
    ensures |r| == |order| - 1 && forall x :: 0 <= x < |r| ==> r[x] == Lowered(order[x + 1], order[0])
  {
    seq(|order| - 1, x requires 0 <= x < |order| - 1 => Lowered(order[x + 1], order[0]))
  }

  function Led(i: int, order: seq<int>): (r: seq<int>)
    ensures |r| == |order| + 1 && r[0] == i && forall x :: 0 <= x < |order| ==> r[x + 1] == Raised(order[x], i)
  {
    [i] + seq(|order|, x requires 0 <= x < |order| => Raised(order[x], i))
  }

  lemma WithoutAt(s: Text, i: nat, v: int)
    requires i < |s| && 0 <= v < |s| - 1
    ensures Without(s, i)[v] == s[Raised(v, i)]
  {
  }

  lemma RestIsOrder(order: seq<int>, n: nat)
    requires n > 0 && IsOrder(order, n)
    ensures IsOrder(Rest(order), n - 1)
  {
    var i, r := order[0], Rest(order);
    forall v | 0 <= v < n - 1
      ensures v in r
    {
      assert Raised(v, i) in order;
      var x :| 0 <= x < n && order[x] == Raised(v, i);
      assert x > 0;
      assert r[x - 1] == Lowered(order[(x - 1) + 1], i);
    }
    forall x | 0 <= x < n - 1
      ensures 0 <= r[x] < n - 1
    {
      assert order[x + 1] != order[0];
    }
    forall x, y | 0 <= x < y < n - 1
      ensures r[x] != r[y]
    {
      assert order[x + 1] != order[y + 1] && order[x + 1] != i && order[y + 1] != i;
    }
  }

  lemma LedAt(i: int, order: seq<int>, x: int)
    requires 0 < x <= |order|
    ensures Led(i, order)[x] == Raised(order[x - 1], i)
  {
    assert Led(i, order)[(x - 1) + 1] == Raised(order[x - 1], i);
  }

  lemma LedHas(i: int, order: seq<int>, n: nat, v: int)
    requires IsOrder(order, n) && 0 <= i <= n && 0 <= v <= n
    ensures v in Led(i, order)
  {
    hide IsOrder, Led;
    var r := Led(i, order);
    if v == i {
      assert r[0] == v;
    } else {
      var x := Position(order, n, Lowered(v, i));
      LedAt(i, order, x + 1);
      assert r[x + 1] == v;
    }
  }

  lemma Position(order: seq<int>, n: nat, v: int) returns (x: nat)
    requires IsOrder(order, n) && 0 <= v < n
    ensures x < |order| && order[x] == v
  {
    assert v in order;
    x :| x < |order| && order[x] == v;
  }

  lemma LedIsOrder(i: nat, order: seq<int>, n: nat)
    requires i < n && IsOrder(order, n - 1)
    ensures IsOrder(Led(i, order), n)
  {
    hide Led;
    var r := Led(i, order);
    forall v | 0 <= v < n
      ensures v in r
    {
      LedHas(i, order, n - 1, v);
    }
    forall x | 0 <= x < n
      ensures 0 <= r[x] < n
    {
      if x > 0 { LedAt(i, order, x); }
    }
    forall x, y | 0 <= x < y < n
      ensures r[x] != r[y]
    {
      LedAt(i, order, y);
      if x > 0 { LedAt(i, order, x); }
    }
  }

  /** Taking the first character of a rearrangement away leaves a rearrangement of the rest. */
  lemma Unlead(ccc: int -> int, s: Text, t: Text, skipZeros: bool, order: seq<int>)
    requires |s| > 0 && RearrangedBy(ccc, s, t, skipZeros, order)
    ensures |order| == |t| == |s| && 0 <= order[0] < |s| && t[0] == s[order[0]] && MayLead(ccc, s, order[0], skipZeros)
    ensures RearrangedBy(ccc, Without(s, order[0]), t[1..], skipZeros, Rest(order))
  {
    hide IsOrder, Without, KeepsStarters;
    OrderStart(order, |s|);
    RestIsOrder(order, |s|);
    forall x | 0 <= x < |s| - 1
      ensures 0 <= Rest(order)[x] < |Without(s, order[0])| && t[1..][x] == Without(s, order[0])[Rest(order)[x]]
    {
      UnledUnit(s, order, x);
    }
    if skipZeros { UnleadKeeps(ccc, s, order); }
    OneLess(s, order[0]);
  }

  lemma OneLess(s: Text, i: nat)
    requires i < |s|
    ensures |Without(s, i)| == |s| - 1
  {
  }

  lemma UnleadKeeps(ccc: int -> int, s: Text, order: seq<int>)
    requires |s| > 0 && IsOrder(order, |s|) && KeepsStarters(ccc, s, order)
    ensures MayLead(ccc, s, order[0], true)
    ensures IsOrder(Rest(order), |s| - 1) && KeepsStarters(ccc, Without(s, order[0]), Rest(order))
  {
    var r, s' := Rest(order), Without(s, order[0]);
    RestIsOrder(order, |s|);
    OrderStart(order, |s|);
    if order[0] != 0 {
      var y :| 0 <= y < |s| && order[y] == 0;
      assert order[0] > order[y];
    }
    forall x, y | 0 <= x < y < |r| && r[x] > r[y]
      ensures ccc(s'[r[x]]) != 0
    {
      UnledUnit(s, order, x);
      assert order[x + 1] > order[y + 1];
    }
  }

  lemma OrderStart(order: seq<int>, n: nat)
    requires n > 0 && IsOrder(order, n)
    ensures |order| == n && 0 <= order[0] < n && exists y :: 0 <= y < n && order[y] == 0
  {
    assert 0 in order;
  }

  lemma UnledUnit(s: Text, order: seq<int>, x: nat)
    requires IsOrder(order, |s|) && x < |s| - 1
    ensures |order| == |s| && 0 <= order[0] < |s| && |Rest(order)| == |s| - 1
    ensures 0 <= order[x + 1] < |s| && 0 <= Rest(order)[x] < |Without(s, order[0])|
    ensures Without(s, order[0])[Rest(order)[x]] == s[order[x + 1]]
  {
    RestIsOrder(order, |s|);
    assert order[x + 1] != order[0];
    WithoutAt(s, order[0], Rest(order)[x]);
  }

  /** Behind the first one, the characters of the longer string are those of the shorter one. */
  lemma LedUnit(s: Text, i: nat, order: seq<int>, x: int)
    requires i < |s| && IsOrder(order, |s| - 1) && 0 < x < |s|
    ensures var r := Led(i, order);
            0 <= r[x] < |s| && r[x] == Raised(order[x - 1], i) && s[r[x]] == Without(s, i)[order[x - 1]]
  {
    LedAt(i, order, x);
    WithoutAt(s, i, order[x - 1]);
  }

  lemma LedKeeps(ccc: int -> int, s: Text, i: nat, order: seq<int>)
    requires i < |s| && MayLead(ccc, s, i, true) && IsOrder(order, |s| - 1)
    requires KeepsStarters(ccc, Without(s, i), order)
    ensures IsOrder(Led(i, order), |s|) && KeepsStarters(ccc, s, Led(i, order))
  {
    hide Led, Without, IsOrder;
    LedIsOrder(i, order, |s|);
    WithoutLength(s, i);
    var r := Led(i, order);
    Sizes(i, order, |s|);
    forall x, y | 0 <= x < y < |s| && r[x] > r[y]
      ensures ccc(s[r[x]]) != 0
    {
      LedUnit(s, i, order, y);
      if x > 0 {
        LedUnit(s, i, order, x);
        assert order[x - 1] > order[y - 1];
      }
    }
  }

  lemma Sizes(i: nat, order: seq<int>, n: nat)
    requires i < n && IsOrder(order, n - 1)
    ensures |order| == n - 1 && |Led(i, order)| == n && Led(i, order)[0] == i
    ensures IsOrder(Led(i, order), n) ==> forall x :: 0 <= x < n ==> 0 <= Led(i, order)[x] < n
    ensures forall x :: 0 <= x < n - 1 ==> 0 <= order[x] < n - 1
  {
  }

  /** Leading with a character that may come first gives a rearrangement. */
  lemma Lead(ccc: int -> int, s: Text, i: nat, t: Text, skipZeros: bool, order: seq<int>)
    requires i < |s| && MayLead(ccc, s, i, skipZeros) && RearrangedBy(ccc, Without(s, i), t, skipZeros, order)
    ensures RearrangedBy(ccc, s, [s[i]] + t, skipZeros, Led(i, order))
  {
    hide Led, KeepsStarters, MayLead, IsOrder;
    var n, r := |s|, Led(i, order);
    WithoutLength(s, i);
    LedIsOrder(i, order, n);
    Sizes(i, order, n);
    var t' := [s[i]] + t;
    forall x | 0 <= x < n
      ensures t'[x] == s[r[x]]
    {
      if x > 0 { LedUnit(s, i, order, x); }
    }
    if skipZeros { LedKeeps(ccc, s, i, order); }
  }

  /** The recursion that the generator follows. */
  lemma RearrangedStep(ccc: int -> int, s: Text, t: Text, skipZeros: bool)
    requires |s| > 0
    ensures Rearranged(ccc, s, t, skipZeros) <==>
              |t| > 0 && exists i: nat :: i < |s| && Leads(ccc, s, i, t, skipZeros)
  {
    hide RearrangedBy, MayLead, Without, Led, Rest;
    if Rearranged(ccc, s, t, skipZeros) {
      var order: seq<int> :| RearrangedBy(ccc, s, t, skipZeros, order);
      Unlead(ccc, s, t, skipZeros, order);
      var i: nat := order[0];
      assert Leads(ccc, s, i, t, skipZeros);
    }
    if |t| > 0 && exists i: nat :: i < |s| && Leads(ccc, s, i, t, skipZeros) {
      var i: nat :| i < |s| && Leads(ccc, s, i, t, skipZeros);
      var order: seq<int> :| RearrangedBy(ccc, Without(s, i), t[1..], skipZeros, order);
      Lead(ccc, s, i, t[1..], skipZeros, order);
      assert [s[i]] + t[1..] == t;
    }
  }

  /** t is s[i] followed by a rearrangement of the rest. */
  ghost predicate Leads(ccc: int -> int, s: Text, i: nat, t: Text, skipZeros: bool)
    requires i < |s|
  {
    |t| > 0 && t[0] == s[i] && MayLead(ccc, s, i, skipZeros) && Rearranged(ccc, Without(s, i), t[1..], skipZeros)
  }

  lemma ShortRearranged(ccc: int -> int, s: Text, t: Text, skipZeros: bool)
    requires |s| <= 1
    ensures Rearranged(ccc, s, t, skipZeros) <==> t == s
  {
    if t == s {
      var order: seq<int> := if |s| == 0 then [] else [0];
      assert RearrangedBy(ccc, s, t, skipZeros, order);
    }
  }

  lemma WithoutBag(s: Text, i: nat)
    requires i < |s|
    ensures multiset(s) == multiset(Without(s, i)) + multiset{s[i]}
  {
    assert s == s[..i] + [s[i]] + s[i + 1..];
  }

  lemma Cancel(a: multiset<int>, b: multiset<int>, c: multiset<int>)
    ensures a + c == b + c <==> a == b
  {
    if a + c == b + c { assert a == a + c - c && b == b + c - c; }
  }

  /** Without the restriction, all strings of the same characters are rearrangements. */
  lemma {:induction false} AllRearrangements(ccc: int -> int, s: Text, t: Text)
    ensures Rearranged(ccc, s, t, false) <==> multiset(t) == multiset(s)
    decreases |s|
  {
    hide Rearranged, Without;
    if |s| == 0 {
      ShortRearranged(ccc, s, t, false);
      assert multiset(t) == multiset{} ==> |t| == 0 by { if |t| > 0 { assert t[0] in multiset(t); } }
    } else {
      RearrangedStep(ccc, s, t, false);
      forall i: nat | i < |s| && |t| > 0 && t[0] == s[i]
        ensures Leads(ccc, s, i, t, false) <==> multiset(t) == multiset(s)
      {
        WithoutLength(s, i);
        WithoutBag(s, i);
        AllRearrangements(ccc, Without(s, i), t[1..]);
        assert t == [t[0]] + t[1..];
        Cancel(multiset(t[1..]), multiset(Without(s, i)), multiset{t[0]});
        assert multiset(t) == multiset(t[1..]) + multiset{t[0]};
        assert MayLead(ccc, s, i, false);
      }
      if multiset(t) == multiset(s) {
        assert s[0] in multiset(t);
        assert t[0] in multiset(s);
        var i: nat :| i < |s| && s[i] == t[0];
        assert Leads(ccc, s, i, t, false);
      }
    }
  }

  // ---------- the generator ----------

  /** permute(): adds exactly the allowed rearrangements of source to the result. */
  method Permute(ccc: int -> int, source: Text, skipZeros: bool, result0: set<Text>) returns (result: set<Text>)
    ensures forall t :: t in result <==> t in result0 || Rearranged(ccc, source, t, skipZeros)
    decreases |source|
  {
    hide Rearranged, MayLead, Without;
    result := result0;
    if |source| <= 1 {
      forall t ensures Rearranged(ccc, source, t, skipZeros) <==> t == source {
        ShortRearranged(ccc, source, t, skipZeros);
      }
      result := result + {source};
      return;
    }
    var i := 0;
    while i < |source|
      invariant 0 <= i <= |source|
      invariant forall t :: t in result <==> t in result0 || LedBefore(ccc, source, i, t, skipZeros)
    {
      ghost var was := result;
      if !(skipZeros && i != 0 && ccc(source[i]) == 0) {
        WithoutLength(source, i);
        var subpermute := Permute(ccc, Without(source, i), skipZeros, {});
        result := PrefixAll(source[i], subpermute, result);
      }
      forall t
        ensures t in result <==> t in result0 || LedBefore(ccc, source, i + 1, t, skipZeros)
      {
        OneMoreLead(ccc, source, i, t, skipZeros);
      }
      i := i + 1;
    }
    forall t
      ensures LedBefore(ccc, source, |source|, t, skipZeros) <==> Rearranged(ccc, source, t, skipZeros)
    {
      RearrangedStep(ccc, source, t, skipZeros);
    }
  }

  ghost predicate LedBefore(ccc: int -> int, s: Text, k: nat, t: Text, skipZeros: bool) {
    exists i: nat :: i < k && i < |s| && Leads(ccc, s, i, t, skipZeros)
  }

  lemma OneMoreLead(ccc: int -> int, s: Text, k: nat, t: Text, skipZeros: bool)
    requires k < |s|
    ensures LedBefore(ccc, s, k + 1, t, skipZeros) <==>
            LedBefore(ccc, s, k, t, skipZeros) || Leads(ccc, s, k, t, skipZeros)
    ensures Leads(ccc, s, k, t, skipZeros) <==>
              MayLead(ccc, s, k, skipZeros) && |t| > 0 && t[0] == s[k]
                && Rearranged(ccc, Without(s, k), t[1..], skipZeros)
    ensures MayLead(ccc, s, k, skipZeros) <==> !(skipZeros && k != 0 && ccc(s[k]) == 0)
  {
    hide Rearranged, Without;
  }

  lemma WithoutLength(s: Text, i: nat)
    requires i < |s|
    ensures |Without(s, i)| == |s| - 1
  {
  }

  method PrefixAll(cp: int, subpermute: set<Text>, result0: set<Text>) returns (result: set<Text>)
    ensures forall t :: t in result <==> t in result0 || (|t| > 0 && t[0] == cp && t[1..] in subpermute)
  {
    result := result0;
    var rest := subpermute;
    while rest != {}
      invariant rest <= subpermute
      invariant forall t :: t in result <==> t in result0 || (|t| > 0 && t[0] == cp && t[1..] in subpermute - rest)
      decreases |rest|
    {
      var p :| p in rest;
      ghost var was := result;
      result := result + {[cp] + p};
      rest := rest - {p};
      forall t
        ensures t in result <==> t in result0 || (|t| > 0 && t[0] == cp && t[1..] in subpermute - rest)
      {
        if |t| > 0 && t[0] == cp && t[1..] == p { assert t == [cp] + p; }
      }
    }
  }
}
