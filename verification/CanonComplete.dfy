/**
  Whether CanonicalIterator finds all canonically equivalent strings of a segment, with NFD as Unicode Standard
  Annex #15 defines it: exactly if the data has no composites of two certain kinds.
 */
module CanonComplete {
  import opened CanonPermute
  import opened CanonEquivalents
  import opened CanonNfd
  import opened CanonIterator

  /** The data of the search belongs to the characters. */
  ghost predicate IsDataOf(d: Data, u: Characters) {
    && IsCharacters(u) && (forall s :: d.nfd(s) == Nfd(u, s)) && d.ccc == u.ccc
    && forall x, c :: c in d.starts(x) <==> Composes(u, c, x)
  }

  /** c is a composite whose decomposition starts with x. */
  predicate Composes(u: Characters, c: int, x: int) { !IsSimple(u, c) && |u.dec(c)| > 0 && u.dec(c)[0] == x }

  ghost predicate FindsAll(d: Data) { forall s: Text :: IsEquivalent(d, d.nfd(s), s) }

  ghost predicate PassesAll(u: Characters, x: int, s: Text) { forall i :: 0 <= i < |s| ==> Passes(u, x, s[i]) }

  /** A composite that starts with a mark which passes y, but that cannot pass y as a whole. */
  ghost predicate Sticks(u: Characters, c: int, y: int) {
    && IsSimple(u, y) && |u.dec(c)| > 0 && Passes(u, u.dec(c)[0], y)
    && Nfd(u, [c, y]) != Nfd(u, [y, c])
  }

  /** A composite of marks that y passes, but that counts as a starter itself. */
  ghost predicate Hides(u: Characters, c: int, y: int) {
    IsSimple(u, y) && u.ccc(c) == 0 && |u.dec(c)| > 0 && PassesAll(u, y, u.dec(c))
  }

  ghost predicate Clear(u: Characters) { forall c, y :: !Sticks(u, c, y) && !Hides(u, c, y) }

  // ---------- merging ----------

  /** A decomposition before ordered text: its first character leads, unless that of the text passes all of it. */
  lemma {:induction false} MergeHead(u: Characters, c: Text, r: Text)
    requires |c| > 0 && Ordered(u, c) && Ordered(u, r)
    ensures if |r| > 0 && PassesAll(u, r[0], c) then Order(u, c + r) == [r[0]] + Order(u, c + r[1..])
            else Order(u, c + r) == [c[0]] + Order(u, c[1..] + r)
    decreases |c|
  {
    assert (c + r)[1..] == c[1..] + r;
    if |r| > 0 {
      assert (c + r[1..])[1..] == c[1..] + r[1..];
      Later(u, r);
    }
    if |c| == 1 {
      assert c[1..] + r == r;
      OrderSame(u, r);
      if |r| > 0 {
        assert c[1..] + r[1..] == r[1..];
        OrderSame(u, r[1..]);
        assert PassesAll(u, r[0], c) <==> Passes(u, r[0], c[0]);
      }
    } else {
      Later(u, c);
      MergeHead(u, c[1..], r);
      assert !Passes(u, c[1], c[0]);
      if |r| > 0 { PassesOneMore(u, r[0], c); }
    }
  }

  lemma PassesOneMore(u: Characters, x: int, c: Text)
    requires |c| > 0
    ensures PassesAll(u, x, c) <==> Passes(u, x, c[0]) && PassesAll(u, x, c[1..])
  {
    assert forall i :: 0 <= i < |c[1..]| ==> c[1..][i] == c[i + 1];
    if Passes(u, x, c[0]) && PassesAll(u, x, c[1..]) {
      forall i | 0 <= i < |c| ensures Passes(u, x, c[i]) { if i > 0 { assert c[1..][i - 1] == c[i]; } }
    }
  }

  /** Taking a decomposition out of the text it was merged into leaves that text. */
  lemma {:induction false} TakeOutMerged(u: Characters, c: Text, k: nat, r: Text)
    requires k < |c| && Ordered(u, c) && Ordered(u, r)
    ensures TakeOut(c, k, Order(u, c[k..] + r)) == Leaves(r)
    decreases |r| + |c| - k
  {
    SuffixOrdered(u, c, k);
    MergeHead(u, c[k..], r);
    var tail := Order(u, c[k..] + r);
    if |r| > 0 && PassesAll(u, r[0], c[k..]) {
      Later(u, r);
      TakeOutMerged(u, c, k, r[1..]);
      assert Passes(u, r[0], c[k..][0]);
      assert tail[1..] == Order(u, c[k..] + r[1..]) && [r[0]] + r[1..] == r;
    } else {
      assert c[k..][1..] == c[k + 1..];
      assert tail[1..] == Order(u, c[k + 1..] + r);
      if k + 1 == |c| {
        assert c[k + 1..] + r == r;
        OrderSame(u, r);
      } else {
        TakeOutMerged(u, c, k + 1, r);
      }
    }
  }

  lemma SuffixOrdered(u: Characters, c: Text, k: nat)
    requires k <= |c| && Ordered(u, c)
    ensures Ordered(u, c[k..])
  {
    var y := c[k..];
    forall i | 0 < i < |y| ensures !Passes(u, y[i], y[i - 1]) { assert y[i] == c[k + i] && y[i - 1] == c[k + i - 1]; }
  }

  // ---------- whose character comes first ----------

  /** The first character of the NFD starts the decomposition of some s[j], and passes all that stands before it. */
  lemma {:induction false} FindOwner(u: Characters, s: Text) returns (j: nat)
    requires IsCharacters(u) && |s| > 0
    ensures j < |s| && |u.dec(s[j])| > 0 && |Nfd(u, s)| > 0 && Nfd(u, s)[0] == u.dec(s[j])[0]
    ensures forall m :: 0 <= m < j ==> PassesAll(u, u.dec(s[j])[0], u.dec(s[m]))
  {
    hide Order, PassesAll, Ordered;
    var c, rest := u.dec(s[0]), Nfd(u, s[1..]);
    assert IsCharacter(u, s[0]);
    NfdIsNormal(u, s[1..]);
    OrderParts(u, c, Flat(u, s[1..]));
    assert Nfd(u, s) == Order(u, c + rest);
    MergeHead(u, c, rest);
    j := 0;
    if |s| > 1 {
      var j' := FindOwner(u, s[1..]);
      if PassesAll(u, rest[0], c) {
        j := j' + 1;
        assert s[1..][j'] == s[j];
        forall m | 0 <= m < j
          ensures PassesAll(u, u.dec(s[j])[0], u.dec(s[m]))
        {
          if m > 0 { assert s[1..][m - 1] == s[m]; }
        }
      }
    } else {
      NoText(u);
      assert s[1..] == [];
    }
  }

  lemma NoText(u: Characters)
    ensures Nfd(u, []) == []
  {
  }

  // ---------- putting it back ----------

  /** A character at the front may stand behind characters that are not of class 0. */
  lemma {:induction false} LeadLater(ccc: int -> int, b: Text, s: Text, j: nat)
    requires j < |s| && Rearranged(ccc, b, Without(s, j), true) && forall m :: 0 <= m < j ==> ccc(s[m]) != 0
    ensures Rearranged(ccc, [s[j]] + b, s, true)
    decreases j
  {
    hide Rearranged;
    var c := s[j];
    RearrangedStep(ccc, [c] + b, s, true);
    if j == 0 {
      assert Without([c] + b, 0) == b && Without(s, 0) == s[1..];
      assert Leads(ccc, [c] + b, 0, s, true);
    } else {
      var t := Without(s, j);
      assert t[0] == s[0] && t[1..] == Without(s[1..], j - 1);
      SameLength(ccc, b, t);
      RearrangedStep(ccc, b, t, true);
      var i: nat :| i < |b| && Leads(ccc, b, i, t, true);
      LeadLater(ccc, Without(b, i), s[1..], j - 1);
      assert Without([c] + b, i + 1) == [c] + Without(b, i);
      assert Leads(ccc, [c] + b, i + 1, s, true);
    }
  }

  lemma SameLength(ccc: int -> int, b: Text, t: Text)
    requires Rearranged(ccc, b, t, true)
    ensures |b| == |t|
  {
  }

  /** What is derived from the rest of a segment is derived behind its first character too. */
  lemma DerivesLater(d: Data, x: int, seg: Text, b: Text)
    requires Derives(d, seg, b)
    ensures Derives(d, [x] + seg, [x] + b)
  {
    hide Taken;
    if b != seg {
      var i, c, item := DerivesOpen(d, seg, b);
      assert ([x] + seg)[i + 1..] == seg[i..] && ([x] + seg)[..i + 1] == [x] + seg[..i];
      assert [x] + (seg[..i] + [c] + item) == ([x] + seg[..i]) + [c] + item;
      assert DerivesAt(d, [x] + seg, i + 1, c, item, [x] + b);
    }
  }

  // ---------- taking a character out ----------

  lemma Swap(u: Characters, a: Text, x: Text, y: Text, b: Text)
    requires IsCharacters(u) && Nfd(u, x) == Nfd(u, y)
    ensures Nfd(u, a + x + b) == Nfd(u, a + y + b)
  {
    hide Nfd, IsCharacters;
    NfdAppend(u, a, x);
    NfdAppend(u, a, y);
    NfdAppend(u, a + x, b);
    NfdAppend(u, a + y, b);
  }

  /** Characters that c passes as a whole may stand before or behind it. */
  lemma {:induction false} MoveAhead(u: Characters, ys: Text, c: int, b: Text)
    requires IsCharacters(u) && forall i :: 0 <= i < |ys| ==> Nfd(u, [ys[i], c]) == Nfd(u, [c, ys[i]])
    ensures Nfd(u, ys + [c] + b) == Nfd(u, [c] + ys + b)
    decreases |ys|
  {
    hide Nfd, IsCharacters;
    if |ys| == 0 {
      assert ys + [c] + b == [c] + ys + b;
    } else {
      var n := |ys| - 1;
      var y, init := ys[n], ys[..n];
      Swap(u, init, [y, c], [c, y], b);
      assert ys + [c] + b == init + [y, c] + b;
      assert init + [c, y] + b == init + [c] + ([y] + b);
      MoveAhead(u, init, c, [y] + b);
      assert [c] + init + ([y] + b) == [c] + ys + b;
    }
  }

  /** The owner of the first character may be put first. */
  lemma {:induction false} OwnerFirst(u: Characters, s: Text, j: nat, m: nat)
    requires IsCharacters(u) && Clear(u) && m <= j < |s| && |u.dec(s[j])| > 0
    requires forall k :: 0 <= k < j ==> PassesAll(u, u.dec(s[j])[0], u.dec(s[k]))
    ensures Nfd(u, s) == Nfd(u, s[..j - m] + [s[j]] + s[j - m..j] + s[j + 1..])
    decreases m
  {
    hide Nfd, IsCharacters, PassesAll;
    var c := s[j];
    if m == 0 {
      assert s == s[..j] + [c] + s[j..j] + s[j + 1..];
    } else {
      OwnerFirst(u, s, j, m - 1);
      var k := j - m;
      var a, y, b := s[..k], s[k], s[k + 1..j] + s[j + 1..];
      assert s[..k + 1] == a + [y];
      assert s[..k + 1] + [c] + s[k + 1..j] + s[j + 1..] == a + ([y] + [c]) + b;
      PassesCharacter(u, y, c);
      Swap(u, a, [y] + [c], [c] + [y], b);
      assert s[k..j] == [y] + s[k + 1..j];
      assert a + ([c] + [y]) + b == a + [c] + s[k..j] + s[j + 1..];
    }
  }

  lemma PassesCharacter(u: Characters, y: int, c: int)
    requires IsCharacters(u) && Clear(u) && |u.dec(c)| > 0 && PassesAll(u, u.dec(c)[0], u.dec(y))
    ensures Nfd(u, [y] + [c]) == Nfd(u, [c] + [y])
  {
    hide Nfd;
    assert IsCharacter(u, y);
    var ys := u.dec(y);
    forall i | 0 <= i < |ys|
      ensures Nfd(u, [ys[i], c]) == Nfd(u, [c, ys[i]])
    {
      assert IsSimple(u, ys[i]) && !Sticks(u, c, ys[i]);
    }
    MoveAhead(u, ys, c, []);
    assert ys + [c] + [] == ys + [c] && [c] + ys + [] == [c] + ys;
    OneCharacter(u, y);
    NfdAppend(u, [y], [c]);
    NfdAppend(u, ys, [c]);
    NfdAppend(u, [c], [y]);
    NfdAppend(u, [c], ys);
  }

  lemma OneCharacter(u: Characters, c: int)
    requires IsCharacters(u)
    ensures Nfd(u, [c]) == u.dec(c) == Nfd(u, u.dec(c))
  {
    assert IsCharacter(u, c);
    assert Flat(u, [c]) == u.dec(c) by { assert u.dec(c) + [] == u.dec(c); }
    OrderSame(u, u.dec(c));
    NfdSame(u, u.dec(c));
  }

  /** The NFD is the decomposition of the owner merged into the NFD of the others. */
  lemma OwnerMerged(u: Characters, s: Text, j: nat)
    requires IsCharacters(u) && Clear(u) && j < |s| && |u.dec(s[j])| > 0
    requires forall k :: 0 <= k < j ==> PassesAll(u, u.dec(s[j])[0], u.dec(s[k]))
    ensures Nfd(u, s) == Nfd(u, [s[j]] + Nfd(u, Without(s, j))) == Order(u, u.dec(s[j]) + Nfd(u, Without(s, j)))
  {
    hide Order, IsCharacters, PassesAll, Clear;
    var c, rest := s[j], Nfd(u, Without(s, j));
    OwnerFirst(u, s, j, j);
    assert s[..j - j] + [c] + s[j - j..j] + s[j + 1..] == [c] + Without(s, j);
    NfdAppend(u, [c], Without(s, j));
    NfdIsNormal(u, Without(s, j));
    FlatSame(u, rest);
    assert ([c] + rest)[1..] == rest;
  }

  /** One step: s[j] is in the segment as it is, or can be taken out of it, and the NFD of the others is left. */
  lemma OwnerTaken(u: Characters, d: Data, s: Text, j: nat)
    requires IsDataOf(d, u) && Clear(u) && j < |s|
    requires |u.dec(s[j])| > 0 && |Nfd(u, s)| > 0 && Nfd(u, s)[0] == u.dec(s[j])[0]
    requires forall k :: 0 <= k < j ==> PassesAll(u, u.dec(s[j])[0], u.dec(s[k]))
    ensures var rest := Nfd(u, Without(s, j));
            if IsSimple(u, s[j]) then Nfd(u, s) == [s[j]] + rest
            else Taken(d, s[j], Nfd(u, s)) == Leaves(rest) && |rest| < |Nfd(u, s)|
  {
    hide Order, Nfd, PassesAll, Clear, Ordered, TakeOut;
    var c, seg, rest := s[j], Nfd(u, s), Nfd(u, Without(s, j));
    assert IsCharacter(u, c);
    OwnerMerged(u, s, j);
    NfdIsNormal(u, Without(s, j));
    MergeHead(u, u.dec(c), rest);
    if IsSimple(u, c) {
      SimpleMerged(u, c, rest, seg);
    } else {
      TakeOutMerged(u, u.dec(c), 0, rest);
      assert u.dec(c)[0..] == u.dec(c);
      OneCharacter(u, c);
      TakeOutShrinks(u.dec(c), 0, seg);
    }
  }

  lemma SimpleMerged(u: Characters, c: int, rest: Text, seg: Text)
    requires Ordered(u, rest) && seg == Order(u, [c] + rest) && |seg| > 0 && seg[0] == c
    ensures seg == [c] + rest
  {
    assert |rest| > 0 && PassesAll(u, rest[0], [c]) ==> Passes(u, rest[0], [c][0]);
    MergeHead(u, [c], rest);
    assert [c][1..] + rest == rest;
    OrderSame(u, rest);
  }

  /** Every string is found from its NFD. */
  lemma {:induction false} FindsString(u: Characters, d: Data, s: Text) returns (b: Text)
    requires IsDataOf(d, u) && Clear(u)
    ensures Derives(d, Nfd(u, s), b) && Rearranged(d.ccc, b, s, true)
    decreases |s|
  {
    hide Nfd, PassesAll, Clear, Derives, Rearranged, Taken;
    if |s| == 0 {
      NoText(u);
      b := [];
      SegmentItselfDerived(d, []);
      SameOrder(d.ccc, []);
    } else {
      var j := FindOwner(u, s);
      OwnerTaken(u, d, s, j);
      var rest := FindsString(u, d, Without(s, j));
      b := [s[j]] + rest;
      forall m | 0 <= m < j ensures u.ccc(s[m]) != 0 { NotHidden(u, s[m], s[j]); }
      LeadLater(d.ccc, rest, s, j);
      if IsSimple(u, s[j]) {
        DerivesLater(d, s[j], Nfd(u, Without(s, j)), rest);
      } else {
        DerivesFirst(d, Nfd(u, s), s[j], rest);
      }
    }
  }

  lemma SegmentItselfDerived(d: Data, seg: Text)
    ensures Derives(d, seg, seg)
  {
  }

  lemma NotHidden(u: Characters, c: int, owner: int)
    requires IsCharacters(u) && Clear(u) && |u.dec(owner)| > 0 && PassesAll(u, u.dec(owner)[0], u.dec(c))
    ensures u.ccc(c) != 0
  {
    assert IsCharacter(u, c) && IsCharacter(u, owner);
    assert IsSimple(u, u.dec(owner)[0]);
    assert !Hides(u, c, u.dec(owner)[0]);
  }

  lemma DerivesFirst(d: Data, seg: Text, c: int, item: Text)
    requires |seg| > 0 && c in d.starts(seg[0]) && Taken(d, c, seg).Leaves?
    requires |Taken(d, c, seg).rest| < |seg| && Derives(d, Taken(d, c, seg).rest, item)
    ensures Derives(d, seg, [c] + item)
  {
    hide Taken;
    assert seg[0..] == seg && seg[..0] == [] && [] + [c] + item == [c] + item;
    assert DerivesAt(d, seg, 0, c, item, [c] + item);
  }

  // ---------- the strings that are missed ----------

  lemma DataIsNfd(u: Characters, d: Data)
    requires IsDataOf(d, u)
    ensures IsNfd(d.nfd)
  {
    hide Nfd, IsCharacters;
    NfdIsNfd(u);
    var nfd := (s: Text) => Nfd(u, s);
    assert forall s :: d.nfd(s) == nfd(s);
    forall x, i: nat, j: nat | i <= j <= |x| && d.nfd(x) == x
      ensures IsNormal(d.nfd, x[i..j])
    {
      assert IsNormal(nfd, x[i..j]);
    }
  }

  /** A rearrangement of two characters. */
  lemma TwoRearranged(ccc: int -> int, b: Text, x: int, y: int)
    requires Rearranged(ccc, b, [x, y], true)
    ensures b == [x, y] || (b == [y, x] && ccc(x) != 0)
  {
    var s := [x, y];
    var order: seq<int> :| RearrangedBy(ccc, b, s, true, order);
    assert s[0] == b[order[0]] && s[1] == b[order[1]];
    if order[0] > order[1] { assert ccc(b[order[0]]) != 0; }
  }

  /** Nothing but the segment itself is derived with its first two characters in the order x, y. */
  lemma TwoDerived(u: Characters, d: Data, seg: Text, x: int, y: int)
    requires IsDataOf(d, u) && |seg| > 0 && seg[0] != x && !Composes(u, x, seg[0])
    ensures !Derives(d, seg, [x, y])
  {
    hide Taken;
    var b := [x, y];
    if Derives(d, seg, b) {
      var i, c, item := DerivesOpen(d, seg, b);
    }
  }

  /** [y, c] is missed: c cannot be taken out before y, and y does not start anything. */
  lemma StickingMissed(u: Characters, d: Data, c: int, y: int)
    requires IsDataOf(d, u) && Sticks(u, c, y)
    ensures !IsEquivalent(d, d.nfd([y, c]), [y, c])
  {
    hide Nfd, Derives, Rearranged, IsNfd;
    var s, seg := [y, c], Nfd(u, [y, c]);
    var x := u.dec(c)[0];
    StickingFirst(u, c, y);
    DataIsNfd(u, d);
    if IsEquivalent(d, seg, s) {
      var b: Text :| Derives(d, seg, b) && Rearranged(d.ccc, b, s, true);
      TwoRearranged(d.ccc, b, y, c);
      DerivesEquivalent(d, seg, b);
      TwoDerived(u, d, seg, y, c);
      NfdIsNormal(u, s);
      NfdSame(u, seg);
    }
  }

  lemma StickingFirst(u: Characters, c: int, y: int)
    requires IsCharacters(u) && Sticks(u, c, y)
    ensures var seg := Nfd(u, [y, c]); |seg| > 0 && seg[0] == u.dec(c)[0] != y
  {
    hide Order;
    assert IsCharacter(u, c);
    var dc := u.dec(c);
    assert Flat(u, [c]) == dc by { assert dc + [] == dc; }
    assert Flat(u, [y, c]) == [y] + dc by { assert [y, c][1..] == [c]; }
    assert PassesAll(u, dc[0], [y]);
    MergeHead(u, [y], dc);
  }

  /** [c, y] is missed: c is not moved ahead of y. */
  lemma HiddenMissed(u: Characters, d: Data, c: int, y: int)
    requires IsDataOf(d, u) && Hides(u, c, y)
    ensures !IsEquivalent(d, d.nfd([c, y]), [c, y])
  {
    hide Nfd, Derives, Rearranged, IsNfd;
    var s, seg := [c, y], Nfd(u, [c, y]);
    HiddenFirst(u, c, y);
    if IsEquivalent(d, seg, s) {
      var b: Text :| Derives(d, seg, b) && Rearranged(d.ccc, b, s, true);
      TwoRearranged(d.ccc, b, c, y);
      TwoDerived(u, d, seg, c, y);
    }
  }

  lemma HiddenFirst(u: Characters, c: int, y: int)
    requires IsCharacters(u) && Hides(u, c, y)
    ensures var seg := Nfd(u, [c, y]); |seg| > 0 && seg[0] == y != c && !Composes(u, c, y)
  {
    hide Order;
    assert IsCharacter(u, c);
    var dc := u.dec(c);
    assert Flat(u, [y]) == [y] by { assert [y] + [] == [y]; }
    assert Flat(u, [c, y]) == dc + [y] by { assert [c, y][1..] == [y]; }
    MergeHead(u, dc, [y]);
    assert Passes(u, y, dc[0]);
  }

  /** All strings are found for all segments exactly if the data is clear. */
  lemma FindsAllExactly(u: Characters, d: Data)
    requires IsDataOf(d, u)
    ensures FindsAll(d) <==> Clear(u)
  {
    hide IsDataOf, Sticks, Hides, IsEquivalent;
    if Clear(u) {
      forall s: Text
        ensures IsEquivalent(d, d.nfd(s), s)
      {
        StringFound(u, d, s);
      }
    } else {
      var c, y :| Sticks(u, c, y) || Hides(u, c, y);
      if Sticks(u, c, y) { StickingMissed(u, d, c, y); } else { HiddenMissed(u, d, c, y); }
    }
  }

  lemma StringFound(u: Characters, d: Data, s: Text)
    requires IsDataOf(d, u) && Clear(u)
    ensures IsEquivalent(d, d.nfd(s), s)
  {
    hide Nfd, Derives, Rearranged, Clear;
    var b := FindsString(u, d, s);
  }

  // ---------- Tibetan vowel signs ----------

  /** U+0F73 is U+0F71 U+0F72, of classes 129 and 130, and is itself of class 0; U+0F7A is of class 130. */
  function Tibetan(): Characters {
    Characters((c: int) => if c == 0x0F73 then [0x0F71, 0x0F72] else [c],
               (c: int) => if c == 0x0F71 then 129 else if c == 0x0F72 || c == 0x0F7A then 130
                           else if c == 0x0334 then 1 else 0)
  }

  function TibetanData(): Data {
    Data((s: Text) => Nfd(Tibetan(), s), Tibetan().ccc, (x: int) => if x == 0x0F71 then [0x0F73] else [],
         (c: int) => c == 0x0F40)
  }

  /** So U+0F7A U+0F73 is missed, and so is U+0F73 U+0334, where U+0334 is of class 1. */
  lemma TibetanMissed()
    ensures var d := TibetanData();
            && IsDataOf(d, Tibetan())
            && d.nfd([0x0F7A, 0x0F73]) == [0x0F71, 0x0F7A, 0x0F72]
            && !IsEquivalent(d, [0x0F71, 0x0F7A, 0x0F72], [0x0F7A, 0x0F73])
            && d.nfd([0x0F73, 0x0334]) == [0x0334, 0x0F71, 0x0F72]
            && !IsEquivalent(d, [0x0334, 0x0F71, 0x0F72], [0x0F73, 0x0334])
  {
    hide IsEquivalent, Nfd, Sticks, Hides;
    TibetanOrder();
    TibetanNotClear();
    StickingMissed(Tibetan(), TibetanData(), 0x0F73, 0x0F7A);
    HiddenMissed(Tibetan(), TibetanData(), 0x0F73, 0x0334);
  }

  lemma TibetanNotClear()
    ensures Sticks(Tibetan(), 0x0F73, 0x0F7A) && Hides(Tibetan(), 0x0F73, 0x0334)
  {
    hide Nfd;
    TibetanOrder();
  }

  lemma TibetanOrder()
    ensures IsCharacters(Tibetan())
    ensures Nfd(Tibetan(), [0x0F7A, 0x0F73]) == [0x0F71, 0x0F7A, 0x0F72]
    ensures Nfd(Tibetan(), [0x0F73, 0x0F7A]) == [0x0F71, 0x0F72, 0x0F7A]
    ensures Nfd(Tibetan(), [0x0F73, 0x0334]) == [0x0334, 0x0F71, 0x0F72]
  {
    hide Order, Flat, Insert;
    var u := Tibetan();
    TwoFlat(u, 0x0F7A, 0x0F73);
    TwoFlat(u, 0x0F73, 0x0F7A);
    TwoFlat(u, 0x0F73, 0x0334);
    assert [0x0F7A] + [0x0F71, 0x0F72] == [0x0F7A, 0x0F71, 0x0F72];
    assert [0x0F71, 0x0F72] + [0x0F7A] == [0x0F71, 0x0F72, 0x0F7A];
    assert [0x0F71, 0x0F72] + [0x0334] == [0x0F71, 0x0F72, 0x0334];
    ThreeOrdered(u, 0x0F7A, 0x0F71, 0x0F72);
    ThreeOrdered(u, 0x0F71, 0x0F72, 0x0F7A);
    ThreeOrdered(u, 0x0F71, 0x0F72, 0x0334);
  }

  lemma TwoFlat(u: Characters, x: int, y: int)
    ensures Flat(u, [x, y]) == u.dec(x) + u.dec(y)
  {
    assert [x, y][1..] == [y];
    assert Flat(u, [y]) == u.dec(y) by { assert u.dec(y) + [] == u.dec(y); }
  }

  lemma ThreeOrdered(u: Characters, x: int, y: int, z: int)
    ensures var y', z' := if Passes(u, z, y) then z else y, if Passes(u, z, y) then y else z;
            Order(u, [x, y, z])
            == if !Passes(u, y', x) then [x, y', z'] else if !Passes(u, z', x) then [y', x, z'] else [y', z', x]
  {
    assert [x, y, z][1..] == [y, z] && [y, z][1..] == [z] && [z][1..] == [];
    var y', z' := if Passes(u, z, y) then z else y, if Passes(u, z, y) then y else z;
    assert Order(u, [z]) == [z];
    InsertBeforeOne(u, y, z);
    assert Order(u, [y, z]) == [y', z'];
    InsertBeforeOne(u, x, z');
    assert [y', z'][1..] == [z'];
  }

  lemma InsertBeforeOne(u: Characters, x: int, z: int)
    ensures Insert(u, x, [z]) == if Passes(u, z, x) then [z, x] else [x, z]
  {
    assert [z][1..] == [] && Insert(u, x, []) == [x];
  }
}
