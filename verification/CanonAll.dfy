/** Whether CanonicalIterator returns all canonically equivalent strings of a source of several segments. */
module CanonAll {
  import opened CanonPermute
  import opened CanonOdometer
  import opened CanonEquivalents
  import opened CanonNfd
  import opened CanonIterator
  import opened CanonComplete

  /** A segment starter is of class 0, and never in a decomposition but at its start. */
  ghost predicate ProperStarters(u: Characters, d: Data) { forall c, k :: ProperStarter(u, d, c, k) }

  ghost predicate ProperStarter(u: Characters, d: Data, c: int, k: int) {
    0 <= k < |u.dec(c)| && d.isSegmentStarter(u.dec(c)[k]) ==> k == 0 && u.ccc(u.dec(c)[k]) == 0
  }

  // ---------- starters stay where they are ----------

  lemma {:induction false} InsertBefore(u: Characters, x: int, a: Text, b: Text)
    requires |b| > 0 && u.ccc(b[0]) == 0
    ensures Insert(u, x, a + b) == Insert(u, x, a) + b
    decreases |a|
  {
    if |a| == 0 {
      assert a + b == b;
    } else {
      assert (a + b)[1..] == a[1..] + b;
      InsertBefore(u, x, a[1..], b);
    }
  }

  /** What precedes a starter of the ordered text and what follows from it on were ordered separately. */
  lemma {:induction false} StarterSplits(u: Characters, w: Text, e: nat)
    requires e < |Order(u, w)| && u.ccc(Order(u, w)[e]) == 0
    ensures |Order(u, w)| == |w| && w[e] == Order(u, w)[e]
    ensures Order(u, w[..e]) == Order(u, w)[..e] && Order(u, w[e..]) == Order(u, w)[e..]
    decreases |w|
  {
    var t, h, t' := Order(u, w), w[0], Order(u, w[1..]);
    OrderOrdered(u, w);
    if e == 0 {
      assert t == [h] + t';
      assert w[..0] == [] && w[0..] == w;
    } else {
      var p := Landing(u, h, t');
      OrderOrdered(u, w[1..]);
      assert t'[e - 1] == t[e];
      StarterSplits(u, w[1..], e - 1);
      assert t' == t'[..e - 1] + t'[e - 1..];
      InsertBefore(u, h, t'[..e - 1], t'[e - 1..]);
      assert w[..e][1..] == w[1..][..e - 1] && w[e..] == w[1..][e - 1..];
      var front := Insert(u, h, t'[..e - 1]);
      OrderOrdered(u, w[..e]);
      assert t == front + t'[e - 1..] && |front| == e;
    }
  }

  /** Where h lands: behind p characters that pass it. */
  lemma {:induction false} Landing(u: Characters, h: int, t: Text) returns (p: nat)
    ensures p <= |t| && Insert(u, h, t) == t[..p] + [h] + t[p..]
    ensures forall i :: 0 <= i < p ==> Passes(u, t[i], h)
  {
    if |t| > 0 && Passes(u, t[0], h) {
      var p' := Landing(u, h, t[1..]);
      p := p' + 1;
      assert t[..p] == [t[0]] + t[1..][..p'] && t[p..] == t[1..][p'..];
      forall i | 0 <= i < p ensures Passes(u, t[i], h) { if i > 0 { assert t[1..][i - 1] == t[i]; } }
    } else {
      p := 0;
      assert t[..0] == [] && t[0..] == t && [] + [h] + t == [h] + t;
    }
  }

  /** A segment starter starts the decomposition of some character. */
  lemma {:induction false} StarterOwner(u: Characters, d: Data, s: Text, e: nat) returns (k: nat)
    requires ProperStarters(u, d) && e < |Flat(u, s)| && d.isSegmentStarter(Flat(u, s)[e])
    ensures k < |s| && Flat(u, s[..k]) == Flat(u, s)[..e] && Flat(u, s[k..]) == Flat(u, s)[e..]
    ensures u.ccc(Flat(u, s)[e]) == 0
  {
    var c, rest := u.dec(s[0]), Flat(u, s[1..]);
    if e < |c| {
      assert Flat(u, s)[e] == c[e] && ProperStarter(u, d, s[0], e);
      k := 0;
      assert s[..0] == [] && s[0..] == s;
    } else {
      assert Flat(u, s)[e] == rest[e - |c|];
      var k' := StarterOwner(u, d, s[1..], e - |c|);
      k := k' + 1;
      assert s[..k][1..] == s[1..][..k'] && s[k..] == s[1..][k'..];
      assert (c + rest)[..e] == c + rest[..e - |c|] && (c + rest)[e..] == rest[e - |c|..];
    }
  }

  /** Any string can be cut where its NFD has a segment starter. */
  lemma CutString(u: Characters, d: Data, s: Text, e: nat) returns (k: nat)
    requires IsDataOf(d, u) && ProperStarters(u, d) && e < |Nfd(u, s)| && d.isSegmentStarter(Nfd(u, s)[e])
    ensures k <= |s| && Nfd(u, s[..k]) == Nfd(u, s)[..e] && Nfd(u, s[k..]) == Nfd(u, s)[e..]
  {
    hide Order, Flat, ProperStarters;
    StarterIsClassZero(u, d, s, e);
    StarterSplits(u, Flat(u, s), e);
    k := StarterOwner(u, d, s, e);
  }

  lemma StarterIsClassZero(u: Characters, d: Data, s: Text, e: nat)
    requires IsDataOf(d, u) && ProperStarters(u, d) && e < |Nfd(u, s)| && d.isSegmentStarter(Nfd(u, s)[e])
    ensures u.ccc(Nfd(u, s)[e]) == 0
  {
    hide Nfd;
    NfdIsNormal(u, s);
    var x := Nfd(u, s)[e];
    assert IsSimple(u, x);
    assert u.dec(x)[0] == x && ProperStarter(u, d, x, 0);
  }

  // ---------- all strings ----------

  /** A string whose NFD is the source is a string for each segment, one after the other. */
  lemma {:induction false} StringParts(u: Characters, d: Data, s: Text) returns (parts: seq<Text>)
    requires IsDataOf(d, u) && ProperStarters(u, d)
    ensures var segments := Segments(d, Nfd(u, s));
            && |parts| == |segments| && Joined(parts) == s
            && forall k :: 0 <= k < |parts| ==> Nfd(u, parts[k]) == segments[k]
    decreases |Nfd(u, s)|
  {
    hide Nfd, ProperStarters;
    NfdIsNormal(u, s);
    var t := Nfd(u, s);
    if |t| == 0 {
      parts := [];
    } else {
      var e := SegmentEnd(d, t, 1);
      if e == |t| {
        assert t[..e] == t && t[e..] == [];
        assert Segments(d, []) == [];
        parts := [s];
        assert Joined([]) == [] && parts[1..] == [];
      } else {
        var k := CutString(u, d, s, e);
        var rest := StringParts(u, d, s[k..]);
        parts := [s[..k]] + rest;
        assert parts[1..] == rest && s == s[..k] + s[k..];
      }
    }
  }

  function Joined(list: seq<Text>): Text { if |list| == 0 then [] else list[0] + Joined(list[1..]) }

  lemma {:induction false} JoinedIsConcat(list: seq<Text>)
    ensures Joined(list) == Concat(list)
  {
    if |list| > 0 {
      var n := |list| - 1;
      JoinedLast(list[..n], list[n]);
      assert list == list[..n] + [list[n]];
      JoinedIsConcat(list[..n]);
    }
  }

  lemma {:induction false} JoinedLast(list: seq<Text>, last: Text)
    ensures Joined(list + [last]) == Joined(list) + last
  {
    if |list| == 0 {
      assert list + [last] == [last] && [last][1..] == [];
    } else {
      assert (list + [last])[1..] == list[1..] + [last];
      JoinedLast(list[1..], last);
    }
  }

  /** With clear data every string that is canonically equivalent to the source is returned. */
  lemma EverythingFound(u: Characters, d: Data, source: Text, pieces: seq<seq<Text>>, s: Text) returns (v: seq<nat>)
    requires IsDataOf(d, u) && ProperStarters(u, d) && Clear(u) && d.nfd(s) == source
    requires Covers(d, source, Segments(d, source), pieces)
    ensures IsVector(Lengths(pieces), v) && Concat(Chosen(pieces, v)) == s
  {
    hide Nfd, Concat, Clear, Segments, ProperStarters, IsEquivalent;
    var segments := Segments(d, source);
    var parts := StringParts(u, d, s);
    v := [];
    while |v| < |pieces|
      invariant |v| <= |pieces| && forall k :: 0 <= k < |v| ==> v[k] < |pieces[k]| && pieces[k][v[k]] == parts[k]
    {
      var k := |v|;
      StringFound(u, d, parts[k]);
      assert parts[k] in pieces[k];
      var j: nat :| j < |pieces[k]| && pieces[k][j] == parts[k];
      v := v + [j];
    }
    assert Chosen(pieces, v) == parts;
    JoinedIsConcat(parts);
  }
}
