/**
  NFD as Unicode Standard Annex #15 defines it: the decompositions of all characters, in canonical order. It has the
  properties that the search for equivalents relies on.
 */
module CanonNfd {
  import opened CanonPermute
  import opened CanonEquivalents

  /** The canonical decomposition of each character, as far as it goes, and its combining class. */
  datatype Characters = Characters(dec: int -> Text, ccc: int -> int)

  /** A character y that follows x moves ahead of it. */
  predicate Passes(u: Characters, y: int, x: int) { 0 < u.ccc(y) < u.ccc(x) }

  /** Puts x before t, and back over what passes it. */
  function Insert(u: Characters, x: int, t: Text): Text {
    if |t| > 0 && Passes(u, t[0], x) then [t[0]] + Insert(u, x, t[1..]) else [x] + t
  }

  /** The canonical ordering of s. */
  function Order(u: Characters, s: Text): (r: Text)
    decreases |s|
  {
    if |s| == 0 then [] else Insert(u, s[0], Order(u, s[1..]))
  }

  /** The decompositions of all characters. */
  function Flat(u: Characters, s: Text): Text {
    if |s| == 0 then [] else u.dec(s[0]) + Flat(u, s[1..])
  }

  function Nfd(u: Characters, s: Text): Text { Order(u, Flat(u, s)) }

  ghost predicate Ordered(u: Characters, s: Text) { forall i :: 0 < i < |s| ==> !Passes(u, s[i], s[i - 1]) }

  predicate IsSimple(u: Characters, c: int) { u.dec(c) == [c] }

  ghost predicate AllSimple(u: Characters, s: Text) { forall i :: 0 <= i < |s| ==> IsSimple(u, s[i]) }

  /** Decompositions are not empty, go as far as they can, and are in canonical order. */
  ghost predicate IsCharacters(u: Characters) { forall c :: IsCharacter(u, c) }

  ghost predicate IsCharacter(u: Characters, c: int) {
    |u.dec(c)| > 0 && AllSimple(u, u.dec(c)) && Ordered(u, u.dec(c)) && u.ccc(c) >= 0
  }

  // ---------- insertion ----------

  lemma {:induction false} InsertOrdered(u: Characters, x: int, t: Text)
    requires Ordered(u, t)
    ensures Ordered(u, Insert(u, x, t)) && |Insert(u, x, t)| == |t| + 1
    ensures Insert(u, x, t)[0] == x || (|t| > 0 && Insert(u, x, t)[0] == t[0])
  {
    if |t| > 0 && Passes(u, t[0], x) {
      assert Ordered(u, t[1..]) by { assert forall i :: 0 < i < |t[1..]| ==> t[1..][i] == t[i + 1]; }
      InsertOrdered(u, x, t[1..]);
    }
  }

  lemma {:induction false} OrderOrdered(u: Characters, s: Text)
    ensures Ordered(u, Order(u, s)) && |Order(u, s)| == |s|
  {
    if |s| > 0 {
      OrderOrdered(u, s[1..]);
      InsertOrdered(u, s[0], Order(u, s[1..]));
    }
  }

  /** What is in order stays as it is. */
  lemma {:induction false} OrderSame(u: Characters, s: Text)
    requires Ordered(u, s)
    ensures Order(u, s) == s
  {
    if |s| > 0 {
      Later(u, s);
      OrderSame(u, s[1..]);
      assert s == [s[0]] + s[1..];
      if |s| > 1 { assert !Passes(u, s[1], s[0]); }
    }
  }

  lemma Later(u: Characters, s: Text)
    requires Ordered(u, s) && |s| > 0
    ensures Ordered(u, s[1..])
  {
    assert forall i :: 0 < i < |s[1..]| ==> s[1..][i] == s[i + 1] && s[1..][i - 1] == s[i];
  }

  /** Two characters of which one passes the other may be inserted either way round. */
  lemma {:induction false} InsertSwap(u: Characters, x: int, y: int, t: Text)
    requires Passes(u, y, x)
    ensures Insert(u, x, Insert(u, y, t)) == Insert(u, y, Insert(u, x, t))
    decreases |t|
  {
    if |t| > 0 && Passes(u, t[0], y) {
      InsertSwap(u, x, y, t[1..]);
    } else {
      assert Insert(u, y, t) == [y] + t;
      assert ([y] + t)[1..] == t;
      if |t| > 0 && Passes(u, t[0], x) {
        var r := [t[0]] + Insert(u, x, t[1..]);
        assert Insert(u, x, t) == r && r[0] == t[0];
      } else {
        assert Insert(u, x, t) == [x] + t;
      }
    }
  }

  /** The characters of a inserted into t, from the last one on. */
  function Into(u: Characters, a: Text, t: Text): Text
    decreases |a|
  {
    if |a| == 0 then t else Insert(u, a[0], Into(u, a[1..], t))
  }

  lemma {:induction false} OrderAppend(u: Characters, a: Text, b: Text)
    ensures Order(u, a + b) == Into(u, a, Order(u, b))
    decreases |a|
  {
    if |a| == 0 {
      assert a + b == b;
    } else {
      assert (a + b)[1..] == a[1..] + b;
      OrderAppend(u, a[1..], b);
    }
  }

  lemma {:induction false} IntoInsert(u: Characters, x: int, a: Text, t: Text)
    ensures Into(u, Insert(u, x, a), t) == Insert(u, x, Into(u, a, t))
    decreases |a|
  {
    if |a| > 0 && Passes(u, a[0], x) {
      var r := [a[0]] + Insert(u, x, a[1..]);
      assert r[1..] == Insert(u, x, a[1..]);
      IntoInsert(u, x, a[1..], t);
      InsertSwap(u, x, a[0], Into(u, a[1..], t));
    } else {
      assert ([x] + a)[1..] == a;
    }
  }

  lemma {:induction false} IntoOrder(u: Characters, a: Text, t: Text)
    ensures Into(u, Order(u, a), t) == Into(u, a, t)
    decreases |a|
  {
    if |a| > 0 {
      IntoInsert(u, a[0], Order(u, a[1..]), t);
      IntoOrder(u, a[1..], t);
    }
  }

  /** Ordering the parts first does not matter. */
  lemma OrderParts(u: Characters, a: Text, b: Text)
    ensures Order(u, a + b) == Order(u, Order(u, a) + b) == Order(u, a + Order(u, b))
  {
    hide Order;
    OrderAppend(u, a, b);
    OrderAppend(u, Order(u, a), b);
    OrderAppend(u, a, Order(u, b));
    IntoOrder(u, a, Order(u, b));
    OrderTwice(u, b);
  }

  lemma OrderTwice(u: Characters, s: Text)
    ensures Order(u, Order(u, s)) == Order(u, s)
  {
    OrderOrdered(u, s);
    OrderSame(u, Order(u, s));
  }

  // ---------- decomposition ----------

  lemma {:induction false} FlatAppend(u: Characters, a: Text, b: Text)
    ensures Flat(u, a + b) == Flat(u, a) + Flat(u, b)
    decreases |a|
  {
    if |a| == 0 {
      assert a + b == b;
    } else {
      assert (a + b)[1..] == a[1..] + b;
      FlatAppend(u, a[1..], b);
    }
  }

  lemma {:induction false} FlatSame(u: Characters, s: Text)
    requires AllSimple(u, s)
    ensures Flat(u, s) == s
  {
    if |s| > 0 {
      assert IsSimple(u, s[0]);
      FlatSame(u, s[1..]);
    }
  }

  lemma {:induction false} FlatSimple(u: Characters, s: Text)
    requires IsCharacters(u)
    ensures AllSimple(u, Flat(u, s)) && |Flat(u, s)| >= |s|
  {
    if |s| > 0 {
      assert IsCharacter(u, s[0]);
      FlatSimple(u, s[1..]);
    }
  }

  lemma {:induction false} InsertSimple(u: Characters, x: int, t: Text)
    requires IsSimple(u, x) && AllSimple(u, t)
    ensures AllSimple(u, Insert(u, x, t))
  {
    if |t| > 0 && Passes(u, t[0], x) { InsertSimple(u, x, t[1..]); }
  }

  lemma {:induction false} OrderSimple(u: Characters, s: Text)
    requires AllSimple(u, s)
    ensures AllSimple(u, Order(u, s))
  {
    if |s| > 0 {
      OrderSimple(u, s[1..]);
      assert IsSimple(u, s[0]);
      InsertSimple(u, s[0], Order(u, s[1..]));
    }
  }

  /** NFD is in order, and nothing in it decomposes. */
  lemma NfdIsNormal(u: Characters, s: Text)
    requires IsCharacters(u)
    ensures Ordered(u, Nfd(u, s)) && AllSimple(u, Nfd(u, s)) && |Nfd(u, s)| >= |s|
  {
    hide Order, Flat, IsCharacters;
    FlatSimple(u, s);
    OrderSimple(u, Flat(u, s));
    OrderOrdered(u, Flat(u, s));
  }

  lemma NfdSame(u: Characters, s: Text)
    requires Ordered(u, s) && AllSimple(u, s)
    ensures Nfd(u, s) == s
  {
    FlatSame(u, s);
    OrderSame(u, s);
  }

  lemma NfdAppend(u: Characters, a: Text, b: Text)
    requires IsCharacters(u)
    ensures Nfd(u, a + b) == Nfd(u, Nfd(u, a) + b) == Nfd(u, a + Nfd(u, b)) == Nfd(u, Nfd(u, a) + Nfd(u, b))
  {
    hide Order, Flat, IsCharacters;
    NfdIsNormal(u, a);
    NfdIsNormal(u, b);
    FlatSame(u, Nfd(u, a));
    FlatSame(u, Nfd(u, b));
    FlatAppend(u, a, b);
    FlatAppend(u, Nfd(u, a), b);
    FlatAppend(u, a, Nfd(u, b));
    FlatAppend(u, Nfd(u, a), Nfd(u, b));
    OrderParts(u, Flat(u, a), Flat(u, b));
    OrderParts(u, Nfd(u, a), Flat(u, b));
  }

  lemma PartOrdered(u: Characters, x: Text, i: nat, j: nat)
    requires i <= j <= |x| && Ordered(u, x) && AllSimple(u, x)
    ensures Ordered(u, x[i..j]) && AllSimple(u, x[i..j])
  {
    var y := x[i..j];
    forall k | 0 < k < |y| ensures !Passes(u, y[k], y[k - 1]) { assert y[k] == x[i + k] && y[k - 1] == x[i + k - 1]; }
    forall k | 0 <= k < |y| ensures IsSimple(u, y[k]) { assert y[k] == x[i + k]; }
  }

  /** All that the search assumes of NFD. */
  lemma NfdIsNfd(u: Characters)
    requires IsCharacters(u)
    ensures IsNfd((s: Text) => Nfd(u, s))
  {
    hide Nfd, IsCharacters;
    var nfd := (s: Text) => Nfd(u, s);
    forall x ensures nfd(nfd(x)) == nfd(x) {
      NfdIsNormal(u, x);
      NfdSame(u, Nfd(u, x));
    }
    forall x, y ensures nfd(x + y) == nfd(nfd(x) + nfd(y)) { NfdAppend(u, x, y); }
    forall x | x != [] ensures nfd(x) != [] { NfdIsNormal(u, x); }
    forall x, i: nat, j: nat | i <= j <= |x| && nfd(x) == x
      ensures IsNormal(nfd, x[i..j])
    {
      NfdIsNormal(u, x);
      PartOrdered(u, x, i, j);
      NfdSame(u, x[i..j]);
    }
  }
}
