/**
  The mixed-radix odometer of CanonicalIterator::next() in source/common/caniter.cpp: index vectors in
  lexicographic order, the last index changing fastest.
 */
module CanonOdometer {

  /** A digit for every radix. */
  predicate IsVector(radices: seq<nat>, v: seq<nat>) {
    |v| == |radices| && forall i :: 0 <= i < |v| ==> v[i] < radices[i]
  }

  /** Digit d behind the number q, in radix n. */
  function Place(q: nat, n: nat, d: nat): nat { q * n + d }

  /** How many vectors there are. */
  function Total(radices: seq<nat>): nat {
    if |radices| == 0 then 1 else Place(Total(radices[..|radices| - 1]), radices[|radices| - 1], 0)
  }

  /** The number of vectors before v. */
  function Rank(radices: seq<nat>, v: seq<nat>): nat
    requires |v| == |radices|
    decreases |v|
  {
    if |v| == 0 then 0 else Place(Rank(radices[..|v| - 1], v[..|v| - 1]), radices[|v| - 1], v[|v| - 1])
  }

  ghost predicate LexLess(a: seq<nat>, b: seq<nat>) {
    |a| == |b| && exists k :: 0 <= k < |a| && a[..k] == b[..k] && a[k] < b[k]
  }

  lemma PlaceLess(p: nat, q: nat, n: nat, c: nat, d: nat)
    requires p < q && c < n
    ensures Place(p, n, c) < Place(q, n, d)
  {
    assert q * n == p * n + (q - p) * n;
    assert (q - p) * n >= n by { assert (q - p) * n == n + (q - p - 1) * n; }
  }

  lemma PlaceOrder(p: nat, q: nat, n: nat, c: nat, d: nat)
    requires c < n && d < n
    ensures Place(p, n, c) < Place(q, n, d) <==> p < q || (p == q && c < d)
  {
    if p < q {
      PlaceLess(p, q, n, c, d);
    } else if q < p {
      PlaceLess(q, p, n, d, c);
    }
  }

  lemma PlaceNext(q: nat, n: nat)
    requires n > 0
    ensures Place(q, n, n - 1) + 1 == Place(q + 1, n, 0)
    ensures Place(0, n, 0) == 0
  {
  }

  lemma PlaceDigit(q: nat, n: nat, d: nat)
    ensures Place(q, n, d) + 1 == Place(q, n, d + 1)
  {
  }

  lemma {:induction false} RankBelow(radices: seq<nat>, v: seq<nat>)
    requires IsVector(radices, v)
    ensures Rank(radices, v) < Total(radices)
    decreases |v|
  {
    hide Place;
    if |v| > 0 {
      var k := |v| - 1;
      RankBelow(radices[..k], v[..k]);
      PlaceLess(Rank(radices[..k], v[..k]), Total(radices[..k]), radices[k], v[k], 0);
    }
  }

  /** Rank order is lexicographic order, and a rank determines its vector. */
  lemma {:induction false} RankOrder(radices: seq<nat>, a: seq<nat>, b: seq<nat>)
    requires IsVector(radices, a) && IsVector(radices, b)
    ensures Rank(radices, a) < Rank(radices, b) <==> LexLess(a, b)
    ensures Rank(radices, a) == Rank(radices, b) <==> a == b
    decreases |a|
  {
    hide Place, LexLess;
    if |a| == 0 {
      NoLess(a, b);
    } else {
      var k := |a| - 1;
      var n, a', b' := radices[k], a[..k], b[..k];
      RankOrder(radices[..k], a', b');
      LexStep(a, b);
      var p, q := Rank(radices[..k], a'), Rank(radices[..k], b');
      PlaceOrder(p, q, n, a[k], b[k]);
      PlaceOrder(q, p, n, b[k], a[k]);
      assert a == a' + [a[k]] && b == b' + [b[k]];
    }
  }

  lemma NoLess(a: seq<nat>, b: seq<nat>)
    requires |a| == 0
    ensures !LexLess(a, b)
  {
  }

  lemma LexStep(a: seq<nat>, b: seq<nat>)
    requires |a| == |b| > 0
    ensures var k := |a| - 1; LexLess(a, b) <==> LexLess(a[..k], b[..k]) || (a[..k] == b[..k] && a[k] < b[k])
  {
    var k := |a| - 1;
    if LexLess(a, b) {
      var j :| 0 <= j < |a| && a[..j] == b[..j] && a[j] < b[j];
      if j < k {
        assert a[..k][..j] == a[..j] && b[..k][..j] == b[..j];
        assert a[..k][j] < b[..k][j];
      }
    }
    if LexLess(a[..k], b[..k]) {
      var j :| 0 <= j < k && a[..k][..j] == b[..k][..j] && a[..k][j] < b[..k][j];
      assert a[..j] == a[..k][..j] && b[..j] == b[..k][..j];
      assert a[j] < b[j];
    }
  }

  // ---------- one step ----------

  /** Counting up by one: the last digit that can grow does, those behind it become zero; or all become zero. */
  function Increment(radices: seq<nat>, v: seq<nat>): (r: seq<nat>)
    requires |v| == |radices|
    ensures |r| == |v|
    decreases |v|
  {
    if |v| == 0 then []
    else
      var k := |v| - 1;
      if v[k] + 1 < radices[k] then v[..k] + [v[k] + 1] else Increment(radices[..k], v[..k]) + [0]
  }

  /** The vector is the last one. */
  predicate IsLast(radices: seq<nat>, v: seq<nat>)
    requires |v| == |radices|
  {
    forall i :: 0 <= i < |v| ==> v[i] + 1 >= radices[i]
  }

  lemma {:induction false} IncrementIsVector(radices: seq<nat>, v: seq<nat>)
    requires IsVector(radices, v)
    ensures IsVector(radices, Increment(radices, v))
    decreases |v|
  {
    if |v| > 0 {
      var k := |v| - 1;
      var r := Increment(radices, v);
      IncrementIsVector(radices[..k], v[..k]);
      forall i | 0 <= i < |r|
        ensures r[i] < radices[i]
      {
        if i < k { assert v[..k][i] < radices[..k][i]; }
      }
    }
  }

  lemma RankStep(radices: seq<nat>, v: seq<nat>, front: seq<nat>, d: nat)
    requires |v| == |radices| > 0 && v == front + [d]
    ensures var k := |v| - 1; Rank(radices, v) == Place(Rank(radices[..k], front), radices[k], d)
    ensures var k := |v| - 1; Total(radices) == Place(Total(radices[..k]), radices[k], 0)
  {
    hide Place;
    assert v[..|v| - 1] == front;
  }

  lemma {:induction false} IncrementCounts(radices: seq<nat>, v: seq<nat>)
    requires IsVector(radices, v)
    ensures IsLast(radices, v) <==> Rank(radices, v) + 1 == Total(radices)
    ensures Rank(radices, Increment(radices, v)) == if IsLast(radices, v) then 0 else Rank(radices, v) + 1
    decreases |v|
  {
    hide Place, Rank, Total;
    if |v| == 0 {
      NoDigits(radices, v);
    } else {
      var k := |v| - 1;
      var n, front, r := radices[k], v[..k], Increment(radices, v);
      var q, total := Rank(radices[..k], front), Total(radices[..k]);
      RankBelow(radices[..k], front);
      RankStep(radices, v, front, v[k]);
      PlaceNext(q, n);
      LastStep(radices, v);
      if v[k] + 1 < n {
        RankStep(radices, r, front, v[k] + 1);
        PlaceDigit(q, n, v[k]);
        PlaceLess(q, total, n, v[k] + 1, 0);
      } else {
        IncrementCounts(radices[..k], front);
        RankStep(radices, r, Increment(radices[..k], front), 0);
        if q + 1 < total { PlaceLess(q + 1, total, n, 0, 0); }
      }
    }
  }

  lemma NoDigits(radices: seq<nat>, v: seq<nat>)
    requires |v| == |radices| == 0
    ensures Rank(radices, v) == 0 && Total(radices) == 1
  {
  }

  lemma LastStep(radices: seq<nat>, v: seq<nat>)
    requires |v| == |radices| > 0
    ensures var k := |v| - 1; IsLast(radices, v) <==> IsLast(radices[..k], v[..k]) && v[k] + 1 >= radices[k]
  {
    var k := |v| - 1;
    if IsLast(radices[..k], v[..k]) && v[k] + 1 >= radices[k] {
      forall i | 0 <= i < |v|
        ensures v[i] + 1 >= radices[i]
      {
        if i < k { assert v[..k][i] + 1 >= radices[..k][i]; }
      }
    }
  }

  // ---------- a whole run ----------

  function Zeros(n: nat): (z: seq<nat>)
    ensures |z| == n && forall i :: 0 <= i < n ==> z[i] == 0
  {
    seq(n, _ => 0)
  }

  /** The vector after r steps from all zeros. */
  function Nth(radices: seq<nat>, r: nat): (v: seq<nat>)
    ensures |v| == |radices|
  {
    if r == 0 then Zeros(|radices|) else Increment(radices, Nth(radices, r - 1))
  }

  predicate AllPositive(radices: seq<nat>) { forall i :: 0 <= i < |radices| ==> radices[i] > 0 }

  lemma {:induction false} ZeroRank(radices: seq<nat>, v: seq<nat>)
    requires |v| == |radices| && forall i :: 0 <= i < |v| ==> v[i] == 0
    ensures Rank(radices, v) == 0
    decreases |v|
  {
    if |v| > 0 { ZeroRank(radices[..|v| - 1], v[..|v| - 1]); }
  }

  lemma {:induction false} NthRank(radices: seq<nat>, r: nat)
    requires AllPositive(radices) && r < Total(radices)
    ensures IsVector(radices, Nth(radices, r)) && Rank(radices, Nth(radices, r)) == r
  {
    hide Rank, Increment, Total;
    if r == 0 {
      ZeroRank(radices, Zeros(|radices|));
    } else {
      NthRank(radices, r - 1);
      IncrementCounts(radices, Nth(radices, r - 1));
      IncrementIsVector(radices, Nth(radices, r - 1));
    }
  }

  /** A run from all zeros visits every vector, once each, in lexicographic order. */
  lemma RunVisitsAll(radices: seq<nat>)
    requires AllPositive(radices)
    ensures forall v :: IsVector(radices, v) ==>
            Rank(radices, v) < Total(radices) && Nth(radices, Rank(radices, v)) == v
    ensures forall r, q :: 0 <= r < q < Total(radices) ==> LexLess(Nth(radices, r), Nth(radices, q))
  {
    hide Rank, Nth, Total, LexLess, IsVector;
    forall v | IsVector(radices, v)
      ensures VisitedAt(radices, v)
    {
      SizeOf(radices, v);
      RankBelow(radices, v);
      NthRank(radices, Rank(radices, v));
      RankOrder(radices, v, Nth(radices, Rank(radices, v)));
    }
    forall r, q | 0 <= r < q < Total(radices)
      ensures LexLess(Nth(radices, r), Nth(radices, q))
    {
      NthRank(radices, r);
      NthRank(radices, q);
      RankOrder(radices, Nth(radices, r), Nth(radices, q));
    }
    forall v | IsVector(radices, v)
      ensures Rank(radices, v) < Total(radices) && Nth(radices, Rank(radices, v)) == v
    {
      assert VisitedAt(radices, v);
    }
  }

  ghost predicate VisitedAt(radices: seq<nat>, v: seq<nat>) {
    |v| == |radices| && Rank(radices, v) < Total(radices) && Nth(radices, Rank(radices, v)) == v
  }

  lemma SizeOf(radices: seq<nat>, v: seq<nat>)
    requires IsVector(radices, v)
    ensures |v| == |radices|
  {
  }
}
