/**
  Bits of 32-bit words. Each operator has a name, and shifts by a variable amount are repeated shifts by one,
  so that what they do to a single bit follows by induction from facts about single operators.
 */
module BmpBits {

  type Word = bv32

  const TOP: Word := 0x8000_0000

  function Or(a: Word, b: Word): Word { a | b }

  function And(a: Word, b: Word): Word { a & b }

  function Not(a: Word): Word { !a }

  function Half(a: Word): Word { a >> 1 }

  function Twice(a: Word): Word { a << 1 }

  function Pred(a: Word): Word { a - 1 }

  predicate Less(a: Word, b: Word) { a < b }

  /** w << k */
  function Shl(w: Word, k: nat): Word { if k == 0 then w else Twice(Shl(w, k - 1)) }

  /** w >> k */
  function Shr(w: Word, k: nat): Word { if k == 0 then w else Half(Shr(w, k - 1)) }

  /** 1 << k */
  function One(k: nat): Word { Shl(1, k) }

  /** (1 << k) - 1 */
  function Below(k: nat): Word { Pred(One(k)) }

  /** 0x10001 << k */
  function Pair(k: nat): Word { Shl(0x10001, k) }

  /** Bit k of w. */
  predicate Bit(w: Word, k: nat) { And(w, One(k)) != 0 }

  // ---------- single operators ----------

  predicate IsPower(m: Word) { m != 0 && m & (m - 1) == 0 }

  lemma TwicePower(m: Word)
    requires IsPower(m)
    ensures if Less(m, TOP) then IsPower(Twice(m)) && Less(m, Twice(m)) else Twice(m) == 0
  {
  }

  lemma TwiceOr(a: Word, b: Word)
    ensures Twice(Or(a, b)) == Or(Twice(a), Twice(b))
  {
  }

  lemma Distribute(a: Word, b: Word, m: Word)
    ensures And(Or(a, b), m) == Or(And(a, m), And(b, m))
  {
    hide And, Or;
    AndOr(a, b);
    AndOr(a, m);
    AndOr(b, m);
    AndOr(a | b, m);
    AndOr(a & m, b & m);
    DistributeBits(a, b, m);
  }

  lemma AndOr(a: Word, b: Word)
    ensures And(a, b) == a & b && Or(a, b) == a | b
  {
  }

  lemma DistributeBits(a: Word, b: Word, m: Word)
    ensures (a | b) & m == (a & m) | (b & m)
  {
  }

  lemma OrZero(a: Word, b: Word)
    ensures Or(a, b) == 0 <==> a == 0 && b == 0
  {
  }

  lemma MaskOr(a: Word, b: Word, m: Word)
    ensures And(Or(a, b), m) != 0 <==> And(a, m) != 0 || And(b, m) != 0
  {
    hide And, Or;
    Distribute(a, b, m);
    OrZero(And(a, m), And(b, m));
  }

  /** A power of two lets through all or nothing. */
  lemma AllOrNothing(a: Word, m: Word)
    requires IsPower(m)
    ensures And(a, m) == 0 || And(a, m) == m
  {
  }

  lemma Reassociate(a: Word, b: Word, m: Word)
    ensures And(And(a, b), m) == And(a, And(b, m))
    ensures And(a, 0) == 0
  {
  }

  lemma MaskAnd(a: Word, b: Word, m: Word)
    requires IsPower(m)
    ensures And(And(a, b), m) != 0 <==> And(a, m) != 0 && And(b, m) != 0
  {
    hide And, IsPower;
    AllOrNothing(b, m);
    Reassociate(a, b, m);
  }

  lemma Complement(a: Word, m: Word)
    ensures And(a, m) == m ==> And(Not(a), m) == 0
    ensures And(a, m) == 0 ==> And(Not(a), m) == m
  {
  }

  lemma MaskNot(a: Word, m: Word)
    requires IsPower(m)
    ensures And(Not(a), m) != 0 <==> And(a, m) == 0
  {
    hide And, Not;
    AllOrNothing(a, m);
    Complement(a, m);
  }

  lemma MaskPower(a: Word, b: Word)
    requires IsPower(a) && IsPower(b)
    ensures And(a, b) != 0 <==> a == b
  {
  }

  lemma MaskBelow(a: Word, b: Word)
    requires IsPower(a) && IsPower(b)
    ensures And(Pred(a), b) != 0 <==> Less(b, a)
  {
  }

  lemma MaskHalf(w: Word, m: Word)
    requires Less(m, TOP)
    ensures And(Half(w), m) != 0 <==> And(w, Twice(m)) != 0
  {
  }

  lemma MaskZero(m: Word)
    ensures And(0, m) == 0
  {
  }

  // ---------- powers of two ----------

  lemma {:induction false} ZeroStays(w: Word, j: nat, k: nat)
    requires Shl(w, j) == 0
    ensures Shl(w, j + k) == 0
    decreases k
  {
    if k > 0 {
      ZeroStays(w, j, k - 1);
      assert Twice(0) == 0;
    }
  }

  lemma TopOne()
    ensures One(16) == 0x10000 && One(31) == TOP
  {
    assert One(8) == 0x100;
    assert One(16) == 0x10000;
    assert One(24) == 0x100_0000;
  }

  /** The powers of two grow until they leave the word. */
  lemma {:induction false} OnePower(k: nat)
    requires k < 32
    ensures IsPower(One(k)) && (k < 31 ==> Less(One(k), TOP))
  {
    hide IsPower, Less, Twice;
    if k == 0 {
      FirstPower();
    } else {
      OnePower(k - 1);
      TwicePower(One(k - 1));
    }
    if k < 31 && !Less(One(k), TOP) {
      TwicePower(One(k));
      ZeroStays(1, k + 1, 30 - k);
      TopOne();
    }
  }

  lemma FirstPower()
    ensures IsPower(One(0))
  {
  }

  lemma {:induction false} OnesGrow(j: nat, k: nat)
    requires j < k < 32
    ensures Less(One(j), One(k))
    decreases k
  {
    hide IsPower, Less, Twice;
    OnePower(k - 1);
    TwicePower(One(k - 1));
    if j < k - 1 {
      OnesGrow(j, k - 1);
      LessTransitive(One(j), One(k - 1), One(k));
    }
  }

  lemma LessTransitive(a: Word, b: Word, c: Word)
    requires Less(a, b) && Less(b, c)
    ensures Less(a, c)
  {
  }

  lemma LessIrreflexive(a: Word, b: Word)
    requires Less(a, b)
    ensures a != b && !Less(b, a)
  {
  }

  lemma OnesDiffer(j: nat, k: nat)
    requires j < 32 && k < 32
    ensures One(j) == One(k) <==> j == k
    ensures Less(One(j), One(k)) <==> j < k
  {
    hide One, Less;
    if j < k {
      OnesGrow(j, k);
      LessIrreflexive(One(j), One(k));
    } else if k < j {
      OnesGrow(k, j);
      LessIrreflexive(One(k), One(j));
    } else if Less(One(j), One(j)) {
      LessIrreflexive(One(j), One(j));
    }
  }

  // ---------- bit k ----------

  lemma NoBit(k: nat)
    ensures !Bit(0, k)
  {
    hide One;
    MaskZero(One(k));
  }

  lemma BitOr(a: Word, b: Word, k: nat)
    ensures Bit(Or(a, b), k) <==> Bit(a, k) || Bit(b, k)
  {
    hide One, Or, And;
    MaskOr(a, b, One(k));
  }

  lemma BitAnd(a: Word, b: Word, k: nat)
    requires k < 32
    ensures Bit(And(a, b), k) <==> Bit(a, k) && Bit(b, k)
  {
    hide One, And, IsPower;
    OnePower(k);
    MaskAnd(a, b, One(k));
  }

  lemma BitNot(a: Word, k: nat)
    requires k < 32
    ensures Bit(Not(a), k) <==> !Bit(a, k)
  {
    hide One, Not, And, IsPower;
    OnePower(k);
    MaskNot(a, One(k));
  }

  lemma BitOne(j: nat, k: nat)
    requires j < 32 && k < 32
    ensures Bit(One(j), k) <==> j == k
  {
    hide One, And, IsPower, Less;
    OnePower(j);
    OnePower(k);
    OnesDiffer(j, k);
    MaskPower(One(j), One(k));
  }

  lemma BitBelow(j: nat, k: nat)
    requires j < 32 && k < 32
    ensures Bit(Below(j), k) <==> k < j
  {
    hide One, And, IsPower, Less, Pred;
    OnePower(j);
    OnePower(k);
    OnesDiffer(k, j);
    MaskBelow(One(j), One(k));
  }

  lemma {:induction false} PairSplit(j: nat)
    ensures Pair(j) == Or(One(j), One(j + 16))
  {
    hide Or, Twice;
    if j == 0 {
      TopOne();
      PairConstant();
    } else {
      PairSplit(j - 1);
      TwiceOr(One(j - 1), One(j + 15));
    }
  }

  lemma PairConstant()
    ensures Or(1, 0x10000) == 0x10001
  {
  }

  lemma BitPair(j: nat, k: nat)
    requires j < 16 && k < 32
    ensures Bit(Pair(j), k) <==> k == j || k == j + 16
  {
    hide One, Or, Bit, Pair;
    PairSplit(j);
    BitOr(One(j), One(j + 16), k);
    BitOne(j, k);
    BitOne(j + 16, k);
  }

  lemma {:induction false} BitShr(w: Word, j: nat, k: nat)
    requires j + k < 32
    ensures Bit(Shr(w, j), k) <==> Bit(w, j + k)
    decreases j
  {
    hide And, Half, Less, Twice;
    if j > 0 {
      BitShr(w, j - 1, k + 1);
      OnePower(k);
      MaskHalf(Shr(w, j - 1), One(k));
    }
  }

  /** The two bits that tell whether a block is uniform, and in the set. */
  lemma TwoBits(w: Word, j: nat)
    requires j < 16
    ensures var two := And(Shr(w, j), 0x10001);
            && (two <= 1 <==> !Bit(w, j + 16))
            && (two <= 1 ==> (two == 1 <==> Bit(w, j)) && (two == 0 <==> !Bit(w, j)))
  {
    hide Shr, Shl;
    BitShr(w, j, 16);
    BitShr(w, j, 0);
    TopOne();
    assert One(0) == 1 by { OneZero(); }
    TwoOf(Shr(w, j));
  }

  lemma OneZero()
    ensures One(0) == 1
  {
  }

  lemma TwoOf(v: Word)
    ensures var two := And(v, 0x10001);
            && (two <= 1 <==> And(v, 0x10000) == 0)
            && (two <= 1 ==> (two == 1 <==> And(v, 1) != 0) && (two == 0 <==> And(v, 1) == 0))
  {
  }
}
