/** One-word facts about the 32-bit words that `contribs/skilling.c` calls `coord_t`. */
module BitWords {

  type Word = bv32

  /** A word with exactly one bit set, like every `Q` of the bit loops. */
  predicate IsBit(q: Word) {
    q != 0 && q & (q - 1) == 0
  }

  /** The word with bit k set: the value of `Q` after k doublings of 1. */
  function Bit(k: nat): Word
    requires k <= 31
  {
    if k == 0 then 1 else Bit(k - 1) << 1
  }

  /** Thirty-one doublings of 1 have not yet shifted the bit out. */
  lemma BitThirtyOne()
    ensures Bit(31) == 0x8000_0000
  {
    assert Bit(4) == 0x10 && Bit(8) == 0x100 by { assert Bit(2) == 0x4 && Bit(6) == 0x40; }
    assert Bit(12) == 0x1000 by { assert Bit(10) == 0x400; }
    assert Bit(16) == 0x1_0000 by { assert Bit(14) == 0x4000; }
    assert Bit(20) == 0x10_0000 by { assert Bit(18) == 0x4_0000; }
    assert Bit(24) == 0x100_0000 by { assert Bit(22) == 0x40_0000; }
    assert Bit(28) == 0x1000_0000 by { assert Bit(26) == 0x400_0000; }
    assert Bit(30) == 0x4000_0000;
  }

  /** Zero stays zero when doubled, so no power below the 31st can be zero. */
  lemma {:induction false} BitNonZero(k: nat)
    requires k <= 31
    ensures Bit(k) != 0
    decreases 31 - k
  {
    if k == 31 {
      BitThirtyOne();
    } else {
      BitNonZero(k + 1);
    }
  }

  lemma {:induction false} BitIsOneBit(k: nat)
    requires k <= 31
    ensures IsBit(Bit(k))
    ensures k > 0 ==> Bit(k) >> 1 == Bit(k - 1) && Bit(k - 1) < Bit(k)
    ensures k <= 30 ==> Bit(k) <= 0x4000_0000
  {
    BitNonZero(k);
    if k > 0 {
      BitIsOneBit(k - 1);
      DoubleBit(Bit(k - 1));
    }
    if k <= 30 {
      BitNonZero(k + 1);
      DoubleBit(Bit(k));
    }
  }

  lemma DoubleBit(q: Word)
    requires IsBit(q) && q << 1 != 0
    ensures IsBit(q << 1) && (q << 1) >> 1 == q && q < q << 1 && q <= 0x4000_0000
  {
  }

  // ---------- the word operations of the two transforms ----------

  function Xor(x: Word, y: Word): Word {
    x ^ y
  }

  function And(x: Word, y: Word): Word {
    x & y
  }

  /** Whether x has a bit in common with q. */
  predicate Has(x: Word, q: Word) {
    And(x, q) != 0
  }

  /** Every bit below the single bit of q. */
  function Ones(q: Word): Word {
    q - 1
  }

  /** What x has below the single bit of q. */
  function Low(x: Word, q: Word): Word {
    And(x, Ones(q))
  }

  function Half(x: Word): Word {
    x >> 1
  }

  function Double(x: Word): Word {
    x << 1
  }

  function ShiftRight(x: Word, i: nat): Word
    requires i <= 31
  {
    x >> i
  }

  /** The right shift by any amount, as repeated halving. */
  function Shr(x: Word, i: nat): Word {
    if i == 0 then x else Shr(Half(x), i - 1)
  }

  /** x fits below the single bit m. */
  predicate Below(x: Word, m: Word) {
    x < m
  }

  lemma XorLaws(x: Word, y: Word)
    ensures Xor(x, y) == Xor(y, x) && Xor(Xor(x, y), y) == x && Xor(Xor(x, y), x) == y
    ensures Xor(x, 0) == x && Xor(x, x) == 0
  {
  }

  lemma XorAssociates(x: Word, y: Word, z: Word)
    ensures Xor(Xor(x, y), z) == Xor(x, Xor(y, z))
  {
  }

  lemma XorRegroups(a: Word, b: Word, c: Word, d: Word)
    ensures Xor(Xor(a, b), Xor(c, d)) == Xor(Xor(a, c), Xor(b, d))
  {
    hide Xor;
    XorAssociates(a, b, Xor(c, d));
    XorAssociates(b, c, d);
    XorLaws(b, c);
    XorAssociates(c, b, d);
    XorAssociates(a, c, Xor(b, d));
  }

  lemma XorCommonTerm(a: Word, b: Word, t: Word)
    ensures Xor(Xor(a, t), Xor(b, t)) == Xor(a, b)
  {
    hide Xor;
    XorRegroups(a, t, b, t);
    XorLaws(t, t);
    XorLaws(Xor(a, b), 0);
  }

  /** Changing bits below Q leaves bit Q alone. */
  lemma LowKeepsBit(x: Word, y: Word, q: Word)
    requires IsBit(q)
    ensures Has(Xor(x, Low(y, q)), q) == Has(x, q) && Has(Xor(x, Ones(q)), q) == Has(x, q)
  {
  }

  lemma XorBelow(x: Word, y: Word, m: Word)
    requires IsBit(m) && Below(x, m) && Below(y, m)
    ensures Below(Xor(x, y), m)
  {
  }

  lemma LowBelow(x: Word, q: Word, m: Word)
    requires IsBit(q) && q <= m
    ensures Below(Low(x, q), m) && Below(Ones(q), m)
  {
  }

  lemma HalfXor(x: Word, y: Word)
    ensures Half(Xor(x, y)) == Xor(Half(x), Half(y))
  {
  }

  lemma {:induction false} ShrXor(x: Word, y: Word, i: nat)
    ensures Shr(Xor(x, y), i) == Xor(Shr(x, i), Shr(y, i))
    decreases i
  {
    hide Xor, Half;
    if i > 0 {
      HalfXor(x, y);
      ShrXor(Half(x), Half(y), i - 1);
    }
  }

  lemma {:induction false} ShrAdds(x: Word, i: nat, j: nat)
    ensures Shr(Shr(x, i), j) == Shr(x, i + j)
    decreases i
  {
    hide Half;
    if i > 0 {
      ShrAdds(Half(x), i - 1, j);
    }
  }

  lemma ShiftTwice(x: Word)
    ensures (x >> 1) >> 1 == x >> 2 && (x >> 2) >> 2 == x >> 4
    ensures (x >> 4) >> 4 == x >> 8 && (x >> 8) >> 8 == x >> 16
  {
  }

  lemma ShrByOne(x: Word)
    ensures Shr(x, 1) == x >> 1
  {
    assert Shr(Half(x), 0) == Half(x);
  }

  lemma ShrByTwo(x: Word)
    ensures Shr(x, 2) == x >> 2
  {
    hide Shr;
    ShrByOne(x);
    ShrByOne(x >> 1);
    ShrAdds(x, 1, 1);
    ShiftTwice(x);
  }

  lemma ShrByFour(x: Word)
    ensures Shr(x, 4) == x >> 4
  {
    hide Shr;
    ShrByTwo(x);
    ShrByTwo(x >> 2);
    ShrAdds(x, 2, 2);
    ShiftTwice(x);
  }

  lemma ShrByEight(x: Word)
    ensures Shr(x, 8) == x >> 8
  {
    hide Shr;
    ShrByFour(x);
    ShrByFour(x >> 4);
    ShrAdds(x, 4, 4);
    ShiftTwice(x);
  }

  lemma ShrBySixteen(x: Word)
    ensures Shr(x, 16) == x >> 16
  {
    hide Shr;
    ShrByEight(x);
    ShrByEight(x >> 8);
    ShrAdds(x, 8, 8);
    ShiftTwice(x);
  }

  /** At the shift amounts the doubling loop uses, repeated halving is the machine shift. */
  lemma ShrIsShift(x: Word, i: nat)
    requires i in {1, 2, 4, 8, 16}
    ensures Shr(x, i) == ShiftRight(x, i)
  {
    hide Shr;
    if i == 1 {
      ShrByOne(x);
    } else if i == 2 {
      ShrByTwo(x);
    } else if i == 4 {
      ShrByFour(x);
    } else if i == 8 {
      ShrByEight(x);
    } else {
      ShrBySixteen(x);
    }
  }

  lemma HalfBelow(x: Word, q: Word)
    requires IsBit(q)
    ensures Below(x, q << 1) && q << 1 != 0 ==> Below(Half(x), q)
    ensures Below(x, q) ==> Below(Half(x), q)
    ensures Below(x, q) && q == 1 ==> x == 0
  {
  }

  /** A word of b bits is shifted out after b halvings. */
  lemma {:induction false} ShiftedOut(x: Word, b: nat, i: nat)
    requires b <= 31 && b <= i && Below(x, Bit(b))
    ensures Shr(x, i) == 0
    decreases i
  {
    hide Half, Below, IsBit, Bit;
    BitIsOneBit(b);
    if b == 0 {
      assert Bit(0) == 1 by { BitZero(); }
      HalfBelow(x, Bit(0));
      ShrZero(i);
    } else {
      BitIsOneBit(b - 1);
      BitDoubles(b);
      HalfBelow(x, Bit(b - 1));
      ShiftedOut(Half(x), b - 1, i - 1);
    }
  }

  lemma BitZero()
    ensures Bit(0) == 1
  {
  }

  lemma BitDoubles(b: nat)
    requires 0 < b <= 31
    ensures Bit(b) == Bit(b - 1) << 1 && Bit(b) != 0
  {
    BitNonZero(b);
  }

  lemma {:induction false} ShrZero(i: nat)
    ensures Shr(0, i) == 0
  {
    if i > 0 {
      ShrZero(i - 1);
    }
  }
}
