/** The main theorem about the decoder: consecutive Hilbert integers are neighbouring points. */
module HilbertNeighbours {
  import opened BitWords
  import opened HilbertCodec
  import opened HilbertCurve

  predicate Next(x: Word, y: Word) {
    x < y && y == x + 1
  }

  /** The two points differ by exactly one, in coordinate j only. */
  predicate AdjacentAt(s: seq<Word>, t: seq<Word>, j: nat) {
    j < |s| == |t| && (Next(s[j], t[j]) || Next(t[j], s[j]))
    && forall i :: 0 <= i < |s| && i != j ==> s[i] == t[i]
  }

  predicate Adjacent(s: seq<Word>, t: seq<Word>) {
    exists j :: 0 <= j < |s| && AdjacentAt(s, t, j)
  }

  // ---------- inside one sub-cube ----------

  /** z is a run of ones from bit 0: the bits that adding one changes. */
  predicate Carry(z: Word) {
    z != 0 && z & (z + 1) == 0
  }

  lemma CarryOfSuccessor(x: Word)
    requires x < x + 1
    ensures var z := x ^ (x + 1); z != 0 && z & (z + 1) == 0 && x & z == z >> 1
  {
  }

  lemma SuccessorPattern(x: Word)
    requires x < x + 1
    ensures Carry(Xor(x, x + 1)) && And(x, Xor(x, x + 1)) == Half(Xor(x, x + 1))
  {
    CarryOfSuccessor(x);
  }

  lemma PatternOfNext(x: Word, y: Word)
    requires Next(x, y)
    ensures Carry(Xor(x, y)) && And(x, Xor(x, y)) == Half(Xor(x, y))
  {
    hide Carry, Xor, And, Half;
    SuccessorPattern(x);
  }

  lemma SuccessorOfPattern(x: Word, y: Word)
    requires var z := x ^ y; z != 0 && z & (z + 1) == 0 && x & z == z >> 1
    ensures x < y && y == x + 1
  {
  }

  lemma NextFromPattern(x: Word, y: Word)
    requires Carry(Xor(x, y)) && And(x, Xor(x, y)) == Half(Xor(x, y))
    ensures Next(x, y)
  {
    SuccessorOfPattern(x, y);
  }

  lemma AndLaws(x: Word, y: Word)
    ensures And(x, y) == And(y, x) && And(x, x) == x
  {
  }

  /** Inverting all the bits below q turns the order around: the same carry pattern, read downwards. */
  lemma ReflectNext(x: Word, y: Word, q: Word)
    requires IsBit(q) && Below(x, q) && Below(y, q) && Next(x, y)
    ensures Next(Reflect(y, q), Reflect(x, q))
  {
    hide Next, IsBit, Below, Xor, And, Carry, Half, Ones;
    var z, p := Xor(x, y), Ones(q);
    PatternOfNext(x, y);
    XorLaws(x, y);
    XorBelow(x, y, q);
    BelowIsLow(z, q);
    AndLaws(z, p);
    AndXor(z, x, z);
    AndXor(y, p, z);
    XorLaws(z, Half(z));
    XorCommonTerm(y, x, p);
    NextFromPattern(Reflect(y, q), Reflect(x, q));
  }

  lemma LowStepKeepsAdjacent(g: seq<bool>, s: seq<Word>, t: seq<Word>, q: Word, i: nat, j: nat) returns (k: nat)
    requires i < |g| == |s| && IsBit(q) && AllBelow(s, q) && AllBelow(t, q) && AdjacentAt(s, t, j)
    ensures AdjacentAt(LowStep(g, s, q, i), LowStep(g, t, q, i), k)
    ensures AllBelow(LowStep(g, s, q, i), q) && AllBelow(LowStep(g, t, q, i), q)
  {
    hide Reflect, Below, IsBit;
    ReflectBelow(s[0], q);
    ReflectBelow(t[0], q);
    if g[i] {
      k := j;
      if j == 0 {
        ReflectEitherNext(s[0], t[0], q);
      }
    } else {
      k := if j == 0 then i else if j == i then 0 else j;
    }
  }

  lemma ReflectEitherNext(x: Word, y: Word, q: Word)
    requires IsBit(q) && Below(x, q) && Below(y, q) && (Next(x, y) || Next(y, x))
    ensures Next(Reflect(x, q), Reflect(y, q)) || Next(Reflect(y, q), Reflect(x, q))
  {
    hide Reflect, Below, IsBit, Next;
    if Next(x, y) {
      ReflectNext(x, y, q);
    } else {
      ReflectNext(y, x, q);
    }
  }

  lemma ReflectBelow(x: Word, q: Word)
    requires IsBit(q) && Below(x, q)
    ensures Below(Reflect(x, q), q)
  {
    ReflectJoin(false, x, q);
  }

  /** Reflections and swaps are isometries of the sub-cube. */
  lemma {:induction false} LowFromKeepsAdjacent(g: seq<bool>, s: seq<Word>, t: seq<Word>, q: Word, i: nat, j: nat)
      returns (k: nat)
    requires i < |g| == |s| == |t| && IsBit(q) && AllBelow(s, q) && AllBelow(t, q) && AdjacentAt(s, t, j)
    ensures AdjacentAt(LowFrom(g, s, q, i), LowFrom(g, t, q, i), k)
    decreases i
  {
    hide LowStep, AdjacentAt, AllBelow, IsBit;
    k := LowStepKeepsAdjacent(g, s, t, q, i, j);
    if i > 0 {
      k := LowFromKeepsAdjacent(g, LowStep(g, s, q, i), LowStep(g, t, q, i), q, i - 1, k);
    }
  }

  lemma TopMisses(x: Word, q: Word)
    requires IsBit(q) && Below(x, q)
    ensures And(q, x) == 0
  {
  }

  lemma JoinNext(a: bool, x: Word, y: Word, q: Word)
    requires IsBit(q) && Below(x, q) && Below(y, q) && Next(x, y)
    ensures Next(Join(a, x, q), Join(a, y, q))
  {
    hide Xor, Next, IsBit, Below, And, Half, Carry;
    if a {
      var z := Xor(x, y);
      PatternOfNext(x, y);
      XorBelow(x, y, q);
      TopMisses(z, q);
      AndXor(q, x, z);
      XorLaws(0, And(x, z));
      XorLaws(And(x, z), 0);
      XorLaws(q, x);
      XorLaws(q, y);
      XorCommonTerm(x, y, q);
      NextFromPattern(Xor(q, x), Xor(q, y));
    }
  }

  lemma AdjacentNext(s: seq<Word>, t: seq<Word>, q: Word, j: nat)
    requires AdjacentAt(s, t, j) && AllBelow(s, q) && AllBelow(t, q)
    ensures j < |s| == |t| && Below(s[j], q) && Below(t[j], q) && (Next(s[j], t[j]) || Next(t[j], s[j]))
  {
    hide Next, Below;
  }

  /** Counting up or down by one survives joining the same top digit. */
  lemma JoinEitherNext(a: bool, x: Word, y: Word, q: Word)
    requires IsBit(q) && Below(x, q) && Below(y, q) && (Next(x, y) || Next(y, x))
    ensures Next(Join(a, x, q), Join(a, y, q)) || Next(Join(a, y, q), Join(a, x, q))
  {
    hide Next, Join, Below, IsBit;
    if Next(x, y) {
      JoinNext(a, x, y, q);
    } else {
      JoinNext(a, y, x, q);
    }
  }

  lemma BuildAdjacent(g: seq<bool>, s: seq<Word>, t: seq<Word>, q: Word, j: nat)
    requires |g| == |s| && AdjacentAt(s, t, j)
    requires Next(Join(g[j], s[j], q), Join(g[j], t[j], q)) || Next(Join(g[j], t[j], q), Join(g[j], s[j], q))
    ensures AdjacentAt(Build(g, s, q), Build(g, t, q), j)
  {
    hide Join, Next;
  }

  // ---------- across two sub-cubes ----------

  /** The digit and its successor have Gray codes that differ at j, with a single 1 right after j. */
  lemma GrayOfCarry(a: seq<bool>, b: seq<bool>, j: nat)
    requires |a| == |b| && CarryAt(a, b, j)
    ensures forall i :: 0 <= i < |a| && i != j ==> GrayTops(a)[i] == GrayTops(b)[i]
    ensures GrayTops(a)[j] != GrayTops(b)[j]
    ensures forall i :: j < i < |a| ==> GrayTops(a)[i] == (i == j + 1)
  {
  }

  lemma ReflectEnds(q: Word)
    requires IsBit(q)
    ensures Reflect(0, q) == Ones(q) && Reflect(Ones(q), q) == 0
  {
  }

  lemma {:induction false} ZerosStay(g: seq<bool>, q: Word, i: nat, j: nat)
    requires j < i < |g| && forall k :: j < k <= i ==> g[k] == (k == j + 1)
    requires IsBit(q)
    ensures LowFrom(g, Spike(|g|, 0), q, i) == LowFrom(g, Spike(|g|, Ones(q)), q, j)
    decreases i
  {
    hide Reflect, Ones, IsBit;
    var z := Spike(|g|, 0);
    ReflectEnds(q);
    if i == j + 1 {
      assert LowStep(g, z, q, i) == Spike(|g|, Ones(q));
    } else {
      assert LowStep(g, z, q, i) == z;
      ZerosStay(g, q, i - 1, j);
    }
  }

  predicate SameExcept<T(==)>(s: seq<T>, t: seq<T>, j: nat) {
    |s| == |t| && forall i :: 0 <= i < |s| && i != j ==> s[i] == t[i]
  }

  /** Steps at words before j do not see the difference at j. */
  lemma {:induction false} SuffixSame(g: seq<bool>, h: seq<bool>, s: seq<Word>, t: seq<Word>, q: Word, i: nat, j: nat)
    requires i < j < |g| == |s| && SameExcept(g, h, j) && SameExcept(s, t, j)
    ensures var a, b := LowFrom(g, s, q, i), LowFrom(h, t, q, i);
            SameExcept(a, b, j) && a[j] == s[j] && b[j] == t[j]
    decreases i
  {
    hide Reflect;
    if i > 0 {
      SuffixSame(g, h, LowStep(g, s, q, i), LowStep(h, t, q, i), q, i - 1, j);
    }
  }

  lemma LowFromUnfolds(g: seq<bool>, s: seq<Word>, q: Word, i: nat)
    requires i < |g| == |s|
    ensures LowFrom(g, s, q, i) == if i == 0 then LowStep(g, s, q, 0) else LowFrom(g, LowStep(g, s, q, i), q, i - 1)
  {
  }

  /** The step at j sends the corner to one side of coordinate j, or to the other. */
  lemma CrossStep(g: seq<bool>, h: seq<bool>, q: Word, j: nat)
    requires j < |g| == |h| && !g[j] && h[j] && IsBit(q)
    ensures var c := Spike(|g|, Ones(q)); var a, b := LowStep(g, c, q, j), LowStep(h, c, q, j);
            SameExcept(a, b, j) && a[j] == Ones(q) && b[j] == 0
  {
    hide Reflect, Ones, IsBit;
    ReflectEnds(q);
  }

  /** From the corner both sub-cubes share, the two low parts end at opposite sides of coordinate j. */
  lemma CrossAtJ(g: seq<bool>, h: seq<bool>, q: Word, j: nat)
    requires j < |g| && SameExcept(g, h, j) && !g[j] && h[j] && IsBit(q)
    ensures var a, b := LowFrom(g, Spike(|g|, Ones(q)), q, j), LowFrom(h, Spike(|g|, Ones(q)), q, j);
            SameExcept(a, b, j) && a[j] == Ones(q) && b[j] == 0
  {
    hide Reflect, Ones, IsBit, LowFrom, LowStep;
    var c := Spike(|g|, Ones(q));
    LowFromUnfolds(g, c, q, j);
    LowFromUnfolds(h, c, q, j);
    CrossStep(g, h, q, j);
    if j > 0 {
      SuffixSame(g, h, LowStep(g, c, q, j), LowStep(h, c, q, j), q, j - 1, j);
    }
  }

  lemma CrossNext(q: Word)
    requires IsBit(q)
    ensures Next(Join(false, Ones(q), q), Join(true, 0, q))
  {
  }

  lemma BuildCross(g: seq<bool>, h: seq<bool>, a: seq<Word>, b: seq<Word>, q: Word, j: nat)
    requires j < |g| == |a| && SameExcept(g, h, j) && SameExcept(a, b, j) && IsBit(q)
    requires !g[j] && h[j] && a[j] == Ones(q) && b[j] == 0
    ensures AdjacentAt(Build(g, a, q), Build(h, b, q), j)
  {
    hide Join, Ones, IsBit, Next;
    CrossNext(q);
  }

  /** The exit corner of one sub-cube touches the entry corner of the next. */
  lemma CrossAdjacent(g: seq<bool>, h: seq<bool>, v: Word, q: Word, j: nat)
    requires j < |g| && SameExcept(g, h, j) && g[j] != h[j] && IsBit(q)
    requires forall i :: j < i < |g| ==> g[i] == (i == j + 1)
    requires v == if j == |g| - 1 then Ones(q) else 0
    ensures var n := |g|;
            AdjacentAt(Build(g, LowFrom(g, Spike(n, v), q, n - 1), q),
                       Build(h, LowFrom(h, Spike(n, v), q, n - 1), q), j)
  {
    hide LowFrom, Build, Ones, IsBit, AdjacentAt;
    var n := |g|;
    if j < n - 1 {
      ZerosStay(g, q, n - 1, j);
      ZerosStay(h, q, n - 1, j);
    }
    var c := Spike(n, Ones(q));
    var a, b := LowFrom(g, c, q, j), LowFrom(h, c, q, j);
    if g[j] {
      CrossAtJ(h, g, q, j);
      BuildCross(h, g, b, a, q, j);
      AdjacentSymmetric(Build(h, b, q), Build(g, a, q), j);
    } else {
      CrossAtJ(g, h, q, j);
      BuildCross(g, h, a, b, q, j);
    }
  }

  lemma AdjacentSymmetric(s: seq<Word>, t: seq<Word>, j: nat)
    requires AdjacentAt(s, t, j)
    ensures AdjacentAt(t, s, j)
  {
  }

  // ---------- the two ends of the curve ----------

  lemma ZeroDigit(n: nat, k: nat)
    requires n > 0 && k <= 30
    ensures Tops(Spike(n, 0), Bit(k)) == seq(n, i => false)
    ensures Inner(Spike(n, 0), Bit(k)) == Spike(n, 0) && InRange(Spike(n, 0), k)
  {
    hide Has, Low, Below, IsBit, Bit;
    BitIsOneBit(k);
    QIsTop(Bit(k));
    BelowIsLow(0, Bit(k));
  }

  lemma {:induction false} AllFalseKeepsZero(g: seq<bool>, q: Word, i: nat)
    requires i < |g| && forall k :: 1 <= k <= i ==> !g[k]
    ensures LowFrom(g, Spike(|g|, 0), q, i) == Spike(|g|, if g[0] then Reflect(0, q) else 0)
    decreases i
  {
    hide Reflect;
    var z := Spike(|g|, 0);
    if i == 0 {
      assert LowStep(g, z, q, 0) == Spike(|g|, if g[0] then Reflect(0, q) else 0);
    } else {
      assert LowStep(g, z, q, i) == z;
      AllFalseKeepsZero(g, q, i - 1);
    }
  }

  /** Integer 0 decodes to the origin. */
  lemma {:induction false} StartsAtOrigin(n: nat, k: nat)
    requires n > 0 && k <= 31
    ensures Curve(Spike(n, 0), k) == Spike(n, 0)
  {
    hide Tops, Inner, IsBit, Bit, Curve, LowFrom, Reflect, InRange;
    var z := Spike(n, 0);
    if k == 0 {
      CurveZero(z);
    } else {
      StartsAtOrigin(n, k - 1);
      ZeroDigit(n, k - 1);
      RangeOfZeros(n, k);
      CurveLevel(z, k - 1);
      var g := GrayTops(Tops(z, Bit(k - 1)));
      AllFalseKeepsZero(g, Bit(k - 1), n - 1);
      assert Build(g, z, Bit(k - 1)) == z;
    }
  }

  lemma RangeOfZeros(n: nat, k: nat)
    requires k <= 31
    ensures InRange(Spike(n, 0), k)
  {
    hide Bit;
    BitIsOneBit(k);
  }

  lemma CurveZero(s: seq<Word>)
    requires |s| > 0
    ensures Curve(s, 0) == s
  {
  }

  function AllOnes(n: nat, q: Word): (r: seq<Word>)
    ensures |r| == n
  {
    seq(n, i requires 0 <= i < n => Ones(q))
  }

  lemma OnesWord(q: Word)
    requires IsBit(q) && Double(q) != 0
    ensures Has(Ones(Double(q)), q) && Low(Ones(Double(q)), q) == Ones(q) && Below(Ones(Double(q)), Double(q))
    ensures Join(true, Ones(q), q) == Ones(Double(q))
  {
  }

  lemma OnesDigit(n: nat, k: nat)
    requires n > 0 && k <= 30
    ensures var s := AllOnes(n, Bit(k + 1));
            Tops(s, Bit(k)) == seq(n, i => true) && Inner(s, Bit(k)) == Spike(n, 0) && InRange(s, k + 1)
            && Lows(s, Bit(k)) == AllOnes(n, Bit(k))
  {
    hide Has, Low, Below, IsBit, Bit, Double, Ones, Join, Reflect;
    TopBitFacts(k);
    OnesWord(Bit(k));
    ReflectEnds(Bit(k));
  }

  /** The last integer decodes to the far corner of the first axis. */
  lemma EndsOnFirstAxis(n: nat, k: nat)
    requires n > 0 && k <= 31
    ensures Curve(AllOnes(n, Bit(k)), k) == Spike(n, Ones(Bit(k)))
  {
    hide Tops, Inner, IsBit, Bit, Curve, LowFrom, Reflect, InRange, Ones, Double, Join;
    if k == 0 {
      CurveZero(AllOnes(n, Bit(0)));
      OnesOfUnit();
    } else {
      var q := Bit(k - 1);
      StartsAtOrigin(n, k - 1);
      OnesDigit(n, k - 1);
      var s := AllOnes(n, Bit(k));
      CurveLevel(s, k - 1);
      var g := GrayTops(Tops(s, q));
      AllFalseKeepsZero(g, q, n - 1);
      TopBitFacts(k - 1);
      ReflectEnds(q);
      OnesWord(q);
      JoinZero(q);
      assert Build(g, Spike(n, Ones(q)), q) == Spike(n, Ones(Bit(k)));
    }
  }

  lemma JoinZero(q: Word)
    ensures Join(false, 0, q) == 0
  {
  }

  lemma OnesOfUnit()
    ensures Ones(Bit(0)) == 0
  {
  }

  // ---------- arithmetic of the digits ----------

  lemma {:induction false} IntegerBound(s: seq<Word>, k: nat)
    requires k <= 31
    ensures HilbertInteger(s, k) < Count(|s|, k)
  {
    hide Tops, Bit;
    if k > 0 {
      IntegerBound(s, k - 1);
      BinaryBound(Tops(s, Bit(k - 1)));
      DigitBelow(Binary(Tops(s, Bit(k - 1))), Pow2(|s|), Count(|s|, k - 1), HilbertInteger(s, k - 1));
    }
  }

  lemma TimesMonotone(a: int, b: int, m: nat)
    ensures a <= b ==> a * m <= b * m
    ensures (a + 1) * m == a * m + m && (a - 1) * m == a * m - m
  {
  }

  lemma DigitBelow(d: nat, base: nat, m: nat, r: nat)
    requires d < base && r < m
    ensures d * m + r < base * m
  {
    TimesMonotone(d, base - 1, m);
    TimesMonotone(base, base, m);
  }

  /** Either the digit stays and the rest counts up, or the rest wraps and the digit counts up. */
  lemma DigitStep(d: nat, e: nat, m: nat, r: nat, t: nat)
    requires r < m && t < m && e * m + t == d * m + r + 1
    ensures (e == d && t == r + 1) || (e == d + 1 && r == m - 1 && t == 0)
  {
    TimesMonotone(e, d - 1, m);
    TimesMonotone(d, e, m);
    TimesMonotone(d + 2, e, m);
    TimesMonotone(d + 1, e, m);
  }

  lemma FullDigit(d: nat, base: nat, m: nat, r: nat)
    requires d < base && r < m && d * m + r == base * m - 1
    ensures d == base - 1 && r == m - 1
  {
    TimesMonotone(d, base - 2, m);
    TimesMonotone(base - 1, base, m);
  }

  lemma EmptyDigit(d: nat, m: nat, r: nat)
    requires m > 0 && d * m + r == 0
    ensures d == 0 && r == 0
  {
    TimesMonotone(1, d, m);
  }

  /** The low levels only read the low parts of the words. */
  lemma {:induction false} IntegerOfLows(s: seq<Word>, j: nat, k: nat)
    requires j <= k <= 31
    ensures HilbertInteger(Lows(s, Bit(k)), j) == HilbertInteger(s, j)
  {
    hide Bit, Has, Low, IsBit;
    if j > 0 {
      IntegerOfLows(s, j - 1, k);
      BitIsOneBit(j - 1);
      BitIsOneBit(j);
      BitIsOneBit(k);
      BitMonotone(j, k);
      forall i | 0 <= i < |s|
        ensures Has(Lows(s, Bit(k))[i], Bit(j - 1)) == Has(s[i], Bit(j - 1))
      {
        LowerBit(s[i], Bit(k), Bit(j - 1));
      }
      assert Tops(Lows(s, Bit(k)), Bit(j - 1)) == Tops(s, Bit(j - 1));
    }
  }

  lemma FlipDigit(d: nat, f: nat, base: nat, m: nat, r: nat, u: nat)
    requires f == base - 1 - d && u == m - 1 - r
    ensures f * m + u == base * m - 1 - (d * m + r)
  {
    assert f * m == base * m - m - d * m;
  }

  lemma OnesHasLower(q: Word, r: Word)
    requires IsBit(q) && IsBit(r) && r < q
    ensures Has(Ones(q), r)
  {
  }

  lemma ReflectFlips(s: seq<Word>, q: Word, r: Word)
    requires IsBit(q) && IsBit(r) && r < q
    ensures Tops(ReflectAll(s, q), r) == Flip(Tops(s, r))
  {
    hide Has, IsBit, Xor, Ones;
    OnesHasLower(q, r);
    forall i | 0 <= i < |s|
      ensures Has(ReflectAll(s, q)[i], r) == !Has(s[i], r)
    {
      HasXor(s[i], Ones(q), r);
    }
  }

  /** Inverting every bit runs the count backwards. */
  lemma {:induction false} IntegerOfReflected(s: seq<Word>, j: nat, k: nat)
    requires j <= k <= 31
    ensures HilbertInteger(ReflectAll(s, Bit(k)), j) == Count(|s|, j) - 1 - HilbertInteger(s, j)
  {
    hide Bit, Tops, ReflectAll, IsBit, Binary, Flip, Pow2;
    if j > 0 {
      var q, r := Bit(k), Bit(j - 1);
      IntegerOfReflected(s, j - 1, k);
      BitIsOneBit(j - 1);
      BitIsOneBit(j);
      BitIsOneBit(k);
      BitMonotone(j, k);
      ReflectFlips(s, q, r);
      BinaryFlip(Tops(s, r));
      FlipDigit(Binary(Tops(s, r)), Binary(Flip(Tops(s, r))), Pow2(|s|), Count(|s|, j - 1),
                HilbertInteger(s, j - 1), HilbertInteger(ReflectAll(s, q), j - 1));
    }
  }

  lemma LowsInRange(s: seq<Word>, k: nat)
    requires k <= 31
    ensures InRange(Lows(s, Bit(k)), k)
  {
    hide Bit, Low, Below, IsBit;
    BitIsOneBit(k);
    forall i | 0 <= i < |s|
      ensures Below(Low(s[i], Bit(k)), Bit(k))
    {
      LowIsBelow(s[i], Bit(k));
    }
  }

  lemma OnlyZero(x: Word)
    requires Below(x, 1)
    ensures x == 0 && Ones(1) == 0
  {
  }

  /** Without bits there is one word only. */
  lemma ZeroWords(s: seq<Word>)
    requires forall i :: 0 <= i < |s| ==> Below(s[i], 1)
    ensures s == AllOnes(|s|, 1) && s == Spike(|s|, 0)
  {
    hide Below, Ones;
    forall i | 0 <= i < |s|
      ensures s[i] == 0 && Ones(1) == 0
    {
      OnlyZero(s[i]);
    }
  }

  lemma OnesAgain(s: seq<Word>, q: Word)
    requires IsBit(q) && Double(q) != 0 && s == Build(Tops(s, q), Lows(s, q), q)
    requires (forall i :: 0 <= i < |s| ==> Tops(s, q)[i]) && Lows(s, q) == AllOnes(|s|, q)
    ensures s == AllOnes(|s|, Double(q))
  {
    hide IsBit, Double, Tops, Lows, Join, Ones, Has, Low, Below;
    OnesWord(q);
  }

  lemma ZerosAgain(s: seq<Word>, q: Word)
    requires s == Build(Tops(s, q), Lows(s, q), q)
    requires (forall i :: 0 <= i < |s| ==> !Tops(s, q)[i]) && Lows(s, q) == Spike(|s|, 0)
    ensures s == Spike(|s|, 0)
  {
    hide Tops, Lows, Join;
    JoinZero(q);
  }

  /** The last integer is all ones and the first is all zeros. */
  lemma {:induction false} ExtremeIntegers(s: seq<Word>, k: nat)
    requires k <= 31 && InRange(s, k)
    ensures HilbertInteger(s, k) == Count(|s|, k) - 1 ==> s == AllOnes(|s|, Bit(k))
    ensures HilbertInteger(s, k) == 0 ==> s == Spike(|s|, 0)
    decreases k
  {
    hide Bit, Has, Low, Below, IsBit, Ones, Double, Join, Tops, Lows, Build, AllOnes, Spike;
    if k == 0 {
      BitZero();
      ZeroWords(s);
    } else {
      var q := Bit(k - 1);
      TopBitFacts(k - 1);
      LowsInRange(s, k - 1);
      ExtremeIntegers(Lows(s, q), k - 1);
      IntegerOfLows(s, k - 1, k - 1);
      IntegerBound(s, k - 1);
      BinaryBound(Tops(s, q));
      BuildBack(s, q);
      if HilbertInteger(s, k) == Count(|s|, k) - 1 {
        FullDigit(Binary(Tops(s, q)), Pow2(|s|), Count(|s|, k - 1), HilbertInteger(s, k - 1));
        OnesAgain(s, q);
      }
      if HilbertInteger(s, k) == 0 {
        EmptyDigit(Binary(Tops(s, q)), Count(|s|, k - 1), HilbertInteger(s, k - 1));
        ZerosAgain(s, q);
      }
    }
  }

  // ---------- the theorem ----------

  /** The parity bit of a digit is bit q of the last word. */
  lemma SameDigit(s: seq<Word>, t: seq<Word>, q: Word)
    requires |s| == |t| > 0 && Tops(s, q) == Tops(t, q)
    ensures Has(s[|s| - 1], q) == Has(t[|t| - 1], q)
  {
    hide Has;
    assert Tops(s, q)[|s| - 1] == Tops(t, q)[|s| - 1];
  }

  /** The digit stays: both points lie in one sub-cube, and the inner points are neighbours. */
  lemma SameSubcube(s: seq<Word>, t: seq<Word>, k: nat, j: nat) returns (r: nat)
    requires |s| == |t| > 0 && k <= 30 && InRange(s, k + 1) && InRange(t, k + 1)
    requires Tops(s, Bit(k)) == Tops(t, Bit(k))
    requires AdjacentAt(Curve(Inner(s, Bit(k)), k), Curve(Inner(t, Bit(k)), k), j)
    ensures AdjacentAt(Curve(s, k + 1), Curve(t, k + 1), r)
  {
    hide Bit, InRange, Tops, Inner, Curve, AdjacentAt, LowFrom, Build, AllBelow, IsBit;
    var q, n := Bit(k), |s|;
    TopBitFacts(k);
    CurveLevel(s, k);
    CurveLevel(t, k);
    var g := GrayTops(Tops(s, q));
    var u, v := Curve(Inner(s, q), k), Curve(Inner(t, q), k);
    r := LowFromKeepsAdjacent(g, u, v, q, n - 1, j);
    var x, y := LowFrom(g, u, q, n - 1), LowFrom(g, v, q, n - 1);
    AdjacentNext(x, y, q, r);
    JoinEitherNext(g[r], x[r], y[r], q);
    BuildAdjacent(g, x, y, q, r);
  }

  /** The digit counts up: the exit of one sub-cube is next to the entry of the following one. */
  lemma NextSubcube(s: seq<Word>, t: seq<Word>, k: nat) returns (r: nat)
    requires |s| == |t| > 0 && k <= 30 && InRange(s, k + 1) && InRange(t, k + 1)
    requires Binary(Tops(t, Bit(k))) == Binary(Tops(s, Bit(k))) + 1
    requires Lows(s, Bit(k)) == AllOnes(|s|, Bit(k)) && Lows(t, Bit(k)) == Spike(|s|, 0)
    ensures AdjacentAt(Curve(s, k + 1), Curve(t, k + 1), r)
  {
    hide Bit, InRange, Inner, Curve, AdjacentAt, LowFrom, Build, AllBelow, IsBit, Ones, Has, Lows, Reflect, Tops;
    var q, n := Bit(k), |s|;
    TopBitFacts(k);
    CurveLevel(s, k);
    CurveLevel(t, k);
    r := IncrementCarries(Tops(s, q), Tops(t, q));
    GrayOfCarry(Tops(s, q), Tops(t, q), r);
    var v := if r == n - 1 then Ones(q) else 0;
    InnerAtCarry(s, t, q, r);
    StartsAtOrigin(n, k);
    EndsOnFirstAxis(n, k);
    CrossAdjacent(GrayTops(Tops(s, q)), GrayTops(Tops(t, q)), v, q, r);
  }

  /** Reversing every other sub-curve makes both start the crossing from the same inner point. */
  lemma InnerAtCarry(s: seq<Word>, t: seq<Word>, q: Word, r: nat)
    requires |s| == |t| > 0 && IsBit(q) && CarryAt(Tops(s, q), Tops(t, q), r)
    requires Lows(s, q) == AllOnes(|s|, q) && Lows(t, q) == Spike(|s|, 0)
    ensures Inner(s, q) == Inner(t, q) == if r == |s| - 1 then AllOnes(|s|, q) else Spike(|s|, 0)
  {
    hide Has, IsBit, Ones, Lows, Reflect;
    ReflectEnds(q);
    var n := |s|;
    assert Has(s[n - 1], q) == Tops(s, q)[n - 1] && Has(t[n - 1], q) == Tops(t, q)[n - 1];
  }

  lemma InnerCounts(s: seq<Word>, k: nat)
    requires |s| > 0 && k <= 30 && InRange(s, k + 1)
    ensures InRange(Inner(s, Bit(k)), k)
    ensures HilbertInteger(Inner(s, Bit(k)), k) ==
            if Has(s[|s| - 1], Bit(k)) then Count(|s|, k) - 1 - HilbertInteger(s, k) else HilbertInteger(s, k)
  {
    hide Bit, InRange, Has, Lows, ReflectAll, HilbertInteger;
    InnerInRange(s, k);
    IntegerOfLows(s, k, k);
    IntegerOfReflected(Lows(s, Bit(k)), k, k);
  }

  lemma NothingSmaller(s: seq<Word>, t: seq<Word>, k: nat)
    requires k <= 31 && HilbertInteger(t, k) == HilbertInteger(s, k) + 1
    ensures k > 0
  {
  }

  /** Counting up either leaves the top digit and counts up below it, or carries into it. */
  lemma TopDigit(s: seq<Word>, t: seq<Word>, k: nat)
    requires |s| == |t| > 0 && k <= 30 && HilbertInteger(t, k + 1) == HilbertInteger(s, k + 1) + 1
    ensures var d, e := Binary(Tops(s, Bit(k))), Binary(Tops(t, Bit(k)));
            || (e == d && HilbertInteger(t, k) == HilbertInteger(s, k) + 1)
            || (e == d + 1 && HilbertInteger(s, k) == Count(|s|, k) - 1 && HilbertInteger(t, k) == 0)
  {
    hide Bit, Tops, Count;
    IntegerBound(s, k);
    IntegerBound(t, k);
    DigitStep(Binary(Tops(s, Bit(k))), Binary(Tops(t, Bit(k))), Count(|s|, k),
              HilbertInteger(s, k), HilbertInteger(t, k));
  }

  /** Counting up by one moves the decoded point by one step along one axis. */
  lemma {:induction false} CurveNeighbours(s: seq<Word>, t: seq<Word>, k: nat) returns (j: nat)
    requires |s| == |t| > 0 && k <= 31 && InRange(s, k) && InRange(t, k)
    requires HilbertInteger(t, k) == HilbertInteger(s, k) + 1
    ensures AdjacentAt(Curve(s, k), Curve(t, k), j)
    decreases k
  {
    hide Bit, InRange, Inner, Curve, AdjacentAt, IsBit, Ones, Has, Lows, Tops, Count, HilbertInteger;
    var n := |s|;
    NothingSmaller(s, t, k);
    var q := Bit(k - 1);
    TopDigit(s, t, k - 1);
    if Binary(Tops(t, q)) == Binary(Tops(s, q)) {
      BinaryInjective(Tops(s, q), Tops(t, q));
      SameDigit(s, t, q);
      InnerCounts(s, k - 1);
      InnerCounts(t, k - 1);
      if Has(s[n - 1], q) {
        j := CurveNeighbours(Inner(t, q), Inner(s, q), k - 1);
        AdjacentSymmetric(Curve(Inner(t, q), k - 1), Curve(Inner(s, q), k - 1), j);
      } else {
        j := CurveNeighbours(Inner(s, q), Inner(t, q), k - 1);
      }
      j := SameSubcube(s, t, k - 1, j);
    } else {
      LowsInRange(s, k - 1);
      LowsInRange(t, k - 1);
      IntegerOfLows(s, k - 1, k - 1);
      IntegerOfLows(t, k - 1, k - 1);
      ExtremeIntegers(Lows(s, q), k - 1);
      ExtremeIntegers(Lows(t, q), k - 1);
      j := NextSubcube(s, t, k - 1);
    }
  }

  /** The Hilbert curve never jumps: for every dimension and every number of bits, decoding two consecutive Hilbert
      integers gives points that differ by one in exactly one coordinate. */
  lemma HilbertNeighbourPoints(s: seq<Word>, t: seq<Word>, b: nat)
    requires |s| == |t| > 0 && 1 <= b <= 31 && InRange(s, b) && InRange(t, b)
    requires HilbertInteger(t, b) == HilbertInteger(s, b) + 1
    ensures Adjacent(ToAxes(s, b), ToAxes(t, b))
  {
    hide InRange, HilbertInteger, ToAxes, AdjacentAt;
    var j := CurveNeighbours(s, t, b);
    AdjacentInBounds(Curve(s, b), Curve(t, b), j);
  }

  lemma AdjacentInBounds(s: seq<Word>, t: seq<Word>, j: nat)
    requires AdjacentAt(s, t, j)
    ensures Adjacent(s, t)
  {
  }
}
