/** Consecutive Hilbert integers decode to neighbouring grid points: the curve never jumps. */
module HilbertCurve {
  import opened BitWords
  import opened HilbertCodec

  // ---------- the Hilbert integer of a transposed word sequence ----------

  function Pow2(n: nat): (p: nat)
    ensures p > 0
  {
    if n == 0 then 1 else 2 * Pow2(n - 1)
  }

  /** The number of Hilbert integers with k levels of n bits. */
  function Count(n: nat, k: nat): (p: nat)
    ensures p > 0
  {
    if k == 0 then 1 else Pow2(n) * Count(n, k - 1)
  }

  /** Big-endian binary value. */
  function Binary(bits: seq<bool>): nat {
    if bits == [] then 0
    else 2 * Binary(bits[..|bits| - 1]) + if bits[|bits| - 1] then 1 else 0
  }

  /** Bit q of every word, word 0 first. */
  function Tops(s: seq<Word>, q: Word): (r: seq<bool>)
    ensures |r| == |s|
  {
    seq(|s|, i requires 0 <= i < |s| => Has(s[i], q))
  }

  /** The integer whose bit (level k, word i) has weight 2^(n*k + n-1-i), as `main` assembles it. */
  function HilbertInteger(s: seq<Word>, k: nat): nat
    requires k <= 31
  {
    if k == 0 then 0
    else Binary(Tops(s, Bit(k - 1))) * Count(|s|, k - 1) + HilbertInteger(s, k - 1)
  }

  // ---------- binary counting ----------

  lemma {:induction false} BinaryBound(a: seq<bool>)
    ensures Binary(a) < Pow2(|a|)
    ensures Binary(a) == Pow2(|a|) - 1 ==> forall i :: 0 <= i < |a| ==> a[i]
    ensures Binary(a) == 0 ==> forall i :: 0 <= i < |a| ==> !a[i]
  {
    if a != [] {
      BinaryBound(a[..|a| - 1]);
    }
  }

  lemma {:induction false} BinaryInjective(a: seq<bool>, b: seq<bool>)
    requires |a| == |b| && Binary(a) == Binary(b)
    ensures a == b
  {
    if a != [] {
      var n := |a| - 1;
      BinaryInjective(a[..n], b[..n]);
      assert a == a[..n] + [a[n]] && b == b[..n] + [b[n]];
    }
  }

  function Flip(a: seq<bool>): (r: seq<bool>)
    ensures |r| == |a|
  {
    seq(|a|, i requires 0 <= i < |a| => !a[i])
  }

  lemma {:induction false} BinaryFlip(a: seq<bool>)
    ensures Binary(Flip(a)) == Pow2(|a|) - 1 - Binary(a)
  {
    if a != [] {
      var n := |a| - 1;
      BinaryFlip(a[..n]);
      assert Flip(a)[..n] == Flip(a[..n]);
    }
  }

  /** Adding one flips a 0 at j to 1 and every 1 after it to 0. */
  predicate CarryAt(a: seq<bool>, b: seq<bool>, j: nat)
    requires |a| == |b|
  {
    j < |a| && !a[j] && b[j]
    && (forall i :: 0 <= i < j ==> a[i] == b[i])
    && (forall i :: j < i < |a| ==> a[i] && !b[i])
  }

  lemma {:induction false} IncrementCarries(a: seq<bool>, b: seq<bool>) returns (j: nat)
    requires |a| == |b| && Binary(b) == Binary(a) + 1
    ensures CarryAt(a, b, j)
  {
    j := 0;
    if a != [] {
      var n := |a| - 1;
      if a[n] {
        j := IncrementCarries(a[..n], b[..n]);
      } else {
        BinaryInjective(a[..n], b[..n]);
        j := n;
        forall i | 0 <= i < n
          ensures a[i] == b[i]
        {
          assert a[..n][i] == b[..n][i];
        }
      }
    }
  }

  // ---------- splitting a word at its top bit ----------

  function Join(top: bool, low: Word, q: Word): Word {
    if top then Xor(q, low) else low
  }

  lemma LowIsBelow(x: Word, q: Word)
    requires IsBit(q)
    ensures Below(Low(x, q), q)
  {
  }

  lemma SplitWithTop(x: Word, q: Word)
    requires IsBit(q) && Double(q) != 0 && Below(x, Double(q)) && Has(x, q)
    ensures x == Xor(q, Low(x, q))
  {
  }

  lemma SplitWithoutTop(x: Word, q: Word)
    requires IsBit(q) && Double(q) != 0 && Below(x, Double(q)) && !Has(x, q)
    ensures x == Low(x, q)
  {
  }

  /** A word of one more bit than q's is its top bit joined to its low part. */
  lemma SplitWord(x: Word, q: Word)
    requires IsBit(q) && Double(q) != 0 && Below(x, Double(q))
    ensures x == Join(Has(x, q), Low(x, q), q) && Below(Low(x, q), q)
  {
    hide Xor, Has, Low, Below, Double, IsBit;
    LowIsBelow(x, q);
    if Has(x, q) {
      SplitWithTop(x, q);
    } else {
      SplitWithoutTop(x, q);
    }
  }

  lemma BelowIsLow(l: Word, q: Word)
    requires IsBit(q) && Below(l, q)
    ensures !Has(l, q) && Low(l, q) == l
  {
  }

  lemma QIsTop(q: Word)
    requires IsBit(q)
    ensures Has(q, q) && Low(q, q) == 0 && Below(Ones(q), q) && Below(0, q) && Xor(q, 0) == q
  {
  }

  lemma AndXorRaw(x: Word, y: Word, p: Word)
    ensures (x ^ y) & p == (x & p) ^ (y & p)
  {
  }

  lemma AndXor(x: Word, y: Word, p: Word)
    ensures And(Xor(x, y), p) == Xor(And(x, p), And(y, p))
  {
    AndXorRaw(x, y, p);
  }

  lemma LowXor(x: Word, y: Word, q: Word)
    ensures Low(Xor(x, y), q) == Xor(Low(x, q), Low(y, q))
  {
    hide And, Xor, Ones;
    AndXor(x, y, Ones(q));
  }

  lemma BitOrZero(x: Word, q: Word)
    requires IsBit(q)
    ensures And(x, q) == 0 || And(x, q) == q
    ensures Xor(0, q) == q && Xor(q, 0) == q && Xor(q, q) == 0 && Xor(0, 0) == 0
  {
  }

  lemma HasXor(x: Word, y: Word, q: Word)
    requires IsBit(q)
    ensures Has(Xor(x, y), q) == (Has(x, q) != Has(y, q))
  {
    hide And, Xor;
    AndXor(x, y, q);
    BitOrZero(x, q);
    BitOrZero(y, q);
  }

  lemma JoinParts(top: bool, low: Word, q: Word)
    requires IsBit(q) && Below(low, q)
    ensures Has(Join(top, low, q), q) == top && Low(Join(top, low, q), q) == low
  {
    hide Xor, Has, Low, Below, IsBit;
    BelowIsLow(low, q);
    QIsTop(q);
    HasXor(q, low, q);
    LowXor(q, low, q);
    XorLaws(0, low);
    XorLaws(low, 0);
  }

  // ---------- two bits, r below q ----------

  lemma LowerBit(x: Word, q: Word, r: Word)
    requires IsBit(q) && IsBit(r) && r < q
    ensures Has(Low(x, q), r) == Has(x, r)
  {
    hide And, Ones;
    AndAssociates(x, Ones(q), r);
    OnesCover(q, r);
  }

  lemma AndAssociates(x: Word, y: Word, z: Word)
    ensures And(And(x, y), z) == And(x, And(y, z))
  {
  }

  lemma OnesCover(q: Word, r: Word)
    requires IsBit(q) && IsBit(r) && r < q
    ensures And(Ones(q), r) == r
  {
  }

  lemma LowerLow(x: Word, q: Word, r: Word)
    requires IsBit(q) && IsBit(r) && r < q
    ensures Low(Low(x, q), r) == Low(x, r)
  {
  }

  lemma LowOfLow(x: Word, q: Word, r: Word)
    requires IsBit(q) && IsBit(r) && r < q
    ensures Low(Low(x, r), q) == Low(x, r) && !Has(Low(x, r), q)
  {
  }

  lemma LowOfOnes(q: Word, r: Word)
    requires IsBit(q) && IsBit(r) && r < q
    ensures Low(Ones(r), q) == Ones(r) && !Has(Ones(r), q)
  {
  }

  // ---------- the low part of a sequence moves on its own ----------

  function Lows(s: seq<Word>, q: Word): (r: seq<Word>)
    ensures |r| == |s|
  {
    seq(|s|, i requires 0 <= i < |s| => Low(s[i], q))
  }

  lemma InvertSplits(x: Word, q: Word, r: Word)
    requires IsBit(q) && IsBit(r) && r < q
    ensures Low(Xor(x, Ones(r)), q) == Xor(Low(x, q), Ones(r)) && Has(Xor(x, Ones(r)), q) == Has(x, q)
  {
    hide Xor, Has, Low, Ones, IsBit;
    LowXor(x, Ones(r), q);
    LowOfOnes(q, r);
    HasXor(x, Ones(r), q);
  }

  lemma SwapSplits(x: Word, y: Word, z: Word, q: Word, r: Word)
    requires IsBit(q) && IsBit(r) && r < q
    ensures var t := Low(Xor(x, y), r);
            t == Low(Xor(Low(x, q), Low(y, q)), r)
            && Low(Xor(z, t), q) == Xor(Low(z, q), t) && Has(Xor(z, t), q) == Has(z, q)
  {
    hide Xor, Has, Low, Ones, IsBit;
    LowXor(x, y, q);
    LowerLow(Xor(x, y), q, r);
    var t := Low(Xor(x, y), r);
    LowXor(z, t, q);
    LowOfLow(Xor(x, y), q, r);
    HasXor(z, t, q);
  }

  lemma SplitUpdate(s: seq<Word>, k: nat, w: Word, q: Word)
    requires k < |s|
    ensures Lows(s[k := w], q) == Lows(s, q)[k := Low(w, q)]
    ensures Has(w, q) == Has(s[k], q) ==> Tops(s[k := w], q) == Tops(s, q)
  {
    hide Has, Low;
  }

  /** A step at a bit below q reads and writes only the parts below q. */
  lemma ExchangeSplits(s: seq<Word>, q: Word, r: Word, i: nat)
    requires i < |s| && IsBit(q) && IsBit(r) && r < q
    ensures Lows(Exchange(s, r, i), q) == Exchange(Lows(s, q), r, i)
    ensures Tops(Exchange(s, r, i), q) == Tops(s, q)
  {
    hide Xor, Has, Low, Ones, IsBit, Tops, Lows;
    LowerBit(s[i], q, r);
    LowsAt(s, q, 0);
    LowsAt(s, q, i);
    if Has(s[i], r) {
      InvertSplits(s[0], q, r);
      SplitUpdate(s, 0, Xor(s[0], Ones(r)), q);
    } else if i > 0 {
      SwapSplits(s[0], s[i], s[0], q, r);
      SwapSplits(s[0], s[i], s[i], q, r);
      var t := Low(Xor(s[0], s[i]), r);
      var u := s[0 := Xor(s[0], t)];
      SplitUpdate(s, 0, Xor(s[0], t), q);
      SplitUpdate(u, i, Xor(s[i], t), q);
    }
  }

  lemma LowsAt(s: seq<Word>, q: Word, i: nat)
    requires i < |s|
    ensures Lows(s, q)[i] == Low(s[i], q)
  {
    hide Low;
  }

  lemma {:induction false} UndoFromSplits(s: seq<Word>, q: Word, r: Word, i: nat)
    requires i < |s| && IsBit(q) && IsBit(r) && r < q
    ensures Lows(UndoFrom(s, r, i), q) == UndoFrom(Lows(s, q), r, i)
    ensures Tops(UndoFrom(s, r, i), q) == Tops(s, q)
    decreases i
  {
    hide Exchange, IsBit, Lows, Tops;
    ExchangeSplits(s, q, r, i);
    if i > 0 {
      UndoFromSplits(Exchange(s, r, i), q, r, i - 1);
    }
  }

  lemma {:induction false} UndoLevelsSplit(s: seq<Word>, j: nat, k: nat)
    requires |s| > 0 && j < k <= 31
    ensures Lows(UndoLevels(s, j), Bit(k)) == UndoLevels(Lows(s, Bit(k)), j)
    ensures Tops(UndoLevels(s, j), Bit(k)) == Tops(s, Bit(k))
  {
    hide UndoFrom, Bit, IsBit, Lows, Tops;
    if j > 0 {
      UndoLevelsSplit(s, j - 1, k);
      BitIsOneBit(j);
      BitIsOneBit(k);
      BitMonotone(j, k - 1);
      UndoFromSplits(UndoLevels(s, j - 1), Bit(k), Bit(j), |s| - 1);
    }
  }

  // ---------- one level of the curve ----------

  /** Reflects a k-bit word: each bit below q is inverted. */
  function Reflect(l: Word, q: Word): Word {
    Xor(l, Ones(q))
  }

  function ReflectAll(s: seq<Word>, q: Word): (r: seq<Word>)
    ensures |r| == |s|
  {
    seq(|s|, i requires 0 <= i < |s| => Reflect(s[i], q))
  }

  /** The sub-curve a level visits: run backwards after an odd digit. */
  function Inner(s: seq<Word>, q: Word): (r: seq<Word>)
    requires |s| > 0
    ensures |r| == |s|
  {
    if Has(s[|s| - 1], q) then ReflectAll(Lows(s, q), q) else Lows(s, q)
  }

  function GrayTop(bits: seq<bool>, i: nat): bool
    requires i < |bits|
  {
    if i == 0 then bits[0] else bits[i] != bits[i - 1]
  }

  function GrayTops(bits: seq<bool>): (r: seq<bool>)
    ensures |r| == |bits|
  {
    seq(|bits|, i requires 0 <= i < |bits| => GrayTop(bits, i))
  }

  lemma OnesGray(q: Word)
    requires IsBit(q)
    ensures Xor(Ones(q), Half(Ones(q))) == Half(q) && Below(Half(q), q)
  {
  }

  lemma HalfOfLast(x: Word, q: Word)
    requires IsBit(q) && Double(q) != 0 && Below(x, Double(q))
    ensures !Has(Half(x), q)
    ensures Low(Half(x), q) == Xor(Half(Low(x, q)), if Has(x, q) then Half(q) else 0)
  {
    hide Xor, Has, Low, Half, Below, Double, IsBit;
    var l := Low(x, q);
    SplitWord(x, q);
    OnesGray(q);
    HalfBelowQ(l, q);
    HalfXor(q, l);
    XorLaws(Half(q), Half(l));
    XorLaws(Half(l), 0);
    XorBelow(Half(q), Half(l), q);
    BelowIsLow(Half(x), q);
  }

  lemma HalfBelowQ(l: Word, q: Word)
    requires IsBit(q) && Below(l, q)
    ensures Below(Half(l), q)
  {
  }

  /** Level q of the Gray code is the Gray code of that digit, and what is below is the Gray code of Inner. */
  lemma GrayLevel(s: seq<Word>, q: Word)
    requires |s| > 0 && IsBit(q) && Double(q) != 0
    requires forall i :: 0 <= i < |s| ==> Below(s[i], Double(q))
    ensures Lows(GrayDecode(s), q) == GrayDecode(Inner(s, q))
    ensures Tops(GrayDecode(s), q) == GrayTops(Tops(s, q))
  {
    hide Xor, Has, Low, Half, Below, Double, IsBit, Ones;
    var n := |s|;
    var m := Ones(q);
    forall i | 0 <= i < n
      ensures Low(DecodedWord(s, i), q) == DecodedWord(Inner(s, q), i)
      ensures Has(DecodedWord(s, i), q) == GrayTop(Tops(s, q), i)
    {
      if i == 0 {
        GrayLevelFirst(s, q);
      } else {
        LowXor(s[i], s[i - 1], q);
        HasXor(s[i], s[i - 1], q);
        XorCommonTerm(Low(s[i], q), Low(s[i - 1], q), m);
      }
    }
  }

  lemma GrayLevelFirst(s: seq<Word>, q: Word)
    requires |s| > 0 && IsBit(q) && Double(q) != 0
    requires Below(s[|s| - 1], Double(q))
    ensures Low(DecodedWord(s, 0), q) == DecodedWord(Inner(s, q), 0)
    ensures Has(DecodedWord(s, 0), q) == Has(s[0], q)
  {
    hide Xor, Has, Low, Half, Below, Double, IsBit, Ones;
    var x, z, m := s[0], s[|s| - 1], Ones(q);
    LowXor(x, Half(z), q);
    HasXor(x, Half(z), q);
    HalfOfLast(z, q);
    var l := Low(z, q);
    if Has(z, q) {
      HalfXor(l, m);
      OnesGray(q);
      XorRegroups(Low(x, q), m, Half(l), Half(m));
      XorAssociates(Low(x, q), Half(l), Half(q));
    } else {
      XorLaws(Half(l), 0);
    }
  }

  /** The point of the k-level curve for a transposed Hilbert integer. */
  function Curve(s: seq<Word>, k: nat): (r: seq<Word>)
    requires |s| > 0 && k <= 31
    ensures |r| == |s|
  {
    if k == 0 then s else ToAxes(s, k)
  }

  function Build(tops: seq<bool>, lows: seq<Word>, q: Word): (r: seq<Word>)
    requires |tops| == |lows|
    ensures |r| == |lows|
  {
    seq(|lows|, i requires 0 <= i < |lows| => Join(tops[i], lows[i], q))
  }

  /** The invert-or-exchange step seen on the low parts: a reflection or a swap of coordinates. */
  function LowStep(tops: seq<bool>, lows: seq<Word>, q: Word, i: nat): (r: seq<Word>)
    requires i < |tops| == |lows|
    ensures |r| == |lows|
  {
    if tops[i] then lows[0 := Reflect(lows[0], q)] else lows[0 := lows[i]][i := lows[0]]
  }

  function LowFrom(tops: seq<bool>, lows: seq<Word>, q: Word, i: nat): (r: seq<Word>)
    requires i < |tops| == |lows|
    ensures |r| == |lows|
    decreases i
  {
    if i == 0 then LowStep(tops, lows, q, 0) else LowFrom(tops, LowStep(tops, lows, q, i), q, i - 1)
  }

  predicate AllBelow(s: seq<Word>, q: Word) {
    forall i :: 0 <= i < |s| ==> Below(s[i], q)
  }

  lemma ReflectJoin(a: bool, l: Word, q: Word)
    requires IsBit(q) && Below(l, q)
    ensures Xor(Join(a, l, q), Ones(q)) == Join(a, Reflect(l, q), q)
    ensures Below(Reflect(l, q), q)
  {
    hide Xor, Below, IsBit, Ones;
    XorAssociates(q, l, Ones(q));
    QIsTop(q);
    XorBelow(l, Ones(q), q);
  }

  lemma SwapJoin(a: bool, l: Word, b: bool, m: Word, q: Word)
    requires IsBit(q) && Below(l, q) && Below(m, q)
    ensures Low(Xor(Join(a, l, q), Join(b, m, q)), q) == Xor(l, m)
    ensures Xor(Join(a, l, q), Xor(l, m)) == Join(a, m, q)
    ensures Xor(Join(b, m, q), Xor(l, m)) == Join(b, l, q)
  {
    hide Xor, Below, IsBit, Ones, Has, Low;
    JoinParts(a, l, q);
    JoinParts(b, m, q);
    LowXor(Join(a, l, q), Join(b, m, q), q);
    XorLaws(m, l);
    XorLaws(l, m);
    XorAssociates(q, l, Xor(l, m));
    XorAssociates(q, m, Xor(l, m));
    XorLaws(Xor(l, m), l);
    XorLaws(Xor(l, m), m);
  }

  lemma ExchangeOnBuild(g: seq<bool>, l: seq<Word>, q: Word, i: nat)
    requires i < |g| == |l| && IsBit(q) && AllBelow(l, q)
    ensures Exchange(Build(g, l, q), q, i) == Build(g, LowStep(g, l, q, i), q)
    ensures AllBelow(LowStep(g, l, q, i), q)
  {
    hide Xor, Below, IsBit, Ones, Has, Low, Join, Reflect;
    JoinParts(g[i], l[i], q);
    ReflectJoin(g[0], l[0], q);
    SwapJoin(g[0], l[0], g[i], l[i], q);
  }

  lemma {:induction false} UndoFromOnBuild(g: seq<bool>, l: seq<Word>, q: Word, i: nat)
    requires i < |g| == |l| && IsBit(q) && AllBelow(l, q)
    ensures UndoFrom(Build(g, l, q), q, i) == Build(g, LowFrom(g, l, q, i), q)
    ensures AllBelow(LowFrom(g, l, q, i), q)
    decreases i
  {
    hide Exchange, Build, LowStep, AllBelow, IsBit;
    ExchangeOnBuild(g, l, q, i);
    if i > 0 {
      UndoFromOnBuild(g, LowStep(g, l, q, i), q, i - 1);
    }
  }

  /** The coordinate sequence that is v in word 0 and zero elsewhere. */
  function Spike(n: nat, v: Word): (r: seq<Word>)
    ensures |r| == n
  {
    seq(n, i requires 0 <= i < n => if i == 0 then v else 0)
  }

  // At q == 1 there is nothing below the bit, so the level leaves the words alone.
  lemma UnitWord(x: Word, y: Word)
    ensures Xor(x, Ones(1)) == x && Xor(x, Low(y, 1)) == x
  {
  }

  lemma {:induction false} UnitLevel(s: seq<Word>, i: nat)
    requires i < |s|
    ensures UndoFrom(s, 1, i) == s
    decreases i
  {
    hide Xor, Ones, Low, Has;
    UnitWord(s[0], Xor(s[0], s[i]));
    UnitWord(s[i], Xor(s[0], s[i]));
    assert Exchange(s, 1, i) == s;
    if i > 0 {
      UnitLevel(s, i - 1);
    }
  }

  lemma BuildBack(w: seq<Word>, q: Word)
    requires IsBit(q) && Double(q) != 0
    requires forall i :: 0 <= i < |w| ==> Below(w[i], Double(q))
    ensures w == Build(Tops(w, q), Lows(w, q), q) && AllBelow(Lows(w, q), q)
  {
    hide Xor, Has, Low, Below, Double, IsBit, Join;
    forall i | 0 <= i < |w|
      ensures w[i] == Build(Tops(w, q), Lows(w, q), q)[i] && Below(Lows(w, q)[i], q)
    {
      SplitWord(w[i], q);
    }
  }

  lemma TopBitFacts(k: nat)
    requires k <= 30
    ensures Bit(k + 1) == Double(Bit(k)) && Double(Bit(k)) != 0 && IsBit(Bit(k)) && Bit(0) == 1
  {
    BitIsOneBit(k);
    BitIsOneBit(k + 1);
  }

  lemma InnerInRange(s: seq<Word>, k: nat)
    requires |s| > 0 && k <= 30
    ensures InRange(Inner(s, Bit(k)), k)
  {
    hide Xor, Has, Low, Below, IsBit, Bit, Ones;
    var q := Bit(k);
    TopBitFacts(k);
    QIsTop(q);
    forall i | 0 <= i < |s|
      ensures Below(Inner(s, q)[i], q)
    {
      LowIsBelow(s[i], q);
      XorBelow(Low(s[i], q), Ones(q), q);
    }
  }

  /** The words after every level below q: the digit's Gray code on top, the inner curve below. */
  lemma BeforeTopLevel(s: seq<Word>, k: nat) returns (w: seq<Word>)
    requires |s| > 0 && k <= 30 && InRange(s, k + 1)
    ensures |w| == |s| && InRange(w, k + 1)
    ensures Curve(s, k + 1) == UndoFrom(w, Bit(k), |s| - 1)
    ensures Tops(w, Bit(k)) == GrayTops(Tops(s, Bit(k)))
    ensures Lows(w, Bit(k)) == Curve(Inner(s, Bit(k)), k)
  {
    hide IsBit, Bit, GrayDecode, Tops, GrayTops, Below, Double, UndoFrom, Inner, Lows;
    var q, g := Bit(k), GrayDecode(s);
    TopBitFacts(k);
    GrayLevel(s, q);
    GrayDecodeInRange(s, k + 1);
    if k == 0 {
      w := g;
      UnitLevel(g, |s| - 1);
      LowsOfUnit(g);
      InnerOfUnit(s);
    } else {
      w := UndoLevels(g, k - 1);
      UndoLevelsSplit(g, k - 1, k);
      UndoLevelsInRange(g, k - 1, k + 1);
    }
  }

  lemma LowsOfUnit(s: seq<Word>)
    ensures Lows(s, 1) == Spike(|s|, 0)
  {
    hide Low;
    forall i | 0 <= i < |s|
      ensures Low(s[i], 1) == 0
    {
      LowOne(s[i]);
    }
  }

  lemma LowOne(x: Word)
    ensures Low(x, 1) == 0 && Reflect(0, 1) == 0
  {
  }

  lemma InnerOfUnit(s: seq<Word>)
    requires |s| > 0
    ensures Inner(s, 1) == Spike(|s|, 0)
  {
    hide Has, Reflect, Lows;
    LowsOfUnit(s);
    LowOne(0);
  }

  /** A sequence of k + 1 bits, rebuilt from its bits k and what is below. */
  lemma BuildOfRange(w: seq<Word>, k: nat)
    requires k <= 30 && InRange(w, k + 1)
    ensures var q := Bit(k); IsBit(q) && w == Build(Tops(w, q), Lows(w, q), q) && AllBelow(Lows(w, q), q)
  {
    hide IsBit, Bit, Tops, Below, Double, Lows, Build, AllBelow;
    TopBitFacts(k);
    BuildBack(w, Bit(k));
  }

  /** One level of the curve: the Gray code of the top digit chooses a sub-cube and how the inner point is reflected
      and swapped inside it. */
  lemma CurveLevel(s: seq<Word>, k: nat)
    requires |s| > 0 && k <= 30 && InRange(s, k + 1)
    ensures var q := Bit(k); var g := GrayTops(Tops(s, q)); var v := Curve(Inner(s, q), k);
            AllBelow(v, q) && AllBelow(LowFrom(g, v, q, |s| - 1), q)
            && Curve(s, k + 1) == Build(g, LowFrom(g, v, q, |s| - 1), q)
  {
    hide IsBit, Bit, Tops, GrayTops, UndoFrom, Inner, Lows, LowFrom, Build, AllBelow, Curve, InRange;
    var q := Bit(k);
    var w := BeforeTopLevel(s, k);
    BuildOfRange(w, k);
    UndoFromOnBuild(Tops(w, q), Lows(w, q), q, |s| - 1);
  }
}
