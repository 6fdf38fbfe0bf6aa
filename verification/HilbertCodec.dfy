/** The two Hilbert transforms of `contribs/skilling.c` as functions, and that each undoes the other. */
module HilbertCodec {
  import opened BitWords

  /** Every word has only its low b bits set. */
  predicate InRange(s: seq<Word>, b: nat)
    requires b <= 31
  {
    forall i :: 0 <= i < |s| ==> Below(s[i], Bit(b))
  }

  // ---------- one exchange or inversion ----------

  /** The invert-or-exchange step for one (Q, i); at i = 0 only the inversion exists. */
  function Exchange(s: seq<Word>, q: Word, i: nat): (r: seq<Word>)
    requires i < |s|
    ensures |r| == |s|
  {
    if Has(s[i], q) then
      s[0 := Xor(s[0], Ones(q))]
    else if i == 0 then
      s
    else
      var t := Low(Xor(s[0], s[i]), q);
      s[0 := Xor(s[0], t)][i := Xor(s[i], t)]
  }

  /** Each (Q, i) step is its own inverse: it never touches bit Q, which selects the branch. */
  lemma ExchangeInvolution(s: seq<Word>, q: Word, i: nat)
    requires i < |s| && IsBit(q)
    ensures Exchange(Exchange(s, q, i), q, i) == s
  {
    hide Xor, Low, Has, Ones;
    var d := Xor(s[0], s[i]);
    var t := Low(d, q);
    LowKeepsBit(s[0], d, q);
    LowKeepsBit(s[i], d, q);
    XorLaws(s[0], Ones(q));
    XorLaws(s[0], t);
    XorLaws(s[i], t);
    XorCommonTerm(s[0], s[i], t);
  }

  lemma ExchangeInRange(s: seq<Word>, q: Word, i: nat, b: nat)
    requires i < |s| && b <= 31 && InRange(s, b) && IsBit(q) && q <= Bit(b)
    ensures InRange(Exchange(s, q, i), b)
  {
    hide Xor, Low, Has, Ones, Bit, IsBit, Exchange, Below;
    BitIsOneBit(b);
    forall k | 0 <= k < |s|
      ensures Below(Exchange(s, q, i)[k], Bit(b))
    {
      ExchangeBelow(s, q, i, Bit(b), k);
    }
  }

  lemma ExchangeBelow(s: seq<Word>, q: Word, i: nat, m: Word, k: nat)
    requires i < |s| && k < |s| && IsBit(m) && IsBit(q) && q <= m
    requires Below(s[0], m) && Below(s[i], m) && Below(s[k], m)
    ensures Below(Exchange(s, q, i)[k], m)
  {
    hide Xor, Low, Has, Ones, IsBit, Below;
    var d := Xor(s[0], s[i]);
    LowBelow(d, q, m);
    XorBelow(s[0], Ones(q), m);
    XorBelow(s[0], Low(d, q), m);
    XorBelow(s[i], Low(d, q), m);
  }

  // ---------- one bit level ----------

  /** The decoder's inner loop: i, i-1, ..., 1 and then the final inversion on word 0. */
  function UndoFrom(s: seq<Word>, q: Word, i: nat): (r: seq<Word>)
    requires i < |s|
    ensures |r| == |s|
    decreases i
  {
    if i == 0 then Exchange(s, q, 0) else UndoFrom(Exchange(s, q, i), q, i - 1)
  }

  /** The encoder's inner loop: the inversion on word 0 and then 1, 2, ..., i. */
  function RedoTo(s: seq<Word>, q: Word, i: nat): (r: seq<Word>)
    requires i < |s|
    ensures |r| == |s|
  {
    if i == 0 then Exchange(s, q, 0) else Exchange(RedoTo(s, q, i - 1), q, i)
  }

  lemma {:induction false} RedoAfterUndo(s: seq<Word>, q: Word, i: nat)
    requires i < |s| && IsBit(q)
    ensures RedoTo(UndoFrom(s, q, i), q, i) == s
    decreases i
  {
    hide Exchange, IsBit;
    ExchangeInvolution(s, q, i);
    if i > 0 {
      RedoAfterUndo(Exchange(s, q, i), q, i - 1);
    }
  }

  lemma {:induction false} UndoAfterRedo(s: seq<Word>, q: Word, i: nat)
    requires i < |s| && IsBit(q)
    ensures UndoFrom(RedoTo(s, q, i), q, i) == s
  {
    hide Exchange, IsBit;
    if i == 0 {
      ExchangeInvolution(s, q, 0);
    } else {
      ExchangeInvolution(RedoTo(s, q, i - 1), q, i);
      UndoAfterRedo(s, q, i - 1);
    }
  }

  lemma {:induction false} UndoFromInRange(s: seq<Word>, q: Word, i: nat, b: nat)
    requires i < |s| && b <= 31 && InRange(s, b) && IsBit(q) && q <= Bit(b)
    ensures InRange(UndoFrom(s, q, i), b)
    decreases i
  {
    hide Exchange, IsBit, Bit, InRange;
    ExchangeInRange(s, q, i, b);
    if i > 0 {
      UndoFromInRange(Exchange(s, q, i), q, i - 1, b);
    }
  }

  lemma {:induction false} RedoToInRange(s: seq<Word>, q: Word, i: nat, b: nat)
    requires i < |s| && b <= 31 && InRange(s, b) && IsBit(q) && q <= Bit(b)
    ensures InRange(RedoTo(s, q, i), b)
  {
    hide Exchange, IsBit, Bit, InRange;
    if i == 0 {
      ExchangeInRange(s, q, 0, b);
    } else {
      RedoToInRange(s, q, i - 1, b);
      ExchangeInRange(RedoTo(s, q, i - 1), q, i, b);
    }
  }

  // ---------- all bit levels ----------

  /** The decoder's outer loop over Q = 2, 4, ..., Bit(j). */
  function UndoLevels(s: seq<Word>, j: nat): (r: seq<Word>)
    requires |s| > 0 && j <= 31
    ensures |r| == |s|
  {
    if j == 0 then s else UndoFrom(UndoLevels(s, j - 1), Bit(j), |s| - 1)
  }

  /** The encoder's outer loop over Q = Bit(j), ..., 4, 2. */
  function RedoLevels(s: seq<Word>, j: nat): (r: seq<Word>)
    requires |s| > 0 && j <= 31
    ensures |r| == |s|
    decreases j
  {
    if j == 0 then s else RedoLevels(RedoTo(s, Bit(j), |s| - 1), j - 1)
  }

  lemma {:induction false} RedoAfterUndoLevels(s: seq<Word>, j: nat)
    requires |s| > 0 && j <= 31
    ensures RedoLevels(UndoLevels(s, j), j) == s
  {
    hide IsBit, Bit, RedoTo, UndoFrom;
    if j > 0 {
      BitIsOneBit(j);
      RedoAfterUndo(UndoLevels(s, j - 1), Bit(j), |s| - 1);
      RedoAfterUndoLevels(s, j - 1);
    }
  }

  lemma {:induction false} UndoAfterRedoLevels(s: seq<Word>, j: nat)
    requires |s| > 0 && j <= 31
    ensures UndoLevels(RedoLevels(s, j), j) == s
    decreases j
  {
    hide IsBit, Bit, RedoTo, UndoFrom;
    if j > 0 {
      BitIsOneBit(j);
      UndoAfterRedoLevels(RedoTo(s, Bit(j), |s| - 1), j - 1);
      UndoAfterRedo(s, Bit(j), |s| - 1);
    }
  }

  lemma {:induction false} BitMonotone(j: nat, b: nat)
    requires j <= b <= 31
    ensures Bit(j) <= Bit(b)
    decreases b - j
  {
    if j < b {
      BitIsOneBit(j + 1);
      BitMonotone(j + 1, b);
    }
  }

  lemma {:induction false} UndoLevelsInRange(s: seq<Word>, j: nat, b: nat)
    requires |s| > 0 && j <= b <= 31 && InRange(s, b)
    ensures InRange(UndoLevels(s, j), b)
  {
    hide IsBit, Bit, UndoFrom, InRange;
    if j > 0 {
      BitIsOneBit(j);
      BitMonotone(j, b);
      UndoLevelsInRange(s, j - 1, b);
      UndoFromInRange(UndoLevels(s, j - 1), Bit(j), |s| - 1, b);
    }
  }

  lemma {:induction false} RedoLevelsInRange(s: seq<Word>, j: nat, b: nat)
    requires |s| > 0 && j <= b <= 31 && InRange(s, b)
    ensures InRange(RedoLevels(s, j), b)
    decreases j
  {
    hide IsBit, Bit, RedoTo, InRange;
    if j > 0 {
      BitIsOneBit(j);
      BitMonotone(j, b);
      RedoToInRange(s, Bit(j), |s| - 1, b);
      RedoLevelsInRange(RedoTo(s, Bit(j), |s| - 1), j - 1, b);
    }
  }

  // ---------- the Gray code of one word ----------

  /** The doubling loop: the word takes in its own right shift by 1, 2, 4 and so on below b. */
  function Spread(x: Word, i: nat, b: nat): Word
    requires 1 <= i && b <= 31
    decreases b - i
  {
    if i >= b then x else Spread(Xor(x, Shr(x, i)), 2 * i, b)
  }

  /** XOR of x shifted right by every amount: the inverse Gray code of one word. */
  function AllShifts(x: Word): Word
    decreases x
  {
    if x == 0 then 0 else Xor(x, AllShifts(Half(x)))
  }

  /** One doubling carries the Gray step of the result from the shift by i to the shift by 2i. */
  lemma SpreadStep(x: Word, y: Word, i: nat)
    requires Xor(y, Half(y)) == Xor(x, Shr(x, i))
    ensures var z := Xor(y, Shr(y, i)); Xor(z, Half(z)) == Xor(x, Shr(x, 2 * i))
  {
    hide Xor, Half, Shr;
    var a, c := Shr(x, i), Shr(x, 2 * i);
    HalfXor(y, Shr(y, i));
    ShrXor(y, Half(y), i);
    ShrXor(x, a, i);
    ShrAdds(x, i, i);
    HalfOfShr(y, i);
    XorRegroups(y, Shr(y, i), Half(y), Shr(Half(y), i));
    assert Xor(Xor(x, a), Xor(a, c)) == Xor(x, c) by {
      XorAssociates(Xor(x, a), a, c);
      XorLaws(x, a);
    }
  }

  lemma HalfOfShr(y: Word, i: nat)
    ensures Half(Shr(y, i)) == Shr(Half(y), i)
  {
    hide Half;
    ShrAdds(y, i, 1);
    assert Half(Shr(y, i)) == Shr(Half(Shr(y, i)), 0);
  }

  lemma {:induction false} SpreadFrom(x: Word, y: Word, i: nat, b: nat)
    requires 1 <= i && 1 <= b <= 31 && Below(x, Bit(b))
    requires Xor(y, Half(y)) == Xor(x, Shr(x, i))
    ensures var z := Spread(y, i, b); Xor(z, Half(z)) == x
    decreases b - i
  {
    hide Xor, Half, Shr, Bit, Below;
    if i >= b {
      ShiftedOut(x, b, i);
      XorLaws(x, 0);
    } else {
      SpreadStep(x, y, i);
      SpreadFrom(x, Xor(y, Shr(y, i)), 2 * i, b);
    }
  }

  lemma {:induction false} AllShiftsInverse(x: Word)
    ensures Xor(AllShifts(x), Half(AllShifts(x))) == x
    decreases x
  {
    if x != 0 {
      HalfSmaller(x);
      AllShiftsInverse(Half(x));
      InverseStep(x, AllShifts(Half(x)));
    }
  }

  lemma HalfSmaller(x: Word)
    requires x != 0
    ensures Half(x) < x
  {
  }

  lemma InverseStep(x: Word, y: Word)
    requires Xor(y, Half(y)) == Half(x)
    ensures var z := Xor(x, y); Xor(z, Half(z)) == x
  {
    hide Xor, Half;
    HalfXor(x, y);
    XorRegroups(x, y, Half(x), Half(y));
    XorLaws(x, Half(x));
  }

  lemma HalfFixpoint(d: Word)
    requires Xor(d, Half(d)) == 0
    ensures d == 0
  {
  }

  lemma XorZeroEqual(x: Word, y: Word)
    requires Xor(x, y) == 0
    ensures x == y
  {
  }

  lemma GrayWordInjective(x: Word, y: Word)
    requires Xor(x, Half(x)) == Xor(y, Half(y))
    ensures x == y
  {
    hide Xor, Half;
    var d := Xor(x, y);
    HalfXor(x, y);
    XorRegroups(x, y, Half(x), Half(y));
    XorLaws(Xor(x, Half(x)), 0);
    HalfFixpoint(d);
    XorZeroEqual(x, y);
  }

  /** The logarithmic doubling loop is the XOR of all right shifts, and inverts x -> x ^ x/2. */
  lemma SpreadIsAllShifts(x: Word, b: nat)
    requires 1 <= b <= 31 && Below(x, Bit(b))
    ensures Spread(x, 1, b) == AllShifts(x)
    ensures Xor(Spread(x, 1, b), Half(Spread(x, 1, b))) == x
  {
    hide Xor, Half, Bit, Below, Spread, AllShifts;
    assert Shr(x, 1) == Half(x) by { assert Shr(Half(x), 0) == Half(x); }
    SpreadFrom(x, x, 1, b);
    AllShiftsInverse(x);
    GrayWordInjective(Spread(x, 1, b), AllShifts(x));
  }

  // ---------- the Gray code across words ----------

  /** The XOR of words 0 to i: what the encoder's first Gray loop leaves in word i. */
  function PrefixXor(s: seq<Word>, i: nat): Word
    requires i < |s|
  {
    if i == 0 then s[0] else Xor(PrefixXor(s, i - 1), s[i])
  }

  function DecodedWord(s: seq<Word>, i: nat): Word
    requires i < |s|
  {
    Xor(s[i], if i == 0 then Half(s[|s| - 1]) else s[i - 1])
  }

  function GrayDecode(s: seq<Word>): (r: seq<Word>)
    requires |s| > 0
    ensures |r| == |s|
  {
    seq(|s|, i requires 0 <= i < |s| => DecodedWord(s, i))
  }

  function GrayEncode(s: seq<Word>, b: nat): (r: seq<Word>)
    requires |s| > 0 && b <= 31
    ensures |r| == |s|
  {
    var last := PrefixXor(s, |s| - 1);
    var t := Xor(last, Spread(last, 1, b));
    seq(|s|, i requires 0 <= i < |s| => Xor(PrefixXor(s, i), t))
  }

  lemma {:induction false} PrefixXorBelow(s: seq<Word>, i: nat, b: nat)
    requires i < |s| && b <= 31 && InRange(s, b)
    ensures Below(PrefixXor(s, i), Bit(b))
  {
    hide Xor, Bit, IsBit, Below;
    if i > 0 {
      PrefixXorBelow(s, i - 1, b);
      BitIsOneBit(b);
      XorBelow(PrefixXor(s, i - 1), s[i], Bit(b));
    }
  }

  lemma GrayBelow(y: Word, x: Word, m: Word)
    requires IsBit(m) && Below(x, m) && Xor(y, Half(y)) == x
    ensures Below(y, m)
  {
  }

  /** With t = y/2, the encoder's correction turns each prefix XOR into a word that decodes back. */
  lemma DecodeWordOfEncoded(s: seq<Word>, z: seq<Word>, t: Word, i: nat)
    requires i < |s| == |z|
    requires forall k :: 0 <= k < |s| ==> z[k] == Xor(PrefixXor(s, k), t)
    requires t == Half(z[|s| - 1])
    ensures DecodedWord(z, i) == s[i]
  {
    hide Xor, Half;
    if i == 0 {
      XorLaws(s[0], t);
    } else {
      var a := PrefixXor(s, i - 1);
      XorCommonTerm(Xor(a, s[i]), a, t);
      XorLaws(a, s[i]);
      XorLaws(Xor(a, s[i]), a);
    }
  }

  /** Gray decoding undoes Gray encoding, on every sequence of words below 2^b. */
  lemma GrayDecodeAfterEncode(s: seq<Word>, b: nat)
    requires |s| > 0 && 1 <= b <= 31 && InRange(s, b)
    ensures GrayDecode(GrayEncode(s, b)) == s && InRange(GrayEncode(s, b), b)
  {
    hide Xor, Half, Bit, IsBit, Below, Spread, PrefixXor, DecodedWord;
    var n, last := |s|, PrefixXor(s, |s| - 1);
    var y := Spread(last, 1, b);
    var t := Xor(last, y);
    var z := GrayEncode(s, b);
    PrefixXorBelow(s, n - 1, b);
    SpreadIsAllShifts(last, b);
    XorLaws(y, Half(y));
    XorLaws(last, y);
    XorLaws(t, last);
    assert z[n - 1] == y && t == Half(y);
    BitIsOneBit(b);
    GrayBelow(y, last, Bit(b));
    forall i | 0 <= i < n
      ensures DecodedWord(z, i) == s[i] && Below(z[i], Bit(b))
    {
      PrefixXorBelow(s, i, b);
      XorBelow(last, y, Bit(b));
      XorBelow(PrefixXor(s, i), t, Bit(b));
      DecodeWordOfEncoded(s, z, t, i);
    }
  }

  lemma {:induction false} PrefixXorOfDecoded(z: seq<Word>, i: nat)
    requires i < |z|
    ensures PrefixXor(GrayDecode(z), i) == Xor(z[i], Half(z[|z| - 1]))
  {
    hide Xor, Half;
    var t := Half(z[|z| - 1]);
    if i > 0 {
      PrefixXorOfDecoded(z, i - 1);
      XorLaws(z[i - 1], t);
      XorLaws(z[i], z[i - 1]);
      XorRegroups(t, z[i - 1], z[i], z[i - 1]);
      XorLaws(z[i - 1], z[i - 1]);
      XorLaws(Xor(t, z[i]), 0);
      XorLaws(t, z[i]);
    }
  }

  lemma GrayDecodeInRange(z: seq<Word>, b: nat)
    requires |z| > 0 && b <= 31 && InRange(z, b)
    ensures InRange(GrayDecode(z), b)
  {
    hide Xor, Half, Bit, IsBit, Below;
    BitIsOneBit(b);
    HalfBelow(z[|z| - 1], Bit(b));
    forall i | 0 <= i < |z|
      ensures Below(DecodedWord(z, i), Bit(b))
    {
      XorBelow(z[i], if i == 0 then Half(z[|z| - 1]) else z[i - 1], Bit(b));
    }
  }

  /** Gray encoding undoes Gray decoding. */
  lemma GrayEncodeAfterDecode(z: seq<Word>, b: nat)
    requires |z| > 0 && 1 <= b <= 31 && InRange(z, b)
    ensures GrayEncode(GrayDecode(z), b) == z
  {
    hide Xor, Half, Bit, Below, Spread, PrefixXor, GrayDecode, InRange;
    var n, s := |z|, GrayDecode(z);
    var t := Half(z[n - 1]);
    var last := PrefixXor(s, n - 1);
    PrefixXorOfDecoded(z, n - 1);
    GrayDecodeInRange(z, b);
    PrefixXorBelow(s, n - 1, b);
    SpreadIsAllShifts(last, b);
    GrayWordInjective(Spread(last, 1, b), z[n - 1]);
    XorLaws(z[n - 1], t);
    forall i | 0 <= i < n
      ensures GrayEncode(s, b)[i] == z[i]
    {
      PrefixXorOfDecoded(z, i);
      XorLaws(z[i], t);
    }
  }

  // ---------- the two transforms ----------

  function ToAxes(x: seq<Word>, b: nat): (r: seq<Word>)
    requires |x| > 0 && 1 <= b <= 31
    ensures |r| == |x|
  {
    UndoLevels(GrayDecode(x), b - 1)
  }

  function ToTranspose(x: seq<Word>, b: nat): (r: seq<Word>)
    requires |x| > 0 && 1 <= b <= 31
    ensures |r| == |x|
  {
    GrayEncode(RedoLevels(x, b - 1), b)
  }

  /** Decoding after encoding gives back every point of the cube. */
  lemma AxesRoundTrip(x: seq<Word>, b: nat)
    requires |x| > 0 && 1 <= b <= 31 && InRange(x, b)
    ensures ToAxes(ToTranspose(x, b), b) == x
    ensures InRange(ToTranspose(x, b), b)
  {
    hide UndoLevels, RedoLevels, GrayDecode, GrayEncode, InRange;
    var y := RedoLevels(x, b - 1);
    RedoLevelsInRange(x, b - 1, b);
    GrayDecodeAfterEncode(y, b);
    UndoAfterRedoLevels(x, b - 1);
  }

  /** Encoding after decoding gives back every transposed Hilbert integer. */
  lemma TransposeRoundTrip(x: seq<Word>, b: nat)
    requires |x| > 0 && 1 <= b <= 31 && InRange(x, b)
    ensures ToTranspose(ToAxes(x, b), b) == x
    ensures InRange(ToAxes(x, b), b)
  {
    hide UndoLevels, RedoLevels, GrayDecode, GrayEncode, InRange;
    var y := GrayDecode(x);
    GrayEncodeAfterDecode(x, b);
    GrayDecodeInRange(x, b);
    RedoAfterUndoLevels(y, b - 1);
    UndoLevelsInRange(y, b - 1, b);
  }
}
