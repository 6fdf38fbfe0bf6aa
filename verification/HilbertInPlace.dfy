/** `TransposetoAxes` and `AxestoTranspose` of `contribs/skilling.c`, in place on the coordinate array. */
module HilbertInPlace {
  import opened BitWords
  import opened HilbertCodec

  // ---------- unfoldings used by the loops ----------

  lemma UndoUnfolds(s: seq<Word>, q: Word, i: nat)
    requires i < |s|
    ensures UndoFrom(s, q, i) ==
            if i == 0 then Exchange(s, q, 0) else UndoFrom(Exchange(s, q, i), q, i - 1)
  {
    hide Exchange;
  }

  lemma LevelsUnfold(s: seq<Word>, j: nat)
    requires |s| > 0 && j <= 31
    ensures UndoLevels(s, j) == if j == 0 then s else UndoFrom(UndoLevels(s, j - 1), Bit(j), |s| - 1)
  {
    hide UndoFrom, Bit;
  }

  lemma RedoUnfolds(s: seq<Word>, j: nat)
    requires |s| > 0 && j <= 31
    ensures RedoLevels(s, j) == if j == 0 then s else RedoLevels(RedoTo(s, Bit(j), |s| - 1), j - 1)
  {
    hide RedoTo, Bit;
  }

  lemma DoubleOf(j: nat)
    requires 1 <= j <= 31
    ensures Bit(j) == Double(Bit(j - 1)) && Bit(j - 1) == Half(Bit(j)) && Bit(1) == 2 && Bit(0) == 1
  {
    BitIsOneBit(j);
  }

  lemma DistinctBits(j: nat, b: nat)
    requires j < b <= 31
    ensures Bit(j) != Bit(b)
  {
    BitMonotone(j, b - 1);
    BitIsOneBit(b);
  }

  /** The encoder's loop goes on down to bit 1. */
  predicate AboveOne(q: Word) {
    q > 1
  }

  lemma LevelDown(j: nat)
    requires 1 <= j <= 31
    ensures Half(Bit(j)) == Bit(j - 1)
  {
    BitIsOneBit(j);
  }

  lemma BitAboveOne(j: nat)
    requires j <= 31
    ensures AboveOne(Bit(j)) <==> j > 0
  {
    if j > 0 {
      BitMonotone(1, j);
    }
  }

  // ---------- inner loops ----------

  /** Inverts the part of word 0 below q if word 0 has the bit q. */
  method InvertFirst(X: array<Word>, q: Word)
    requires X.Length > 0
    modifies X
    ensures X[..] == Exchange(old(X[..]), q, 0)
  {
    hide Xor, Has, Ones;
    if Has(X[0], q) {
      X[0] := Xor(X[0], Ones(q));
    }
  }

  /** Inverts the part of word 0 below q if word i has the bit q, and otherwise exchanges the parts of words 0 and i
      below q. */
  method ExchangeInPlace(X: array<Word>, q: Word, i: nat)
    requires 0 < i < X.Length
    modifies X
    ensures X[..] == Exchange(old(X[..]), q, i)
  {
    hide Xor, Has, Ones, Low;
    if Has(X[i], q) {
      X[0] := Xor(X[0], Ones(q));
    } else {
      var t := Low(Xor(X[0], X[i]), q);
      X[0] := Xor(X[0], t);
      X[i] := Xor(X[i], t);
    }
  }

  /** One pass of the decoder: i = n-1, ..., 1 and then word 0. */
  method UndoLevelInPlace(X: array<Word>, q: Word)
    requires X.Length > 0
    modifies X
    ensures X[..] == UndoFrom(old(X[..]), q, X.Length - 1)
  {
    hide UndoFrom, Exchange;
    ghost var was := X[..];
    var i := X.Length - 1;
    while i > 0
      invariant 0 <= i < X.Length
      invariant UndoFrom(X[..], q, i) == UndoFrom(was, q, X.Length - 1)
    {
      UndoUnfolds(X[..], q, i);
      ExchangeInPlace(X, q, i);
      i := i - 1;
    }
    UndoUnfolds(X[..], q, 0);
    InvertFirst(X, q);
  }

  /** One pass of the encoder: word 0 and then i = 1, ..., n-1. */
  method RedoLevelInPlace(X: array<Word>, q: Word)
    requires X.Length > 0
    modifies X
    ensures X[..] == RedoTo(old(X[..]), q, X.Length - 1)
  {
    hide Exchange;
    ghost var was := X[..];
    InvertFirst(X, q);
    var i := 1;
    while i < X.Length
      invariant 1 <= i <= X.Length
      invariant X[..] == RedoTo(was, q, i - 1)
    {
      ExchangeInPlace(X, q, i);
      i := i + 1;
    }
  }

  // ---------- Gray code ----------

  /** From the last word down, each takes in the one before it; word 0 takes in half of the old last word. */
  method GrayDecodeInPlace(X: array<Word>)
    requires X.Length > 0
    modifies X
    ensures X[..] == GrayDecode(old(X[..]))
  {
    hide Xor, Half;
    ghost var was := X[..];
    var n := X.Length;
    var t := Half(X[n - 1]);
    var i := n - 1;
    while i > 0
      invariant 0 <= i < n
      invariant forall k :: 0 <= k <= i ==> X[k] == was[k]
      invariant forall k :: i < k < n ==> X[k] == DecodedWord(was, k)
    {
      X[i] := Xor(X[i], X[i - 1]);
      i := i - 1;
    }
    X[0] := Xor(X[0], t);
  }

  /** The doubling shifts below b add up to all shifts, which undoes the Gray code of a word of b bits. */
  method SpreadLoop(x: Word, b: nat) returns (y: Word)
    requires 1 <= b <= 31
    ensures y == Spread(x, 1, b)
    ensures Below(x, Bit(b)) ==> y == AllShifts(x)
  {
    hide Below, Bit, Shr, AllShifts, Xor, ShiftRight;
    y := x;
    var i := 1;
    while i < b
      invariant i in {1, 2, 4, 8, 16, 32}
      invariant Spread(y, i, b) == Spread(x, 1, b)
    {
      ShrIsShift(y, i);
      y := Xor(y, ShiftRight(y, i));
      i := 2 * i;
    }
    if Below(x, Bit(b)) {
      SpreadIsAllShifts(x, b);
    }
  }

  /** From word 1 up, each takes in the one before it. */
  method PrefixPass(X: array<Word>)
    requires X.Length > 0
    modifies X
    ensures forall k :: 0 <= k < X.Length ==> X[k] == PrefixXor(old(X[..]), k)
  {
    hide Xor;
    ghost var was := X[..];
    var i := 1;
    while i < X.Length
      invariant 1 <= i <= X.Length
      invariant forall k :: 0 <= k < i ==> X[k] == PrefixXor(was, k)
      invariant forall k :: i <= k < X.Length ==> X[k] == was[k]
    {
      XorLaws(X[i], X[i - 1]);
      X[i] := Xor(X[i], X[i - 1]);
      i := i + 1;
    }
  }

  /** Every word but the last takes in t. */
  method CorrectOthers(X: array<Word>, t: Word)
    requires X.Length > 0
    modifies X
    ensures X[X.Length - 1] == old(X[X.Length - 1])
    ensures forall k :: 0 <= k < X.Length - 1 ==> X[k] == Xor(old(X[k]), t)
  {
    hide Xor;
    ghost var was := X[..];
    var i := X.Length - 1;
    while i > 0
      invariant 0 <= i < X.Length
      invariant forall k :: 0 <= k < i ==> X[k] == was[k]
      invariant X[X.Length - 1] == was[X.Length - 1]
      invariant forall k :: i <= k < X.Length - 1 ==> X[k] == Xor(was[k], t)
    {
      i := i - 1;
      X[i] := Xor(X[i], t);
    }
  }

  /** The upward pass, the doubling loop on the last word and the correction of the others. */
  method GrayEncodeInPlace(X: array<Word>, b: nat)
    requires X.Length > 0 && 1 <= b <= 31
    modifies X
    ensures X[..] == GrayEncode(old(X[..]), b)
  {
    hide Xor, Spread, Shr, AllShifts, Below, Bit, PrefixXor;
    ghost var was := X[..];
    var n := X.Length;
    PrefixPass(X);
    var t := X[n - 1];
    var y := SpreadLoop(t, b);
    X[n - 1] := y;
    XorLaws(t, y);
    XorLaws(t, Xor(t, y));
    t := Xor(t, y);
    CorrectOthers(X, t);
    assert X[n - 1] == Xor(PrefixXor(was, n - 1), t);
  }

  // ---------- the two transforms ----------

  /** A single bit shifted left k places, by doubling. */
  method ShiftUp(w: Word, ghost j: nat, k: nat) returns (m: Word)
    requires j + k <= 31 && w == Bit(j)
    ensures m == Bit(j + k)
  {
    hide Bit, Double;
    m := w;
    for i := 0 to k
      invariant m == Bit(j + i)
    {
      DoubleOf(j + i + 1);
      m := Double(m);
    }
  }

  /** The decoder's outer loop: every level from bit 1 to below bit b. */
  method UndoInPlace(X: array<Word>, b: nat)
    requires X.Length > 0 && 1 <= b <= 30
    modifies X
    ensures X[..] == UndoLevels(old(X[..]), b - 1)
  {
    hide UndoLevels, Bit, Double, Half, UndoFrom;
    ghost var start := X[..];
    LevelsUnfold(start, 0);
    DoubleOf(b);
    var M := ShiftUp(2, 1, b - 1);
    var Q: Word := 2;
    ghost var j := 1;
    while Q != M
      invariant 1 <= j <= b && Q == Bit(j)
      invariant X[..] == UndoLevels(start, j - 1)
      decreases b - j
    {
      LevelsUnfold(start, j);
      UndoLevelInPlace(X, Q);
      DoubleOf(j + 1);
      Q := Double(Q);
      j := j + 1;
    }
    if j < b {
      DistinctBits(j, b);
    }
  }

  /** The encoder's outer loop: every level from bit b - 1 down to bit 1. */
  method RedoInPlace(X: array<Word>, b: nat)
    requires X.Length > 0 && 1 <= b <= 31
    modifies X
    ensures X[..] == RedoLevels(old(X[..]), b - 1)
  {
    hide RedoLevels, Bit, Half, RedoTo, AboveOne;
    ghost var was := X[..];
    UnitBit();
    var Q := ShiftUp(1, 0, b - 1);
    ghost var j := b - 1;
    BitAboveOne(j);
    while AboveOne(Q)
      invariant 0 <= j < b && Q == Bit(j) && (AboveOne(Q) <==> j > 0)
      invariant RedoLevels(X[..], j) == RedoLevels(was, b - 1)
      decreases j
    {
      RedoUnfolds(X[..], j);
      RedoLevelInPlace(X, Q);
      LevelDown(j);
      Q := Half(Q);
      j := j - 1;
      BitAboveOne(j);
    }
    RedoUnfolds(X[..], 0);
  }

  lemma UnitBit()
    ensures Bit(0) == 1
  {
  }

  /** Transposed Hilbert integer to axis coordinates. */
  method TransposeToAxes(X: array<Word>, b: nat)
    requires X.Length > 0 && 1 <= b <= 30
    modifies X
    ensures X[..] == ToAxes(old(X[..]), b)
    ensures old(InRange(X[..], b)) ==> InRange(X[..], b) && ToTranspose(X[..], b) == old(X[..])
  {
    hide UndoLevels, GrayDecode, ToTranspose, InRange;
    ghost var was := X[..];
    GrayDecodeInPlace(X);
    UndoInPlace(X, b);
    if InRange(was, b) {
      TransposeRoundTrip(was, b);
    }
  }

  /** Axis coordinates to transposed Hilbert integer. */
  method AxesToTranspose(X: array<Word>, b: nat)
    requires X.Length > 0 && 1 <= b <= 31
    modifies X
    ensures X[..] == ToTranspose(old(X[..]), b)
    ensures old(InRange(X[..], b)) ==> InRange(X[..], b) && ToAxes(X[..], b) == old(X[..])
  {
    hide RedoLevels, GrayEncode, ToAxes, InRange;
    ghost var was := X[..];
    RedoInPlace(X, b);
    GrayEncodeInPlace(X, b);
    if InRange(was, b) {
      AxesRoundTrip(was, b);
    }
  }
}
