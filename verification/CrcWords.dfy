/** 32-bit words and the polynomials in their low bits. */
module CrcWords {
  import opened Words
  import opened Gf2

  type word = bv32

  // The machine operations, named so that proofs need not look inside them.
  function Sum(x: word, y: word): word { x ^ y }

  function And(x: word, y: word): word { x & y }

  function Or(x: word, y: word): word { x | y }

  function Half(x: word): word { x >> 1 }

  predicate Low(x: word) { x & 1 == 1 }

  /** x shifted by one place, and by k places. */
  function Twice(x: word): word { x << 1 }

  function Left(x: word, k: nat): word
    decreases k
  {
    if k == 0 then x else Twice(Left(x, k - 1))
  }

  function Right(x: word, k: nat): word
    decreases k
  {
    if k == 0 then x else Right(Half(x), k - 1)
  }

  predicate Bit(x: word, k: nat)
    decreases k
  {
    if k == 0 then Low(x) else Bit(Half(x), k - 1)
  }

  /** The polynomial in the low n bits. */
  function Val(x: word, n: nat): nat
    decreases n
  {
    if n == 0 then 0 else (if Low(x) then 1 else 0) + 2 * Val(Half(x), n - 1)
  }

  // ---------------------------------------------------------------------
  // One-place facts
  // ---------------------------------------------------------------------

  lemma HalfXor(x: word, y: word)
    ensures Half(Sum(x, y)) == Sum(Half(x), Half(y))
  {
  }

  lemma LowXor(x: word, y: word)
    ensures Low(Sum(x, y)) == (Low(x) != Low(y))
  {
  }

  lemma HalfAnd(x: word, y: word)
    ensures Half(And(x, y)) == And(Half(x), Half(y))
  {
  }

  lemma LowAnd(x: word, y: word)
    ensures Low(And(x, y)) == (Low(x) && Low(y))
  {
  }

  lemma ZeroPlace()
    ensures Half(0) == 0 && !Low(0)
  {
  }

  lemma OnePlace()
    ensures Half(1) == 0 && Low(1)
  {
  }

  lemma LowTwice(x: word)
    ensures !Low(Twice(x))
  {
  }

  /** Shifting left and back loses the top bit only. */
  lemma HalfTwice(x: word)
    ensures Half(Twice(x)) == And(x, 0x7FFF_FFFF)
  {
  }

  // ---------------------------------------------------------------------
  // Values
  // ---------------------------------------------------------------------

  lemma {:induction false} ValBound(x: word, n: nat)
    ensures Val(x, n) < Pow2(n)
    decreases n
  {
    hide Half, Low;
    if n > 0 {
      ValBound(Half(x), n - 1);
    }
  }

  lemma {:induction false} ValOfZero(n: nat)
    ensures Val(0, n) == 0
  {
    hide Half, Low;
    if n > 0 {
      ZeroPlace();
      ValOfZero(n - 1);
    }
  }

  lemma {:induction false} ValSum(x: word, y: word, n: nat)
    ensures Val(Sum(x, y), n) == Xor(Val(x, n), Val(y, n))
    decreases n
  {
    if n == 0 {
      assert Xor(0, 0) == 0;
    } else {
      HalfXor(x, y);
      LowXor(x, y);
      hide Half, Low, Xor, Sum;
      ValSum(Half(x), Half(y), n - 1);
      XorPlaces(Val(Half(x), n - 1), Val(Half(y), n - 1), Low(x), Low(y));
    }
  }

  lemma {:induction false} ValTop(x: word, n: nat)
    ensures Val(x, n + 1) == Val(x, n) + if Bit(x, n) then Pow2(n) else 0
    decreases n
  {
    hide Half, Low;
    if n > 0 {
      ValTop(Half(x), n - 1);
    }
  }

  /** A mask with its low n bits set. */
  predicate CoversLow(m: word, n: nat)
    decreases n
  {
    n == 0 || (Low(m) && CoversLow(Half(m), n - 1))
  }

  lemma {:induction false} ValCovered(x: word, m: word, n: nat)
    requires CoversLow(m, n)
    ensures Val(And(x, m), n) == Val(x, n)
    decreases n
  {
    hide Half, Low, And;
    if n > 0 {
      HalfAnd(x, m);
      LowAnd(x, m);
      ValCovered(Half(x), Half(m), n - 1);
    }
  }

  lemma OddHalves(m: word)
    requires m & 7 == 7
    ensures Low(m) && Low(Half(m)) && Low(Half(Half(m)))
    ensures Half(Half(Half(m))) == m >> 3
  {
  }

  lemma CoversMore(m: word, n: nat)
    requires m & 7 == 7 && CoversLow(m >> 3, n)
    ensures CoversLow(m, n + 3)
  {
    OddHalves(m);
    hide Low, Half;
    assert CoversLow(Half(Half(m)), n + 1);
    assert CoversLow(Half(m), n + 2);
  }

  lemma CoversOne()
    ensures CoversLow(1, 1)
  {
    OnePlace();
    hide Low, Half;
    assert CoversLow(0, 0);
  }

  lemma LowThirtyOne()
    ensures CoversLow(0x7FFF_FFFF, 31)
  {
    CoversOne();
    hide CoversLow;
    CoversMore(0xF, 1);
    CoversMore(0x7F, 4);
    CoversMore(0x3FF, 7);
    CoversMore(0x1FFF, 10);
    CoversMore(0xFFFF, 13);
    CoversMore(0x7_FFFF, 16);
    CoversMore(0x3F_FFFF, 19);
    CoversMore(0x1FF_FFFF, 22);
    CoversMore(0xFFF_FFFF, 25);
    CoversMore(0x7FFF_FFFF, 28);
  }

  // ---------------------------------------------------------------------
  // Shifts
  // ---------------------------------------------------------------------

  lemma {:induction false} CoversFewer(m: word, k: nat, n: nat)
    requires k <= n && CoversLow(m, n)
    ensures CoversLow(m, k)
    decreases k
  {
    hide Half, Low;
    if k > 0 {
      CoversFewer(Half(m), k - 1, n - 1);
    }
  }

  /** Shifting left multiplies by x; what leaves the low n bits is lost. */
  lemma {:induction false} ValTwice(x: word, n: nat)
    requires 0 < n <= 32
    ensures Val(Twice(x), n) == 2 * Val(x, n - 1)
  {
    LowTwice(x);
    HalfTwice(x);
    LowThirtyOne();
    CoversFewer(0x7FFF_FFFF, n - 1, 31);
    ValCovered(x, 0x7FFF_FFFF, n - 1);
    hide Half, Low, Twice;
  }

  lemma {:induction false} ValLeft(x: word, k: nat, n: nat)
    requires k + n <= 32
    ensures Val(Left(x, k), n + k) == Shl(Val(x, n), k)
    decreases k
  {
    hide Half, Low, Twice;
    if k > 0 {
      ValLeft(x, k - 1, n);
      ValTwice(Left(x, k - 1), n + k);
    }
  }

  lemma {:induction false} ValRight(x: word, k: nat, n: nat)
    ensures Val(x, k + n) == Val(x, k) + Shl(Val(Right(x, k), n), k)
    decreases k
  {
    hide Half, Low;
    if k > 0 {
      ValRight(Half(x), k - 1, n);
    }
  }

  // ---------------------------------------------------------------------
  // Shifted ones and their bounds
  // ---------------------------------------------------------------------

  /** An upper bound that halves as the shift count falls. */
  function Ceiling(k: nat): word
    requires k <= 30
  {
    Right(0x4000_0000, 30 - k)
  }

  lemma {:induction false} RightLast(x: word, k: nat)
    ensures Right(x, k + 1) == Half(Right(x, k))
    decreases k
  {
    hide Half;
    if k > 0 {
      RightLast(Half(x), k - 1);
    }
  }

  lemma HalfSmaller(x: word)
    ensures Half(x) <= x
  {
  }

  lemma TwiceBelow(x: word, y: word)
    requires x <= Half(y)
    ensures Twice(x) <= y
  {
  }

  lemma RightThree(x: word)
    ensures Right(x, 3) == x >> 3
  {
    hide Half;
    assert Right(x, 3) == Right(Half(x), 2) == Right(Half(Half(x)), 1) == Half(Half(Half(x)));
    HalfThrice(x);
  }

  lemma HalfThrice(x: word)
    ensures Half(Half(Half(x))) == x >> 3
  {
  }

  lemma {:induction false} RightMore(x: word, k: nat)
    ensures Right(x, k + 3) == Right(x >> 3, k)
  {
    HalfThrice(x);
    hide Half;
    assert Right(x, k + 3) == Right(Half(x), k + 2) == Right(Half(Half(x)), k + 1);
  }

  lemma CeilingBase()
    ensures Ceiling(0) == 1
  {
    RightMore(0x4000_0000, 27);
    RightMore(0x800_0000, 24);
    RightMore(0x100_0000, 21);
    RightMore(0x20_0000, 18);
    RightMore(0x4_0000, 15);
    RightMore(0x8000, 12);
    RightMore(0x1000, 9);
    RightMore(0x200, 6);
    RightMore(0x40, 3);
    RightThree(8);
    hide Right;
  }

  lemma {:induction false} OneBelowCeiling(k: nat)
    requires k <= 30
    ensures Left(1, k) <= Ceiling(k) <= 0x4000_0000
  {
    CeilingBase();
    hide Half, Twice;
    if k > 0 {
      OneBelowCeiling(k - 1);
      RightLast(0x4000_0000, 30 - k);
      TwiceBelow(Left(1, k - 1), Ceiling(k));
    }
    CeilingBounded(30 - k);
  }

  lemma {:induction false} CeilingBounded(j: nat)
    ensures Right(0x4000_0000, j) <= 0x4000_0000
  {
    hide Half;
    if j > 0 {
      CeilingBounded(j - 1);
      RightLast(0x4000_0000, j - 1);
      HalfSmaller(Right(0x4000_0000, j - 1));
    }
  }

  /** Halving undoes doubling below the top. */
  lemma HalfOfTwice(x: word)
    requires Below(x, 0x8000_0000)
    ensures Half(Twice(x)) == x && Half(TwiceOne(x)) == x && Low(TwiceOne(x))
  {
  }

  // ---------------------------------------------------------------------
  // Single bits and masks
  // ---------------------------------------------------------------------

  /** Masking with a single bit tests that bit. */
  lemma {:induction false} TestBit(x: word, k: nat)
    requires k <= 31
    ensures And(x, Left(1, k)) != 0 <==> Bit(x, k)
    decreases k
  {
    hide Half, Low, Twice, And;
    if k == 0 {
      TestLow(x);
    } else {
      OneBelowCeiling(k - 1);
      TestBit(Half(x), k - 1);
      TestShifted(x, Left(1, k - 1));
    }
  }

  lemma TestLow(x: word)
    ensures And(x, 1) != 0 <==> Low(x)
  {
  }

  lemma TestShifted(x: word, m: word)
    requires m <= 0x4000_0000
    ensures And(x, Twice(m)) != 0 <==> And(Half(x), m) != 0
  {
  }

  /** The word whose low w bits are set. */
  function Ones(w: nat): word {
    if w == 0 then 0 else TwiceOne(Ones(w - 1))
  }

  function TwiceOne(o: word): word { Twice(o) | 1 }

  lemma {:induction false} OnesBelowOne(w: nat)
    requires w <= 31
    ensures Below(Ones(w), Left(1, w)) && Below(Ones(w), 0x8000_0000)
  {
    hide Twice, TwiceOne, Below;
    if w == 0 {
      ZeroBelow();
    } else {
      OnesBelowOne(w - 1);
      OneBelowCeiling(w - 1);
      NextOnes(Ones(w - 1), Left(1, w - 1));
    }
  }

  predicate Below(x: word, y: word) { x < y }

  lemma ZeroBelow()
    ensures Below(0, 1) && Below(0, 0x8000_0000)
  {
  }

  lemma NextOnes(o: word, m: word)
    requires Below(o, m) && m <= 0x4000_0000
    ensures Below(TwiceOne(o), Twice(m)) && Below(TwiceOne(o), 0x8000_0000)
  {
  }

  /** Masking with the low ones keeps the low bits and clears the others. */
  lemma {:induction false} ValMasked(x: word, w: nat, n: nat)
    requires w <= 32
    ensures Val(And(x, Ones(w)), n) == Val(x, if n < w then n else w)
    decreases n
  {
    if w == 0 {
      CommonZero(x);
      ValOfZero(n);
    } else if n > 0 {
      var o := Ones(w - 1);
      OnesBelowOne(w - 1);
      HalfOfTwice(o);
      hide Half, Low, Twice, TwiceOne, And, Below;
      HalfAnd(x, Ones(w));
      LowAnd(x, Ones(w));
      ValMasked(Half(x), w - 1, n - 1);
    }
  }

  lemma CommonZero(x: word)
    ensures And(x, 0) == 0
  {
  }

  lemma {:induction false} ValOfOne(k: nat)
    requires k <= 31
    ensures Val(Left(1, k), k) == 0 && Val(Left(1, k), k + 1) == Pow2(k)
  {
    ValLeft(1, k, 0);
    ValLeft(1, k, 1);
    ShlOfOne(k);
    OnePlace();
    hide Half, Low, Left;
    assert Val(1, 1) == 1 + 2 * Val(0, 0);
  }

  /** Equal in the low n bits, hence in fewer. */
  lemma {:induction false} ValFewer(x: word, y: word, k: nat, n: nat)
    requires k <= n && Val(x, n) == Val(y, n)
    ensures Val(x, k) == Val(y, k)
    decreases k
  {
    hide Half, Low;
    if k > 0 {
      ValFewer(Half(x), Half(y), k - 1, n - 1);
    }
  }

  /** Setting a clear bit adds it. */
  lemma OrClearBit(x: word, k: nat)
    requires k <= 31 && !Bit(x, k)
    ensures Or(x, Left(1, k)) == Sum(x, Left(1, k))
  {
    hide Bit, Left, Or, Sum, And;
    TestBit(x, k);
    OrIsXor(x, Left(1, k));
  }

  lemma OrIsXor(x: word, y: word)
    requires And(x, y) == 0
    ensures Or(x, y) == Sum(x, y)
  {
    WordOrIsXor(x, y);
  }

  lemma WordOrIsXor(x: word, y: word)
    requires x & y == 0
    ensures x | y == x ^ y
  {
  }

  lemma {:induction false} BitSum(x: word, y: word, k: nat)
    ensures Bit(Sum(x, y), k) <==> Bit(x, k) != Bit(y, k)
    decreases k
  {
    HalfXor(x, y);
    LowXor(x, y);
    hide Half, Low, Sum;
    if k > 0 {
      BitSum(Half(x), Half(y), k - 1);
    }
  }

  lemma BitTwice(x: word, k: nat)
    requires k <= 30
    ensures Bit(Twice(x), k + 1) <==> Bit(x, k)
  {
    hide Half, Low, Twice, Bit, Val;
    ValTop(x, k);
    ValTop(Twice(x), k + 1);
    ValTwice(x, k + 1);
    ValTwice(x, k + 2);
  }
}
