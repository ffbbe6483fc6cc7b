/** Polynomials over the two-element field, written as numbers: bit k of the
    number is the coefficient of x^k. */
module Gf2 {
  import opened Words

  /** Sum of polynomials. */
  function Xor(a: nat, b: nat): nat {
    if a == 0 then b
    else if b == 0 then a
    else (a + b) % 2 + 2 * Xor(a / 2, b / 2)
  }

  /** Product of polynomials. */
  function Mul(a: nat, b: nat): nat {
    if a == 0 then 0
    else Xor(if a % 2 == 1 then b else 0, 2 * Mul(a / 2, b))
  }

  lemma HalvesAndParity(x: nat, y: nat, i: nat, j: nat)
    requires i < 2 && j < 2
    ensures (2 * x + i) / 2 == x && (2 * x + i) % 2 == i
    ensures ((2 * x + i) + (2 * y + j)) % 2 == (i + j) % 2
  {
  }

  lemma {:induction false} XorDefinition(a: nat, b: nat)
    ensures a != 0 && b != 0 ==> Xor(a, b) == (a + b) % 2 + 2 * Xor(a / 2, b / 2)
    ensures Xor(0, b) == b && Xor(a, 0) == a
  {
  }

  /** Bit 0 and the other bits add separately. */
  lemma {:induction false} XorBits(x: nat, y: nat, i: nat, j: nat)
    requires i < 2 && j < 2
    ensures Xor(2 * x + i, 2 * y + j) == 2 * Xor(x, y) + (i + j) % 2
  {
    hide Xor;
    var a, b := 2 * x + i, 2 * y + j;
    HalvesAndParity(x, y, i, j);
    HalvesAndParity(y, x, j, i);
    XorDefinition(a, b);
    XorDefinition(x, y);
  }

  lemma {:induction false} XorPlaces(x: nat, y: nat, i: bool, j: bool)
    ensures Xor((if i then 1 else 0) + 2 * x, (if j then 1 else 0) + 2 * y) == (if i != j then 1 else 0) + 2 * Xor(x, y)
  {
    XorBits(x, y, if i then 1 else 0, if j then 1 else 0);
    hide Xor;
  }

  lemma {:induction false} XorCommutes(a: nat, b: nat)
    ensures Xor(a, b) == Xor(b, a)
  {
    if a != 0 && b != 0 {
      XorCommutes(a / 2, b / 2);
    }
  }

  lemma {:induction false} XorSelf(a: nat)
    ensures Xor(a, a) == 0
  {
    if a != 0 {
      XorSelf(a / 2);
    }
  }

  lemma {:induction false} XorAssociates(a: nat, b: nat, c: nat)
    ensures Xor(Xor(a, b), c) == Xor(a, Xor(b, c))
    decreases a + b + c
  {
    if a != 0 && b != 0 && c != 0 {
      XorAssociates(a / 2, b / 2, c / 2);
      AssociatesBit(a / 2, b / 2, c / 2, a % 2, b % 2, c % 2);
    } else {
      assert Xor(b, 0) == b && Xor(Xor(a, b), 0) == Xor(a, b);
    }
  }

  lemma {:induction false} AssociatesBit(x: nat, y: nat, z: nat, i: nat, j: nat, k: nat)
    requires i < 2 && j < 2 && k < 2
    requires Xor(Xor(x, y), z) == Xor(x, Xor(y, z))
    ensures Xor(Xor(2 * x + i, 2 * y + j), 2 * z + k) == Xor(2 * x + i, Xor(2 * y + j, 2 * z + k))
  {
    hide Xor;
    XorBits(x, y, i, j);
    XorBits(y, z, j, k);
    XorBits(Xor(x, y), z, (i + j) % 2, k);
    XorBits(x, Xor(y, z), i, (j + k) % 2);
  }

  lemma {:induction false} XorDouble(a: nat, b: nat)
    ensures Xor(2 * a, 2 * b) == 2 * Xor(a, b)
  {
    XorBits(a, b, 0, 0);
  }

  /** (a + b) + (c + d) regrouped as (a + c) + (b + d). */
  lemma {:induction false} XorExchange(a: nat, b: nat, c: nat, d: nat)
    ensures Xor(Xor(a, b), Xor(c, d)) == Xor(Xor(a, c), Xor(b, d))
  {
    XorAssociates(a, b, Xor(c, d));
    XorAssociates(b, c, d);
    XorCommutes(b, c);
    XorAssociates(c, b, d);
    XorAssociates(a, c, Xor(b, d));
  }

  lemma {:induction false} XorCancel(a: nat, b: nat)
    ensures Xor(a, Xor(a, b)) == b
  {
    XorAssociates(a, a, b);
    XorSelf(a);
  }

  lemma {:induction false} XorZeroIff(a: nat, b: nat)
    ensures Xor(a, b) == 0 <==> a == b
  {
    XorSelf(a);
    if Xor(a, b) == 0 {
      XorCancel(a, b);
    }
  }

  /** The product with x^n. */
  function Shl(a: nat, n: nat): nat {
    if n == 0 then a else 2 * Shl(a, n - 1)
  }

  lemma {:induction false} ShlOfOne(n: nat)
    ensures Shl(1, n) == Pow2(n) && Shl(0, n) == 0
  {
    if n > 0 {
      ShlOfOne(n - 1);
    }
  }

  lemma {:induction false} ShlAdd(a: nat, b: nat, n: nat)
    ensures Shl(a + b, n) == Shl(a, n) + Shl(b, n)
  {
    if n > 0 {
      ShlAdd(a, b, n - 1);
    }
  }

  lemma {:induction false} ShlTwice(a: nat, m: nat, n: nat)
    ensures Shl(Shl(a, m), n) == Shl(a, m + n)
  {
    if n > 0 {
      ShlTwice(a, m, n - 1);
    }
  }

  lemma {:induction false} ShlBound(a: nat, m: nat, n: nat)
    requires a < Pow2(m)
    ensures Shl(a, n) < Pow2(m + n)
  {
    if n > 0 {
      ShlBound(a, m, n - 1);
    }
  }

  /** Low and high parts add separately. */
  lemma {:induction false} XorSplit(a: nat, b: nat, c: nat, d: nat, n: nat)
    requires c < Pow2(n) && d < Pow2(n)
    ensures Xor(Shl(a, n) + c, Shl(b, n) + d) == Shl(Xor(a, b), n) + Xor(c, d)
    ensures Xor(c, d) < Pow2(n)
  {
    if n == 0 {
      assert Xor(0, 0) == 0;
    } else {
      XorSplit(a, b, c / 2, d / 2, n - 1);
      SplitBit(Shl(a, n - 1), Shl(b, n - 1), Shl(Xor(a, b), n - 1), c, d);
      hide Xor;
    }
  }

  lemma {:induction false} SplitBit(u: nat, v: nat, s: nat, c: nat, d: nat)
    requires Xor(u + c / 2, v + d / 2) == s + Xor(c / 2, d / 2)
    ensures Xor(2 * u + c, 2 * v + d) == 2 * s + Xor(c, d)
    ensures Xor(c, d) == 2 * Xor(c / 2, d / 2) + (c % 2 + d % 2) % 2
  {
    hide Xor;
    XorBits(u + c / 2, v + d / 2, c % 2, d % 2);
    XorBits(c / 2, d / 2, c % 2, d % 2);
  }

  lemma {:induction false} XorBound(c: nat, d: nat, n: nat)
    requires c < Pow2(n) && d < Pow2(n)
    ensures Xor(c, d) < Pow2(n)
  {
    XorSplit(0, 0, c, d, n);
  }

  lemma {:induction false} XorDisjoint(a: nat, d: nat, n: nat)
    requires d < Pow2(n)
    ensures Xor(Shl(a, n), d) == Shl(a, n) + d
  {
    assert Xor(a, 0) == a && Xor(0, d) == d;
    ShlOfOne(n);
    hide Xor;
    XorSplit(a, 0, 0, d, n);
  }

  lemma {:induction false} XorShl(a: nat, b: nat, n: nat)
    ensures Xor(Shl(a, n), Shl(b, n)) == Shl(Xor(a, b), n)
  {
    assert Xor(0, 0) == 0;
    hide Xor;
    XorSplit(a, b, 0, 0, n);
  }

  /** The leading term survives adding terms below it. */
  lemma {:induction false} XorLeading(high: nat, low: nat, n: nat)
    requires Pow2(n) <= high < 2 * Pow2(n) && low < Pow2(n)
    ensures Pow2(n) <= Xor(low, high) < 2 * Pow2(n)
  {
    XorCommutes(low, high);
    assert Xor(1, 0) == 1;
    ShlOfOne(n);
    hide Xor, Pow2, Shl;
    XorSplit(1, 0, high - Pow2(n), low, n);
  }

  // ---------------------------------------------------------------------
  // Products
  // ---------------------------------------------------------------------

  lemma {:induction false} MulDistributes(a: nat, c: nat, b: nat)
    ensures Mul(Xor(a, c), b) == Xor(Mul(a, b), Mul(c, b))
    decreases a + c
  {
    if a == 0 || c == 0 {
      XorCommutes(Mul(a, b), Mul(c, b));
      XorCommutes(a, c);
    } else {
      MulDistributes(a / 2, c / 2, b);
      DistributesBit(a / 2, c / 2, a % 2, c % 2, b);
    }
  }

  lemma {:induction false} MulBits(x: nat, i: nat, b: nat)
    requires i < 2
    ensures Mul(2 * x + i, b) == Xor(if i == 1 then b else 0, 2 * Mul(x, b))
  {
    if x == 0 && i == 0 {
      assert Mul(0, b) == 0 && Xor(0, 0) == 0;
    } else {
      assert (2 * x + i) / 2 == x && (2 * x + i) % 2 == i;
    }
  }

  lemma {:induction false} DistributesBit(x: nat, y: nat, i: nat, j: nat, b: nat)
    requires i < 2 && j < 2
    requires Mul(Xor(x, y), b) == Xor(Mul(x, b), Mul(y, b))
    ensures Mul(Xor(2 * x + i, 2 * y + j), b) == Xor(Mul(2 * x + i, b), Mul(2 * y + j, b))
  {
    hide Xor, Mul;
    var bi, bj := if i == 1 then b else 0, if j == 1 then b else 0;
    SumOfMultiples(i, j, b);
    XorBits(x, y, i, j);
    MulBits(Xor(x, y), (i + j) % 2, b);
    MulBits(x, i, b);
    MulBits(y, j, b);
    XorExchange(bi, 2 * Mul(x, b), bj, 2 * Mul(y, b));
    XorDouble(Mul(x, b), Mul(y, b));
  }

  lemma {:induction false} SumOfMultiples(i: nat, j: nat, b: nat)
    requires i < 2 && j < 2
    ensures Xor(if i == 1 then b else 0, if j == 1 then b else 0) == if (i + j) % 2 == 1 then b else 0
  {
    XorSelf(b);
    assert Xor(b, 0) == Xor(0, b) == b;
  }

  lemma {:induction false} MulDouble(a: nat, b: nat)
    ensures Mul(2 * a, b) == 2 * Mul(a, b)
  {
    MulBits(a, 0, b);
  }

  lemma {:induction false} MulRightDouble(a: nat, b: nat)
    ensures Mul(a, 2 * b) == 2 * Mul(a, b)
  {
    if a != 0 {
      MulRightDouble(a / 2, b);
      XorDouble(if a % 2 == 1 then b else 0, 2 * Mul(a / 2, b));
    }
  }

  lemma {:induction false} MulOne(b: nat)
    ensures Mul(1, b) == b
  {
    assert Mul(0, b) == 0;
    XorCommutes(b, 0);
  }

  /** A non-zero multiple of a polynomial of degree w has degree at least w. */
  lemma {:induction false} MulDegree(a: nat, g: nat, w: nat) returns (k: nat)
    requires a > 0 && Pow2(w) <= g < Pow2(w + 1)
    ensures Pow2(w + k) <= Mul(a, g) < Pow2(w + k + 1)
    ensures Pow2(w) <= Mul(a, g)
  {
    if a == 1 {
      k := 0;
      MulOne(g);
    } else {
      var j := MulDegree(a / 2, g, w);
      k := j + 1;
      var low := if a % 2 == 1 then g else 0;
      MulBits(a / 2, a % 2, g);
      Pow2Monotonic(w + 1, w + k);
      Pow2Monotonic(w, w + k);
      assert Pow2(w + k + 1) == 2 * Pow2(w + k) && Pow2(w + 1) == 2 * Pow2(w);
      assert Pow2(w + j + 1) == Pow2(w + k);
      hide Xor, Mul, Pow2;
      XorLeading(2 * Mul(a / 2, g), low, w + k);
    }
  }

  // ---------------------------------------------------------------------
  // Remainders
  // ---------------------------------------------------------------------

  /** Equal up to a multiple of g. */
  ghost predicate Congruent(a: nat, b: nat, g: nat) {
    exists q: nat :: Xor(a, b) == Mul(q, g)
  }

  lemma {:induction false} CongruentRefl(a: nat, g: nat)
    ensures Congruent(a, a, g)
  {
    XorSelf(a);
    assert Xor(a, a) == Mul(0, g);
  }

  lemma {:induction false} CongruentSymmetric(a: nat, b: nat, g: nat)
    requires Congruent(a, b, g)
    ensures Congruent(b, a, g)
  {
    XorCommutes(a, b);
  }

  lemma {:induction false} CongruentSum(a: nat, b: nat, c: nat, d: nat, g: nat)
    requires Congruent(a, b, g) && Congruent(c, d, g)
    ensures Congruent(Xor(a, c), Xor(b, d), g)
  {
    var q: nat :| Xor(a, b) == Mul(q, g);
    var r: nat :| Xor(c, d) == Mul(r, g);
    XorExchange(a, c, b, d);
    MulDistributes(q, r, g);
    assert Xor(Xor(a, c), Xor(b, d)) == Mul(Xor(q, r), g);
  }

  lemma {:induction false} CongruentTransitive(a: nat, b: nat, c: nat, g: nat)
    requires Congruent(a, b, g) && Congruent(b, c, g)
    ensures Congruent(a, c, g)
  {
    CongruentSum(a, b, b, c, g);
    XorExchange(a, b, b, c);
    var q: nat :| Xor(Xor(a, b), Xor(b, c)) == Mul(q, g);
    XorSelf(b);
    XorAssociates(a, b, c);
    XorAssociates(a, b, Xor(b, c));
    XorCancel(b, c);
    assert Xor(a, c) == Mul(q, g);
  }

  lemma {:induction false} CongruentDouble(a: nat, b: nat, g: nat)
    requires Congruent(a, b, g)
    ensures Congruent(2 * a, 2 * b, g)
  {
    var q: nat :| Xor(a, b) == Mul(q, g);
    XorDouble(a, b);
    MulDouble(q, g);
    assert Xor(2 * a, 2 * b) == Mul(2 * q, g);
  }

  lemma {:induction false} CongruentShl(a: nat, b: nat, g: nat, n: nat)
    requires Congruent(a, b, g)
    ensures Congruent(Shl(a, n), Shl(b, n), g)
  {
    if n > 0 {
      CongruentShl(a, b, g, n - 1);
      CongruentDouble(Shl(a, n - 1), Shl(b, n - 1), g);
    }
  }

  /** Subtracting the generator once. */
  lemma {:induction false} CongruentReduce(a: nat, g: nat)
    ensures Congruent(Xor(a, g), a, g)
  {
    XorCommutes(Xor(a, g), a);
    XorCancel(a, g);
    MulOne(g);
    assert Xor(Xor(a, g), a) == Mul(1, g);
  }

  /** r is the remainder of p divided by g, a polynomial of degree w. */
  ghost predicate IsRemainder(p: nat, g: nat, w: nat, r: nat) {
    r < Pow2(w) && Congruent(r, p, g)
  }

  /** There is only one remainder. */
  lemma {:induction false} RemainderUnique(p: nat, g: nat, w: nat, r: nat, s: nat)
    requires Pow2(w) <= g < Pow2(w + 1)
    requires IsRemainder(p, g, w, r) && IsRemainder(p, g, w, s)
    ensures r == s
  {
    CongruentSymmetric(s, p, g);
    CongruentTransitive(r, p, s, g);
    var q: nat :| Xor(r, s) == Mul(q, g);
    XorBound(r, s, w);
    if q > 0 {
      var _ := MulDegree(q, g, w);
    }
    XorZeroIff(r, s);
  }

  /** The generator x^w + poly. */
  function Generator(w: nat, poly: nat): nat {
    Pow2(w) + poly
  }

  /** Long division, one coefficient at a time. */
  function Rem(p: nat, w: nat, poly: nat): nat {
    if p == 0 then 0
    else
      var d := Xor(2 * Rem(p / 2, w, poly), p % 2);
      if d >= Pow2(w) then Xor(d, Generator(w, poly)) else d
  }

  lemma {:induction false} XorWithLeading(c: nat, d: nat, n: nat)
    requires c < Pow2(n) && d < Pow2(n)
    ensures Xor(Pow2(n) + c, Pow2(n) + d) == Xor(c, d) < Pow2(n)
  {
    XorSelf(1);
    ShlOfOne(n);
    hide Xor, Shl, Pow2;
    XorSplit(1, 1, c, d, n);
  }

  lemma {:induction false} RemIsRemainder(p: nat, w: nat, poly: nat)
    requires w > 0 && poly < Pow2(w)
    ensures IsRemainder(p, Generator(w, poly), w, Rem(p, w, poly))
  {
    if p == 0 {
      CongruentRefl(0, Generator(w, poly));
    } else {
      RemIsRemainder(p / 2, w, poly);
      DivisionStep(p / 2, p % 2, w, poly, Rem(p / 2, w, poly));
    }
  }

  /** Bringing down one more coefficient. */
  lemma {:induction false} DivisionStep(x: nat, i: nat, w: nat, poly: nat, r: nat)
    requires w > 0 && poly < Pow2(w) && i < 2
    requires IsRemainder(x, Generator(w, poly), w, r)
    ensures var d := Xor(2 * r, i);
            IsRemainder(2 * x + i, Generator(w, poly), w, if d >= Pow2(w) then Xor(d, Generator(w, poly)) else d)
  {
    hide Xor, Congruent, Pow2;
    var g, d := Generator(w, poly), Xor(2 * r, i);
    XorLowBit(r, i);
    XorLowBit(x, i);
    CongruentDouble(r, x, g);
    CongruentRefl(i, g);
    CongruentSum(2 * r, 2 * x, i, i, g);
    if d >= Pow2(w) {
      XorWithLeading(d - Pow2(w), poly, w);
      CongruentReduce(d, g);
      CongruentTransitive(Xor(d, g), d, 2 * x + i, g);
    }
  }

  lemma {:induction false} XorLowBit(x: nat, i: nat)
    requires i < 2
    ensures Xor(2 * x, i) == 2 * x + i
  {
    assert Xor(x, 0) == x;
    XorBits(x, 0, 0, i);
  }

  lemma {:induction false} RemUnique(p: nat, w: nat, poly: nat, r: nat)
    requires w > 0 && poly < Pow2(w)
    requires IsRemainder(p, Generator(w, poly), w, r)
    ensures r == Rem(p, w, poly)
  {
    RemIsRemainder(p, w, poly);
    RemainderUnique(p, Generator(w, poly), w, r, Rem(p, w, poly));
  }

  /** Remainders add. */
  lemma {:induction false} RemSum(a: nat, b: nat, w: nat, poly: nat)
    requires w > 0 && poly < Pow2(w)
    ensures Rem(Xor(a, b), w, poly) == Xor(Rem(a, w, poly), Rem(b, w, poly))
  {
    RemIsRemainder(a, w, poly);
    RemIsRemainder(b, w, poly);
    CongruentSum(Rem(a, w, poly), a, Rem(b, w, poly), b, Generator(w, poly));
    XorBound(Rem(a, w, poly), Rem(b, w, poly), w);
    RemUnique(Xor(a, b), w, poly, Xor(Rem(a, w, poly), Rem(b, w, poly)));
  }

  /** Only the remainder of a matters for the remainder of x^n a + b. */
  lemma {:induction false} RemOfShifted(a: nat, b: nat, n: nat, w: nat, poly: nat)
    requires w > 0 && poly < Pow2(w)
    ensures Rem(Xor(Shl(Rem(a, w, poly), n), b), w, poly) == Rem(Xor(Shl(a, n), b), w, poly)
  {
    var g := Generator(w, poly);
    var r := Rem(a, w, poly);
    RemIsRemainder(a, w, poly);
    CongruentShl(r, a, g, n);
    CongruentRefl(b, g);
    CongruentSum(Shl(r, n), Shl(a, n), b, b, g);
    var x, y := Xor(Shl(r, n), b), Xor(Shl(a, n), b);
    RemIsRemainder(x, w, poly);
    CongruentTransitive(Rem(x, w, poly), x, y, g);
    RemUnique(y, w, poly, Rem(x, w, poly));
  }
}
