/** Cyclic redundancy checks, bit by bit and from a table, as remainders of
    polynomial division. */
module Crc {
  import opened Words
  import opened Gf2
  import opened CrcWords

  // ---------------------------------------------------------------------
  // What a CRC register means
  // ---------------------------------------------------------------------

  /** A message of bytes, most significant first, as one polynomial. */
  function Message(data: seq<nat>): nat {
    if data == [] then 0
    else Xor(Shl(Message(data[..|data| - 1]), 8), data[|data| - 1])
  }

  /** init x^n + M x^w for a message M of n bits. */
  function Dividend(init: nat, data: seq<nat>, w: nat): nat {
    Xor(Shl(init, 8 * |data|), Shl(Message(data), w))
  }

  /** The register of width w after a message. */
  function Register(init: nat, data: seq<nat>, w: nat, poly: nat): nat {
    Rem(Dividend(init, data, w), w, poly)
  }

  lemma {:induction false} DividendOfNothing(init: nat, w: nat)
    ensures Dividend(init, [], w) == init
  {
    ShlOfOne(w);
    assert Xor(init, 0) == init;
  }

  /** One more byte. */
  lemma {:induction false} DividendStep(init: nat, data: seq<nat>, b: nat, w: nat)
    ensures Dividend(init, data + [b], w) == Xor(Shl(Dividend(init, data, w), 8), Shl(b, w))
  {
    hide Xor, Shl;
    var n, m := 8 * |data|, Message(data);
    assert (data + [b])[..|data|] == data;
    assert Message(data + [b]) == Xor(Shl(m, 8), b);
    hide Message;
    XorShl(Shl(m, 8), b, w);
    ShlTwice(m, 8, w);
    ShlTwice(m, w, 8);
    ShlTwice(init, n, 8);
    XorShl(Shl(init, n), Shl(m, w), 8);
    XorAssociates(Shl(init, n + 8), Shl(m, w + 8), Shl(b, w));
  }

  /** The register after one more byte is determined by the register before. */
  lemma {:induction false} RegisterStep(init: nat, data: seq<nat>, b: nat, w: nat, poly: nat)
    requires w > 0 && poly < Pow2(w)
    ensures Register(init, data + [b], w, poly)
         == Rem(Xor(Shl(Register(init, data, w, poly), 8), Shl(b, w)), w, poly)
  {
    hide Rem, Xor, Shl, Dividend;
    DividendStep(init, data, b, w);
    RemOfShifted(Dividend(init, data, w), Shl(b, w), 8, w, poly);
  }

  lemma {:induction false} RegisterOfNothing(init: nat, w: nat, poly: nat)
    requires w > 0 && poly < Pow2(w) && init < Pow2(w)
    ensures Register(init, [], w, poly) == init
  {
    hide Rem, Dividend;
    DividendOfNothing(init, w);
    CongruentRefl(init, Generator(w, poly));
    RemUnique(init, w, poly, init);
  }

  lemma {:induction false} RegisterBound(init: nat, data: seq<nat>, w: nat, poly: nat)
    requires w > 0 && poly < Pow2(w)
    ensures Register(init, data, w, poly) < Pow2(w)
  {
    RemIsRemainder(Dividend(init, data, w), w, poly);
  }

  /** A message may be processed in parts: the register carries over. */
  lemma {:induction false} RegisterSplit(init: nat, a: seq<nat>, b: seq<nat>, w: nat, poly: nat)
    requires w > 0 && poly < Pow2(w)
    ensures Register(Register(init, a, w, poly), b, w, poly) == Register(init, a + b, w, poly)
    decreases |b|
  {
    hide Rem, Dividend;
    var r := Register(init, a, w, poly);
    RegisterBound(init, a, w, poly);
    if b == [] {
      assert a + b == a;
      RegisterOfNothing(r, w, poly);
    } else {
      var c, x := b[..|b| - 1], b[|b| - 1];
      assert b == c + [x] && a + b == (a + c) + [x];
      hide Register;
      RegisterSplit(init, a, c, w, poly);
      RegisterStep(r, c, x, w, poly);
      RegisterStep(init, a + c, x, w, poly);
    }
  }

  /** Bytewise sum of two messages. */
  function XorBytes(a: seq<nat>, b: seq<nat>): seq<nat>
    requires |a| == |b|
  {
    seq(|a|, i requires 0 <= i < |a| => Xor(a[i], b[i]))
  }

  /** Registers are linear: errors in a message add to the register what they
      would give alone. */
  lemma {:induction false} RegisterLinear(u: nat, v: nat, a: seq<nat>, b: seq<nat>, w: nat, poly: nat)
    requires w > 0 && poly < Pow2(w) && |a| == |b|
    ensures Register(Xor(u, v), XorBytes(a, b), w, poly)
         == Xor(Register(u, a, w, poly), Register(v, b, w, poly))
  {
    MessageLinear(a, b);
    var n := 8 * |a|;
    hide Rem, Xor, Shl, Message;
    XorShl(u, v, n);
    XorShl(Message(a), Message(b), w);
    XorExchange(Shl(u, n), Shl(v, n), Shl(Message(a), w), Shl(Message(b), w));
    RemSum(Dividend(u, a, w), Dividend(v, b, w), w, poly);
  }

  lemma {:induction false} MessageLinear(a: seq<nat>, b: seq<nat>)
    requires |a| == |b|
    ensures Message(XorBytes(a, b)) == Xor(Message(a), Message(b))
  {
    if a == [] {
      assert Xor(0, 0) == 0;
    } else {
      var k := |a| - 1;
      var c := XorBytes(a, b);
      assert c[..k] == XorBytes(a[..k], b[..k]);
      MessageLinear(a[..k], b[..k]);
      XorShl(Message(a[..k]), Message(b[..k]), 8);
      XorExchange(Shl(Message(a[..k]), 8), Shl(Message(b[..k]), 8), a[k], b[k]);
    }
  }

  // ---------------------------------------------------------------------
  // Register steps on machine words
  // ---------------------------------------------------------------------

  lemma {:induction false} AddLeading(t: nat, e: nat, low: nat, w: nat)
    requires t < 2 && e < 2 && low < Pow2(w)
    ensures Xor(Shl(t, w) + low, Shl(e, w)) == Shl((t + e) % 2, w) + low
  {
    assert Xor(low, 0) == low && Xor(0, 0) == 0 && Xor(1, 0) == Xor(0, 1) == 1;
    XorSelf(1);
    ShlOfOne(w);
    hide Xor, Shl, Pow2;
    XorSplit(t, e, low, 0, w);
  }

  /** One step of modulo-2 division: the bit leaving the register, together with
      a message bit, decides on subtracting the generator. */
  lemma {:induction false} ShiftStep(p: word, q: word, w: nat, poly: word, subtract: bool, extra: bool)
    requires 0 < w <= 32
    requires subtract <==> extra != Bit(p, w - 1)
    requires q == if subtract then Sum(Twice(p), poly) else Twice(p)
    ensures Congruent(Val(q, w), Xor(2 * Val(p, w), Shl(if extra then 1 else 0, w)), Generator(w, Val(poly, w)))
  {
    hide Twice, Sum, Xor, Mul, Half, Low, Bit, Val, Congruent;
    var v := Val(p, w - 1);
    ValTop(p, w - 1);
    ValTwice(p, w);
    ValSum(Twice(p), poly, w);
    ValBound(p, w - 1);
    ValBound(poly, w);
    StepOfValues(2 * v, Val(poly, w), w, if Bit(p, w - 1) then 1 else 0, if extra then 1 else 0);
  }

  lemma {:induction false} StepOfValues(low: nat, poly: nat, w: nat, t: nat, e: nat)
    requires low < Pow2(w) && poly < Pow2(w) && t < 2 && e < 2
    ensures Congruent(if t != e then Xor(low, poly) else low,
                      Xor((if t == 1 then Pow2(w) else 0) + low, Shl(e, w)), Generator(w, poly))
  {
    hide Xor, Congruent, Pow2, Shl;
    ShlOfOne(w);
    AddLeading(t, e, low, w);
    if t != e {
      XorWithLeading(low, poly, w);
      CongruentReduce(Pow2(w) + low, Generator(w, poly));
    } else {
      CongruentRefl(low, Generator(w, poly));
    }
  }

  /** A plain step multiplies the register by x. */
  lemma {:induction false} DoubleStep(p: word, q: word, w: nat, poly: word, x: nat, k: nat)
    requires 0 < w <= 32
    requires q == if Bit(p, w - 1) then Sum(Twice(p), poly) else Twice(p)
    requires Congruent(Val(p, w), Shl(x, k), Generator(w, Val(poly, w)))
    ensures Congruent(Val(q, w), Shl(x, k + 1), Generator(w, Val(poly, w)))
  {
    var g := Generator(w, Val(poly, w));
    ShiftStep(p, q, w, poly, Bit(p, w - 1), false);
    ShlOfOne(w);
    assert Xor(2 * Val(p, w), 0) == 2 * Val(p, w);
    hide Twice, Sum, Xor, Bit, Val, Congruent;
    CongruentDouble(Val(p, w), Shl(x, k), g);
    CongruentTransitive(Val(q, w), 2 * Val(p, w), Shl(x, k + 1), g);
  }

  /** Adding a byte at the top of the register and eight plain steps. */
  lemma {:induction false} ByteAtTop(v: nat, b: nat, r: nat, init: nat, data: seq<nat>, w: nat, poly: nat)
    requires w >= 8 && poly < Pow2(w) && v == Register(init, data, w, poly)
    requires r < Pow2(w) && Congruent(r, Shl(Xor(v, Shl(b, w - 8)), 8), Generator(w, poly))
    ensures r == Register(init, data + [b], w, poly)
  {
    hide Xor, Shl, Rem, Register, Congruent, Pow2;
    XorShl(v, Shl(b, w - 8), 8);
    ShlTwice(b, w - 8, 8);
    RegisterStep(init, data, b, w, poly);
    assert IsRemainder(Xor(Shl(v, 8), Shl(b, w)), Generator(w, poly), w, r);
    hide IsRemainder;
    RemUnique(Xor(Shl(v, 8), Shl(b, w)), w, poly, r);
  }

  // ---------------------------------------------------------------------
  // Reflection
  // ---------------------------------------------------------------------

  /** The low n coefficients in reverse order. */
  function Mirror(v: nat, n: nat): nat {
    if n == 0 then 0 else Shl(v % 2, n - 1) + Mirror(v / 2, n - 1)
  }

  lemma {:induction false} MirrorBound(v: nat, n: nat)
    ensures Mirror(v, n) < Pow2(n)
  {
    if n > 0 {
      MirrorBound(v / 2, n - 1);
      ShlOfOne(n - 1);
    }
  }

  /** The highest coefficient comes out lowest. */
  lemma {:induction false} MirrorTop(t: nat, u: nat, n: nat)
    requires t < 2 && u < Pow2(n)
    ensures Mirror(Shl(t, n) + u, n + 1) == 2 * Mirror(u, n) + t
  {
    if n == 0 {
      assert Mirror(t, 1) == Shl(t % 2, 0) + Mirror(t / 2, 0);
    } else {
      var x := Shl(t, n - 1) + u / 2;
      assert Shl(t, n) + u == 2 * x + u % 2;
      MirrorTop(t, u / 2, n - 1);
      assert Mirror(2 * x + u % 2, n + 1) == Shl(u % 2, n) + Mirror(x, n);
    }
  }

  /** Reflection undoes itself on its bit range. */
  lemma {:induction false} MirrorInvolution(v: nat, n: nat)
    requires v < Pow2(n)
    ensures Mirror(Mirror(v, n), n) == v
  {
    if n > 0 {
      var u := Mirror(v / 2, n - 1);
      MirrorInvolution(v / 2, n - 1);
      MirrorBound(v / 2, n - 1);
      MirrorTop(v % 2, u, n - 1);
    }
  }

  /** One pass of the reflection loop: with m bits of data left, none of the low
      m bits of the result are set, and what is set is the mirror of the rest. */
  lemma {:induction false} ReflectStep(r: word, q: word, data: word, m: nat, n: nat)
    requires 0 < m <= n <= 32 && Val(r, m) == 0
    requires q == if Low(data) then Sum(r, Left(1, m - 1)) else r
    ensures Val(q, m - 1) == 0
    ensures Val(q, n) + Mirror(Val(Half(data), m - 1), m - 1) == Val(r, n) + Mirror(Val(data, m), m)
  {
    hide Half, Low, Left, Sum, Mirror;
    MirrorStep(data, m);
    ValOfZero(m);
    ValOfZero(m - 1);
    ValFewer(r, 0, m - 1, m);
    if Low(data) {
      ValOfOne(m - 1);
      ValSum(r, Left(1, m - 1), m - 1);
      assert Xor(0, 0) == 0;
      SetBelow(r, Left(1, m - 1), m, n);
    }
  }

  lemma LowestClear(r: word, m: nat)
    requires m > 0 && Val(r, m) == 0
    ensures !Bit(r, m - 1)
  {
    hide Half, Low, Val, Bit;
    ValTop(r, m - 1);
  }

  lemma {:induction false} MirrorStep(data: word, m: nat)
    requires m > 0
    ensures Mirror(Val(data, m), m)
         == (if Low(data) then Pow2(m - 1) else 0) + Mirror(Val(Half(data), m - 1), m - 1)
  {
    hide Half, Low;
    ShlOfOne(m - 1);
    var v := Val(Half(data), m - 1);
    assert Val(data, m) == (if Low(data) then 1 else 0) + 2 * v;
    assert Val(data, m) / 2 == v && Val(data, m) % 2 == if Low(data) then 1 else 0;
  }

  /** Setting a bit below everything set so far adds its value. */
  lemma {:induction false} SetBelow(r: word, one: word, m: nat, n: nat)
    requires 0 < m <= n <= 32 && Val(r, m) == 0
    requires one == Left(1, m - 1)
    ensures Val(Sum(r, one), n) == Val(r, n) + Pow2(m - 1)
  {
    hide Half, Low, Left, Right, Sum, Val, Xor, Shl;
    var high := Val(Right(r, m), n - m);
    ValRight(r, m, n - m);
    ValSum(r, one, n);
    ValOfOneWide(m - 1, n);
    Pow2Monotonic(m - 1, m);
    XorDisjoint(high, Pow2(m - 1), m);
  }

  lemma {:induction false} ValOfOneWide(k: nat, n: nat)
    requires k < n <= 32
    ensures Val(Left(1, k), n) == Pow2(k)
  {
    ValLeft(1, k, n - k);
    OnePlace();
    ValOfZero(n - k - 1);
    ShlOfOne(k);
    hide Half, Low, Left;
    assert Val(1, n - k) == 1 + 2 * Val(0, n - k - 1);
  }

  /** A mirrored value has the bits in reverse order. */
  lemma {:induction false} MirrorReverses(r: word, v: word, n: nat, k: nat)
    requires k < n && Val(r, n) == Mirror(Val(v, n), n)
    ensures Bit(r, k) <==> Bit(v, n - 1 - k)
    decreases n
  {
    hide Half, Low;
    assert Bit(v, 0) == Low(v);
    ValTop(r, n - 1);
    ValBound(r, n - 1);
    MirrorStep(v, n);
    MirrorBound(Val(Half(v), n - 1), n - 1);
    assert Bit(r, n - 1) == Low(v);
    if k < n - 1 {
      MirrorReverses(r, Half(v), n - 1, k);
    }
  }

  /** The reflection loop over the low n bits. */
  method ReflectBits(value: word, n: nat) returns (reflection: word)
    requires n <= 32
    ensures forall k | 0 <= k < n :: Bit(reflection, k) <==> Bit(value, n - 1 - k)
    ensures Val(reflection, n) == Mirror(Val(value, n), n)
  {
    var data := value;
    reflection := 0;
    ValOfZero(n);
    var bit := 0;
    while bit < n
      invariant bit <= n && Val(reflection, n - bit) == 0
      invariant Val(reflection, n) + Mirror(Val(data, n - bit), n - bit) == Mirror(Val(value, n), n)
    {
      hide Half, Low, Left, Val, Mirror, And, Or, Sum;
      ghost var before := reflection;
      TestLow(data);
      LowestClear(reflection, n - bit);
      OrClearBit(reflection, (n - 1) - bit);
      if And(data, 1) != 0 {
        reflection := Or(reflection, Left(1, (n - 1) - bit));
      }
      ReflectStep(before, reflection, data, n - bit, n);
      data := Half(data);
      bit := bit + 1;
    }
    hide Bit, Val, Mirror;
    forall k | 0 <= k < n ensures Bit(reflection, k) <==> Bit(value, n - 1 - k) {
      MirrorReverses(reflection, value, n, k);
    }
  }

  // ---------------------------------------------------------------------
  // The narrow loop, which feeds the message bits beside the register
  // ---------------------------------------------------------------------

  /** Splitting the next bit off what is left of the byte. */
  lemma NextBit(byte: word, data: word, k: nat)
    requires k < 8 && Val(data, 8) == Shl(Val(byte, 8 - k), k)
    ensures Bit(data, 7) <==> Bit(byte, 7 - k)
    ensures Val(And(Twice(data), Ones(8)), 8) == Shl(Val(byte, 7 - k), k + 1)
  {
    hide Half, Low, Twice, Bit, Val, And, Ones, Shl, Pow2;
    var rest := Val(byte, 7 - k);
    ValTop(byte, 7 - k);
    ValTop(data, 7);
    ValBound(byte, 7 - k);
    ValBound(data, 7);
    ShiftedRest(rest, k, Bit(byte, 7 - k));
    ValTwice(data, 8);
    ValMasked(Twice(data), 8, 8);
    assert Val(data, 7) == Shl(rest, k);
    OneMore(rest, k);
  }

  lemma OneMore(rest: nat, k: nat)
    ensures Shl(rest, k + 1) == 2 * Shl(rest, k)
  {
  }

  lemma {:induction false} ShiftedRest(rest: nat, k: nat, bit: bool)
    requires k < 8 && rest < Pow2(7 - k)
    ensures Shl(rest + if bit then Pow2(7 - k) else 0, k) == Shl(rest, k) + if bit then Pow2(7) else 0
    ensures Shl(rest, k) < Pow2(7)
  {
    hide Shl, Pow2;
    ShlAdd(rest, if bit then Pow2(7 - k) else 0, k);
    ShlBound(rest, 7 - k, k);
    ShlOfOne(7 - k);
    ShlOfOne(7);
    ShlOfOne(k);
    ShlTwice(1, 7 - k, k);
  }

  /** One narrow step moves one bit from the byte into the register. */
  lemma NarrowStep(p: word, q: word, byte: word, data: word, poly: word, total: nat, k: nat, subtract: bool)
    requires k < 8 && Val(data, 8) == Shl(Val(byte, 8 - k), k)
    requires subtract <==> Bit(Sum(data, Twice(p)), 7)
    requires q == if subtract then Sum(Twice(p), poly) else Twice(p)
    requires Congruent(Xor(Shl(Val(p, 7), 8 - k), Shl(Val(byte, 8 - k), 7)), total, Generator(7, Val(poly, 7)))
    ensures Congruent(Xor(Shl(Val(q, 7), 7 - k), Shl(Val(byte, 7 - k), 7)), total, Generator(7, Val(poly, 7)))
  {
    hide Half, Low, Twice, Bit, Val, Sum, Xor, Shl, Congruent, Pow2;
    NextBit(byte, data, k);
    BitSum(data, Twice(p), 7);
    BitTwice(p, 6);
    ShiftStep(p, q, 7, poly, subtract, Bit(data, 7));
    NarrowValues(Val(p, 7), Val(q, 7), Val(byte, 8 - k), Val(byte, 7 - k), if Bit(data, 7) then 1 else 0,
                 Generator(7, Val(poly, 7)), total, k) by {
      ValTop(byte, 7 - k);
      ValBound(byte, 7 - k);
    }
  }

  lemma {:induction false} NarrowValues(v: nat, u: nat, rest: nat, less: nat, d: nat, g: nat, total: nat, k: nat)
    requires k < 8 && d < 2 && less < Pow2(7 - k)
    requires rest == less + if d == 1 then Pow2(7 - k) else 0
    requires Congruent(u, Xor(2 * v, Shl(d, 7)), g)
    requires Congruent(Xor(Shl(v, 8 - k), Shl(rest, 7)), total, g)
    ensures Congruent(Xor(Shl(u, 7 - k), Shl(less, 7)), total, g)
  {
    hide Xor, Shl, Congruent, Pow2;
    var n := 7 - k;
    var target := Xor(Shl(v, 8 - k), Shl(d, 7 + n));
    SplitRest(Shl(v, 8 - k), rest, less, d, n);
    CongruentShl(u, Xor(2 * v, Shl(d, 7)), g, n);
    XorShl(2 * v, Shl(d, 7), n);
    ShlTwice(d, 7, n);
    TwiceShl(v, n);
    CongruentRefl(Shl(less, 7), g);
    CongruentSum(Shl(u, n), target, Shl(less, 7), Shl(less, 7), g);
    CongruentTransitive(Xor(Shl(u, n), Shl(less, 7)), Xor(Shl(v, 8 - k), Shl(rest, 7)), total, g);
  }

  lemma {:induction false} SplitRest(x: nat, rest: nat, less: nat, d: nat, n: nat)
    requires d < 2 && less < Pow2(n) && rest == less + if d == 1 then Pow2(n) else 0
    ensures Xor(x, Shl(rest, 7)) == Xor(Xor(x, Shl(d, 7 + n)), Shl(less, 7))
  {
    hide Xor, Shl, Pow2;
    ShlOfOne(n);
    XorDisjoint(d, less, n);
    XorShl(Shl(d, n), less, 7);
    ShlTwice(d, n, 7);
    XorAssociates(x, Shl(d, 7 + n), Shl(less, 7));
  }

  lemma {:induction false} TwiceShl(v: nat, n: nat)
    ensures Shl(2 * v, n) == Shl(v, n + 1)
  {
    ShlTwice(v, 1, n);
    assert Shl(v, 1) == 2 * Shl(v, 0);
  }

  // ---------------------------------------------------------------------
  // The table loop
  // ---------------------------------------------------------------------

  /** Every entry is the register that its index alone would leave. */
  ghost predicate TableFor(table: seq<word>, w: nat, poly: nat) {
    |table| == 256 && forall i | 0 <= i < 256 :: Val(table[i], w) == Rem(Shl(i, w), w, poly)
  }

  /** A register value that is already reduced. */
  lemma {:induction false} RemOfSmall(r: nat, w: nat, poly: nat)
    requires w > 0 && poly < Pow2(w) && r < Pow2(w)
    ensures Rem(r, w, poly) == r
  {
    CongruentRefl(r, Generator(w, poly));
    RemUnique(r, w, poly, r);
  }

  /** One table lookup does the eight steps for the top byte; the rest only shifts. */
  lemma {:induction false} LookupStep(p: word, b: word, t: word, q: word, w: nat, poly: nat)
    requires 8 <= w <= 32 && poly < Pow2(w)
    requires Val(t, w) == Rem(Shl(Val(Sum(b, Right(p, w - 8)), 8), w), w, poly)
    requires q == if w == 8 then t else Sum(t, Left(p, 8))
    ensures Val(q, w) == Rem(Xor(Shl(Val(p, w), 8), Shl(Val(b, 8), w)), w, poly)
  {
    hide Half, Low, Left, Right, Sum, Val, Xor, Shl, Rem, Pow2;
    var l, h := Val(p, w - 8), Val(Right(p, w - 8), 8);
    ValRight(p, w - 8, 8);
    ValBound(p, w - 8);
    ValSum(b, Right(p, w - 8), 8);
    LookupValues(h, l, Val(b, 8), w, poly);
    if w == 8 {
      ValNone(p);
      XorDefinition(Rem(Shl(Xor(Val(b, 8), h), w), w, poly), 0);
      ShlOfOne(8);
    } else {
      ValLeft(p, 8, w - 8);
      ValSum(t, Left(p, 8), w);
    }
  }

  lemma ValNone(p: word)
    ensures Val(p, 0) == 0
  {
  }

  lemma {:induction false} LookupValues(h: nat, l: nat, b: nat, w: nat, poly: nat)
    requires 8 <= w && poly < Pow2(w) && l < Pow2(w - 8)
    ensures Rem(Xor(Shl(l + Shl(h, w - 8), 8), Shl(b, w)), w, poly)
         == Xor(Rem(Shl(Xor(b, h), w), w, poly), Shl(l, 8))
  {
    hide Xor, Shl, Rem, Pow2;
    XorDisjoint(h, l, w - 8);
    XorShl(Shl(h, w - 8), l, 8);
    ShlTwice(h, w - 8, 8);
    XorCommutes(Xor(Shl(h, w), Shl(l, 8)), Shl(b, w));
    XorAssociates(Shl(b, w), Shl(h, w), Shl(l, 8));
    XorShl(b, h, w);
    RemSum(Shl(Xor(b, h), w), Shl(l, 8), w, poly);
    ShlBound(l, w - 8, 8);
    RemOfSmall(Shl(l, 8), w, poly);
  }

  // ---------------------------------------------------------------------
  // The class
  // ---------------------------------------------------------------------

  /** One byte of a message, in the low bits of a word. */
  type octet = b: word | b < 0x100 witness 0

  /** A CRC of polynomial x^width + polynomial; an empty table stands for none. */
  class MbedCrc {
    const polynomial: word
    const width: nat
    const initialValue: word
    const finalXor: word
    const reflectData: bool
    const reflectRemainder: bool
    const crcTable: seq<word>

    constructor (polynomial: word, width: nat, initialValue: word, finalXor: word,
                 reflectData: bool, reflectRemainder: bool, crcTable: seq<word>)
      ensures this.polynomial == polynomial && this.width == width
      ensures this.initialValue == initialValue && this.finalXor == finalXor
      ensures this.reflectData == reflectData && this.reflectRemainder == reflectRemainder
      ensures this.crcTable == crcTable
    {
      this.polynomial, this.width, this.crcTable := polynomial, width, crcTable;
      this.initialValue, this.finalXor := initialValue, finalXor;
      this.reflectData, this.reflectRemainder := reflectData, reflectRemainder;
    }

    /** Bits of the register that carry the remainder: a narrow register is used
        as it is bit by bit, and shifted to the top of a byte with a table. */
    ghost function RegBits(): nat {
      if width >= 8 then width else if crcTable == [] then 7 else 8
    }

    ghost function RegPoly(): nat {
      if width >= 8 || crcTable == [] then Val(polynomial, RegBits()) else 2 * Val(polynomial, 7)
    }

    function OutBits(): nat {
      if width < 8 then 8 else width
    }

    ghost predicate Valid() {
      && (width == 7 || 8 <= width <= 32)
      && (crcTable != [] ==> TableFor(crcTable, RegBits(), RegPoly()))
    }

    /** The bytes as the register sees them. */
    ghost function Fed(data: seq<octet>): seq<nat> {
      seq(|data|, i requires 0 <= i < |data| =>
        if reflectData then Mirror(Val(data[i], 8), 8) else Val(data[i], 8))
    }

    lemma PolyBound()
      requires Valid()
      ensures RegBits() > 0 && RegPoly() < Pow2(RegBits())
    {
      ValBound(polynomial, RegBits());
      ValBound(polynomial, 7);
    }

    method ReflectBytes(data: octet) returns (r: word)
      ensures Val(r, 8) == if reflectData then Mirror(Val(data, 8), 8) else Val(data, 8)
    {
      if reflectData {
        r := ReflectBits(data, 8);
      } else {
        r := data;
      }
    }

    method ReflectRemainder(data: word) returns (r: word)
      requires Valid()
      ensures Val(r, OutBits())
           == if reflectRemainder then Mirror(Val(data, OutBits()), OutBits()) else Val(data, OutBits())
    {
      if reflectRemainder {
        r := ReflectBits(data, OutBits());
      } else {
        r := data;
      }
    }

    method BitwiseNarrowByte(crc: word, b: word) returns (p: word)
      ensures Congruent(Val(p, 7), Xor(Shl(Val(crc, 7), 8), Shl(Val(b, 8), 7)), Generator(7, Val(polynomial, 7)))
    {
      hide Twice, Sum, And, Left, Val, Xor, Shl, Bit, Congruent;
      p := crc;
      var dataByte := b;
      ghost var total := Xor(Shl(Val(crc, 7), 8), Shl(Val(b, 8), 7));
      ghost var g := Generator(7, Val(polynomial, 7));
      CongruentRefl(total, g);
      NoShift(Val(b, 8));
      var bit := 8;
      while bit > 0
        invariant 0 <= bit <= 8
        invariant Val(dataByte, 8) == Shl(Val(b, bit), 8 - bit)
        invariant Congruent(Xor(Shl(Val(p, 7), bit), Shl(Val(b, bit), 7)), total, g)
      {
        ghost var before, k := p, 8 - bit;
        p := Twice(p);
        TestBit(Sum(dataByte, p), 7);
        var subtract := And(Sum(dataByte, p), Left(1, 7)) != 0;
        if subtract {
          p := Sum(p, polynomial);
        }
        NarrowStep(before, p, b, dataByte, polynomial, total, k, subtract);
        NextBit(b, dataByte, k);
        dataByte := And(Twice(dataByte), Ones(8));
        bit := bit - 1;
      }
      NothingLeft(Val(p, 7), b);
    }

    lemma NoShift(v: nat)
      ensures Shl(v, 0) == v
    {
    }

    lemma NothingLeft(v: nat, b: word)
      ensures Xor(Shl(v, 0), Shl(Val(b, 0), 7)) == v
    {
      ShlOfOne(7);
      assert Xor(v, 0) == v;
    }

    method BitwiseWideByte(crc: word, b: word) returns (p: word)
      requires 8 <= width <= 32
      ensures Congruent(Val(p, width), Shl(Xor(Val(crc, width), Shl(Val(b, 8), width - 8)), 8),
                        Generator(width, Val(polynomial, width)))
    {
      hide Twice, Sum, And, Left, Val, Xor, Shl, Bit, Congruent;
      p := Sum(crc, Left(b, width - 8));
      ghost var x := Val(p, width);
      ghost var g := Generator(width, Val(polynomial, width));
      ValLeft(b, width - 8, 8);
      ValSum(crc, Left(b, width - 8), width);
      NoShift(x);
      CongruentRefl(x, g);
      var bit := 8;
      while bit > 0
        invariant 0 <= bit <= 8
        invariant Congruent(Val(p, width), Shl(x, 8 - bit), g)
      {
        ghost var before := p;
        TestBit(p, width - 1);
        if And(p, Left(1, width - 1)) != 0 {
          p := Sum(Twice(p), polynomial);
        } else {
          p := Twice(p);
        }
        DoubleStep(before, p, width, polynomial, x, 8 - bit);
        bit := bit - 1;
      }
    }

    /** Bit by bit: the register becomes the remainder of the message so far. */
    method BitwiseComputePartial(data: seq<octet>, crc: word) returns (out: word)
      requires Valid() && crcTable == []
      ensures Val(out, 32) == Val(out, if width < 8 then 8 else width)
      ensures Val(out, RegBits()) == Register(Val(crc, RegBits()), Fed(data), RegBits(), RegPoly())
    {
      hide Val, Xor, Shl, Rem, Register, Congruent, Pow2, Mirror;
      var p := crc;
      ghost var init, fed := Val(crc, RegBits()), Fed(data);
      PolyBound();
      ValBound(crc, RegBits());
      RegisterOfNothing(init, RegBits(), RegPoly());
      assert fed[..0] == [];
      for i := 0 to |data|
        invariant Val(p, RegBits()) == Register(init, fed[..i], RegBits(), RegPoly())
      {
        var b := ReflectBytes(data[i]);
        ghost var v := Val(p, RegBits());
        assert fed[i] == Val(b, 8);
        assert fed[..i + 1] == fed[..i] + [fed[i]];
        if width < 8 {
          p := BitwiseNarrowByte(p, b);
          NarrowByteDone(v, Val(p, 7), init, fed[..i], Val(b, 8)) by {
            ValBound(p, 7);
          }
        } else {
          p := BitwiseWideByte(p, b);
          ValBound(p, width);
          ByteAtTop(v, Val(b, 8), Val(p, width), init, fed[..i], width, RegPoly());
        }
      }
      assert fed[..|data|] == fed;
      out := And(p, Ones(OutBits()));
      ValMasked(p, OutBits(), RegBits());
      ValMasked(p, OutBits(), OutBits());
      ValMasked(p, OutBits(), 32);
    }

    lemma NarrowByteDone(v: nat, r: nat, init: nat, fed: seq<nat>, b: nat)
      requires Valid() && width < 8 && crcTable == []
      requires v == Register(init, fed, 7, RegPoly()) && r < Pow2(7)
      requires Congruent(r, Xor(Shl(v, 8), Shl(b, 7)), Generator(7, RegPoly()))
      ensures r == Register(init, fed + [b], 7, RegPoly())
    {
      hide Xor, Shl, Rem, Register, Congruent, Pow2;
      PolyBound();
      RegisterStep(init, fed, b, 7, RegPoly());
      RemUnique(Xor(Shl(v, 8), Shl(b, 7)), 7, RegPoly(), r);
    }

    /** From the table: the same remainder. */
    method TableComputePartial(data: seq<octet>, crc: word) returns (out: word)
      requires Valid() && crcTable != []
      ensures Val(out, 32) == Val(out, if width < 8 then 8 else width)
      ensures Val(out, RegBits()) == Register(Val(crc, RegBits()), Fed(data), RegBits(), RegPoly())
    {
      hide Val, Xor, Shl, Rem, Register, Pow2, Mirror, Left, Right, Sum;
      var p := crc;
      ghost var init, fed, w := Val(crc, RegBits()), Fed(data), RegBits();
      PolyBound();
      ValBound(crc, w);
      RegisterOfNothing(init, w, RegPoly());
      assert fed[..0] == [];
      for i := 0 to |data|
        invariant Val(p, w) == Register(init, fed[..i], w, RegPoly())
      {
        var b := ReflectBytes(data[i]);
        assert fed[i] == Val(b, 8);
        assert fed[..i + 1] == fed[..i] + [fed[i]];
        ghost var before := p;
        var dataByte := Val(Sum(b, if width <= 8 then p else Right(p, width - 8)), 8);
        IndexBound(Sum(b, if width <= 8 then p else Right(p, width - 8)));
        var entry := crcTable[dataByte];
        if width <= 8 {
          p := entry;
        } else {
          p := Sum(entry, Left(p, 8));
        }
        RightNone(before);
        LookupStep(before, b, entry, p, w, RegPoly());
        RegisterStep(init, fed[..i], Val(b, 8), w, RegPoly());
      }
      assert fed[..|data|] == fed;
      out := And(p, Ones(OutBits()));
      ValMasked(p, OutBits(), RegBits());
      ValMasked(p, OutBits(), OutBits());
      ValMasked(p, OutBits(), 32);
    }

    lemma IndexBound(x: word)
      ensures Val(x, 8) < 256
    {
      ValBound(x, 8);
      assert Pow2(8) == 256;
    }

    lemma RightNone(x: word)
      ensures Right(x, 0) == x
    {
    }

    // The public interface. Every call returns status 0.

    method ComputePartialStart() returns (status: int, crc: word)
      ensures status == 0 && crc == initialValue
    {
      status, crc := 0, initialValue;
    }

    method ComputePartial(data: seq<octet>, crc: word) returns (status: int, out: word)
      requires Valid()
      ensures status == 0
      ensures Val(out, 32) == Val(out, if width < 8 then 8 else width)
      ensures Val(out, RegBits()) == Register(Val(crc, RegBits()), Fed(data), RegBits(), RegPoly())
    {
      hide Val, Register, Fed;
      status := 0;
      if crcTable != [] {
        out := TableComputePartial(data, crc);
      } else {
        out := BitwiseComputePartial(data, crc);
      }
    }

    /** What the last step makes of a register. */
    ghost function Finish(reg: nat): nat {
      var aligned := if width < 8 && crcTable == [] then 2 * reg else reg;
      Xor(if reflectRemainder then Mirror(aligned, OutBits()) else aligned, Val(finalXor, OutBits()))
    }

    method ComputePartialStop(crc: word) returns (status: int, out: word)
      requires Valid()
      ensures status == 0
      // The register, a narrow one shifted to the top of a byte, is reflected over
      // its own width, at least a byte, and the final value is added.
      ensures var n := if width < 8 then 8 else width;
              var reg := if width >= 8 then Val(crc, width)
                         else if crcTable == [] then 2 * Val(crc, 7) else Val(crc, 8);
              Val(out, 32) == Xor(if reflectRemainder then Mirror(reg, n) else reg, Val(finalXor, n))
    {
      hide Left, Val, Xor, Shl, Mirror, Sum, And;
      var p := crc;
      if width < 8 && crcTable == [] {
        p := Left(p, 8 - width);
        ValLeft(crc, 1, 7);
        ShlOnce(Val(crc, 7));
      }
      var r := ReflectRemainder(p);
      ValSum(r, finalXor, OutBits());
      ValMasked(Sum(r, finalXor), OutBits(), 32);
      status, out := 0, And(Sum(r, finalXor), Ones(OutBits()));
    }

    lemma ShlOnce(v: nat)
      ensures Shl(v, 1) == 2 * v
    {
      assert Shl(v, 0) == v;
    }

    /** The CRC of a whole message, as Compute writes it out. */
    ghost function Result(data: seq<octet>): nat {
      Finish(Register(Val(initialValue, RegBits()), Fed(data), RegBits(), RegPoly()))
    }

    method Compute(data: seq<octet>) returns (status: int, crc: word)
      requires Valid()
      ensures status == 0 && Val(crc, 32) == Result(data)
      // The whole answer: the remainder of the initial value and the bytes, shifted to
      // the top of a byte if narrow, reflected, and the final value added.
      ensures var fed := seq(|data|, i requires 0 <= i < |data| =>
                               if reflectData then Mirror(Val(data[i], 8), 8) else Val(data[i], 8));
              var n := if width < 8 then 8 else width;
              var reg :=
                if width >= 8 then Register(Val(initialValue, width), fed, width, Val(polynomial, width))
                else if crcTable != [] then Register(Val(initialValue, 8), fed, 8, 2 * Val(polynomial, 7))
                else 2 * Register(Val(initialValue, 7), fed, 7, Val(polynomial, 7));
              Val(crc, 32) == Xor(if reflectRemainder then Mirror(reg, n) else reg, Val(finalXor, n))
    {
      hide Val, Register, Mirror, Xor;
      assert Fed(data) == seq(|data|, i requires 0 <= i < |data| =>
                                if reflectData then Mirror(Val(data[i], 8), 8) else Val(data[i], 8));
      status, crc := ComputePartialStart();
      if status != 0 {
        return status, 0;
      }
      status, crc := ComputePartial(data, crc);
      if status != 0 {
        return status, 0;
      }
      status, crc := ComputePartialStop(crc);
      if status != 0 {
        return status, 0;
      }
    }

    /** The message in any number of parts, of any sizes, gives the same CRC. */
    method ComputeInParts(parts: seq<seq<octet>>) returns (crc: word)
      requires Valid()
      ensures Val(crc, 32) == Result(Concat(parts))
    {
      hide Val, Register, Mirror, Xor;
      var status;
      status, crc := ComputePartialStart();
      ghost var init, w, poly := Val(initialValue, RegBits()), RegBits(), RegPoly();
      PolyBound();
      ValBound(initialValue, w);
      RegisterOfNothing(init, w, poly);
      assert parts[..0] == [] && Fed([]) == [];
      for i := 0 to |parts|
        invariant Val(crc, w) == Register(init, Fed(Concat(parts[..i])), w, poly)
      {
        status, crc := ComputePartial(parts[i], crc);
        RegisterSplit(init, Fed(Concat(parts[..i])), Fed(parts[i]), w, poly);
        assert parts[..i + 1][..i] == parts[..i];
        assert Fed(Concat(parts[..i + 1])) == Fed(Concat(parts[..i])) + Fed(parts[i]);
      }
      assert parts[..|parts|] == parts;
      status, crc := ComputePartialStop(crc);
    }
  }

  function Concat<T>(parts: seq<seq<T>>): seq<T> {
    if parts == [] then [] else Concat(parts[..|parts| - 1]) + parts[|parts| - 1]
  }

  lemma {:induction false} ConcatAppend<T>(a: seq<seq<T>>, b: seq<seq<T>>)
    ensures Concat(a + b) == Concat(a) + Concat(b)
    decreases |b|
  {
    if b == [] {
      assert a + b == a;
    } else {
      var c := a + b;
      assert c[..|c| - 1] == a + b[..|b| - 1];
      ConcatAppend(a, b[..|b| - 1]);
    }
  }

  lemma ConcatOne<T>(part: seq<T>)
    ensures Concat([part]) == part
  {
  }

  // ---------------------------------------------------------------------
  // Table against bits
  // ---------------------------------------------------------------------

  /** Dividing twice the polynomial by twice the generator: the register of a
      table for width w - 1 is the narrow register shifted left by one. */
  lemma {:induction false} ScaledRem(d: nat, w: nat, poly: nat)
    requires w > 0 && poly < Pow2(w)
    ensures Rem(2 * d, w + 1, 2 * poly) == 2 * Rem(d, w, poly)
  {
    var r := Rem(d, w, poly);
    RemIsRemainder(d, w, poly);
    var g, g' := Generator(w, poly), Generator(w + 1, 2 * poly);
    hide Xor, Rem;
    var q: nat :| Xor(r, d) == Mul(q, g);
    XorDouble(r, d);
    MulRightDouble(q, g);
    assert g' == 2 * g;
    assert Xor(2 * r, 2 * d) == Mul(q, g');
    RemUnique(2 * d, w + 1, 2 * poly, 2 * r);
  }

  lemma {:induction false} ScaledRegister(init: nat, data: seq<nat>, w: nat, poly: nat)
    requires w > 0 && poly < Pow2(w)
    ensures Register(2 * init, data, w + 1, 2 * poly) == 2 * Register(init, data, w, poly)
  {
    hide Rem, Dividend;
    ScaledDividend(init, data, w);
    ScaledRem(Dividend(init, data, w), w, poly);
  }

  lemma {:induction false} ScaledDividend(init: nat, data: seq<nat>, w: nat)
    ensures Dividend(2 * init, data, w + 1) == 2 * Dividend(init, data, w)
  {
    TwiceShl(init, 8 * |data|);
    OneMoreShl(init, 8 * |data|);
    OneMoreShl(Message(data), w);
    hide Xor, Shl, Message;
    XorDouble(Shl(init, 8 * |data|), Shl(Message(data), w));
  }

  lemma OneMoreShl(v: nat, n: nat)
    ensures Shl(v, n + 1) == 2 * Shl(v, n)
  {
  }

  // ---------------------------------------------------------------------
  // What a CRC detects
  // ---------------------------------------------------------------------

  /** Multiplying by x never loses a non-zero register when the generator has a
      constant term. */
  lemma {:induction false} ShiftKeepsNonZero(r: nat, n: nat, w: nat, poly: nat)
    requires w > 0 && poly < Pow2(w) && poly % 2 == 1 && 0 < r < Pow2(w)
    ensures Rem(Shl(r, n), w, poly) != 0
  {
    if n == 0 {
      RemOfSmall(r, w, poly);
    } else {
      ShiftKeepsNonZero(r, n - 1, w, poly);
      hide Xor, Rem, Shl, Pow2;
      var p := Shl(r, n - 1);
      var q, g := Rem(p, w, poly), Generator(w, poly);
      RemIsRemainder(p, w, poly);
      DivisionStep(p, 0, w, poly, q);
      XorDefinition(2 * q, 0);
      RemUnique(2 * p, w, poly, if 2 * q >= Pow2(w) then Xor(2 * q, g) else 2 * q);
      NonZeroStep(q, w, poly);
      OneMoreShl(r, n - 1);
    }
  }

  lemma NonZeroStep(q: nat, w: nat, poly: nat)
    requires w > 0 && poly % 2 == 1 && 0 < q < Pow2(w)
    ensures (if 2 * q >= Pow2(w) then Xor(2 * q, Generator(w, poly)) else 2 * q) != 0
  {
    assert Pow2(w) == 2 * Pow2(w - 1);
    var g := Generator(w, poly);
    hide Xor, Pow2;
    XorBits(q, g / 2, 0, g % 2);
  }

  /** Two messages of one length that differ only within w consecutive bits never
      leave the same register. */
  lemma {:induction false} BurstsDetected(init: nat, a: seq<nat>, b: seq<nat>, burst: nat, k: nat, w: nat, poly: nat)
    requires w > 0 && poly < Pow2(w) && poly % 2 == 1 && |a| == |b|
    requires 0 < burst < Pow2(w) && Message(XorBytes(a, b)) == Shl(burst, k)
    ensures Register(init, a, w, poly) != Register(init, b, w, poly)
  {
    var e := XorBytes(a, b);
    RegisterLinear(init, init, a, b, w, poly);
    XorSelf(init);
    ShlOfOne(8 * |e|);
    assert Xor(0, Shl(Message(e), w)) == Shl(Message(e), w);
    ShlTwice(burst, k, w);
    ShiftKeepsNonZero(burst, k + w, w, poly);
    hide Xor, Rem, Shl, Message;
    XorZeroIff(Register(init, a, w, poly), Register(init, b, w, poly));
  }

  // ---------------------------------------------------------------------
  // The fast form against the simple form
  // ---------------------------------------------------------------------

  /** Two objects that differ only in having a table. */
  ghost predicate SameCrc(table: MbedCrc, bits: MbedCrc) {
    && table.Valid() && bits.Valid() && table.crcTable != [] && bits.crcTable == []
    && table.width == bits.width && table.polynomial == bits.polynomial
    && table.initialValue == bits.initialValue && table.finalXor == bits.finalXor
    && table.reflectData == bits.reflectData && table.reflectRemainder == bits.reflectRemainder
  }

  /** From width 8 the table gives the CRC of the simple form for every message. */
  lemma TableAgreesWithBits(table: MbedCrc, bits: MbedCrc, data: seq<octet>)
    requires SameCrc(table, bits) && bits.width >= 8
    ensures table.Result(data) == bits.Result(data)
  {
    assert table.Fed(data) == bits.Fed(data);
  }

  /** For width 7 the initial value is not shifted along with the register, so the
      two agree exactly for an initial value of zero, or when shifting the initial
      value changes it by the generator and the message is not empty. */
  lemma NarrowTableAgreesIff(table: MbedCrc, bits: MbedCrc, data: seq<octet>)
    requires SameCrc(table, bits) && bits.width == 7 && Val(bits.polynomial, 7) % 2 == 1
    ensures table.Result(data) == bits.Result(data) <==>
              || Val(bits.initialValue, 8) == 0
              || (data != [] &&
                  Xor(Val(bits.initialValue, 8), 2 * Val(bits.initialValue, 7)) == Generator(7, Val(bits.polynomial, 7)))
  {
    hide Val, Register, Mirror, Xor, TableFor, Pow2, MbedCrc.Fed;
    var poly, i8, i7 := Val(bits.polynomial, 7), Val(bits.initialValue, 8), Val(bits.initialValue, 7);
    var fed := bits.Fed(data);
    SameFed(table, bits, data);
    ValBound(bits.polynomial, 7);
    ValBound(bits.initialValue, 7);
    ValBound(bits.initialValue, 8);
    SevenAndEight();
    ScaledRegister(i7, fed, 7, poly);
    var t, b := Register(i8, fed, 8, 2 * poly), Register(2 * i7, fed, 8, 2 * poly);
    RegisterBound(i8, fed, 8, 2 * poly);
    RegisterBound(2 * i7, fed, 8, 2 * poly);
    FinishInjective(t, b, Val(bits.finalXor, 8), bits.reflectRemainder);
    InitialDifference(i8, 2 * i7, fed, poly);
    DoubledInitialValue(bits.initialValue);
  }

  lemma SameFed(table: MbedCrc, bits: MbedCrc, data: seq<octet>)
    requires table.reflectData == bits.reflectData
    ensures table.Fed(data) == bits.Fed(data) && |bits.Fed(data)| == |data|
  {
  }

  lemma SevenAndEight()
    ensures Pow2(8) == 2 * Pow2(7) && Pow2(7) == 128
  {
  }

  /** An 8-bit value is twice its low seven bits only when it is zero. */
  lemma DoubledInitialValue(x: word)
    ensures Xor(Val(x, 8), 2 * Val(x, 7)) == 0 <==> Val(x, 8) == 0
  {
    hide Val, Bit;
    XorZeroIff(Val(x, 8), 2 * Val(x, 7));
    ValTop(x, 7);
    ValBound(x, 7);
  }

  /** The last step loses nothing of an 8-bit register. */
  lemma FinishInjective(t: nat, b: nat, f: nat, reflect: bool)
    requires t < Pow2(8) && b < Pow2(8)
    ensures Xor(if reflect then Mirror(t, 8) else t, f) == Xor(if reflect then Mirror(b, 8) else b, f) <==> t == b
  {
    hide Xor, Mirror, Pow2;
    var t', b' := if reflect then Mirror(t, 8) else t, if reflect then Mirror(b, 8) else b;
    XorCommutes(t', f);
    XorCommutes(b', f);
    XorCancel(f, t');
    XorCancel(f, b');
    MirrorInvolution(t, 8);
    MirrorInvolution(b, 8);
  }

  /** Two initial values lead to one 8-bit register exactly when they are equal or,
      given a message, differ by the 7-bit generator. */
  lemma InitialDifference(u: nat, v: nat, fed: seq<nat>, poly: nat)
    requires u < Pow2(8) && v < Pow2(8) && poly < Pow2(7) && poly % 2 == 1
    ensures Register(u, fed, 8, 2 * poly) == Register(v, fed, 8, 2 * poly)
       <==> Xor(u, v) == 0 || (fed != [] && Xor(u, v) == Generator(7, poly))
  {
    hide Xor, Rem, Shl, Message, Pow2;
    SevenAndEight();
    var d, n, e := Xor(u, v), 8 * |fed|, XorBytes(fed, fed);
    XorBound(u, v, 8);
    RegisterLinear(u, v, fed, fed, 8, 2 * poly);
    XorZeroIff(Register(u, fed, 8, 2 * poly), Register(v, fed, 8, 2 * poly));
    MessageLinear(fed, fed);
    XorSelf(Message(fed));
    ShlOfOne(8);
    XorDefinition(Shl(d, n), 0);
    assert Register(d, e, 8, 2 * poly) == Rem(Shl(d, n), 8, 2 * poly);
    if fed == [] {
      NoShiftAtAll(d);
      RemOfSmall(d, 8, 2 * poly);
    } else {
      OneMoreShl(d, n - 1);
      ScaledRem(Shl(d, n - 1), 7, poly);
      ZeroOrGenerator(d, n - 1, poly);
    }
  }

  lemma NoShiftAtAll(d: nat)
    ensures Shl(d, 0) == d
  {
  }

  /** A multiple of x^m d vanishes modulo the generator only if d does. */
  lemma ZeroOrGenerator(d: nat, m: nat, poly: nat)
    requires d < Pow2(8) && poly < Pow2(7) && poly % 2 == 1
    ensures Rem(Shl(d, m), 7, poly) == 0 <==> d == 0 || d == Generator(7, poly)
  {
    SevenAndEight();
    hide Xor, Rem, Shl, Pow2;
    var g := Generator(7, poly);
    var r := if d >= Pow2(7) then Xor(d, g) else d;
    if d >= Pow2(7) {
      XorWithLeading(d - Pow2(7), poly, 7);
      XorZeroIff(d, g);
      CongruentReduce(d, g);
    } else {
      CongruentRefl(d, g);
    }
    RemUnique(d, 7, poly, r);
    RemOfShifted(d, 0, m, 7, poly);
    XorDefinition(Shl(d, m), 0);
    XorDefinition(Shl(r, m), 0);
    if r != 0 {
      ShiftKeepsNonZero(r, m, 7, poly);
    } else {
      ShlOfOne(m);
      RemOfSmall(0, 7, poly);
    }
  }
}
