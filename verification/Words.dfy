/** Powers of two and the modular arithmetic of fixed-width unsigned integers. */
module Words {
  function Pow2(n: nat): (p: nat)
    ensures p > 0
  {
    if n == 0 then 1 else 2 * Pow2(n - 1)
  }

  const U32_RANGE: nat := 0x1_0000_0000
  const U64_RANGE: nat := 0x1_0000_0000_0000_0000

  /** The value stored when x is assigned to a uint32_t. */
  function U32(x: int): nat { x % U32_RANGE }

  /** The value stored when x is assigned to a uint64_t. */
  function U64(x: int): nat { x % U64_RANGE }

  lemma FitsU32(x: int)
    requires 0 <= x < U32_RANGE
    ensures U32(x) == x
  {
  }

  lemma FitsU64(x: int)
    requires 0 <= x < U64_RANGE
    ensures U64(x) == x
  {
  }

  lemma {:induction false} Pow2Add(a: nat, b: nat)
    ensures Pow2(a + b) == Pow2(a) * Pow2(b)
  {
    if a > 0 {
      Pow2Add(a - 1, b);
    }
  }

  lemma {:induction false} Pow2Monotonic(a: nat, b: nat)
    requires a <= b
    ensures Pow2(a) <= Pow2(b)
  {
    if a < b {
      Pow2Monotonic(a, b - 1);
    }
  }

  lemma Pow2Of32()
    ensures Pow2(32) == U32_RANGE
  {
    assert Pow2(8) == 0x100;
    Pow2Add(8, 8);
    Pow2Add(16, 16);
  }

  /** Division with remainder is unique. */
  lemma DivModUnique(n: int, d: int, q: int, r: int)
    requires 0 <= r < d && n == q * d + r
    ensures n / d == q && n % d == r
  {
    var q', r' := n / d, n % d;
    assert (q - q') * d == r' - r;
    if q - q' >= 1 {
      MulAtLeast(q - q', d);
    }
    if q' - q >= 1 {
      MulAtLeast(q' - q, d);
    }
  }

  lemma QuotientTimesDivisor(n: nat, d: nat)
    requires d > 0
    ensures 0 <= n / d * d <= n < n / d * d + d
  {
  }

  lemma MulAtLeast(x: int, d: int)
    requires x >= 1 && d >= 0
    ensures x * d >= d
  {
    assert x * d == (x - 1) * d + d;
    assert (x - 1) * d >= 0;
  }

  /** Reducing modulo a multiple of m first changes nothing modulo m. */
  lemma ModOfMod(x: int, m: nat, k: nat)
    requires m > 0 && k > 0
    ensures m * k > 0
    ensures (x % (m * k)) % m == x % m
  {
    assert m * k > 0;
    var q, r := x / (m * k), x % (m * k);
    DivModUnique(r, m, r / m, r % m);
    assert x == (k * q + r / m) * m + r % m by {
      assert x == (m * k) * q + r;
      assert (m * k) * q == (k * q) * m;
      assert (k * q + r / m) * m == (k * q) * m + (r / m) * m;
    }
    DivModUnique(x, m, k * q + r / m, r % m);
  }

  /** A uint32_t masked to its low bits keeps the value modulo 2^bits. */
  lemma MaskedU32(x: int, bits: nat)
    requires bits <= 32
    ensures U32(x) % Pow2(bits) == x % Pow2(bits)
  {
    Pow2Add(bits, 32 - bits);
    Pow2Of32();
    ModOfMod(x, Pow2(bits), Pow2(32 - bits));
  }

  /** The difference of two counts is recovered from their residues
      when it is less than the modulus. */
  lemma ResidueDifference(now: int, last: int, m: nat)
    requires 0 <= now - last < m
    ensures (now % m - last % m) % m == now - last
  {
    var a, b := now / m, last / m;
    var e := now % m - last % m;
    assert e == (b - a) * m + (now - last) by {
      assert now == a * m + now % m;
      assert last == b * m + last % m;
      assert (b - a) * m == b * m - a * m;
    }
    DivModUnique(e, m, b - a, now - last);
  }

  lemma SameResidue(now: int, last: int, m: nat)
    requires 0 <= now - last < m && now % m == last % m
    ensures now == last
  {
    ResidueDifference(now, last, m);
    DivModUnique(0, m, 0, 0);
  }

  lemma SameResidueAfterPeriods(x: int, q: int, m: nat)
    requires m > 0
    ensures (x - m * q) % m == x % m
  {
    assert x - m * q == (x / m - q) * m + x % m by {
      assert x == (x / m) * m + x % m;
      assert (x / m - q) * m == (x / m) * m - m * q;
    }
    DivModUnique(x - m * q, m, x / m - q, x % m);
  }

  /** Adding to a residue is adding to the count. */
  lemma ResidueSum(x: int, d: int, m: nat)
    requires m > 0
    ensures (x % m + d) % m == (x + d) % m
  {
    var s := x % m + d;
    var q := s / m;
    assert x + d == (x / m + q) * m + s % m by {
      assert x == (x / m) * m + x % m;
      assert s == q * m + s % m;
      assert (x / m + q) * m == (x / m) * m + q * m;
    }
    DivModUnique(x + d, m, x / m + q, s % m);
  }
}
