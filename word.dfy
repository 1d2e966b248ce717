/**
 * C unsigned integer semantics on mathematical integers.
 *
 * The multiplier and the logarithmic multiplier are written against
 * uint8_t, uint16_t, uint32_t and uint64_t.  Here every such value is an
 * `int` in its range; additions, subtractions and shifts that can wrap in
 * C are written with an explicit reduction modulo 2^32, the (int32_t) cast
 * is the two's-complement view `Signed`, and the bitwise operators are
 * recursive functions on naturals together with the lemmas that turn a
 * mask, a single-bit test or a disjoint OR into ordinary arithmetic.
 */
module Word {

  type u8 = x: int | 0 <= x < 0x100
  type u16 = x: int | 0 <= x < 0x1_0000
  type u32 = x: int | 0 <= x < 0x1_0000_0000
  type u64 = x: int | 0 <= x < 0x1_0000_0000_0000_0000

  const Two32: int := 0x1_0000_0000

  function Pow2(n: nat): (r: nat)
    ensures r >= 1
  {
    if n == 0 then 1 else 2 * Pow2(n - 1)
  }

  /** uint32_t addition and subtraction: reduced modulo 2^32. */
  function Add(x: u32, y: u32): u32 { (x + y) % Two32 }
  function Sub(x: u32, y: u32): u32 { (x - y) % Two32 }

  /** `x << k` and `x >> k` on uint32_t, for a shift count below the width. */
  function Shl(x: u32, k: nat): u32
    requires k < 32
  {
    (x * Pow2(k)) % Two32
  }

  /** `x << k` on uint64_t. */
  function Shl64(x: u64, k: nat): u64
    requires k < 64
  {
    (x * Pow2(k)) % 0x1_0000_0000_0000_0000
  }

  function Shr(x: u32, k: nat): u32
    requires k < 32
  {
    DivAtMost(x, Pow2(k));
    x / Pow2(k)
  }

  /** The (int32_t) view of a uint32_t: two's complement. */
  function Signed(x: u32): int
  {
    if x < 0x8000_0000 then x else x - Two32
  }

  /** Bitwise AND, OR and XOR of naturals, one binary digit at a time. */
  function And(x: nat, y: nat): (r: nat)
    ensures r <= x && r <= y
  {
    if x == 0 || y == 0 then 0
    else 2 * And(x / 2, y / 2) + (if x % 2 == 1 && y % 2 == 1 then 1 else 0)
  }

  function Or(x: nat, y: nat): (r: nat)
    ensures x <= r <= x + y && y <= r
  {
    if x == 0 then y
    else if y == 0 then x
    else 2 * Or(x / 2, y / 2) + (if x % 2 == 1 || y % 2 == 1 then 1 else 0)
  }

  function Xor(x: nat, y: nat): (r: nat)
    ensures r <= x + y
  {
    if x == 0 then y
    else if y == 0 then x
    else 2 * Xor(x / 2, y / 2) + (if x % 2 != y % 2 then 1 else 0)
  }

  /** `~x` on uint32_t. */
  function Not(x: u32): (r: u32)
    ensures Xor(x, 0xFFFF_FFFF) == r
  {
    Pow2Table();
    XorAllOnes(x, 32);
    0xFFFF_FFFF - x
  }

  /** uint32_t version of OR (AND cannot leave the range). */
  function Or32(x: u32, y: u32): u32
  {
    Pow2Table();
    OrBound(x, y, 32);
    Or(x, y)
  }

  // ---------------------------------------------------------------------
  // Arithmetic facts about powers of two

  lemma {:induction false} Pow2Add(m: nat, n: nat)
    ensures Pow2(m + n) == Pow2(m) * Pow2(n)
  {
    if n > 0 {
      Pow2Add(m, n - 1);
      assert Pow2(m + n) == 2 * Pow2(m + n - 1);
    }
  }

  lemma {:induction false} Pow2Monotone(m: nat, n: nat)
    requires m <= n
    ensures Pow2(m) <= Pow2(n)
  {
    if m < n {
      Pow2Monotone(m, n - 1);
    }
  }

  lemma {:induction false} Pow2StrictMonotone(m: nat, n: nat)
    requires m < n
    ensures Pow2(m) < Pow2(n)
  {
    Pow2Monotone(m, n - 1);
  }

  /** The powers of two that the C constants are made of. */
  lemma Pow2Table()
    ensures Pow2(1) == 2 && Pow2(7) == 0x80 && Pow2(8) == 0x100 && Pow2(16) == 0x1_0000
    ensures Pow2(22) == 0x40_0000 && Pow2(23) == 0x80_0000 && Pow2(24) == 0x100_0000
    ensures Pow2(31) == 0x8000_0000 && Pow2(32) == 0x1_0000_0000
  {
    assert Pow2(7) == 0x80;
    assert Pow2(16) == 0x1_0000;
    assert Pow2(24) == 0x100_0000;
    assert Pow2(32) == 0x1_0000_0000;
  }

  lemma DivAtMost(x: nat, p: nat)
    requires p >= 1
    ensures 0 <= x / p <= x
  {
    var q := x / p;
    MulLe(1, p, q);
  }

  lemma MulAtLeast(a: int, d: int)
    requires a >= 1 && d > 0
    ensures a * d >= d
  {
  }

  /** Quotient and remainder are determined by the defining equation. */
  lemma DivModUnique(x: int, d: int, q: int, r: int)
    requires d > 0 && 0 <= r < d && x == q * d + r
    ensures x / d == q && x % d == r
  {
    var q', r' := x / d, x % d;
    if q' < q {
      MulAtLeast(q - q', d);
    } else if q' > q {
      MulAtLeast(q' - q, d);
    }
  }

  lemma DivMod(x: int, d: int)
    requires d > 0
    ensures x == (x / d) * d + x % d
  {
  }

  /** The position of the leading one: 2^Log2(n) <= n < 2^(Log2(n)+1). */
  function Log2(n: nat): (k: nat)
    requires n >= 1
    ensures Pow2(k) <= n < Pow2(k + 1)
  {
    if n == 1 then 0 else 1 + Log2(n / 2)
  }

  lemma Log2Unique(n: nat, k: nat)
    requires Pow2(k) <= n < Pow2(k + 1)
    ensures Log2(n) == k
  {
    var l := Log2(n);
    if l < k {
      Pow2Monotone(l + 1, k);
    } else if l > k {
      Pow2Monotone(k + 1, l);
    }
  }

  lemma Log2Below(n: nat, k: nat)
    requires 1 <= n < Pow2(k)
    ensures Log2(n) < k
  {
    if Log2(n) >= k {
      Pow2Monotone(k, Log2(n));
    }
  }

  /** Halving: x % 2p and x / 2p in terms of x / 2. */
  lemma DivModHalf(x: nat, p: nat)
    requires p >= 1
    ensures x % (2 * p) == 2 * ((x / 2) % p) + x % 2
    ensures x / (2 * p) == (x / 2) / p
  {
    var q1, r1 := x / 2, x % 2;
    var q2, r2 := q1 / p, q1 % p;
    assert x == q2 * (2 * p) + (2 * r2 + r1);
    DivModUnique(x, 2 * p, q2, 2 * r2 + r1);
  }

  /** Multiplying by d and dividing again gives the number back. */
  lemma ShiftedDiv(x: nat, y: nat, d: nat)
    requires d > 0 && y < d
    ensures (x * d + y) / d == x && (x * d + y) % d == y
  {
    DivModUnique(x * d + y, d, x, y);
  }

  /** One more doubling of a multiple of a power of two. */
  lemma Pow2Double(m: nat, k: nat)
    ensures m * Pow2(k + 1) == 2 * (m * Pow2(k))
  {
    var p := Pow2(k);
    assert Pow2(k + 1) == 2 * p;
    assert m * (2 * p) == 2 * (m * p);
  }

  lemma MulDistrib(h: int, p: int, l: int, w: int)
    ensures (h * p + l) * w == h * (p * w) + l * w
  {
  }

  lemma MulAssoc(x: int, y: int, z: int)
    ensures (x * y) * z == x * (y * z)
  {
  }

  lemma MulSucc(q: int, p: int)
    ensures (q + 1) * p == q * p + p
  {
  }

  /** uint32_t additions that stay below 2^32 are exact. */
  lemma AddExact(x: u32, y: u32, z: u32)
    requires x + y + z < Two32
    ensures Add(x, y) == x + y && Add(Add(x, y), z) == x + y + z
  {
  }

  lemma MulRegroup(x: int, p: int, y: int, q: int)
    ensures (x * p) * (y * q) == (x * y) * (p * q)
  {
  }

  lemma MulByPow2Bit(n: int, p: int, d: nat)
    requires d <= 1
    ensures n * (p * Pow2(d)) == if d == 1 then 2 * (n * p) else n * p
  {
    assert Pow2(1) == 2;
  }

  lemma MulRegroup3(x: int, p: int, y: int, q: int, c: int)
    ensures (x * p) * ((y * q) * c) == (x * y) * ((p * q) * c)
  {
    MulRegroup(x, p, y, q);
  }

  /** Reducing modulo 2^32 ignores added multiples of 2^32. */
  lemma ModPeriodic(v: int, c: int)
    ensures (v + c * Two32) % Two32 == v % Two32
  {
    DivModUnique(v + c * Two32, Two32, v / Two32 + c, v % Two32);
  }

  /** Two wrapping subtractions are one. */
  lemma SubSub(x: u32, a: u32, b: u32)
    requires a + b < Two32
    ensures Sub(Sub(x, a), b) == Sub(x, a + b)
  {
    ModPeriodic(x - a - b, -((x - a) / Two32));
  }

  /** Wrapping addition is signed addition while the signed sum stays in range. */
  lemma SignedAdd(x: u32, y: u32)
    requires -0x8000_0000 <= Signed(x) + Signed(y) < 0x8000_0000
    ensures Signed(Add(x, y)) == Signed(x) + Signed(y)
  {
    var s := Signed(x) + Signed(y);
    var c := (x + y - s) / Two32;
    assert x + y == s + c * Two32;
    ModPeriodic(s, c);
    if s < 0 {
      ModPeriodic(s, 1);
      DivModUnique(s + Two32, Two32, 0, s + Two32);
    } else {
      DivModUnique(s, Two32, 0, s);
    }
  }

  lemma SignedSub(x: u32, y: u32)
    requires -0x8000_0000 <= Signed(x) - Signed(y) < 0x8000_0000
    ensures Signed(Sub(x, y)) == Signed(x) - Signed(y)
  {
    var s := Signed(x) - Signed(y);
    var c := (x - y - s) / Two32;
    assert x - y == s + c * Two32;
    ModPeriodic(s, c);
    if s < 0 {
      ModPeriodic(s, 1);
      DivModUnique(s + Two32, Two32, 0, s + Two32);
    } else {
      DivModUnique(s, Two32, 0, s);
    }
  }

  /**
   * The low k bits and the bits from k up, defined one binary digit at a
   * time so that the bit lemmas below need no reasoning about division by
   * a symbolic power of two; LowHigh connects them to % and /.
   */
  function Low(x: nat, k: nat): nat
  {
    if k == 0 then 0 else 2 * Low(x / 2, k - 1) + x % 2
  }

  function High(x: nat, k: nat): nat
  {
    if k == 0 then x else High(x / 2, k - 1)
  }

  lemma {:induction false} LowHigh(x: nat, k: nat)
    ensures Low(x, k) == x % Pow2(k) && High(x, k) == x / Pow2(k)
    ensures x == High(x, k) * Pow2(k) + Low(x, k)
  {
    if k == 0 {
      assert Pow2(k) == 1;
    } else {
      var p: int := Pow2(k - 1);
      var d: int := Pow2(k);
      assert d == 2 * p;
      LowHigh(x / 2, k - 1);
      assert Low(x, k) == x % d by {
        LowStep(x, k);
        DivModHalf(x, p);
      }
      assert High(x, k) == x / d by {
        assert High(x, k) == High(x / 2, k - 1);
        DivModHalf(x, p);
      }
      DivMod(x, d);
    }
  }

  /** One binary digit of Low, as a lemma so that a proof can name the unfolding it needs. */
  lemma LowStep(x: nat, k: nat)
    requires k > 0
    ensures Low(x, k) == 2 * Low(x / 2, k - 1) + x % 2
  {
  }

  /** x split at bit k, without mentioning division. */
  lemma HighLowSplit(x: nat, k: nat)
    ensures x == High(x, k) * Pow2(k) + Low(x, k)
  {
    LowHigh(x, k);
  }

  /** Multiplication by a natural keeps an order between naturals. */
  lemma MulLe(a: nat, b: nat, c: nat)
    requires a <= b
    ensures a * c <= b * c
  {
  }

  lemma MulLt(a: nat, b: nat, c: nat)
    requires a < b && c > 0
    ensures a * c < b * c
  {
  }

  /** A number written as h * 2^s + l with l below 2^s has high part h and low part l. */
  lemma {:induction false} HighLowOf(h: nat, l: nat, s: nat)
    requires l < Pow2(s)
    ensures High(h * Pow2(s) + l, s) == h && Low(h * Pow2(s) + l, s) == l
  {
    LowHigh(h * Pow2(s) + l, s);
    DivModUnique(h * Pow2(s) + l, Pow2(s), h, l);
  }

  lemma {:induction false} HighBounds(n: nat, j: nat, s: nat)
    requires Pow2(j) <= n < Pow2(j + 1) && s <= j
    ensures Pow2(j - s) <= High(n, s) < Pow2(j + 1 - s)
  {
    if s > 0 {
      var p := Pow2(j - 1);
      assert Pow2(j) == 2 * p && Pow2(j + 1) == 4 * p;
      assert p <= n / 2 < 2 * p;
      HighBounds(n / 2, j - 1, s - 1);
    }
  }

  lemma {:induction false} HighOfSmall(n: nat, s: nat)
    requires n < Pow2(s)
    ensures High(n, s) == 0 && Low(n, s) == n
  {
    HighLowOf(0, n, s);
  }

  lemma {:induction false} LowBound(n: nat, s: nat)
    ensures Low(n, s) < Pow2(s)
  {
    if s > 0 {
      LowBound(n / 2, s - 1);
    }
  }

  /** Dropping a + b low bits is dropping a bits and then b bits. */
  lemma HighHigh(n: nat, a: nat, b: nat)
    ensures High(n, a + b) == High(High(n, a), b)
    ensures Low(n, a + b) == Low(n, a) + Pow2(a) * Low(High(n, a), b)
  {
    HighOfHigh(n, a, b);
    LowOfHigh(n, a, b);
  }

  lemma {:induction false} HighOfHigh(n: nat, a: nat, b: nat)
    ensures High(n, a + b) == High(High(n, a), b)
  {
    if a > 0 {
      HighOfHigh(n / 2, a - 1, b);
    }
  }

  lemma {:induction false} LowOfHigh(n: nat, a: nat, b: nat)
    ensures Low(n, a + b) == Low(n, a) + Pow2(a) * Low(High(n, a), b)
  {
    if a > 0 {
      var h, r := n / 2, n % 2;
      var p: int := Pow2(a - 1);
      var x: int := Low(High(n, a), b);
      var c: int := Low(h, a - 1);
      assert Low(h, a - 1 + b) == c + p * x by {
        LowOfHigh(h, a - 1, b);
        assert High(n, a) == High(h, a - 1);
      }
      assert Low(n, a + b) == 2 * (c + p * x) + r by {
        LowStep(n, a + b);
      }
      assert Low(n, a) == 2 * c + r by {
        LowStep(n, a);
      }
      assert Pow2(a) * x == 2 * (p * x) by {
        assert Pow2(a) == 2 * p;
      }
    } else {
      assert Pow2(a) == 1 && Low(n, a) == 0 && High(n, a) == n;
    }
  }

  /** Shifting left by k and then dropping s + k bits is dropping s bits. */
  lemma {:induction false} HighOfShifted(n: nat, k: nat, s: nat)
    ensures High(n * Pow2(k), s + k) == High(n, s)
    ensures Low(n * Pow2(k), s + k) == Low(n, s) * Pow2(k)
  {
    if k > 0 {
      var p: int := Pow2(k - 1);
      var m: nat := n * p;
      assert n * Pow2(k) == 2 * m by {
        Pow2Double(n, k - 1);
      }
      assert (2 * m) / 2 == m && (2 * m) % 2 == 0;
      HighOfShifted(n, k - 1, s);
      assert High(2 * m, s + k) == High(m, s + k - 1);
      assert Low(2 * m, s + k) == 2 * Low(m, s + k - 1) by {
        LowStep(2 * m, s + k);
      }
      assert Low(n, s) * Pow2(k) == 2 * (Low(n, s) * p) by {
        Pow2Double(Low(n, s), k - 1);
      }
    }
  }

  // ---------------------------------------------------------------------
  // Bitwise operators in arithmetic terms

  lemma {:induction false} AndLowMask(x: nat, k: nat)
    ensures And(x, Pow2(k) - 1) == Low(x, k)
  {
    if k > 0 && x > 0 {
      var p := Pow2(k - 1);
      var m := 2 * p - 1;
      assert m % 2 == 1 && m / 2 == p - 1;
      AndLowMask(x / 2, k - 1);
      assert Pow2(k) == 2 * p;
    } else if k == 0 {
      assert Pow2(k) == 1;
    } else {
      assert Low(x, k) == 0 by { LowOfZero(k); }
    }
  }

  lemma {:induction false} LowOfZero(k: nat)
    ensures Low(0, k) == 0 && High(0, k) == 0
  {
    if k > 0 {
      LowOfZero(k - 1);
    }
  }

  lemma {:induction false} AndHighMask(x: nat, n: nat, k: nat)
    requires k <= n
    ensures Pow2(k) <= Pow2(n)
    ensures And(x, Pow2(n) - Pow2(k)) == Low(x, n) - Low(x, k)
  {
    Pow2Monotone(k, n);
    if k == 0 {
      AndLowMask(x, n);
      assert Pow2(k) == 1;
    } else if x == 0 {
      LowOfZero(n);
      LowOfZero(k);
    } else {
      var p, q := Pow2(n - 1), Pow2(k - 1);
      var m := 2 * p - 2 * q;
      assert m % 2 == 0 && m / 2 == p - q;
      AndHighMask(x / 2, n - 1, k - 1);
      assert Pow2(n) == 2 * p && Pow2(k) == 2 * q;
    }
  }

  lemma {:induction false} AndPow2(x: nat, k: nat)
    ensures And(x, Pow2(k)) == if High(x, k) % 2 == 1 then Pow2(k) else 0
  {
    if k == 0 {
      assert Pow2(k) == 1;
    } else if x == 0 {
      LowOfZero(k);
    } else {
      var p := Pow2(k - 1);
      assert (2 * p) % 2 == 0 && (2 * p) / 2 == p;
      AndPow2(x / 2, k - 1);
      assert Pow2(k) == 2 * p;
    }
  }

  lemma {:induction false} OrPow2(x: nat, k: nat)
    ensures Or(x, Pow2(k)) == if High(x, k) % 2 == 1 then x else x + Pow2(k)
  {
    if k == 0 {
      assert Pow2(k) == 1;
    } else if x == 0 {
      LowOfZero(k);
    } else {
      var p := Pow2(k - 1);
      assert (2 * p) % 2 == 0 && (2 * p) / 2 == p;
      OrPow2(x / 2, k - 1);
      assert Pow2(k) == 2 * p;
    }
  }

  lemma {:induction false} XorPow2(x: nat, k: nat)
    ensures Xor(x, Pow2(k)) == if High(x, k) % 2 == 1 then x - Pow2(k) else x + Pow2(k)
  {
    if k == 0 {
      assert Pow2(k) == 1;
    } else if x == 0 {
      LowOfZero(k);
    } else {
      var p := Pow2(k - 1);
      assert (2 * p) % 2 == 0 && (2 * p) / 2 == p;
      XorPow2(x / 2, k - 1);
      assert Pow2(k) == 2 * p;
    }
  }

  /** OR of a value whose low k bits are clear with a value below 2^k is their sum. */
  lemma {:induction false} OrDisjoint(x: nat, y: nat, k: nat)
    requires Low(x, k) == 0 && y < Pow2(k)
    ensures Or(x, y) == x + y
  {
    if k > 0 && x > 0 && y > 0 {
      var p := Pow2(k - 1);
      assert Pow2(k) == 2 * p;
      OrDisjoint(x / 2, y / 2, k - 1);
    } else if k == 0 {
      assert Pow2(k) == 1;
    }
  }

  lemma {:induction false} OrBound(x: nat, y: nat, n: nat)
    requires x < Pow2(n) && y < Pow2(n)
    ensures Or(x, y) < Pow2(n)
  {
    if x > 0 && y > 0 {
      var p := Pow2(n - 1);
      assert Pow2(n) == 2 * p;
      OrBound(x / 2, y / 2, n - 1);
    }
  }

  lemma {:induction false} XorHigh(x: nat, y: nat, k: nat)
    ensures High(Xor(x, y), k) % 2 == 1 <==> (High(x, k) % 2 == 1) != (High(y, k) % 2 == 1)
  {
    if k == 0 {
    } else if x > 0 && y > 0 {
      XorHigh(x / 2, y / 2, k - 1);
      assert Xor(x, y) / 2 == Xor(x / 2, y / 2);
    } else {
      LowOfZero(k);
    }
  }

  lemma {:induction false} XorAllOnes(x: nat, n: nat)
    requires x < Pow2(n)
    ensures Xor(x, Pow2(n) - 1) == Pow2(n) - 1 - x
  {
    if n > 0 && x > 0 {
      var p: int := Pow2(n - 1);
      var m: nat := Pow2(n) - 1;
      assert m > 0 && m % 2 == 1 && m / 2 == p - 1 by {
        assert Pow2(n) == 2 * p;
      }
      XorAllOnes(x / 2, n - 1);
      XorStep(x, m);
    }
  }

  /** One binary digit of Xor. */
  lemma XorStep(x: nat, y: nat)
    requires x > 0 && y > 0
    ensures Xor(x, y) == 2 * Xor(x / 2, y / 2) + (if x % 2 != y % 2 then 1 else 0)
  {
  }
}
