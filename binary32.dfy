/**
 * The IEEE 754-2019 binary32 format and its multiplication, stated
 * independently of any implementation: the encoding of section 3.4, NaN
 * quieting (section 6.2), the invalid operation 0 x infinity (section 7.2),
 * roundTiesToEven (section 4.3.1), overflow (section 7.4) and gradual
 * underflow (section 7.5).
 *
 * A finite nonzero operand denotes Significand(x) * 2^Exponent(x); the
 * product of two of them is an exact integer times a power of two, and
 * RoundToBinary32 picks the encoding of the nearest representable value.
 *
 * Where the standard leaves a choice open (which quiet NaN 0 x infinity
 * delivers, whether a NaN operand's payload and sign survive, which of two
 * NaN operands is returned) this module fixes the choice x86 SSE hardware
 * makes: the "real indefinite" 0xffc00000, and the first NaN operand with
 * its payload and sign kept. Another conforming implementation (ARM's
 * default NaN is 0x7fc00000, for instance) may differ on NaN results only.
 */
module Binary32 {
  import opened Word

  const PosInfinity: u32 := 0x7f80_0000
  /**
   * The quiet NaN x86 SSE delivers for an invalid operation (its "real
   * indefinite"); section 7.2 asks only for some quiet NaN.
   */
  const Indefinite: u32 := 0xffc0_0000

  // ---------------------------------------------------------------------
  // Fields and classes of an encoding

  function Sign(x: u32): nat { x / 0x8000_0000 }
  function BiasedExponent(x: u32): nat { (x / 0x80_0000) % 0x100 }
  function TrailingSignificand(x: u32): nat { x % 0x80_0000 }
  /** The encoding with the sign bit cleared. */
  function Magnitude(x: u32): nat { x % 0x8000_0000 }

  predicate IsNaN(x: u32) { BiasedExponent(x) == 255 && TrailingSignificand(x) != 0 }
  predicate IsInfinite(x: u32) { BiasedExponent(x) == 255 && TrailingSignificand(x) == 0 }
  predicate IsZero(x: u32) { BiasedExponent(x) == 0 && TrailingSignificand(x) == 0 }
  predicate IsSubnormal(x: u32) { BiasedExponent(x) == 0 && TrailingSignificand(x) != 0 }
  predicate IsNormal(x: u32) { 1 <= BiasedExponent(x) <= 254 }
  predicate IsFinite(x: u32) { BiasedExponent(x) < 255 }
  /** A quiet NaN has the most significant trailing-significand bit set (section 6.2.1). */
  predicate IsQuietNaN(x: u32) { IsNaN(x) && TrailingSignificand(x) >= 0x40_0000 }

  /** The same NaN with its quiet bit set. */
  function Quiet(x: u32): u32
  {
    if TrailingSignificand(x) >= 0x40_0000 then x else x + 0x40_0000
  }

  /** A finite encoding denotes Significand(x) * 2^Exponent(x). */
  function Significand(x: u32): nat
    requires IsFinite(x)
  {
    if BiasedExponent(x) == 0 then TrailingSignificand(x) else TrailingSignificand(x) + 0x80_0000
  }

  function Exponent(x: u32): int
    requires IsFinite(x)
  {
    if BiasedExponent(x) == 0 then -149 else BiasedExponent(x) - 150
  }

  /** Every encoding is its sign, biased exponent and trailing significand side by side. */
  lemma Fields(x: u32)
    ensures x == Sign(x) * 0x8000_0000 + BiasedExponent(x) * 0x80_0000 + TrailingSignificand(x)
    ensures Magnitude(x) == BiasedExponent(x) * 0x80_0000 + TrailingSignificand(x)
    ensures Sign(x) <= 1
  {
  }

  // ---------------------------------------------------------------------
  // Rounding

  /** n / 2^s rounded to an integer, to nearest with ties to even (section 4.3.1). */
  function RoundShift(n: nat, s: nat): nat
  {
    if s == 0 then n
    else
      var q, rem, half := High(n, s), Low(n, s), Pow2(s - 1);
      if rem > half || (rem == half && q % 2 == 1) then q + 1 else q
  }

  /**
   * The unsigned encoding of sig * 2^q, where q is at least the exponent of
   * the least significant subnormal bit and sig has at most 24 bits (or is
   * exactly 2^24 after a carry); at or beyond 2^128 this is infinity.
   */
  function Encode(sig: nat, q: int): (r: u32)
    requires q >= -149 && sig <= 0x100_0000
    requires sig >= 0x80_0000 || q == -149
    ensures r <= PosInfinity
  {
    var (s, e) := if sig == 0x100_0000 then (0x80_0000, q + 1) else (sig, q);
    if e + 150 >= 255 then PosInfinity
    else if s < 0x80_0000 then s
    else (e + 150) * 0x80_0000 + (s - 0x80_0000)
  }

  /** The exponent of the last significand bit of the result for the value n * 2^e. */
  function Quantum(n: nat, e: int): int
    requires n >= 1
  {
    if Log2(n) + e - 23 < -149 then -149 else Log2(n) + e - 23
  }

  /** The significand of the rounded value n * 2^e, in units of 2^Quantum(n, e). */
  function RoundedSignificand(n: nat, e: int): nat
    requires n >= 1
  {
    var q := Quantum(n, e);
    if q >= e then RoundShift(n, q - e) else n * Pow2(e - q)
  }

  /** The encoding, without sign, of n * 2^e rounded to binary32. */
  function RoundToBinary32(n: nat, e: int): (r: u32)
    requires n >= 1
    ensures r <= PosInfinity
  {
    RoundedSignificandRange(n, e);
    Encode(RoundedSignificand(n, e), Quantum(n, e))
  }

  lemma RoundedSignificandRange(n: nat, e: int)
    requires n >= 1
    ensures RoundedSignificand(n, e) <= 0x100_0000
    ensures RoundedSignificand(n, e) >= 0x80_0000 || Quantum(n, e) == -149
  {
    var l, q := Log2(n), Quantum(n, e);
    if q >= e {
      RoundedDownRange(n, l, q - e);
    } else {
      ScaledUpRange(n, l, e - q);
    }
  }

  /** Rounding away s >= Log2(n) - 23 bits leaves at most 24 bits, exactly 24 when s is that bound. */
  lemma RoundedDownRange(n: nat, l: nat, s: nat)
    requires Pow2(l) <= n < Pow2(l + 1) && l <= s + 23
    ensures RoundShift(n, s) <= 0x100_0000
    ensures l == s + 23 ==> RoundShift(n, s) >= 0x80_0000
  {
    Pow2Table();
    if s <= l {
      HighBounds(n, l, s);
      Pow2Monotone(l + 1 - s, 24);
      if l == s + 23 {
        assert l - s == 23;
      }
    } else if s > 0 {
      Pow2Monotone(l + 1, s);
      HighOfSmall(n, s);
      Pow2Monotone(0, 24);
    }
  }

  /** Scaling n up by k bits to reach 24 bits, or fewer at the subnormal bound. */
  lemma ScaledUpRange(n: nat, l: nat, k: nat)
    requires Pow2(l) <= n < Pow2(l + 1) && l + k <= 23
    ensures n * Pow2(k) < 0x100_0000
    ensures l + k == 23 ==> n * Pow2(k) >= 0x80_0000
  {
    Pow2Table();
    MulLe(Pow2(l), n, Pow2(k));
    MulLt(n, Pow2(l + 1), Pow2(k));
    Pow2Add(l, k);
    Pow2Add(l + 1, k);
    Pow2Monotone(l + 1 + k, 24);
  }

  /**
   * RoundShift(n, s) * 2^s is a multiple of 2^s nearest to n, and on a tie
   * the even multiple is chosen.
   */
  lemma RoundShiftNearest(n: nat, s: nat)
    requires s >= 1
    ensures RoundShift(n, s) * Pow2(s) <= n + Pow2(s - 1)
    ensures n <= RoundShift(n, s) * Pow2(s) + Pow2(s - 1)
    ensures RoundShift(n, s) * Pow2(s) == n + Pow2(s - 1) ==> RoundShift(n, s) % 2 == 0
    ensures n == RoundShift(n, s) * Pow2(s) + Pow2(s - 1) ==> RoundShift(n, s) % 2 == 0
  {
    var q, rem, h, p := High(n, s), Low(n, s), Pow2(s - 1), Pow2(s);
    HighLowSplit(n, s);
    LowBound(n, s);
    assert p == 2 * h;
    var r := RoundShift(n, s);
    assert r == q || r == q + 1;
    MulSucc(q, p);
  }

  /** Encode stores exactly the value sig * 2^q whenever it does not overflow. */
  lemma EncodeDenotes(sig: nat, q: int)
    requires q >= -149 && sig <= 0x100_0000
    requires sig >= 0x80_0000 || q == -149
    ensures var r := Encode(sig, q);
      r != PosInfinity ==>
        IsFinite(r) && Sign(r) == 0 &&
        if sig == 0x100_0000 then Significand(r) == 0x80_0000 && Exponent(r) == q + 1
        else Significand(r) == sig && Exponent(r) == q
    ensures Encode(sig, q) == PosInfinity <==> (if sig == 0x100_0000 then q + 1 else q) + 150 >= 255
  {
    var r := Encode(sig, q);
    if r != PosInfinity {
      var (s, e) := if sig == 0x100_0000 then (0x80_0000, q + 1) else (sig, q);
      if s >= 0x80_0000 {
        var f := e + 150;
        assert r == f * 0x80_0000 + (s - 0x80_0000);
        DivModUnique(r, 0x80_0000, f, s - 0x80_0000);
        assert BiasedExponent(r) == f;
      } else {
        assert r == s && BiasedExponent(r) == 0;
      }
    }
  }

  /** Shifting both the value and the rounding position by k bits changes nothing. */
  lemma {:induction false} RoundShiftScaled(n: nat, s: nat, k: nat)
    ensures RoundShift(n * Pow2(k), s + k) == RoundShift(n, s)
  {
    HighOfShifted(n, k, s);
    if s >= 1 {
      var h := Pow2(s - 1);
      Pow2Add(s - 1, k);
      assert Pow2(s + k - 1) == h * Pow2(k);
      var rem := Low(n, s);
      if rem > h {
        MulLt(h, rem, Pow2(k));
      } else if rem < h {
        MulLt(rem, h, Pow2(k));
      }
    } else if k >= 1 {
      assert High(n * Pow2(k), k) == High(n, 0) == n;
      assert Low(n * Pow2(k), k) == Low(n, 0) * Pow2(k) == 0;
    }
  }

  lemma {:induction false} Log2Scaled(n: nat, k: nat)
    requires n >= 1
    ensures n * Pow2(k) >= 1 && Log2(n * Pow2(k)) == Log2(n) + k
  {
    var l, p := Log2(n), Pow2(k);
    var m := n * p;
    MulLe(Pow2(l), n, p);
    MulLt(n, Pow2(l + 1), p);
    Pow2Add(l, k);
    Pow2Add(l + 1, k);
    assert Pow2(l + k) <= m < Pow2(l + k + 1);
    Log2Unique(m, l + k);
  }

  /**
   * Rounding depends only on the value n * 2^e, not on how it is split:
   * carrying k extra zero bits in the integer part yields the same encoding.
   */
  lemma {:induction false} RoundScaled(n: nat, e: int, k: nat)
    requires n >= 1
    ensures n * Pow2(k) >= 1
    ensures RoundToBinary32(n * Pow2(k), e - k) == RoundToBinary32(n, e)
  {
    Log2Scaled(n, k);
    var m := n * Pow2(k);
    var q := Quantum(n, e);
    assert Quantum(m, e - k) == q;
    RoundedSignificandScaled(n, e, k, q);
  }

  lemma {:induction false} RoundedSignificandScaled(n: nat, e: int, k: nat, q: int)
    ensures (if q >= e - k then RoundShift(n * Pow2(k), q - (e - k)) else n * Pow2(k) * Pow2(e - k - q))
         == (if q >= e then RoundShift(n, q - e) else n * Pow2(e - q))
  {
    if q >= e {
      RoundShiftScaled(n, q - e, k);
    } else if q >= e - k {
      var a, b := e - q, q - (e - k);
      var pa: int, pb: int := Pow2(a), Pow2(b);
      assert n * Pow2(k) == (n * pa) * pb by {
        Pow2Add(a, b);
        MulAssoc(n, pa, pb);
      }
      RoundShiftScaled(n * pa, 0, b);
    } else {
      var c := e - k - q;
      var pk: int, pc: int := Pow2(k), Pow2(c);
      assert (n * pk) * pc == n * Pow2(e - q) by {
        Pow2Add(k, c);
        MulAssoc(n, pk, pc);
      }
    }
  }

  /** A value below half the smallest subnormal, 2^-150, rounds to zero. */
  lemma RoundTiny(n: nat, e: int)
    requires n >= 1 && Log2(n) + e <= -151
    ensures RoundToBinary32(n, e) == 0
  {
    var l := Log2(n);
    var s := -149 - e;
    assert Quantum(n, e) == -149 && s >= l + 2;
    Pow2Monotone(l + 1, s - 1);
    var h := Pow2(s - 1);
    assert Pow2(s) == 2 * h;
    HighOfSmall(n, s);
    assert RoundShift(n, s) == 0;
  }

  // ---------------------------------------------------------------------
  // Multiplication

  /**
   * The product of two non-NaN encodings: 0 x infinity is invalid and gives
   * the default NaN, otherwise the sign is the XOR of the operand signs and
   * the magnitude is infinite, zero or the rounded exact product.
   */
  function Multiply(a: u32, b: u32): u32
    requires !IsNaN(a) && !IsNaN(b)
  {
    var sign := if Sign(a) == Sign(b) then 0 else 0x8000_0000;
    if (IsZero(a) && IsInfinite(b)) || (IsInfinite(a) && IsZero(b)) then Indefinite
    else if IsInfinite(a) || IsInfinite(b) then sign + PosInfinity
    else if IsZero(a) || IsZero(b) then sign
    else sign + RoundToBinary32(Significand(a) * Significand(b), Exponent(a) + Exponent(b))
  }

  /** On non-NaN operands the product is symmetric. */
  lemma MultiplyCommutes(a: u32, b: u32)
    requires !IsNaN(a) && !IsNaN(b)
    ensures Multiply(a, b) == Multiply(b, a)
  {
    if IsFinite(a) && IsFinite(b) {
      assert Significand(a) * Significand(b) == Significand(b) * Significand(a);
    }
  }

  /**
   * Except for the invalid 0 x infinity, the sign of a product is the
   * exclusive or of the operand signs, also for zero and infinite results.
   */
  lemma MultiplySign(a: u32, b: u32)
    requires !IsNaN(a) && !IsNaN(b)
    requires !(IsZero(a) && IsInfinite(b)) && !(IsInfinite(a) && IsZero(b))
    ensures Sign(Multiply(a, b)) == if Sign(a) == Sign(b) then 0 else 1
    ensures Magnitude(Multiply(a, b)) <= PosInfinity
  {
  }

  /** Quieting a NaN keeps its sign and payload and makes it a quiet NaN. */
  lemma QuietKeepsPayload(x: u32)
    requires IsNaN(x)
    ensures IsQuietNaN(Quiet(x)) && Sign(Quiet(x)) == Sign(x)
    ensures TrailingSignificand(Quiet(x)) % 0x40_0000 == TrailingSignificand(x) % 0x40_0000
    ensures IsQuietNaN(x) ==> Quiet(x) == x
  {
    Fields(x);
  }

  /**
   * The product the multiplier delivers: the IEEE product, with a NaN operand
   * returned quietened; when both are NaN the first one is chosen, as x86
   * SSE hardware does.
   */
  function Product(a: u32, b: u32): u32
  {
    if IsNaN(a) then Quiet(a)
    else if IsNaN(b) then Quiet(b)
    else Multiply(a, b)
  }

  /**
   * The results x86 SSE can deliver for a * b, whichever NaN operand it
   * returns: the product (with the indefinite NaN for 0 x infinity) when no
   * operand is NaN, otherwise one of the NaN operands quietened with its
   * payload and sign kept. Section 6.2.3 only recommends keeping the
   * payload, so this is narrower than everything the standard allows.
   */
  predicate Permitted(a: u32, b: u32, r: u32)
  {
    if IsNaN(a) || IsNaN(b) then (IsNaN(a) && r == Quiet(a)) || (IsNaN(b) && r == Quiet(b))
    else r == Multiply(a, b)
  }

  /** Product makes one of the x86 SSE choices, and the only one unless both operands are NaN. */
  lemma ProductPermitted(a: u32, b: u32, r: u32)
    ensures Permitted(a, b, Product(a, b))
    ensures Permitted(a, b, r) && !(IsNaN(a) && IsNaN(b)) ==> r == Product(a, b)
  {
  }
}
