/**
 * The bit-exact binary32 multiplier fp32_mul_core of Exact_mult_stackoverflow.c
 * and the ISNAN/QNAN macros and acceptance rule of its differential harness.
 *
 * Every C uint32_t is a u32 and every operator is the Word function with
 * the same wrap-around; an (int32_t) cast is Signed. The multiplier is
 * proved to deliver Binary32.Product on every pair of encodings.
 */
module ExactMult {
  import opened Word
  import opened Binary32

  // The constants of the C source, with the expression each one abbreviates.

  const FloatMantBits: nat := 23
  const FloatExpoBits: nat := 8
  const FloatExpoBias: u32 := 127
  /** ~((~0u) << (FLOAT_MANT_BITS+1)): the significand including its integer bit. */
  const FloatMantMask: u32 := 0xFF_FFFF
  const ExpoAdjust: u32 := 1
  const MinNormExpo: u32 := 1
  const MaxNormExpo: u32 := 254
  const InfExpo: u32 := 255
  /** ~((~0u) << FLOAT_EXPO_BITS) */
  const ExpoMask: u32 := 0xFF
  const FloatSignMask: u32 := 0x8000_0000
  /** 1 << FLOAT_MANT_BITS */
  const FloatImplicitBit: u32 := 0x80_0000
  const RndBitShift: nat := 31
  /** 1u << RND_BIT_SHIFT */
  const RndBitMask: u32 := 0x8000_0000
  const FloatInfinity: u32 := 0x7f80_0000
  const FloatIndefinite: u32 := 0xffc0_0000
  const MantLsb: u32 := 1
  const FloatQnanBit: u32 := 0x40_0000
  /** FLOAT_MANT_BITS + 2 */
  const MaxShift: u32 := 25

  /** The literal constants are the values of the C expressions that define them. */
  lemma MaskDefinitions()
    ensures Not(Shl(Not(0), FloatMantBits + 1)) == FloatMantMask
    ensures Not(Shl(Not(0), FloatExpoBits)) == ExpoMask
    ensures Shl(1, FloatMantBits) == FloatImplicitBit
    ensures Shl(1, RndBitShift) == RndBitMask
    ensures Not(FloatSignMask) == 0x7FFF_FFFF
  {
    Pow2Table();
  }

  // ---------------------------------------------------------------------
  // Reading the fields of an operand with masks and shifts

  /** The mask-and-shift expressions of lines 33-36 and 63 pick out the IEEE fields. */
  lemma {:induction false} FieldsByMasks(x: u32)
    ensures And(Shr(x, FloatMantBits), ExpoMask) == BiasedExponent(x)
    ensures And(Or(x, FloatImplicitBit), FloatMantMask) == TrailingSignificand(x) + 0x80_0000
    ensures BiasedExponent(x) == 0 ==> And(x, FloatMantMask) == TrailingSignificand(x)
    ensures And(x, Not(FloatSignMask)) == Magnitude(x)
  {
    Pow2Table();
    AndLowMask(x / 0x80_0000, 8);
    LowHigh(x / 0x80_0000, 8);
    AndLowMask(x, 31);
    LowHigh(x, 31);
    AndLowMask(x, 24);
    LowHigh(x, 24);
    var hb, fr := x / 0x80_0000, x % 0x80_0000;
    assert x == hb * 0x80_0000 + fr;
    DivModUnique(x, 0x100_0000, hb / 2, (hb % 2) * 0x80_0000 + fr);
    OrPow2(x, 23);
    LowHigh(x, 23);
    var y := Or(x, FloatImplicitBit);
    AndLowMask(y, 24);
    LowHigh(y, 24);
    if hb % 2 == 0 {
      assert y == (hb + 1) * 0x80_0000 + fr;
      DivModUnique(y, 0x100_0000, hb / 2, 0x80_0000 + fr);
    }
  }

  /**
   * The tests of lines 39-69 on the split fields classify an operand: the
   * unsigned test expo >= 253 catches zeros and subnormals (whose expo wraps
   * to 0xffffffff) as well as the two largest exponents, the signed test
   * expo < 0 catches exactly zeros and subnormals, and the magnitude
   * comparisons single out NaN, zero and infinity.
   */
  lemma {:induction false} OperandByMasks(x: u32)
    ensures var expo := Sub(And(Shr(x, FloatMantBits), ExpoMask), ExpoAdjust);
      (expo >= MaxNormExpo - ExpoAdjust <==> BiasedExponent(x) == 0 || BiasedExponent(x) >= 254) &&
      (Signed(expo) < (MinNormExpo - ExpoAdjust) as int <==> BiasedExponent(x) == 0) &&
      (expo == InfExpo - ExpoAdjust <==> BiasedExponent(x) == 255) &&
      (IsNormal(x) ==> expo == Sub(BiasedExponent(x), ExpoAdjust)) &&
      (BiasedExponent(x) == 0 ==> expo == Sub(0, ExpoAdjust) && Add(expo, 1) == 0)
    ensures var mag := And(x, Not(FloatSignMask));
      (mag > FloatInfinity <==> IsNaN(x)) && (mag == 0 <==> IsZero(x)) &&
      (mag == FloatInfinity <==> IsInfinite(x))
    ensures And(Or(x, FloatImplicitBit), FloatMantMask) == TrailingSignificand(x) + 0x80_0000
    ensures BiasedExponent(x) == 0 ==> And(x, FloatMantMask) == TrailingSignificand(x)
  {
    var be := BiasedExponent(x);
    if be == 0 {
      assert Sub(be, ExpoAdjust) == 0xFFFF_FFFF;
    } else {
      assert Sub(be, ExpoAdjust) == be - 1;
    }
    FieldsByMasks(x);
    Fields(x);
  }

  /** The sign of the result, (a ^ b) & FLOAT_SIGN_MASK, is 2^31 exactly when the operand signs differ. */
  lemma {:induction false} SignByMasks(a: u32, b: u32)
    ensures And(Xor(a, b), FloatSignMask) == if Sign(a) == Sign(b) then 0 else 0x8000_0000
  {
    Pow2Table();
    AndPow2(Xor(a, b), 31);
    XorHigh(a, b, 31);
    LowHigh(a, 31);
    LowHigh(b, 31);
  }

  /** The sign bit and the magnitude of a result never overlap, so OR adds them. */
  lemma {:induction false} SignOr(signr: u32, m: u32)
    requires signr == 0 || signr == 0x8000_0000
    requires m < 0x8000_0000
    ensures Or(signr, m) == signr + m
  {
    assert Pow2(31) == 0x8000_0000 by {
      Pow2Table();
    }
    assert Low(signr, 31) == 0 by {
      LowHigh(signr, 31);
    }
    OrDisjoint(signr, m, 31);
  }

  // ---------------------------------------------------------------------
  // The NaN macros and the acceptance rule of the harness

  /** ISNAN: the encoding shifted left by one (dropping the sign) exceeds 0xff000000. */
  predicate IsNanMacro(x: u32)
  {
    Shl(x, 1) > 0xff00_0000
  }

  /** QNAN: the encoding with the quiet bit set. */
  function QuietMacro(x: u32): u32
  {
    Or32(x, FloatQnanBit)
  }

  /** The macros agree with the IEEE classification and quieting. */
  lemma {:induction false} NanMacros(x: u32)
    ensures IsNanMacro(x) <==> IsNaN(x)
    ensures QuietMacro(x) == Quiet(x)
  {
    Pow2Table();
    Fields(x);
    assert Shl(x, 1) == 2 * Magnitude(x);
    OrPow2(x, 22);
    LowHigh(x, 22);
    var q := x / 0x40_0000;
    assert x == q * 0x40_0000 + x % 0x40_0000;
    DivModUnique(x, 0x80_0000, q / 2, (q % 2) * 0x40_0000 + x % 0x40_0000);
  }

  /**
   * A result res is accepted against the hardware result ref when the bit
   * patterns agree or, if both operands are NaN, when res is either operand
   * quietened.
   */
  predicate Accepted(a: u32, b: u32, res: u32, ref: u32)
  {
    res == ref ||
    (IsNanMacro(a) && IsNanMacro(b) && (QuietMacro(a) == res || QuietMacro(b) == res))
  }

  /** The acceptance rule in IEEE terms. */
  lemma AcceptedMeaning(a: u32, b: u32, res: u32, ref: u32)
    ensures Accepted(a, b, res, ref) <==>
      res == ref || (IsNaN(a) && IsNaN(b) && (res == Quiet(a) || res == Quiet(b)))
  {
    NanMacros(a);
    NanMacros(b);
  }

  /**
   * The rule accepts Product(a, b) against every reference an x86 SSE
   * multiply can deliver (Permitted), and against nothing else unless both
   * operands are NaN, in which case it accepts whatever the reference is. A
   * reference with another NaN encoding for 0 x infinity, such as
   * 0x7fc00000, is not Permitted and is rejected.
   */
  lemma AcceptedExactly(a: u32, b: u32, ref: u32)
    ensures Permitted(a, b, ref) ==> Accepted(a, b, Product(a, b), ref)
    ensures !(IsNaN(a) && IsNaN(b)) ==> (Accepted(a, b, Product(a, b), ref) <==> Permitted(a, b, ref))
    ensures IsNaN(a) && IsNaN(b) ==> Accepted(a, b, Product(a, b), ref)
  {
    AcceptedMeaning(a, b, Product(a, b), ref);
    ProductPermitted(a, b, ref);
  }

  /**
   * The rule assumes x86 NaN encodings: a reference that returns the quiet
   * NaN 0x7fc00000 for 0 x infinity (ARM's default NaN, which IEEE 754
   * allows as well) is rejected.
   */
  lemma RejectsOtherDefaultNaN()
    ensures Product(0, PosInfinity) == Indefinite
    ensures !Accepted(0, PosInfinity, Product(0, PosInfinity), 0x7fc0_0000)
  {
    AcceptedMeaning(0, PosInfinity, Product(0, PosInfinity), 0x7fc0_0000);
  }

  // ---------------------------------------------------------------------
  // Rounding increment

  /**
   * The increment of lines 96 and 110: the low word is what was shifted out,
   * its top bit the rounding bit and the rest the sticky bits.
   */
  function RoundIncrement(hi: u32, lo: u32): (inc: u32)
    ensures inc <= 1
    ensures inc == 1 <==> lo > RndBitMask || (lo == RndBitMask && hi % 2 == 1)
  {
    Pow2Table();
    AndLowMask(hi, 1);
    LowHigh(hi, 1);
    if lo == RndBitMask then And(hi, MantLsb) else Shr(lo, RndBitShift)
  }

  /** The increment completes the truncated significand hi to hi:lo rounded to nearest even. */
  lemma {:induction false} RoundIncrementIsRoundShift(hi: u32, lo: u32)
    ensures hi + RoundIncrement(hi, lo) == RoundShift(hi * Two32 + lo, 32)
  {
    Pow2Table();
    HighLowOf(hi, lo, 32);
  }

  // ---------------------------------------------------------------------
  // Stage 1: renormalizing a subnormal significand (lines 65-68 and 73-76)

  /** The number of doublings that bring a nonzero subnormal significand m into [2^23, 2^24). */
  function Doublings(m: nat): (k: nat)
    requires 1 <= m < 0x80_0000
    ensures 1 <= k <= 23
    ensures 0x80_0000 <= m * Pow2(k) < 0x100_0000
  {
    Pow2Table();
    Log2Below(m, 23);
    Log2Scaled(m, 23 - Log2(m));
    23 - Log2(m)
  }

  /**
   * The do-while loop doubles the significand and decrements the exponent
   * until the integer bit is reached, Doublings(m0) times, so the value
   * mant * 2^expo is kept and mant ends in [2^23, 2^24).
   */
  method Renormalize(m0: u32, e0: u32) returns (mant: u32, expo: u32)
    requires 1 <= m0 < FloatImplicitBit
    ensures FloatImplicitBit <= mant < 0x100_0000
    ensures mant == m0 * Pow2(Doublings(m0))
    ensures expo == Sub(e0, Doublings(m0))
  {
    Pow2Table();
    Log2Below(m0, 23);
    var l := Log2(m0);
    mant, expo := m0, e0;
    ghost var k: nat := 0;
    // do { ... } while (mant < FLOAT_IMPLICIT_BIT): the first pass is unconditional
    ShiftedDiv(0, 2 * m0, Two32);
    mant := (2 * mant) % Two32;
    expo := Sub(expo, 1);
    k := 1;
    while mant < FloatImplicitBit
      invariant 1 <= k <= 23 - l
      invariant mant == m0 * Pow2(k)
      invariant expo == Sub(e0, k)
      decreases 23 - l - k
    {
      Log2Scaled(m0, k);
      Log2Below(mant, 23);
      Pow2Double(m0, k);
      ShiftedDiv(0, 2 * mant, Two32);
      mant := (2 * mant) % Two32;
      SubSub(e0, k, 1);
      expo := Sub(expo, 1);
      k := k + 1;
    }
    assert k == 23 - l && mant < 0x100_0000 by {
      Log2Scaled(m0, k);
      if k < 23 - l {
        Pow2Monotone(l + k + 1, 23);
      }
    }
  }

  // ---------------------------------------------------------------------
  // Stage 2: normalizing the double-width product (lines 84-91)

  /**
   * The 64-bit product of two significands in [2^23, 2^24), pre-shifted by
   * 8, lies in [2^54, 2^56); at most one left shift of the pair hi:lo brings
   * the integer bit of hi to position 23, and the exponent pays for it.
   */
  method NormalizeProduct(prod: u64, expor: u32) returns (hi: u32, lo: u32, e: u32)
    requires 0x40_0000_0000_0000 <= prod < 0x100_0000_0000_0000
    ensures FloatImplicitBit <= hi < 0x100_0000
    ensures hi * Two32 + lo == if prod < 0x80_0000_0000_0000 then 2 * prod else prod
    ensures e == if prod < 0x80_0000_0000_0000 then Sub(expor, 1) else expor
  {
    Pow2Table();
    hi := (prod / Two32) % Two32;
    lo := prod % Two32;
    e := expor;
    assert prod == hi * Two32 + lo;
    if hi < FloatImplicitBit {
      var top := Shr(lo, 31);
      assert Shl(hi, 1) == 2 * hi;
      HighOfShifted(hi, 1, 0);
      OrDisjoint(2 * hi, top, 1);
      assert lo == top * 0x8000_0000 + lo % 0x8000_0000;
      DivModUnique(2 * lo, Two32, top, 2 * (lo % 0x8000_0000));
      hi := Or32(Shl(hi, 1), Shr(lo, RndBitShift));
      lo := Shl(lo, 1);
      e := Sub(e, 1);
    }
  }

  // ---------------------------------------------------------------------
  // Stage 3: rounding and packing (lines 92-111)

  /** A normalized pair hi:lo is a 56-bit number. */
  lemma {:induction false} PairLog2(hi: u32, lo: u32)
    requires FloatImplicitBit <= hi < 0x100_0000
    ensures hi * Two32 + lo >= 1 && Log2(hi * Two32 + lo) == 55
  {
    Pow2Table();
    Pow2Add(23, 32);
    Pow2Add(24, 32);
    MulLe(Pow2(23), hi, Two32);
    MulLe(hi + 1, Pow2(24), Two32);
    Log2Unique(hi * Two32 + lo, 55);
  }

  /**
   * In the normal range the code adds the exponent field expor * 2^23 to the
   * significand with its integer bit and then the rounding increment; a carry
   * out of the significand moves into the exponent and, from the largest
   * exponent, yields exactly the infinity encoding.
   */
  lemma {:induction false} NormalRange(hi: u32, lo: u32, ex: int)
    requires FloatImplicitBit <= hi < 0x100_0000 && 0 <= ex <= 253
    ensures ex * 0x80_0000 + hi + RoundIncrement(hi, lo) == RoundToBinary32(hi * Two32 + lo, ex - 181)
  {
    Pow2Table();
    PairLog2(hi, lo);
    var n := hi * Two32 + lo;
    assert Quantum(n, ex - 181) == ex - 149;
    RoundIncrementIsRoundShift(hi, lo);
    assert RoundedSignificand(n, ex - 181) == hi + RoundIncrement(hi, lo);
  }

  /** Shifting a normal-range exponent into place does not wrap. */
  lemma ExponentField(expor: u32)
    requires expor <= 253
    ensures Shl(expor, FloatMantBits) == expor * 0x80_0000
  {
    Pow2Table();
  }

  /** A biased result exponent above 253 is beyond the largest finite value. */
  lemma {:induction false} OverflowRange(hi: u32, lo: u32, ex: int)
    requires FloatImplicitBit <= hi < 0x100_0000 && ex >= 254
    ensures RoundToBinary32(hi * Two32 + lo, ex - 181) == PosInfinity
  {
    PairLog2(hi, lo);
    var n := hi * Two32 + lo;
    assert Quantum(n, ex - 181) == ex - 149;
  }

  /**
   * Below the normal range the significand is rounded at the fixed position
   * of the least subnormal bit, 32 - ex bits below hi:lo, and the result is at
   * most the smallest normal, whose encoding is its significand.
   */
  lemma {:induction false} UnderflowRange(hi: u32, lo: u32, ex: int)
    requires FloatImplicitBit <= hi < 0x100_0000 && ex < 0
    ensures RoundShift(hi * Two32 + lo, 32 - ex) <= 0x80_0000
    ensures RoundToBinary32(hi * Two32 + lo, ex - 181) == RoundShift(hi * Two32 + lo, 32 - ex)
  {
    var n: nat, s: nat := hi * Two32 + lo, 32 - ex;
    assert n >= 1 && Log2(n) == 55 by {
      PairLog2(hi, lo);
    }
    SubnormalShift(n, s);
    assert Quantum(n, ex - 181) == -149;
    assert RoundedSignificand(n, ex - 181) == RoundShift(n, s);
  }

  /** Shifting a 56-bit significand right by more than 32 leaves at most 2^23. */
  lemma {:induction false} SubnormalShift(n: nat, s: nat)
    requires n >= 1 && Log2(n) == 55 && s > 32
    ensures RoundShift(n, s) <= 0x80_0000
  {
    assert Pow2(55) <= n < Pow2(56);
    assert Pow2(23) == 0x80_0000 by {
      Pow2Table();
    }
    if s <= 55 {
      HighBounds(n, 55, s);
      Pow2Monotone(56 - s, 23);
    } else {
      Pow2Monotone(56, s);
      HighOfSmall(n, s);
    }
  }

  /**
   * Clamping the right shift to MAX_SHIFT = 25 loses nothing: from 25 bits on
   * the whole significand lies below half the least subnormal and rounds to 0.
   */
  lemma {:induction false} UnderflowRounding(hi: u32, lo: u32, ex: int, t: nat)
    requires FloatImplicitBit <= hi < 0x100_0000 && ex < 0
    requires t == if -ex > 25 then 25 else -ex
    ensures RoundShift(hi * Two32 + lo, 32 + t) == RoundShift(hi * Two32 + lo, 32 - ex)
  {
    if -ex > 25 {
      var n: nat := hi * Two32 + lo;
      assert n < Pow2(56) && Pow2(56) <= Pow2(31 - ex) by {
        PairLog2(hi, lo);
        Pow2Monotone(56, 31 - ex);
      }
      RoundShiftOfSmall(n, 32 - ex);
      RoundShiftOfSmall(n, 57);
      assert RoundShift(n, 32 + t) == RoundShift(n, 32 - ex);
    } else {
      assert 32 + t == 32 - ex;
    }
  }

  /** Rounding away at least 2^(s-1) more than the number holds gives zero. */
  lemma {:induction false} RoundShiftOfSmall(n: nat, s: nat)
    requires 1 <= s && n < Pow2(s - 1)
    ensures RoundShift(n, s) == 0
  {
    var h := Pow2(s - 1);
    assert Pow2(s) == 2 * h;
    HighOfSmall(n, s);
  }

  /**
   * The denormalization of lines 105-106: the t bits shifted out of hi go to
   * the top of the new low word and any nonzero bit of the old low word
   * becomes a sticky 1 below them, which is all ties-to-even needs to round
   * hi:lo at 32 + t bits.
   */
  lemma {:induction false} StickyRound(hi: u32, lo: u32, t: nat)
    requires 1 <= t <= 25
    ensures var st := if lo != 0 then 1 else 0;
      Shr(hi, t) + RoundIncrement(Shr(hi, t), Or32(Shl(hi, 32 - t), st)) == RoundShift(hi * Two32 + lo, 32 + t)
  {
    var n := hi * Two32 + lo;
    var st := if lo != 0 then 1 else 0;
    StickyHigh(hi, lo, t);
    StickyTie(hi, lo, t);
    RoundByParts(n, 32 + t, Shr(hi, t), Low(n, 32 + t), Pow2(31 + t), Or32(Shl(hi, 32 - t), st));
  }

  /** Above bit 32 + t, hi:lo holds the shifted hi; below it, lo under the t bits shifted out. */
  lemma StickyHigh(hi: u32, lo: u32, t: nat)
    requires 1 <= t <= 25
    ensures High(hi * Two32 + lo, 32 + t) == Shr(hi, t)
    ensures Low(hi * Two32 + lo, 32 + t) == lo + Two32 * Low(hi, t)
  {
    DenormalizeByShifts(hi, t, 0);
    Pow2Table();
    HighLowOf(hi, lo, 32);
    HighHigh(hi * Two32 + lo, 32, t);
  }

  /** The sticky low word compares with 2^31 as the discarded bits of hi:lo compare with one half. */
  lemma StickyTie(hi: u32, lo: u32, t: nat)
    requires 1 <= t <= 25
    ensures var x, rem := Or32(Shl(hi, 32 - t), if lo != 0 then 1 else 0), lo + Two32 * Low(hi, t);
      (x > RndBitMask <==> rem > Pow2(31 + t)) && (x == RndBitMask <==> rem == Pow2(31 + t))
  {
    var st := if lo != 0 then 1 else 0;
    var L, u, w := Low(hi, t), Pow2(t - 1), Pow2(32 - t);
    assert Or32(Shl(hi, 32 - t), st) == L * w + st by {
      DenormalizeByShifts(hi, t, st);
    }
    assert Pow2(31 + t) == Two32 * u by {
      Pow2Table();
      Pow2Add(32, t - 1);
    }
    assert u * w == 0x8000_0000 by {
      Pow2Table();
      Pow2Add(t - 1, 32 - t);
    }
    assert L < 2 * u by {
      LowBound(hi, t);
    }
    assert w >= 2 by {
      Pow2Table();
      Pow2Monotone(1, 32 - t);
    }
    TieCompare(L, u, w, lo, st);
  }

  /** RoundIncrement rounds a value whose discarded part compares with one half as x does with 2^31. */
  lemma RoundByParts(n: nat, s: nat, q: u32, rem: nat, half: nat, x: u32)
    requires s >= 1 && High(n, s) == q && Low(n, s) == rem && Pow2(s - 1) == half
    requires (x > RndBitMask <==> rem > half) && (x == RndBitMask <==> rem == half)
    ensures q + RoundIncrement(q, x) == RoundShift(n, s)
  {
  }

  /** Comparing the denormalized low word with 2^31 compares the discarded bits with one half. */
  lemma TieCompare(L: nat, u: nat, w: nat, lo: nat, st: nat)
    requires L < 2 * u && w >= 2 && u * w == 0x8000_0000 && lo < Two32
    requires st == if lo != 0 then 1 else 0
    ensures L * w + st > u * w <==> lo + Two32 * L > Two32 * u
    ensures L * w + st == u * w <==> lo + Two32 * L == Two32 * u
  {
    if L > u {
      MulLe(u + 1, L, w);
      MulLe(u + 1, L, Two32);
      MulDistrib(u, 1, 1, w);
      MulDistrib(u, 1, 1, Two32);
    } else if L < u {
      MulLe(L + 1, u, w);
      MulLe(L + 1, u, Two32);
      MulDistrib(L, 1, 1, w);
      MulDistrib(L, 1, 1, Two32);
    }
  }

  /** The shifts of lines 105-106 compute the quantities StickyRound speaks of. */
  lemma {:induction false} DenormalizeByShifts(hi: u32, t: nat, st: nat)
    requires 1 <= t <= 25 && st <= 1
    ensures Shl(hi, 32 - t) == Low(hi, t) * Pow2(32 - t)
    ensures Low(hi, t) * Pow2(32 - t) + st < Two32
    ensures Or(Shl(hi, 32 - t), st) == Low(hi, t) * Pow2(32 - t) + st
    ensures Shr(hi, t) == High(hi, t)
  {
    var L, w := Low(hi, t), Pow2(32 - t);
    ShiftOutHigh(hi, t);
    Pow2Monotone(1, 32 - t);
    assert Pow2(1) == 2;
    HighOfShifted(L, 32 - t, 0);
    assert Low(L, 0) == 0;
    OrDisjoint(L * w, st, 32 - t);
    LowHigh(hi, t);
  }

  /** Shifting hi left by 32 - t keeps exactly its low t bits, at the top of the word. */
  lemma {:induction false} ShiftOutHigh(hi: u32, t: nat)
    requires 1 <= t <= 25
    ensures Shl(hi, 32 - t) == Low(hi, t) * Pow2(32 - t)
    ensures Low(hi, t) * Pow2(32 - t) + Pow2(32 - t) <= Two32
  {
    var H: int, L: int, p: int, w: int := High(hi, t), Low(hi, t), Pow2(t), Pow2(32 - t);
    assert p * w == Two32 by {
      Pow2Add(t, 32 - t);
      Pow2Table();
    }
    assert hi * w == H * Two32 + L * w by {
      HighLowSplit(hi, t);
      MulDistrib(H, p, L, w);
    }
    assert L * w + w <= Two32 by {
      LowBound(hi, t);
      MulLe(L + 1, p, w);
      MulSucc(L, w);
    }
    assert 0 <= L * w by {
      MulLe(0, L, w);
    }
    DivModUnique(hi * w, Two32, H, L * w);
  }

  /**
   * Lines 92-111: the biased exponent expor selects the normal range, where
   * the fields are added and rounded with a possible carry into infinity,
   * overflow to infinity, or underflow, where the significand is shifted
   * right by at most MAX_SHIFT with a sticky bit and rounded. In every case
   * the result is the signed binary32 rounding of hi:lo * 2^(expor - 181).
   */
  method RoundAndPack(expor: u32, hi: u32, lo: u32, signr: u32) returns (r: u32)
    requires FloatImplicitBit <= hi < 0x100_0000
    requires signr == 0 || signr == FloatSignMask
    ensures r == signr + RoundToBinary32(hi * Two32 + lo, Signed(expor) - 181)
  {
    if expor <= MaxNormExpo - ExpoAdjust {
      PackNormal(expor, hi, lo, signr);
      r := Add(Add(Shl(expor, FloatMantBits), signr), hi);
      r := Add(r, RoundIncrement(hi, lo));
    } else if Signed(expor) > (MaxNormExpo - ExpoAdjust) as int {
      OverflowRange(hi, lo, Signed(expor));
      SignOr(signr, FloatInfinity);
      r := Or32(signr, FloatInfinity);
    } else {
      var shift := Sub(0, expor);
      if shift > MaxShift {
        shift := MaxShift;
      }
      PackUnderflow(expor, hi, lo, signr, shift);
      var mantLo := Or32(Shl(hi, 32 - shift), if lo != 0 then 1 else 0);
      var mantHi := Shr(hi, shift);
      r := Add(mantHi, signr);
      r := Add(r, RoundIncrement(mantHi, mantLo));
    }
  }

  /** The normal branch of RoundAndPack, lines 94-96, computes the rounded encoding. */
  lemma PackNormal(expor: u32, hi: u32, lo: u32, signr: u32)
    requires FloatImplicitBit <= hi < 0x100_0000 && expor <= 253
    requires signr == 0 || signr == FloatSignMask
    ensures Add(Add(Add(Shl(expor, FloatMantBits), signr), hi), RoundIncrement(hi, lo))
         == signr + RoundToBinary32(hi * Two32 + lo, Signed(expor) - 181)
  {
    NormalRange(hi, lo, expor);
    ExponentField(expor);
    var field := Shl(expor, FloatMantBits);
    var inc := RoundIncrement(hi, lo);
    AddExact(field, signr, hi);
    AddExact(field + signr, hi, inc);
  }

  /** The underflow branch of RoundAndPack, lines 102-110, computes the rounded encoding. */
  lemma PackUnderflow(expor: u32, hi: u32, lo: u32, signr: u32, shift: u32)
    requires FloatImplicitBit <= hi < 0x100_0000 && Signed(expor) < 0
    requires signr == 0 || signr == FloatSignMask
    requires shift == if Sub(0, expor) > MaxShift then MaxShift else Sub(0, expor)
    ensures 1 <= shift <= 25
    ensures var mantLo := Or32(Shl(hi, 32 - shift), if lo != 0 then 1 else 0);
      Add(Add(Shr(hi, shift), signr), RoundIncrement(Shr(hi, shift), mantLo))
        == signr + RoundToBinary32(hi * Two32 + lo, Signed(expor) - 181)
  {
    ClampedShift(expor, shift);
    var ex := Signed(expor);
    StickyRound(hi, lo, shift);
    UnderflowRounding(hi, lo, ex, shift);
    UnderflowRange(hi, lo, ex);
    var mantLo := Or32(Shl(hi, 32 - shift), if lo != 0 then 1 else 0);
    AddSigned(Shr(hi, shift), RoundIncrement(Shr(hi, shift), mantLo), signr);
  }

  /** The clamped shift count of lines 102-103 is -expor, at most MAX_SHIFT. */
  lemma ClampedShift(expor: u32, shift: u32)
    requires Signed(expor) < 0
    requires shift == if Sub(0, expor) > MaxShift then MaxShift else Sub(0, expor)
    ensures 1 <= shift <= 25
    ensures shift == if -Signed(expor) > 25 then 25 else -Signed(expor)
  {
    assert Sub(0, expor) == -Signed(expor);
  }

  /** Adding a sign bit to a magnitude of at most 2^23 and an increment does not wrap. */
  lemma AddSigned(m: u32, inc: u32, signr: u32)
    requires m + inc <= 0x80_0000
    requires signr == 0 || signr == FloatSignMask
    ensures Add(Add(m, signr), inc) == signr + (m + inc)
  {
    AddExact(m, signr, inc);
  }

  // ---------------------------------------------------------------------
  // From the operands to the product

  /**
   * mant and expo, as the code holds them before multiplying, represent the
   * finite nonzero x: mant lies in [2^23, 2^24) and
   * Significand(x) * 2^Exponent(x) == mant * 2^(Signed(expo) - 149).
   */
  ghost predicate Unpacked(x: u32, mant: u32, expo: u32)
  {
    IsFinite(x) && !IsZero(x) && FloatImplicitBit <= mant < 0x100_0000 &&
    -23 <= Signed(expo) <= 253 && Exponent(x) + 149 - Signed(expo) >= 0 &&
    mant == Significand(x) * Pow2(Exponent(x) + 149 - Signed(expo))
  }

  /** A normal operand is represented by its fields as split at lines 33-36. */
  lemma {:induction false} UnpackNormal(x: u32)
    requires IsNormal(x)
    ensures Unpacked(x, TrailingSignificand(x) + 0x80_0000, Sub(BiasedExponent(x), ExpoAdjust))
  {
  }

  /** A subnormal operand is represented after the renormalization loop of lines 63-68. */
  lemma {:induction false} UnpackSubnormal(x: u32)
    requires IsSubnormal(x)
    ensures Unpacked(x, TrailingSignificand(x) * Pow2(Doublings(TrailingSignificand(x))),
                     Sub(0, Doublings(TrailingSignificand(x))))
  {
    var d := Doublings(TrailingSignificand(x));
    assert Sub(0, d) == Two32 - d;
    assert Signed(Sub(0, d)) + d == 0;
  }

  /** Two significands in [2^23, 2^24), one pre-shifted by 8, multiply to [2^54, 2^56). */
  lemma ProductRange(manta: u32, mantb: u32)
    requires FloatImplicitBit <= manta < 0x100_0000 && FloatImplicitBit <= mantb < 0x100_0000
    ensures Shl(mantb, FloatExpoBits) == mantb * 0x100
    ensures 0x40_0000_0000_0000 <= manta * (mantb * 0x100) < 0x100_0000_0000_0000
  {
    Pow2Table();
    MulLe(0x80_0000, manta, mantb * 0x100);
    MulLe(0x80_0000, mantb, 0x100);
    MulLt(manta, 0x100_0000, mantb * 0x100);
    MulLt(mantb, 0x100_0000, 0x100);
  }

  /**
   * Lines 80-91 keep the value: the normalized pair hi:lo scaled by
   * 2^(Signed(expor) - 181) equals the exact product of the operands, so
   * rounding it is rounding the exact product.
   */
  lemma {:induction false} ScaledProduct(a: u32, b: u32, manta: u32, expoa: u32, mantb: u32, expob: u32,
                                         hi: u32, lo: u32, e: u32)
    requires Unpacked(a, manta, expoa) && Unpacked(b, mantb, expob)
    requires var p := manta * (mantb * 0x100);
      hi * Two32 + lo == (if p < 0x80_0000_0000_0000 then 2 * p else p) &&
      e == (var e0 := Add(Sub(Add(expoa, expob), FloatExpoBias), 2 * ExpoAdjust);
            if p < 0x80_0000_0000_0000 then Sub(e0, 1) else e0)
    ensures Significand(a) * Significand(b) >= 1
    ensures RoundToBinary32(hi * Two32 + lo, Signed(e) - 181)
         == RoundToBinary32(Significand(a) * Significand(b), Exponent(a) + Exponent(b))
  {
    var p := manta * (mantb * 0x100);
    var d := if p < 0x80_0000_0000_0000 then 1 else 0;
    var ea, eb := Signed(expoa), Signed(expob);
    assert Signed(e) == ea + eb - 125 - d by {
      SignedAdd(expoa, expob);
      SignedSub(Add(expoa, expob), FloatExpoBias);
      SignedAdd(Sub(Add(expoa, expob), FloatExpoBias), 2 * ExpoAdjust);
      var e0 := Add(Sub(Add(expoa, expob), FloatExpoBias), 2 * ExpoAdjust);
      if d == 1 {
        SignedSub(e0, 1);
      }
    }
    var sa, sb := Significand(a), Significand(b);
    var ka: nat, kb: nat := Exponent(a) + 149 - ea, Exponent(b) + 149 - eb;
    var n: int := sa as int * sb as int;
    var k: nat := ka + kb + 8 + d;
    assert hi * Two32 + lo == n * Pow2(k) by {
      ShiftedProduct(sa, ka, sb, kb, d);
    }
    assert n >= 1 by {
      MulLe(1, sa, sb);
    }
    assert Signed(e) - 181 == Exponent(a) + Exponent(b) - k;
    RoundScaled(n, Exponent(a) + Exponent(b), k);
  }

  /** The product of sa * 2^ka and sb * 2^kb * 2^8, doubled when d == 1. */
  lemma ShiftedProduct(sa: nat, ka: nat, sb: nat, kb: nat, d: nat)
    requires d <= 1
    ensures var p := (sa * Pow2(ka)) * ((sb * Pow2(kb)) * 0x100);
      (if d == 1 then 2 * p else p) == (sa * sb) * Pow2(ka + kb + 8 + d)
  {
    var pa: int, pb: int, p8: int := Pow2(ka), Pow2(kb), Pow2(8);
    var n: int := sa * sb;
    assert (sa * pa) * ((sb * pb) * 0x100) == n * Pow2(ka + kb + 8) by {
      Pow2Table();
      MulRegroup3(sa, pa, sb, pb, p8);
      Pow2Add(ka, kb);
      Pow2Add(ka + kb, 8);
    }
    Pow2Add(ka + kb + 8, d);
    MulByPow2Bit(n, Pow2(ka + kb + 8), d);
  }

  /**
   * When both operands are subnormal only a is renormalized (line 69 is an
   * else-if), so b keeps the implicit bit OR-ed in at line 36 and an exponent
   * of -1. The product is then far below the least subnormal and both the
   * code and the exact product give a zero magnitude.
   */
  lemma {:induction false} TinyProduct(a: u32, b: u32, manta: u32, expoa: u32, hi: u32, lo: u32, e: u32)
    requires IsSubnormal(a) && IsSubnormal(b)
    requires Unpacked(a, manta, expoa)
    requires var p := manta * ((TrailingSignificand(b) + 0x80_0000) * 0x100);
      FloatImplicitBit <= hi < 0x100_0000 &&
      e == (var e0 := Add(Sub(Add(expoa, Sub(0, ExpoAdjust)), FloatExpoBias), 2 * ExpoAdjust);
            if p < 0x80_0000_0000_0000 then Sub(e0, 1) else e0)
    ensures Significand(a) * Significand(b) >= 1
    ensures RoundToBinary32(hi * Two32 + lo, Signed(e) - 181) == 0
    ensures RoundToBinary32(Significand(a) * Significand(b), Exponent(a) + Exponent(b)) == 0
  {
    assert Signed(e) <= -127 by {
      var expob := Sub(0, ExpoAdjust);
      assert Signed(expob) == -1;
      SignedAdd(expoa, expob);
      SignedSub(Add(expoa, expob), FloatExpoBias);
      SignedAdd(Sub(Add(expoa, expob), FloatExpoBias), 2 * ExpoAdjust);
      var e0 := Add(Sub(Add(expoa, expob), FloatExpoBias), 2 * ExpoAdjust);
      assert Signed(e0) == Signed(expoa) - 126;
      SignedSub(e0, 1);
    }
    var n: nat := hi * Two32 + lo;
    assert n >= 1 && Log2(n) == 55 by {
      PairLog2(hi, lo);
    }
    RoundTiny(n, Signed(e) - 181);
    var sa, sb := Significand(a), Significand(b);
    var m: nat := sa * sb;
    assert 1 <= m && Log2(m) < 46 by {
      Pow2Table();
      MulLe(1, sa, sb);
      MulLt(sa, 0x80_0000, sb);
      MulLt(sb, 0x80_0000, 0x80_0000);
      Pow2Add(23, 23);
      Log2Below(m, 46);
    }
    RoundTiny(m, Exponent(a) + Exponent(b));
  }

  // ---------------------------------------------------------------------
  // The multiplier (lines 26-113)

  /**
   * fp32_mul_core: split the operands, dispatch the special cases (NaN a,
   * NaN b, zero a, zero b, infinity), renormalize a subnormal operand, form
   * the 64-bit product, normalize, round and pack. The result is the IEEE
   * product with ties-to-even rounding, or the first NaN operand quietened.
   */
  method Fp32MulCore(a: u32, b: u32) returns (r: u32)
    ensures r == Product(a, b)
  {
    OperandByMasks(a);
    OperandByMasks(b);
    SignByMasks(a, b);
    var expoa := Sub(And(Shr(a, FloatMantBits), ExpoMask), ExpoAdjust);
    var expob := Sub(And(Shr(b, FloatMantBits), ExpoMask), ExpoAdjust);
    var manta: u32 := And(Or(a, FloatImplicitBit), FloatMantMask);
    var mantb: u32 := And(Or(b, FloatImplicitBit), FloatMantMask);
    var signr: u32 := And(Xor(a, b), FloatSignMask);
    if expoa >= MaxNormExpo - ExpoAdjust || expob >= MaxNormExpo - ExpoAdjust {
      if And(a, Not(FloatSignMask)) > FloatInfinity {
        NanMacros(a);
        return Or32(a, FloatQnanBit);
      }
      if And(b, Not(FloatSignMask)) > FloatInfinity {
        NanMacros(b);
        return Or32(b, FloatQnanBit);
      }
      if And(a, Not(FloatSignMask)) == 0 {
        return if expob != InfExpo - ExpoAdjust then signr else FloatIndefinite;
      }
      if And(b, Not(FloatSignMask)) == 0 {
        return if expoa != InfExpo - ExpoAdjust then signr else FloatIndefinite;
      }
      if And(a, Not(FloatSignMask)) == FloatInfinity || And(b, Not(FloatSignMask)) == FloatInfinity {
        SignOr(signr, FloatInfinity);
        return Or32(signr, FloatInfinity);
      }
      if Signed(expoa) < (MinNormExpo - ExpoAdjust) as int {
        manta := And(a, FloatMantMask);
        expoa := Add(expoa, 1);
        manta, expoa := Renormalize(manta, expoa);
      } else if Signed(expob) < (MinNormExpo - ExpoAdjust) as int {
        mantb := And(b, FloatMantMask);
        expob := Add(expob, 1);
        mantb, expob := Renormalize(mantb, expob);
      }
    }
    ghost var mantb0 := mantb;
    ProductRange(manta, mantb);
    var expor := Add(Sub(Add(expoa, expob), FloatExpoBias), 2 * ExpoAdjust);
    mantb := Shl(mantb, FloatExpoBits);
    var prod: u64 := manta * mantb;
    var hi, lo, e := NormalizeProduct(prod, expor);
    r := RoundAndPack(e, hi, lo, signr);
    FiniteProduct(a, b, manta, expoa, mantb0, expob, hi, lo, e);
  }

  /**
   * The finite nonzero case of Fp32MulCore: with the operands as unpacked
   * by lines 33-77, the rounded normalized product is the rounded exact product.
   */
  lemma FiniteProduct(a: u32, b: u32, manta: u32, expoa: u32, mantb: u32, expob: u32,
                      hi: u32, lo: u32, e: u32)
    requires IsFinite(a) && IsFinite(b) && !IsZero(a) && !IsZero(b)
    requires IsSubnormal(a) ==> manta == TrailingSignificand(a) * Pow2(Doublings(TrailingSignificand(a))) &&
                                expoa == Sub(0, Doublings(TrailingSignificand(a)))
    requires IsNormal(a) ==> manta == TrailingSignificand(a) + 0x80_0000 && expoa == Sub(BiasedExponent(a), ExpoAdjust)
    requires IsSubnormal(b) && !IsSubnormal(a) ==>
      mantb == TrailingSignificand(b) * Pow2(Doublings(TrailingSignificand(b))) &&
      expob == Sub(0, Doublings(TrailingSignificand(b)))
    requires IsNormal(b) || IsSubnormal(a) ==>
      mantb == TrailingSignificand(b) + 0x80_0000 && expob == Sub(BiasedExponent(b), ExpoAdjust)
    requires var p := manta * (mantb * 0x100);
      FloatImplicitBit <= hi < 0x100_0000 &&
      hi * Two32 + lo == (if p < 0x80_0000_0000_0000 then 2 * p else p) &&
      e == (var e0 := Add(Sub(Add(expoa, expob), FloatExpoBias), 2 * ExpoAdjust);
            if p < 0x80_0000_0000_0000 then Sub(e0, 1) else e0)
    ensures Significand(a) * Significand(b) >= 1
    ensures RoundToBinary32(hi * Two32 + lo, Signed(e) - 181)
         == RoundToBinary32(Significand(a) * Significand(b), Exponent(a) + Exponent(b))
  {
    MulLe(1, Significand(a), Significand(b));
    if IsSubnormal(a) && IsSubnormal(b) {
      UnpackSubnormal(a);
      TinyProduct(a, b, manta, expoa, hi, lo, e);
    } else {
      if IsSubnormal(a) { UnpackSubnormal(a); } else { UnpackNormal(a); }
      if IsSubnormal(b) { UnpackSubnormal(b); } else { UnpackNormal(b); }
      ScaledProduct(a, b, manta, expoa, mantb, expob, hi, lo, e);
    }
  }
}
