/**
 * Exact_mult_bfloat16.cpp: the truncating conversion of a binary32 to a
 * bfloat16 (kept in the upper half of a binary32 encoding) and the second
 * copy of the bit-exact multiplier, which multiplies the two significands
 * first and shifts the 64-bit product left by FLOAT_EXPO_BITS afterwards
 * instead of pre-shifting mantb.
 */
module Bfloat16 {
  import opened Word
  import opened Binary32
  import opened ExactMult

  /** 2^16: the bfloat16 half of an encoding starts at this bit. */
  const HalfWord: nat := 0x1_0000

  /**
   * float2bfloat on the encoding: on either byte order the 16-bit word that
   * holds sign, exponent and the top 7 fraction bits is copied and the
   * other word is cleared, which is src & 0xffff0000.
   */
  function Float2Bfloat(src: u32): (dst: u32)
    ensures dst % HalfWord == 0
    ensures dst / HalfWord == src / HalfWord
  {
    HighHalfMask(src, 0xFFFF_0000);
    And(src, 0xFFFF_0000)
  }

  /** The mask m == 0xffff0000 subtracts the low half. */
  lemma HighHalfMask(x: u32, m: nat)
    requires m == 0xFFFF_0000
    ensures And(x, m) == x - x % HalfWord
    ensures (x - x % HalfWord) % HalfWord == 0 && (x - x % HalfWord) / HalfWord == x / HalfWord
  {
    MaskedLowHalves(x, m);
    WordLowHalves(x);
    LowHalfCleared(x);
  }

  lemma MaskedLowHalves(x: nat, m: nat)
    requires m == 0xFFFF_0000
    ensures And(x, m) == Low(x, 32) - Low(x, 16)
  {
    assert m == Pow2(32) - Pow2(16) by {
      Pow2Table();
    }
    AndHighMask(x, 32, 16);
  }

  lemma WordLowHalves(x: u32)
    ensures Low(x, 32) == x && Low(x, 16) == x % HalfWord
  {
    Pow2Table();
    LowHigh(x, 32);
    LowHigh(x, 16);
  }

  /** Subtracting the low half leaves a multiple of HalfWord with the same high half. */
  lemma LowHalfCleared(x: nat)
    ensures (x - x % HalfWord) % HalfWord == 0 && (x - x % HalfWord) / HalfWord == x / HalfWord
  {
    var q, r := x / HalfWord, x % HalfWord;
    assert x - r == q * HalfWord by {
      DivMod(x, HalfWord);
    }
    DivModUnique(x - r, HalfWord, q, 0);
  }

  /** An encoding whose low half is zero is a bfloat16 already. */
  predicate IsBfloat(x: u32)
  {
    x % HalfWord == 0
  }

  /** The conversion truncates: it subtracts the low half and nothing else. */
  lemma Float2BfloatTruncates(src: u32)
    ensures Float2Bfloat(src) == src - src % HalfWord
    ensures IsBfloat(Float2Bfloat(src))
    ensures Float2Bfloat(src) == src <==> IsBfloat(src)
  {
    var dst := Float2Bfloat(src);
    DivMod(src, HalfWord);
    DivMod(dst, HalfWord);
  }

  /** Converting twice is converting once. */
  lemma Float2BfloatIdempotent(src: u32)
    ensures Float2Bfloat(Float2Bfloat(src)) == Float2Bfloat(src)
  {
    Float2BfloatTruncates(src);
    Float2BfloatTruncates(Float2Bfloat(src));
  }

  /**
   * Sign and biased exponent survive, the fraction loses its low 16 bits,
   * so the magnitude of the encoding never grows.
   */
  lemma Float2BfloatFields(src: u32)
    ensures Sign(Float2Bfloat(src)) == Sign(src)
    ensures BiasedExponent(Float2Bfloat(src)) == BiasedExponent(src)
    ensures TrailingSignificand(Float2Bfloat(src)) == TrailingSignificand(src) - src % HalfWord
    ensures Magnitude(Float2Bfloat(src)) <= Magnitude(src)
  {
    Float2BfloatTruncates(src);
    ClearedLowHalf(src, Float2Bfloat(src));
  }

  /** The field arithmetic behind Float2BfloatFields, on plain numbers. */
  lemma ClearedLowHalf(src: u32, dst: u32)
    requires dst == src - src % HalfWord
    ensures Sign(dst) == Sign(src) && BiasedExponent(dst) == BiasedExponent(src)
    ensures TrailingSignificand(dst) == TrailingSignificand(src) - src % HalfWord
    ensures Magnitude(dst) <= Magnitude(src)
  {
    var h, l := src / HalfWord, src % HalfWord;
    assert src == h * HalfWord + l && dst == h * HalfWord by {
      DivMod(src, HalfWord);
    }
    DivModUnique(src, 0x8000_0000, h / 0x8000, (h % 0x8000) * HalfWord + l);
    DivModUnique(dst, 0x8000_0000, h / 0x8000, (h % 0x8000) * HalfWord);
    DivModUnique(src, 0x80_0000, h / 0x80, (h % 0x80) * HalfWord + l);
    DivModUnique(dst, 0x80_0000, h / 0x80, (h % 0x80) * HalfWord);
  }

  /** The trailing significand has the same low half as the whole encoding. */
  lemma TrailingLowHalf(x: u32)
    ensures TrailingSignificand(x) % HalfWord == x % HalfWord
  {
    var t := TrailingSignificand(x);
    DivModUnique(x, 0x80_0000, x / 0x80_0000, t);
    DivModUnique(t, HalfWord, t / HalfWord, t % HalfWord);
    DivModUnique(x, HalfWord, (x / 0x80_0000) * 0x80 + t / HalfWord, t % HalfWord);
  }

  /**
   * What the truncation does to the fields: sign and biased exponent are
   * kept, and the trailing significand keeps its top 7 bits, so it becomes
   * 0 exactly when it was below 2^16.
   */
  lemma TruncatedFields(src: u32)
    ensures BiasedExponent(Float2Bfloat(src)) == BiasedExponent(src)
    ensures TrailingSignificand(Float2Bfloat(src)) == 0 <==> TrailingSignificand(src) < HalfWord
    ensures TrailingSignificand(src) == 0 ==> Float2Bfloat(src) == src
  {
    var dst := Float2Bfloat(src);
    var t, l := TrailingSignificand(src), src % HalfWord;
    TrailingLowHalf(src);
    assert BiasedExponent(dst) == BiasedExponent(src) && TrailingSignificand(dst) == t - l by {
      Float2BfloatFields(src);
    }
    assert t - l == 0 <==> t < HalfWord by {
      DivMod(t, HalfWord);
    }
    assert t == 0 ==> dst == src by {
      Float2BfloatTruncates(src);
    }
  }

  /**
   * What the truncation does to each class: zeros, infinities and normals
   * stay in their class, a NaN whose payload lies in the low half becomes
   * an infinity (so 0x7f800001 becomes 0x7f800000) and any other NaN stays
   * a NaN.
   */
  lemma Float2BfloatClasses(src: u32)
    ensures IsZero(src) ==> IsZero(Float2Bfloat(src))
    ensures IsInfinite(src) ==> Float2Bfloat(src) == src
    ensures IsNormal(src) ==> IsNormal(Float2Bfloat(src))
    ensures IsNaN(src) ==> (IsInfinite(Float2Bfloat(src)) <==> TrailingSignificand(src) < HalfWord)
    ensures IsNaN(src) ==> (IsNaN(Float2Bfloat(src)) <==> TrailingSignificand(src) >= HalfWord)
  {
    TruncatedFields(src);
  }

  /** A NaN whose payload lies in the low half becomes the infinity of its sign. */
  lemma NanBecomesInfinity(src: u32)
    requires IsNaN(src) && TrailingSignificand(src) < HalfWord
    ensures Float2Bfloat(src) == Sign(src) * 0x8000_0000 + PosInfinity
  {
    var dst := Float2Bfloat(src);
    TruncatedFields(src);
    Float2BfloatFields(src);
    Fields(dst);
  }

  /** So the smallest positive NaN, 0x7f800001, becomes +infinity. */
  lemma LeastNanBecomesInfinity()
    ensures Float2Bfloat(0x7f80_0001) == PosInfinity
  {
    var x: u32 := 0x7f80_0001;
    assert Sign(x) == 0 && IsNaN(x) && TrailingSignificand(x) < HalfWord;
    NanBecomesInfinity(x);
  }

  // ---------------------------------------------------------------------
  // The multiplier with a post-shifted product (lines 41-129)

  /**
   * Lines 98-99: the 48-bit product of the significands shifted left by
   * FLOAT_EXPO_BITS in uint64_t equals the product with mantb pre-shifted,
   * as the other copy forms it; the shift never drops a bit.
   */
  lemma PostShiftEqualsPreShift(manta: u32, mantb: u32)
    requires FloatImplicitBit <= manta < 0x100_0000 && FloatImplicitBit <= mantb < 0x100_0000
    ensures 0 <= manta * mantb < 0x1_0000_0000_0000
    ensures Shl64(manta * mantb, FloatExpoBits) == manta * Shl(mantb, FloatExpoBits) == manta * (mantb * 0x100)
  {
    ProductRange(manta, mantb);
    Pow2Table();
    var p: int := manta * mantb;
    assert 0 <= p < 0x1_0000_0000_0000 by {
      MulLe(0, manta, mantb);
      MulLt(manta, 0x100_0000, mantb);
      MulLt(mantb, 0x100_0000, 0x100_0000);
    }
    assert p * 0x100 == manta * (mantb * 0x100) by {
      MulAssoc(manta, mantb, 0x100);
    }
  }

  /**
   * fp32_mul_core of the bfloat16 file: the same splitting and the same
   * special cases in the same order as ExactMult.Fp32MulCore, and the
   * product shifted after the multiplication. It computes the same
   * function, the IEEE product with ties-to-even rounding.
   */
  method Fp32MulCore(a: u32, b: u32) returns (r: u32)
    ensures r == Product(a, b)
  {
    OperandByMasks(a);
    OperandByMasks(b);
    SignByMasks(a, b);
    var expoa := Sub(And(Shr(a, FloatMantBits), ExpoMask), ExpoAdjust);
    var expob := Sub(And(Shr(b, FloatMantBits), ExpoMask), ExpoAdjust);
    var manta: u32 := And(Or(a, FloatImplicitBit), FloatMantMask);
    var mantb: u32 := And(Or(b, FloatImplicitBit), FloatMantMask);
    var signr: u32 := And(Xor(a, b), FloatSignMask);
    if expoa >= MaxNormExpo - ExpoAdjust || expob >= MaxNormExpo - ExpoAdjust {
      if And(a, Not(FloatSignMask)) > FloatInfinity {
        NanMacros(a);
        return Or32(a, FloatQnanBit);
      }
      if And(b, Not(FloatSignMask)) > FloatInfinity {
        NanMacros(b);
        return Or32(b, FloatQnanBit);
      }
      if And(a, Not(FloatSignMask)) == 0 {
        return if expob != InfExpo - ExpoAdjust then signr else FloatIndefinite;
      }
      if And(b, Not(FloatSignMask)) == 0 {
        return if expoa != InfExpo - ExpoAdjust then signr else FloatIndefinite;
      }
      if And(a, Not(FloatSignMask)) == FloatInfinity || And(b, Not(FloatSignMask)) == FloatInfinity {
        SignOr(signr, FloatInfinity);
        return Or32(signr, FloatInfinity);
      }
      if Signed(expoa) < (MinNormExpo - ExpoAdjust) as int {
        manta := And(a, FloatMantMask);
        expoa := Add(expoa, 1);
        manta, expoa := Renormalize(manta, expoa);
      } else if Signed(expob) < (MinNormExpo - ExpoAdjust) as int {
        mantb := And(b, FloatMantMask);
        expob := Add(expob, 1);
        mantb, expob := Renormalize(mantb, expob);
      }
    }
    var expor := Add(Sub(Add(expoa, expob), FloatExpoBias), 2 * ExpoAdjust);
    ProductRange(manta, mantb);
    PostShiftEqualsPreShift(manta, mantb);
    var prod: u64 := manta * mantb;
    prod := Shl64(prod, FloatExpoBits);
    var hi, lo, e := NormalizeProduct(prod, expor);
    r := RoundAndPack(e, hi, lo, signr);
    FiniteProduct(a, b, manta, expoa, mantb, expob, hi, lo, e);
  }

  // ---------------------------------------------------------------------
  // Bfloat16 operands are multiplied without rounding in the normal range

  /**
   * The significand of a bfloat16 operand, as the multiplier holds it
   * before multiplying, has its low 16 bits clear: the implicit bit is
   * above them, and the renormalization of a subnormal only doubles it.
   */
  lemma BfloatSignificand(x: u32)
    requires IsBfloat(x)
    ensures TrailingSignificand(x) % HalfWord == 0
    ensures (TrailingSignificand(x) + 0x80_0000) % HalfWord == 0
    ensures IsSubnormal(x) ==>
      (TrailingSignificand(x) * Pow2(Doublings(TrailingSignificand(x)))) % HalfWord == 0
  {
    var t := TrailingSignificand(x);
    TrailingLowHalf(x);
    var q := t / HalfWord;
    assert t == q * HalfWord;
    DivModUnique(t + 0x80_0000, HalfWord, q + 0x80, 0);
    if IsSubnormal(x) {
      var p: int := Pow2(Doublings(t));
      assert t * p == (q * p) * HalfWord by {
        MulAssoc(q, HalfWord, p);
        MulAssoc(q, p, HalfWord);
      }
      DivModUnique(t * p, HalfWord, q * p, 0);
    }
  }

  /**
   * When both significands have their low 16 bits clear, the 56-bit
   * product has its low 40 bits clear, so after the normalizing shift the
   * low word mantr_lo is 0: there is no rounding bit, no sticky bit and
   * the rounding increment of line 112 is 0.
   */
  lemma NoRoundingIncrement(manta: u32, mantb: u32, hi: u32, lo: u32)
    requires FloatImplicitBit <= manta < 0x100_0000 && FloatImplicitBit <= mantb < 0x100_0000
    requires manta % HalfWord == 0 && mantb % HalfWord == 0
    requires var p := manta * (mantb * 0x100);
      hi * Two32 + lo == if p < 0x80_0000_0000_0000 then 2 * p else p
    ensures lo == 0
    ensures RoundIncrement(hi, lo) == 0
  {
    var x, y := manta / HalfWord, mantb / HalfWord;
    var p: int := manta * (mantb * 0x100);
    assert p == (x * y * 0x100) * Two32 by {
      assert manta == x * HalfWord && mantb == y * HalfWord;
      MulRegroup(x, HalfWord, y, HalfWord * 0x100);
    }
    var d: int := if p < 0x80_0000_0000_0000 then 2 else 1;
    assert hi * Two32 + lo == (d * x * y * 0x100) * Two32;
    DivModUnique(hi * Two32 + lo, Two32, d * x * y * 0x100, 0);
    DivModUnique(hi * Two32 + lo, Two32, hi, lo);
  }

  /**
   * The product of two nonzero finite bfloat16 operands needs no rounding
   * when it lies in the normal range: both significands are multiples of
   * 2^16 below 2^24, so their product is m * 2^32 with m below 2^16, and
   * rounding it to 24 significant bits drops only zero bits.
   */
  lemma BfloatProductExact(a: u32, b: u32)
    requires IsBfloat(a) && IsBfloat(b)
    requires IsFinite(a) && !IsZero(a) && IsFinite(b) && !IsZero(b)
    requires var n := Significand(a) * Significand(b);
      n >= 1 && Log2(n) + Exponent(a) + Exponent(b) - 23 >= -149
    ensures var n, e := Significand(a) * Significand(b), Exponent(a) + Exponent(b);
      Quantum(n, e) >= e && RoundedSignificand(n, e) * Pow2(Quantum(n, e) - e) == n
  {
    BfloatSignificand(a);
    BfloatSignificand(b);
    var m := HalvesProduct(Significand(a), Significand(b));
    ExactAboveBit32(m, Exponent(a) + Exponent(b));
  }

  /** Two nonzero multiples of 2^16 below 2^24 multiply to m * 2^32 with 1 <= m < 2^16. */
  lemma HalvesProduct(sa: nat, sb: nat) returns (m: nat)
    requires 1 <= sa < 0x100_0000 && sa % HalfWord == 0
    requires 1 <= sb < 0x100_0000 && sb % HalfWord == 0
    ensures 1 <= m < HalfWord && sa * sb == m * Pow2(32)
  {
    var x, y := sa / HalfWord, sb / HalfWord;
    assert 1 <= x < 0x100 && 1 <= y < 0x100;
    m := x * y;
    assert 1 <= m < HalfWord by {
      MulLe(x, 0xFF, y);
      MulLe(y, 0xFF, 0xFF);
    }
    Pow2Table();
    assert sa == x * HalfWord && sb == y * HalfWord;
    MulRegroup(x, HalfWord, y, HalfWord);
  }

  /**
   * A value m * 2^32 * 2^e with m below 2^16 has at most 16 significant
   * bits, so outside the subnormal range it is rounded exactly.
   */
  lemma ExactAboveBit32(m: nat, e: int)
    requires 1 <= m < HalfWord
    requires m * Pow2(32) >= 1 && Log2(m * Pow2(32)) + e - 23 >= -149
    ensures var n := m * Pow2(32);
      Quantum(n, e) >= e && RoundedSignificand(n, e) * Pow2(Quantum(n, e) - e) == n
  {
    var n := m * Pow2(32);
    Log2Scaled(m, 32);
    assert Log2(m) < 16 by {
      Pow2Table();
      Log2Below(m, 16);
    }
    var s: nat := Log2(n) - 23;
    assert Quantum(n, e) == e + s && s <= 24;
    var k := SplitPow2(m, 32 - s, s);
    RoundedExactly(n, e, k, s);
  }

  /** When n is k * 2^s and the quantum lies s bits above e, rounding returns k. */
  lemma RoundedExactly(n: nat, e: int, k: nat, s: nat)
    requires n >= 1 && k * Pow2(s) == n && Quantum(n, e) == e + s
    ensures RoundedSignificand(n, e) == k
  {
    RoundShiftScaled(k, 0, s);
  }

  /** m * 2^(a + b) is k * 2^b for k == m * 2^a. */
  lemma SplitPow2(m: nat, a: nat, b: nat) returns (k: nat)
    ensures k == m * Pow2(a) && k * Pow2(b) == m * Pow2(a + b)
  {
    k := m * Pow2(a);
    Pow2Add(a, b);
    MulAssoc(m, Pow2(a), Pow2(b));
  }
}
