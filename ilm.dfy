/**
 * ILM.c: a leading-one detector on 8-bit values and the iterative
 * logarithmic multiplier (Mitchell's approximation with one correction
 * iteration) built on it.
 *
 * An operand x >= 1 is 2^K + R with K its leading-one position and R < 2^K
 * its residue. One pass computes x * 2^Ky + Ry * 2^Kx, which is x * y
 * minus Rx * Ry; the second pass applies the same step to the residues to
 * approximate the missing Rx * Ry. All C arithmetic here happens in int
 * and is truncated to uint8_t or uint16_t on assignment; those
 * truncations are written out.
 */
module Ilm {
  import opened Word

  // ---------------------------------------------------------------------
  // LOD (lines 7-16)

  /**
   * The value LOD returns: the position of the leading one of an 8-bit
   * value, and 0 for 0.
   */
  function LeadingOne(v: u8): (k: nat)
    ensures k <= 7
  {
    if v >= 0x80 then 7 else if v >= 0x40 then 6
    else if v >= 0x20 then 5 else if v >= 0x10 then 4 else if v >= 0x8 then 3
    else if v >= 0x4 then 2 else if v >= 0x2 then 1 else 0
  }

  /** For v >= 1 the leading one brackets v: 2^K <= v < 2^(K+1); LOD(0) is 0. */
  lemma LeadingOneBracket(v: u8)
    ensures v >= 1 ==> Pow2(LeadingOne(v)) <= v < Pow2(LeadingOne(v) + 1)
    ensures v == 0 ==> LeadingOne(v) == 0
  {
    Pow2Table();
    assert Pow2(2) == 4 && Pow2(3) == 8 && Pow2(4) == 0x10 && Pow2(5) == 0x20 && Pow2(6) == 0x40;
  }

  /** LeadingOne agrees with the binary logarithm Log2 on every nonzero byte. */
  lemma LeadingOneIsLog2(v: u8)
    requires v >= 1
    ensures LeadingOne(v) == Log2(v)
  {
    LeadingOneBracket(v);
    Log2Unique(v, LeadingOne(v));
  }

  /**
   * LOD: five conditional steps count the leading zeros n of the 32-bit
   * x = val, shifting x left so that each step looks at the next lower
   * half of the remaining width, and 31 - n is returned as uint8_t. For 0
   * every step fires, n is 31 and the result is 0.
   */
  method Lod(val: u8) returns (k: u8)
    ensures k as nat == LeadingOne(val)
  {
    Pow2Table();
    var n: u32 := 0;
    var x: u32 := val;
    if x <= 0x0000_FFFF {
      ShlBy(x, 16, 0x1_0000);
      n := n + 16;
      x := Shl(x, 16);
    }
    assert n == 16 && x == val * 0x1_0000;
    if x <= 0x00FF_FFFF {
      ShlBy(x, 8, 0x100);
      n := n + 8;
      x := Shl(x, 8);
    }
    assert n == 24 && x == val * 0x100_0000;
    if x <= 0x0FFF_FFFF {
      ShlBy(x, 4, 0x10);
      n := n + 4;
      x := Shl(x, 4);
    }
    assert val < 0x10 ==> n == 28 && x == val * 0x1000_0000;
    assert val >= 0x10 ==> n == 24 && x == val * 0x100_0000;
    if x <= 0x3FFF_FFFF {
      ShlBy(x, 2, 0x4);
      n := n + 2;
      x := Shl(x, 2);
    }
    assert val < 0x4 ==> n == 30 && x == val * 0x4000_0000;
    assert 0x4 <= val < 0x10 ==> n == 28 && x == val * 0x1000_0000;
    assert 0x10 <= val < 0x40 ==> n == 26 && x == val * 0x400_0000;
    assert 0x40 <= val ==> n == 24 && x == val * 0x100_0000;
    if x <= 0x7FFF_FFFF {
      n := n + 1;
    }
    ghost var t: int := LeadingOne(val);
    assert n == 31 - t by {
      if val < 0x4 {
      } else if val < 0x10 {
      } else if val < 0x40 {
      }
    }
    assert Sub(31, n) == t;
    k := Sub(31, n) % 0x100;
  }

  /** `x << s` on uint32_t when the product stays below 2^32, with p == 2^s given by the caller. */
  lemma ShlBy(x: u32, s: nat, p: nat)
    requires s < 32 && p == Pow2(s) && x * p < Two32
    ensures Shl(x, s) == x * p
  {
  }

  // ---------------------------------------------------------------------
  // ILM (lines 18-45)

  /**
   * The residue that lines 31-32 and 40 keep: x with its leading one
   * cleared, x - 2^LOD(x), and 1 for 0 (LOD(0) is 0, so the XOR sets bit
   * 0). ResidueIsXor shows that this is the XOR the source computes.
   */
  function Residue(x: u8): u8
  {
    if x == 0 then 1
    else
      LeadingOneBracket(x);
      x - Pow2(LeadingOne(x))
  }

  /**
   * Residue is x ^ (1 << LOD(x)) kept as uint8_t, and for x >= 1 it lies
   * below 2^LOD(x).
   */
  lemma ResidueIsXor(x: u8)
    ensures Residue(x) == Xor(x, Pow2(LeadingOne(x))) % 0x100
    ensures x >= 1 ==> Residue(x) < Pow2(LeadingOne(x))
  {
    ClearLeadingOne(x);
    LeadingOneBracket(x);
  }

  /** XOR with the leading one subtracts it; on 0 it sets bit 0. */
  lemma ClearLeadingOne(x: u8)
    ensures Xor(x, Pow2(LeadingOne(x))) == if x == 0 then 1 else x - Pow2(LeadingOne(x))
  {
    var k := LeadingOne(x);
    var p: int := Pow2(k);
    XorPow2(x, k);
    if x == 0 {
      assert p == 1;
      LowOfZero(k);
    } else {
      LeadingOneBracket(x);
      assert High(x, k) == 1 by {
        LowHigh(x, k);
        DivModUnique(x, p, 1, x - p);
      }
    }
  }

  /**
   * One Mitchell step on x and y, as lines 35 and 41 write it:
   * x * (1 << LOD(y)) + Residue(y) * (1 << LOD(x)), truncated to uint16_t.
   */
  function Step(x: u8, y: u8): u16
  {
    (x * Pow2(LeadingOne(y)) + Residue(y) * Pow2(LeadingOne(x))) % 0x1_0000
  }

  /** The step never wraps: the truncation to uint16_t on lines 35 and 41 loses nothing. */
  lemma StepSum(x: u8, y: u8)
    ensures Step(x, y) == x * Pow2(LeadingOne(y)) + Residue(y) * Pow2(LeadingOne(x))
  {
    var kx, ky := LeadingOne(x), LeadingOne(y);
    var sum: int := x * Pow2(ky) + Residue(y) * Pow2(kx);
    assert 0 <= sum < 0x1_0000 by {
      ScaledByte(x, ky);
      ScaledByte(Residue(y), kx);
    }
  }

  /**
   * For nonzero operands the step is x * y less the product of the
   * residues: (2^Kx + Rx) * (2^Ky + Ry) - Rx * Ry.
   */
  lemma StepValue(x: u8, y: u8)
    requires x >= 1 && y >= 1
    ensures Step(x, y) == x * y - Residue(x) * Residue(y)
    ensures 0 <= Residue(x) * Residue(y) <= 65025
  {
    StepSum(x, y);
    MitchellAlgebra(x, y, Pow2(LeadingOne(x)), Pow2(LeadingOne(y)), Residue(x), Residue(y));
    ByteProduct(Residue(x), Residue(y));
  }

  /** A byte times 2^k for k <= 7 stays within 255 * 2^7. */
  lemma ScaledByte(v: u8, k: nat)
    requires k <= 7
    ensures 0 <= v * Pow2(k) <= 255 * 0x80
  {
    var p: int := Pow2(k);
    assert p <= 0x80 by {
      Pow2Table();
      Pow2Monotone(k, 7);
    }
    MulLe(0, v, p);
    MulLe(v, 255, p);
    MulLe(p, 0x80, 255);
  }

  /** x * 2^Ky + Ry * 2^Kx == x * y - Rx * Ry when x == 2^Kx + Rx and y == 2^Ky + Ry. */
  lemma MitchellAlgebra(x: int, y: int, px: int, py: int, rx: int, ry: int)
    requires x == px + rx && y == py + ry
    ensures x * py + ry * px == x * y - rx * ry
  {
    assert x * y == x * py + x * ry;
    assert x * ry == px * ry + rx * ry;
  }

  /** The product of two bytes: 0 <= x * y <= 255 * 255. */
  lemma ByteProduct(x: u8, y: u8)
    ensures 0 <= x * y <= 65025
  {
    MulLe(0, x, y);
    MulLe(x, 255, y);
    MulLe(y, 255, 255);
  }

  /** A product with a zero factor is zero. */
  lemma ZeroFactor(x: int, y: int)
    ensures x == 0 || y == 0 ==> x * y == 0
  {
  }

  /**
   * ILM: 0 when an operand is 0; otherwise the first step on a and b, plus,
   * when iter == 2, the same step on the two residues; the sum is truncated
   * to uint16_t.
   */
  function Ilm(a: u8, b: u8, iter: u8): (p: u16)
    ensures a == 0 || b == 0 ==> p == 0
  {
    if a == 0 || b == 0 then 0
    else
      var prod0 := Step(a, b);
      var prod1 := if iter == 2 then Step(Residue(a), Residue(b)) else 0;
      (prod0 + prod1) % 0x1_0000
  }

  /** ILM on nonzero operands: the sum of the two steps, truncated to uint16_t. */
  lemma IlmOfNonzero(a: u8, b: u8, iter: u8)
    requires a >= 1 && b >= 1
    ensures var prod1: int := if iter == 2 then Step(Residue(a), Residue(b)) else 0;
      Ilm(a, b, iter) == (Step(a, b) + prod1) % 0x1_0000
  {
  }

  /** With iter == 2, ILM on nonzero operands sums both steps, truncated to uint16_t. */
  lemma BothSteps(a: u8, b: u8)
    requires a >= 1 && b >= 1
    ensures Ilm(a, b, 2) == (Step(a, b) as int + Step(Residue(a), Residue(b)) as int) % 0x1_0000
  {
  }

  /** Without the second iteration ILM returns the first step unchanged. */
  lemma FirstStepOnly(a: u8, b: u8, iter: u8)
    requires a >= 1 && b >= 1 && iter != 2
    ensures Ilm(a, b, iter) == Step(a, b)
  {
    IlmOfNonzero(a, b, iter);
    var prod0: int := Step(a, b);
    assert 0 <= prod0 < 0x1_0000;
  }

  /**
   * Any iteration count other than 2 (0 and 3 included) returns the first
   * step alone: a * b less the product of the residues, exact when either
   * operand is a power of two, at most a * b <= 65025.
   */
  lemma OneIteration(a: u8, b: u8, iter: u8)
    requires a >= 1 && b >= 1 && iter != 2
    ensures Ilm(a, b, iter) == a * b - Residue(a) * Residue(b)
    ensures Ilm(a, b, iter) <= a * b <= 65025
    ensures Residue(a) == 0 || Residue(b) == 0 ==> Ilm(a, b, iter) == a * b
  {
    FirstStepOnly(a, b, iter);
    StepValue(a, b);
    ByteProduct(a, b);
    ZeroFactor(Residue(a), Residue(b));
  }

  /**
   * With iter == 2 and both residues nonzero, the second step recovers all
   * of Residue(a) * Residue(b) but the product of the second residues, so
   * the result lies between the first step and a * b.
   */
  lemma TwoIterations(a: u8, b: u8)
    requires a >= 1 && b >= 1 && Residue(a) >= 1 && Residue(b) >= 1
    ensures var ra, rb := Residue(a), Residue(b);
      Ilm(a, b, 2) == a * b - Residue(ra) * Residue(rb)
    ensures a * b - Residue(a) * Residue(b) <= Ilm(a, b, 2) <= a * b
  {
    var ra, rb := Residue(a), Residue(b);
    var ab: int, rr: int := a as int * b as int, ra as int * rb as int;
    var ss: int := Residue(ra) as int * Residue(rb) as int;
    var p: int := Ilm(a, b, 2);
    assert p == ab - ss by {
      TwoStepsTelescope(a, b);
    }
    assert 0 <= ss <= rr by {
      StepValue(ra, rb);
    }
  }

  /** The sum of the two steps on nonzero residues: a * b less the product of the second residues. */
  lemma TwoStepsTelescope(a: u8, b: u8)
    requires a >= 1 && b >= 1 && Residue(a) >= 1 && Residue(b) >= 1
    ensures var ra, rb := Residue(a), Residue(b);
      Ilm(a, b, 2) == a * b - Residue(ra) * Residue(rb)
  {
    var ra, rb := Residue(a), Residue(b);
    var ab: int, rr: int := a as int * b as int, ra as int * rb as int;
    var ss: int := Residue(ra) as int * Residue(rb) as int;
    var prod0: int, prod1: int := Step(a, b), Step(ra, rb);
    assert prod0 == ab - rr by {
      StepValue(a, b);
    }
    assert prod1 == rr - ss && 0 <= ss by {
      StepValue(ra, rb);
    }
    assert ab <= 65025 by {
      ByteProduct(a, b);
    }
    BothSteps(a, b);
    Telescope(prod0, prod1, ab, rr, ss);
  }

  /** Two steps whose errors telescope: their sum is exact up to the last error, and fits uint16_t. */
  lemma Telescope(prod0: int, prod1: int, ab: int, rr: int, ss: int)
    requires prod0 == ab - rr && prod1 == rr - ss && 0 <= prod0 && 0 <= prod1 && 0 <= ss && ab <= 65025
    ensures (prod0 + prod1) % 0x1_0000 == ab - ss
  {
  }

  /** The worked example: 13 * 7 == 91 is approximated by 76 + 14 == 90. */
  lemma ThirteenTimesSeven()
    ensures Step(13, 7) == 76 && Ilm(13, 7, 2) == 90 && 90 <= 13 * 7
  {
    StepValue(13, 7);
    StepValue(5, 3);
    BothSteps(13, 7);
  }

  // ---------------------------------------------------------------------
  // A zero residue (lines 37-41)

  /**
   * The second step as written, when a residue is 0: LOD(0) is 0 and
   * Residue(0) is 1, so the step on (ra, 0) adds ra + 2^LOD(ra) and the
   * step on (0, rb) adds Residue(rb); the correction is not 0 although the
   * error it should cancel, ra * rb, is 0. The result then overshoots a * b.
   */
  lemma ZeroResidueOvershoots(a: u8, b: u8)
    requires a >= 1 && b >= 1 && (Residue(a) == 0 || Residue(b) == 0)
    ensures Ilm(a, b, 2) >= a * b
    ensures Residue(b) == 0 ==> Ilm(a, b, 2) > a * b
    ensures Residue(a) == 0 ==> Ilm(a, b, 2) == a * b + Residue(Residue(b))
  {
    var ra, rb := Residue(a), Residue(b);
    var ab: int := a as int * b as int;
    var prod0: int, prod1: int := Step(a, b), Step(ra, rb);
    assert prod0 == ab && ab <= 65025 by {
      StepValue(a, b);
      ZeroFactor(ra, rb);
      ByteProduct(a, b);
    }
    assert 0 <= prod1 <= 255 + 0x80 by {
      StepWithZero(ra);
      StepWithZero(rb);
    }
    assert rb == 0 ==> prod1 >= 1 by {
      StepWithZero(ra);
    }
    assert ra == 0 ==> prod1 == Residue(rb) by {
      StepWithZero(rb);
    }
    assert Ilm(a, b, 2) == ab + prod1 by {
      BothSteps(a, b);
      Overshoot(prod0, prod1, ab);
    }
  }

  /** An exact first step plus a small nonnegative correction does not wrap. */
  lemma Overshoot(prod0: int, prod1: int, ab: int)
    requires prod0 == ab && 0 <= ab <= 65025 && 0 <= prod1 <= 255 + 0x80
    ensures (prod0 + prod1) % 0x1_0000 == ab + prod1
  {
  }

  /**
   * A step with a zero operand, which the first step never sees but the
   * second one does: LOD(0) is 0 and Residue(0) is 1, so the step on (x, 0)
   * is x + 2^LOD(x) and the step on (0, x) is Residue(x).
   */
  lemma StepWithZero(x: u8)
    ensures Step(x, 0) == x + Pow2(LeadingOne(x)) && 1 <= Step(x, 0) <= 255 + 0x80
    ensures Step(0, x) == Residue(x)
  {
    var p: int := Pow2(LeadingOne(x));
    assert p <= 0x80 by {
      Pow2Table();
      Pow2Monotone(LeadingOne(x), 7);
    }
    assert LeadingOne(0) == 0 && Pow2(0) == 1;
    StepSum(x, 0);
    StepSum(0, x);
  }

  /** The two inputs that show it: 4 * 7 == 28 gives 29, and 3 * 4 == 12 gives 14. */
  lemma OvershootExamples()
    ensures Ilm(4, 7, 2) == 29 && 4 * 7 == 28
    ensures Ilm(3, 4, 2) == 14 && 3 * 4 == 12
  {
    ZeroResidueOvershoots(4, 7);
    ZeroResidueOvershoots(3, 4);
    StepWithZero(3);
  }

  /**
   * A zero residue of a does not always overshoot: when the residue of b is
   * a power of two the spurious term Residue(ResB) vanishes.
   */
  lemma ExactExamples()
    ensures Ilm(4, 6, 2) == 24 && Ilm(4, 5, 2) == 20
  {
    ZeroResidueOvershoots(4, 6);
    ZeroResidueOvershoots(4, 5);
  }

  /**
   * The multiplier as evidently intended: the second iteration only runs
   * on two nonzero residues (a zero residue means the first step was
   * already exact), so the result never exceeds a * b.
   */
  function IlmCorrected(a: u8, b: u8, iter: u8): (p: u16)
    ensures a == 0 || b == 0 ==> p == 0
  {
    if Residue(a) == 0 || Residue(b) == 0 then Ilm(a, b, 1) else Ilm(a, b, iter)
  }

  /**
   * The corrected multiplier is bounded by the exact product for every
   * input and every iteration count, is at least the first step, and is
   * exact when either operand is a power of two.
   */
  lemma CorrectedBound(a: u8, b: u8, iter: u8)
    requires a >= 1 && b >= 1
    ensures a * b - Residue(a) * Residue(b) <= IlmCorrected(a, b, iter) <= a * b
    ensures Residue(a) == 0 || Residue(b) == 0 ==> IlmCorrected(a, b, iter) == a * b
    ensures Residue(a) != 0 && Residue(b) != 0 ==> IlmCorrected(a, b, iter) == Ilm(a, b, iter)
  {
    if Residue(a) != 0 && Residue(b) != 0 {
      if iter == 2 {
        TwoIterations(a, b);
      } else {
        OneIteration(a, b, iter);
      }
    } else {
      OneIteration(a, b, 1);
    }
  }

  /** On the inputs that overshoot as written, the corrected multiplier is exact. */
  lemma CorrectedExamples()
    ensures IlmCorrected(4, 7, 2) == 28 && IlmCorrected(3, 4, 2) == 12
  {
    CorrectedBound(4, 7, 2);
    CorrectedBound(3, 4, 2);
  }
}
