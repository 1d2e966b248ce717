# Bit-exact binary32 multiplication, bfloat16 truncation and the iterative logarithmic multiplier

This project models the integer-only arithmetic of the Bfloat16 repository in Dafny.

- **`fp32_mul_core`**: a bit-exact IEEE 754 binary32 multiplier that works on raw `uint32_t` encodings. There are two copies:
  - the copy in `Exact_mult_stackoverflow.c` shifts `mantb` left by 8 before the 64-bit product;
  - the copy in `Exact_mult_bfloat16.cpp` shifts the product afterwards.
- **The differential test harness** of `Exact_mult_stackoverflow.c`:
  - the `ISNAN`/`QNAN` macros;
  - the in-place fill of the pattern pool `v[8192]`;
  - the rule that accepts a result against the hardware reference.
- **`float2bfloat`**: truncates a binary32 to bfloat16 by clearing the low 16 bits of the encoding.
- **`LOD` and `ILM` of `ILM.c`**:
  - `LOD` is a leading-one detector on 8-bit values;
  - `ILM` is Mitchell's logarithmic multiplier with an optional second, correcting iteration.

The modules:

- **`Word`**: C unsigned arithmetic on mathematical integers.
  - `u8`, `u16`, `u32` and `u64` are range subsets of `int`.
  - Wrap-around of `+`, `-` and `<<` is written as an explicit reduction modulo 2^32 (or 2^64).
  - The `(int32_t)` cast is the two's-complement view `Signed`.
  - `&`, `|`, `^` and `~` are recursive digit-wise functions, with lemmas that turn masks into `%` and `/`.
- **`Binary32`**: an independent reference for binary32 multiplication by IEEE 754-2019, written without bit operations. It covers:
  - the encoding of section 3.4;
  - roundTiesToEven of section 4.3.1, on an exact integer times a power of two;
  - NaN quieting of section 6.2;
  - the invalid operation 0 × ∞ of section 7.2;
  - overflow of section 7.4 and gradual underflow of section 7.5.

  `Product(a, b)` is that product, except that a NaN operand is returned quietened, the first one when both are NaN.

  Where IEEE 754 leaves a choice open, the module fixes the choice x86 SSE makes: 0 × ∞ gives the "real indefinite" 0xffc00000, and a NaN operand keeps its payload and sign. `Binary32.Permitted` is the set of results x86 SSE can deliver, not every result the standard allows. ARM, for instance, delivers 0x7fc00000 for 0 × ∞.
- **`ExactMult`**: `fp32_mul_core` as a method, in the same steps and branch order as the C code.
  - The subnormal renormalization do-while loop is its own method with loop invariants.
  - Each step is proved against the reference.
  - The method's contract is `r == Product(a, b)` for every pair of encodings.
- **`PatternPool`**: the pool fill as a method over an `array<u32>` of length 8192, written in the same loops, with the index counter `idx`. Lemmas state each class in closed form.
- **`Bfloat16`**:
  - `float2bfloat` on raw bits, with its properties;
  - the second copy of `fp32_mul_core`, with the post-multiply shift, proved to compute the same `Product`;
  - the fact that the product of two bfloat16 operands is exact in the normal range, so the multiplier adds no rounding increment.
- **`Ilm`**: `LOD` is a method with the five conditional shift steps. `ILM` is a function, with lemmas for its exact error, its bound and its overshoot.

Two definitions are stated by their meaning, and the code's own formulation is proved equal to them:

- `Ilm.LeadingOne` is given by ranges. `Ilm.Lod`, the shift algorithm, is proved to compute it.
- `Ilm.Residue` (`x - 2^LOD(x)`, and 1 for 0) is given by value. `Ilm.ResidueIsXor` proves it equal to the XOR `x ^ (1 << LOD(x))` that ILM.c computes.

`ILM` takes an iteration count. The comment at ILM.c:21-22 says "only two iterations supported":

- The code treats every count other than 2 like 1, including 0 and 3, and the model follows the code (`Ilm.FirstStepOnly`).
- The second iteration is meant to correct the first-order error, so the result should stay at or below the true product a*b, as Mitchell's method intends. The code overshoots when a residue is zero. The model reproduces the overshoot (see "- `Binary32.Permitted` and `ExactMult.AcceptedExactly` assume x86 NaN encodings. The acceptance rule at Exact_mult_stackoverflow.c:226-230 compares bit patterns, so against a conforming reference that returns another quiet NaN for 0 × ∞ (ARM's 0x7fc00000) or drops a payload, it would reject the multiplier's result. The model does not cover such references.

## Findings").

## Model

| member | source | states |
|---|---|---|
| ExactMult.Fp32MulCore | Exact_mult_stackoverflow.c:26-113 | for every pair of encodings the result is `Product(a, b)`: a NaN operand (first a, then b) quietened; otherwise 0 × ∞ gives 0xffc00000, zero gives a signed zero, infinity a signed infinity, and finite operands the ties-to-even rounding of the exact product with the XOR of the signs |
| ExactMult.MaskDefinitions | Exact_mult_stackoverflow.c:10-24 | the derived masks `FLOAT_MANT_MASK`, `EXPO_MASK`, `FLOAT_IMPLICIT_BIT`, `RND_BIT_MASK` and `~FLOAT_SIGN_MASK` have the values 0xffffff, 0xff, 2^23, 2^31 and 0x7fffffff |
| ExactMult.FieldsByMasks | Exact_mult_stackoverflow.c:33-36 | the shift-and-mask expressions extract the biased exponent, the significand with its integer bit, the bare trailing significand and the magnitude |
| ExactMult.OperandByMasks | Exact_mult_stackoverflow.c:33-61 | `expoa = field - 1` wraps for a zero field, so the special-case test is true exactly for zero/subnormal and for fields 254 and 255; the `(int32_t)` test picks out field 0; the magnitude comparisons are exactly the NaN, zero and infinity tests |
| ExactMult.SignByMasks | Exact_mult_stackoverflow.c:37-38 | `(a ^ b) & FLOAT_SIGN_MASK` is 0x80000000 exactly when the sign bits differ |
| ExactMult.SignOr | Exact_mult_stackoverflow.c:57-59 | OR-ing the sign into a magnitude below 2^31 adds it |
| ExactMult.IsNanMacro | Exact_mult_stackoverflow.c:143 | `ISNAN`: the encoding shifted left by one exceeds 0xff000000; `NanMacros` proves this is exactly the NaN test |
| ExactMult.QuietMacro | Exact_mult_stackoverflow.c:144 | `QNAN`: the encoding OR-ed with the quiet bit 2^22; `NanMacros` proves this is IEEE quieting |
| ExactMult.Accepted | Exact_mult_stackoverflow.c:226-230 | the acceptance test as written, with the macros; `AcceptedMeaning` states it in IEEE terms and `AcceptedExactly` relates it to `Permitted` |
| ExactMult.NanMacros | Exact_mult_stackoverflow.c:143-144 | `ISNAN(x)` holds exactly for NaN encodings, and `QNAN(x)` sets the quiet bit as IEEE quieting does |
| ExactMult.AcceptedMeaning | Exact_mult_stackoverflow.c:226-230 | a result is accepted iff it equals the reference, or both operands are NaN and it is one of them quietened |
| ExactMult.AcceptedExactly | Exact_mult_stackoverflow.c:226-230 | the multiplier's result is accepted against every reference an x86 SSE multiply can deliver (`Permitted`), and, unless both operands are NaN, against no other |
| ExactMult.RejectsOtherDefaultNaN | Exact_mult_stackoverflow.c:226-230 | for 0 × ∞ the multiplier returns 0xffc00000, and the rule rejects it against a reference that delivers the quiet NaN 0x7fc00000 instead |
| ExactMult.RoundIncrement | Exact_mult_stackoverflow.c:96 | the increment is 0 or 1, and it is 1 iff `mantr_lo > 2^31`, or `mantr_lo == 2^31` and `mantr_hi` is odd |
| ExactMult.RoundIncrementIsRoundShift | Exact_mult_stackoverflow.c:96 | `hi` plus the increment is `hi:lo` rounded ties-to-even at bit 32 |
| ExactMult.Doublings | Exact_mult_stackoverflow.c:65-68 | the number of doublings is in 1..23, and it brings a subnormal significand into [2^23, 2^24) |
| ExactMult.Renormalize | Exact_mult_stackoverflow.c:61-77 | the do-while loop terminates with the significand in [2^23, 2^24), doubled `Doublings` times, and the exponent decremented as often (mant × 2^expo is kept) |
| ExactMult.NormalizeProduct | Exact_mult_stackoverflow.c:84-91 | after normalization `mantr_hi` is in [2^23, 2^24); `hi:lo` is the product, shifted left by one exactly when it was below 2^55, and then `expor` is decremented |
| ExactMult.ProductRange | Exact_mult_stackoverflow.c:81-83 | the pre-shift does not wrap, and the 64-bit product lies in [2^54, 2^56) |
| ExactMult.RoundAndPack | Exact_mult_stackoverflow.c:92-111 | in all three exponent ranges (normal, overflow, underflow) the result is the sign plus the binary32 rounding of `hi:lo × 2^(expor - 181)` |
| ExactMult.PackNormal | Exact_mult_stackoverflow.c:92-96 | adding exponent field, sign, `mantr_hi` and the increment yields the rounded encoding, including a carry into infinity |
| ExactMult.ExponentField | Exact_mult_stackoverflow.c:94 | shifting a normal-range `expor` by 23 does not wrap |
| ExactMult.NormalRange | Exact_mult_stackoverflow.c:92-96 | for `expor` in 0..253, the packed fields plus the increment are the rounding of the exact value |
| ExactMult.OverflowRange | Exact_mult_stackoverflow.c:97-99 | for `(int32_t)expor > 253` the rounded product is infinity |
| ExactMult.UnderflowRange | Exact_mult_stackoverflow.c:100-111 | for a negative `expor` the rounded product is `hi:lo` shifted right by `32 - expor` with ties to even, at most 2^23 (a subnormal or the least normal) |
| ExactMult.ClampedShift | Exact_mult_stackoverflow.c:102-103 | after clamping, `shift = 0 - expor` lies in 1..25, so `32 - shift` is a legal shift count |
| ExactMult.UnderflowRounding | Exact_mult_stackoverflow.c:103 | clamping the shift to MAX_SHIFT does not change the rounded result |
| ExactMult.StickyRound | Exact_mult_stackoverflow.c:105-110 | the denormalized words with the sticky bit, rounded by the same increment, give `hi:lo` rounded ties-to-even at `32 + shift` bits |
| ExactMult.StickyHigh | Exact_mult_stackoverflow.c:106 | `mantr_hi >> shift` is the part of `hi:lo` above bit `32 + shift`; the discarded part is the old low word below the bits shifted out of hi |
| ExactMult.StickyTie | Exact_mult_stackoverflow.c:105 | the new low word compares with 2^31 exactly as the discarded part compares with one half |
| ExactMult.PackUnderflow | Exact_mult_stackoverflow.c:100-111 | the underflow branch yields the sign plus the rounded encoding |
| ExactMult.UnpackNormal | Exact_mult_stackoverflow.c:33-36 | a normal operand is split into a significand and an exponent that denote its value |
| ExactMult.UnpackSubnormal | Exact_mult_stackoverflow.c:61-77 | a renormalized subnormal operand's significand and wrapped exponent denote its value |
| ExactMult.ScaledProduct | Exact_mult_stackoverflow.c:80-91 | rounding the normalized product with the wrapped `expor` equals rounding the exact product of the operand values |
| ExactMult.TinyProduct | Exact_mult_stackoverflow.c:61-91 | when both operands are subnormal (only a is renormalized), both the code's pair and the exact product round to zero |
| ExactMult.FiniteProduct | Exact_mult_stackoverflow.c:79-91 | for finite nonzero operands, unpacked as lines 33-77 do, the normalized product rounds to the rounded exact product |
| Binary32.MultiplySign | Exact_mult_stackoverflow.c:37-38 | except for 0 × ∞, the sign of the product is the XOR of the operand signs, for zero and infinite results too |
| Binary32.QuietKeepsPayload | Exact_mult_stackoverflow.c:41-48 | quieting a NaN keeps its sign and payload and yields a quiet NaN; a quiet NaN is unchanged |
| Binary32.ProductPermitted | Exact_mult_stackoverflow.c:227-230 | the product is one of the results x86 SSE can deliver (`Permitted`: indefinite 0xffc00000 for 0 × ∞, a NaN operand quietened with payload and sign kept), and the only one unless both operands are NaN |
| Binary32.RoundShiftNearest | Exact_mult_stackoverflow.c:95-96 | the shifted-and-rounded value is within half a unit of the exact one, and is even on a tie |
| Binary32.EncodeDenotes | Exact_mult_stackoverflow.c:94 | a rounded significand and quantum encode a finite value with that significand and exponent (a carry to 2^24 moves up one binade), or infinity beyond the largest binade |
| Binary32.RoundScaled | Exact_mult_stackoverflow.c:81-91 | scaling the exact product by 2^k and the exponent by -k does not change its rounding |
| Binary32.RoundTiny | Exact_mult_stackoverflow.c:100-111 | a value below half the least subnormal, 2^-150, rounds to zero |
| PatternPool.Pattern | Exact_mult_stackoverflow.c:159-192 | entry n of the six classes in uint32_t arithmetic, indexed as the loops index it; `SingleClasses`, `SumClass`, `DifferenceClass` and `QuotientClass` state each class in closed form |
| PatternPool.FillPatterns | Exact_mult_stackoverflow.c:151-204 | `patterns == 6528 <= 8192`; `v[0..2176]` holds the six classes, `v[2176 + i] == ~v[i]`, `v[4352 + i] == ~v[i] + 1`, and the rest of v is unchanged |
| PatternPool.FillClasses | Exact_mult_stackoverflow.c:157-193 | `idx` ends at 2176 with `v[n] == Pattern(n)` for every class entry, and nothing else is written |
| PatternPool.FillOnesComplements | Exact_mult_stackoverflow.c:194-198 | the second block is the one's complement of the first, and nothing else is written |
| PatternPool.FillTwosComplements | Exact_mult_stackoverflow.c:199-204 | the third block is the two's complement of the first, and `idx` ends at 6528 |
| PatternPool.SingleClasses | Exact_mult_stackoverflow.c:159-173 | classes 1 to 3 hold 2^i, 2^i - 1 and 2^i + 1 without wrap-around |
| PatternPool.SumClass | Exact_mult_stackoverflow.c:174-180 | class 4 entry n holds 2^i + 2^j modulo 2^32 for its loop indices i and j |
| PatternPool.SumClassWraps | Exact_mult_stackoverflow.c:174-180 | a class 4 entry is 0 exactly for i == j == 31 |
| PatternPool.DifferenceClass | Exact_mult_stackoverflow.c:181-187 | class 5 entry n holds 2^i - 2^j modulo 2^32; it is 0 iff i == j and wraps only for i < j |
| PatternPool.QuotientClass | Exact_mult_stackoverflow.c:188-192 | class 6 entry i is 0xffffffff / (2^i + 1), which is never 0 |
| PatternPool.QuotientExamples | Exact_mult_stackoverflow.c:188-192 | the blocks of zeros and ones: 0x7fffffff, 0x55555555, 0x33333333, 0x0f0f0f0f, 0x00ff00ff, 0x0000ffff |
| PatternPool.Complements | Exact_mult_stackoverflow.c:194-203 | `~x + 1` is the two's complement `0 - x` and cancels x; `~~x == x` |
| Bfloat16.Float2Bfloat | Exact_mult_bfloat16.cpp:29-39 | the result has a zero low half and the same high half as the source |
| Bfloat16.HighHalfMask | Exact_mult_bfloat16.cpp:36-37 | `src & 0xffff0000` subtracts the low half and keeps the high half |
| Bfloat16.Float2BfloatTruncates | Exact_mult_bfloat16.cpp:29-39 | the conversion subtracts the low half; it returns a bfloat16, and it returns its argument iff that is already a bfloat16 |
| Bfloat16.Float2BfloatIdempotent | Exact_mult_bfloat16.cpp:29-39 | converting twice is converting once |
| Bfloat16.Float2BfloatFields | Exact_mult_bfloat16.cpp:29-39 | sign and biased exponent are unchanged, the trailing significand loses its low 16 bits, and the magnitude never grows |
| Bfloat16.TruncatedFields | Exact_mult_bfloat16.cpp:29-39 | the trailing significand becomes 0 iff it was below 2^16 |
| Bfloat16.Float2BfloatClasses | Exact_mult_bfloat16.cpp:29-39 | zeros stay zeros, infinities are unchanged, normals stay normal, and a NaN becomes infinity iff its payload lies in the low 16 bits (else it stays NaN) |
| Bfloat16.NanBecomesInfinity | Exact_mult_bfloat16.cpp:29-39 | a NaN with payload only in the low half becomes the infinity of its sign |
| Bfloat16.LeastNanBecomesInfinity | Exact_mult_bfloat16.cpp:29-39 | 0x7f800001 becomes 0x7f800000 |
| Bfloat16.PostShiftEqualsPreShift | Exact_mult_bfloat16.cpp:96-99 | `(manta * mantb) << 8` in 64 bits loses no bit and equals `manta * (mantb << 8)`, the other copy's product |
| Bfloat16.Fp32MulCore | Exact_mult_bfloat16.cpp:41-129 | the same special-case dispatch in the same order, the product shifted after multiplying, and the same result `Product(a, b)` as ExactMult.Fp32MulCore on every pair of encodings |
| Bfloat16.BfloatSignificand | Exact_mult_bfloat16.cpp:50-91 | for a bfloat16 operand, the significand the multiplier holds (with integer bit, or renormalized) is a multiple of 2^16 |
| Bfloat16.NoRoundingIncrement | Exact_mult_bfloat16.cpp:98-112 | with both significands multiples of 2^16, `mantr_lo` is 0 after normalization, and the normal-range rounding increment is 0 |
| Bfloat16.BfloatProductExact | Exact_mult_bfloat16.cpp:98-112 | for two nonzero finite bfloat16 operands whose product is not in the subnormal range, the quantum lies at or above the exact product's exponent and the rounded significand times 2^(quantum - exponent) is the exact product: no bit is rounded away |
| Ilm.LeadingOneBracket | ILM.c:7-16 | for 1..255, 2^LOD(v) <= v < 2^(LOD(v)+1); LOD(0) == 0 |
| Ilm.LeadingOneIsLog2 | ILM.c:7-16 | for v >= 1, LOD(v) is the floor of log2 v |
| Ilm.Lod | ILM.c:7-16 | the five conditional shift steps return `31 - n` equal to LeadingOne(val), so in [0, 7], and 0 for val == 0 |
| Ilm.Residue | ILM.c:31-32 | `ResA`, `ResB` (and `Res2B` at line 40): x with its leading one cleared, x - 2^LOD(x), and 1 for x == 0; `ResidueIsXor` proves it equal to the XOR the code computes |
| Ilm.ResidueIsXor | ILM.c:31-32 | `x ^ (1 << LOD(x))` truncated to uint8_t is the residue `x - 2^LOD(x)`, below 2^LOD(x) (and 1 for x == 0) |
| Ilm.Step | ILM.c:35 | one Mitchell step `x * (1 << LOD(y)) + Residue(y) * (1 << LOD(x))` truncated to uint16_t, the shape of lines 35 and 41; `StepSum` and `StepValue` give its value |
| Ilm.StepSum | ILM.c:35 | the uint16_t sum `x * 2^Ky + Ry * 2^Kx` never wraps |
| Ilm.StepValue | ILM.c:35 | for x, y >= 1, one step yields x*y - Rx*Ry, with 0 <= Rx*Ry <= 65025 |
| Ilm.StepWithZero | ILM.c:38-41 | a step with a zero operand gives x + 2^LOD(x) (at least 1) or the residue of x, since LOD(0) == 0 |
| Ilm.Ilm | ILM.c:18-45 | ILM returns 0 whenever a == 0 or b == 0, for any iter |
| Ilm.FirstStepOnly | ILM.c:36-44 | for every iter != 2 (including 0 and 3) the result is prod0 alone |
| Ilm.OneIteration | ILM.c:35-44 | with iter != 2 the result is a*b - ResA*ResB, at most a*b <= 65025, and exact when a residue is 0 (an operand is a power of two) |
| Ilm.TwoIterations | ILM.c:37-44 | with iter == 2 and both residues nonzero, the result is a*b - Residue(ResA)*Residue(ResB), which lies between the first-order result a*b - ResA*ResB and a*b |
| Ilm.ThirteenTimesSeven | ILM.c:18-45 | ILM(13,7,2) == 76 + 14 == 90 <= 91 |
| Ilm.ZeroResidueOvershoots | ILM.c:37-44 | with iter == 2 and a zero residue the result is at least a*b: above it when ResB == 0, and a*b + Residue(ResB) when ResA == 0 |
| Ilm.OvershootExamples | ILM.c:37-44 | ILM(4,7,2) == 29 > 28 and ILM(3,4,2) == 14 > 12 |
| Ilm.ExactExamples | ILM.c:37-44 | with a zero `ResA` and a power-of-two `ResB` the second iteration adds nothing: ILM(4,6,2) == 24 and ILM(4,5,2) == 20 |
| Ilm.IlmCorrected | ILM.c:18-45 | the corrected multiplier returns 0 for a zero operand |
| Ilm.CorrectedBound | ILM.c:18-45 | the corrected multiplier lies between a*b - ResA*ResB and a*b, is exact when a residue is 0, and agrees with ILM when both residues are nonzero |
| Ilm.CorrectedExamples | ILM.c:37-44 | the corrected multiplier gives 28 for (4,7,2) and 12 for (3,4,2) |

## Left out

- `float_as_uint`, `uint_as_float` and `fp32_mul` (Exact_mult_stackoverflow.c:115-132, Exact_mult_bfloat16.cpp:131-148) are left out. They are `memcpy` reinterpretations between `float` and `uint32_t`, and operands are taken as raw encodings directly.
- The native reference `ref = a * b` and the hardware float multiply are not modelled. Only the acceptance rule over the four given bit patterns is. `Binary32.Product` plays the role of the reference in the proofs.
- The KISS generator, the infinite fuzz loop and its progress output (Exact_mult_stackoverflow.c:134-141, 206-238) are left out. They are a random source and unbounded driver I/O.
- The overlay of random sign and exponent bits onto pool entries (line 220) is left out. The fuzz loop is left out, and that mode is disabled by `TEST_MODE`.
- `RandomFloat`, the relative-error accumulation and the log file (Exact_mult_bfloat16.cpp:161-217) are left out. They are floating-point numerics, `rand()` and file I/O.
- The endianness-dependent aliasing of `float2bfloat` through `uint16_t` views of the two floats is not modelled. Both byte orders copy the 16-bit half that holds sign, exponent and the top fraction bits, and the model gives that effect on the encoding, `src & 0xffff0000`.
- Exact_mult.cpp is not part of this model. It repeats `float2bfloat` with a `printf` driver.
- The `main` of ILM.c (lines 47-72) is left out: `srand(time(0))`, `rand()` and file logging.

- `Binary32.Permitted` and `ExactMult.AcceptedExactly` assume x86 NaN encodings. The acceptance rule at Exact_mult_stackoverflow.c:226-230 compares bit patterns, so against a conforming reference that returns another quiet NaN for 0 × ∞ (ARM's 0x7fc00000) or drops a payload, it would reject the multiplier's result. The model does not cover such references.

## Findings

| source | as written | input that shows it | evidently intended | confidence | as-written member | corrected member |
|---|---|---|---|---|---|---|
| ILM.c:37-44 | with `iter == 2` and a zero residue, `LOD(0) == 0` makes `1 << Ka` (or `1 << Kb`) equal to 1. The result is then at least a*b. When `ResB == 0`, `Res2B = 0 ^ 1 == 1` and `prod1` is ResA + 2^LOD(ResA), at least 1, so the result is strictly above a*b. When `ResA == 0`, `prod1` is Residue(ResB), so the result is a*b + Residue(ResB): exact when `ResB` is a nonzero power of two (ILM(4,6,2) == 24), above a*b otherwise | ILM(4,7,2) == 29 > 28 and ILM(3,4,2) == 14 > 12 | the second iteration corrects an error term ResA*ResB that is 0 here, so it should add nothing and the result should never exceed a*b | not executed | Ilm.ZeroResidueOvershoots, Ilm.OvershootExamples | Ilm.IlmCorrected, Ilm.CorrectedBound |
