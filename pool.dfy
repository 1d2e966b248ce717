/**
 * The pattern pool of the differential harness in Exact_mult_stackoverflow.c:
 * the global array v[8192] is filled in place with structured bit patterns
 * (six classes driven by shifts of 1), followed by the one's complement and
 * the two's complement of every entry of those classes.
 */
module PatternPool {
  import opened Word

  /** sizeof (uint32_t) * CHAR_BIT */
  const NbrBits: u32 := 32
  /** The length of the global array v. */
  const PoolCapacity: nat := 8192
  /** Entries of the six structural classes: 3 * 32 + 2 * 32 * 32 + 32. */
  const ClassPatterns: nat := 2176
  /** All entries: the classes, their one's complements and their two's complements. */
  const AllPatterns: nat := 3 * ClassPatterns

  /**
   * Entry n of the structural classes, as the loops write it: 2^i, 2^i - 1,
   * 2^i + 1, 2^i + 2^j, 2^i - 2^j (with i the outer and j the inner loop
   * index) and 0xffffffff / (2^i + 1), in uint32_t arithmetic.
   */
  function Pattern(n: nat): u32
    requires n < ClassPatterns
  {
    if n < 32 then Shl(1, n)
    else if n < 64 then Sub(Shl(1, n - 32), 1)
    else if n < 96 then Add(Shl(1, n - 64), 1)
    else if n < 1120 then Add(Shl(1, (n - 96) / 32), Shl(1, (n - 96) % 32))
    else if n < 2144 then Sub(Shl(1, (n - 1120) / 32), Shl(1, (n - 1120) % 32))
    else Not(0) / Add(Shl(1, n - 2144), 1)
  }

  /**
   * The prologue of main, lines 157-204: six loops over i (two of them with
   * an inner loop over j) append the classes at idx, then two loops append
   * ~v[i] and ~v[i] + 1 for every class entry. All 6528 writes stay inside
   * v, and the tail of v is not touched.
   */
  method FillPatterns(v: array<u32>) returns (patterns: u32)
    requires v.Length == PoolCapacity
    modifies v
    ensures patterns as nat == AllPatterns <= PoolCapacity
    ensures forall n :: 0 <= n < ClassPatterns ==> v[n] == Pattern(n)
    ensures forall n :: ClassPatterns <= n < 2 * ClassPatterns ==> v[n] == Not(v[n - ClassPatterns])
    ensures forall n :: 2 * ClassPatterns <= n < AllPatterns ==>
      v[n] == Add(Not(v[n - 2 * ClassPatterns]), 1)
    ensures forall n :: AllPatterns <= n < PoolCapacity ==> v[n] == old(v[n])
  {
    var idx := FillClasses(v);
    patterns := idx;
    idx := FillOnesComplements(v, patterns);
    idx := FillTwosComplements(v, patterns);
    patterns := idx;
  }

  /** Lines 157-193: the six structural classes, written to v[0..2176]. */
  method FillClasses(v: array<u32>) returns (idx: u32)
    requires v.Length == PoolCapacity
    modifies v
    ensures idx as nat == ClassPatterns
    ensures forall n :: 0 <= n < ClassPatterns ==> v[n] == Pattern(n)
    ensures forall n :: ClassPatterns <= n < PoolCapacity ==> v[n] == old(v[n])
  {
    idx := 0;
    var i: u32;
    // pattern class 1: 2**i
    i := 0;
    while i < NbrBits
      invariant i <= 32 && idx == i
      invariant forall n :: 0 <= n < idx ==> v[n] == Pattern(n)
      invariant forall n :: ClassPatterns <= n < PoolCapacity ==> v[n] == old(v[n])
    {
      v[idx] := Shl(1, i);
      idx := idx + 1;
      i := i + 1;
    }
    // pattern class 2: 2**i-1
    i := 0;
    while i < NbrBits
      invariant i <= 32 && idx == 32 + i
      invariant forall n :: 0 <= n < idx ==> v[n] == Pattern(n)
      invariant forall n :: ClassPatterns <= n < PoolCapacity ==> v[n] == old(v[n])
    {
      v[idx] := Sub(Shl(1, i), 1);
      idx := idx + 1;
      i := i + 1;
    }
    // pattern class 3: 2**i+1
    i := 0;
    while i < NbrBits
      invariant i <= 32 && idx == 64 + i
      invariant forall n :: 0 <= n < idx ==> v[n] == Pattern(n)
      invariant forall n :: ClassPatterns <= n < PoolCapacity ==> v[n] == old(v[n])
    {
      v[idx] := Add(Shl(1, i), 1);
      idx := idx + 1;
      i := i + 1;
    }
    // pattern class 4: 2**i + 2**j
    i := 0;
    while i < NbrBits
      invariant i <= 32 && idx == 96 + 32 * i
      invariant forall n :: 0 <= n < idx ==> v[n] == Pattern(n)
      invariant forall n :: ClassPatterns <= n < PoolCapacity ==> v[n] == old(v[n])
    {
      var j: u32 := 0;
      while j < NbrBits
        invariant j <= 32 && idx == 96 + 32 * i + j
        invariant forall n :: 0 <= n < idx ==> v[n] == Pattern(n)
        invariant forall n :: ClassPatterns <= n < PoolCapacity ==> v[n] == old(v[n])
      {
        PairIndex(96, i, j);
        v[idx] := Add(Shl(1, i), Shl(1, j));
        idx := idx + 1;
        j := j + 1;
      }
      i := i + 1;
    }
    // pattern class 5: 2**i - 2**j
    i := 0;
    while i < NbrBits
      invariant i <= 32 && idx == 1120 + 32 * i
      invariant forall n :: 0 <= n < idx ==> v[n] == Pattern(n)
      invariant forall n :: ClassPatterns <= n < PoolCapacity ==> v[n] == old(v[n])
    {
      var j: u32 := 0;
      while j < NbrBits
        invariant j <= 32 && idx == 1120 + 32 * i + j
        invariant forall n :: 0 <= n < idx ==> v[n] == Pattern(n)
        invariant forall n :: ClassPatterns <= n < PoolCapacity ==> v[n] == old(v[n])
      {
        PairIndex(1120, i, j);
        v[idx] := Sub(Shl(1, i), Shl(1, j));
        idx := idx + 1;
        j := j + 1;
      }
      i := i + 1;
    }
    // pattern class 6: MAX_UINT/(2**i+1)
    i := 0;
    while i < NbrBits
      invariant i <= 32 && idx == 2144 + i
      invariant forall n :: 0 <= n < idx ==> v[n] == Pattern(n)
      invariant forall n :: ClassPatterns <= n < PoolCapacity ==> v[n] == old(v[n])
    {
      v[idx] := Not(0) / Add(Shl(1, i), 1);
      idx := idx + 1;
      i := i + 1;
    }
  }

  /** Lines 194-198: ~v[i] for every class entry, appended at idx = patterns. */
  method FillOnesComplements(v: array<u32>, patterns: u32) returns (idx: u32)
    requires v.Length == PoolCapacity && patterns as nat == ClassPatterns
    modifies v
    ensures idx as nat == 2 * ClassPatterns
    ensures forall n :: 0 <= n < ClassPatterns ==> v[n] == old(v[n])
    ensures forall n :: ClassPatterns <= n < 2 * ClassPatterns ==> v[n] == Not(v[n - ClassPatterns])
    ensures forall n :: 2 * ClassPatterns <= n < PoolCapacity ==> v[n] == old(v[n])
  {
    idx := patterns;
    var i: u32 := 0;
    while i < patterns
      invariant i <= patterns && idx == patterns + i
      invariant forall n :: 0 <= n < ClassPatterns ==> v[n] == old(v[n])
      invariant forall n :: ClassPatterns <= n < idx ==> v[n] == Not(v[n - ClassPatterns])
      invariant forall n :: 2 * ClassPatterns <= n < PoolCapacity ==> v[n] == old(v[n])
    {
      v[idx] := Not(v[i]);
      idx := idx + 1;
      i := i + 1;
    }
  }

  /** Lines 199-203: ~v[i] + 1 for every class entry, appended at idx = 2 * patterns. */
  method FillTwosComplements(v: array<u32>, patterns: u32) returns (idx: u32)
    requires v.Length == PoolCapacity && patterns as nat == ClassPatterns
    modifies v
    ensures idx as nat == AllPatterns
    ensures forall n :: 0 <= n < 2 * ClassPatterns ==> v[n] == old(v[n])
    ensures forall n :: 2 * ClassPatterns <= n < AllPatterns ==>
      v[n] == Add(Not(v[n - 2 * ClassPatterns]), 1)
    ensures forall n :: AllPatterns <= n < PoolCapacity ==> v[n] == old(v[n])
  {
    idx := 2 * patterns;
    var i: u32 := 0;
    while i < patterns
      invariant i <= patterns && idx == 2 * patterns + i
      invariant forall n :: 0 <= n < 2 * ClassPatterns ==> v[n] == old(v[n])
      invariant forall n :: 2 * ClassPatterns <= n < idx ==> v[n] == Add(Not(v[n - 2 * ClassPatterns]), 1)
      invariant forall n :: AllPatterns <= n < PoolCapacity ==> v[n] == old(v[n])
    {
      v[idx] := Add(Not(v[i]), 1);
      idx := idx + 1;
      i := i + 1;
    }
  }

  /** The flat index base + 32 * i + j of the nested loops recovers i and j. */
  lemma PairIndex(base: nat, i: nat, j: nat)
    requires j < 32
    ensures (base + 32 * i + j - base) / 32 == i && (base + 32 * i + j - base) % 32 == j
  {
    DivModUnique(32 * i + j, 32, i, j);
  }

  // ---------------------------------------------------------------------
  // What the entries are

  /** 1 << i is 2^i for every shift count the loops use. */
  lemma ShlOne(i: nat)
    requires i < 32
    ensures Shl(1, i) == Pow2(i) && Pow2(i) <= 0x8000_0000
  {
    Pow2Table();
    Pow2Monotone(i, 31);
  }

  /** Classes 1 to 3: 2^i, 2^i - 1 and 2^i + 1, none of which wraps. */
  lemma SingleClasses(i: nat)
    requires i < 32
    ensures Pattern(i) == Pow2(i)
    ensures Pattern(32 + i) == Pow2(i) - 1
    ensures Pattern(64 + i) == Pow2(i) + 1
  {
    ShlOne(i);
  }

  /**
   * Class 4: entry n holds 2^i + 2^j modulo 2^32 for the loop indices
   * i = (n - 96) / 32 and j = (n - 96) % 32 (PairIndex).
   */
  lemma SumClass(n: nat)
    requires 96 <= n < 1120
    ensures Pattern(n) == (Pow2((n - 96) / 32) + Pow2((n - 96) % 32)) % Two32
  {
    ShlOne((n - 96) / 32);
    ShlOne((n - 96) % 32);
  }

  /** The sum 2^i + 2^j wraps to 0 only for the last entry of class 4, i == j == 31. */
  lemma SumClassWraps(n: nat)
    requires 96 <= n < 1120
    ensures Pattern(n) == 0 <==> (n - 96) / 32 == 31 && (n - 96) % 32 == 31
  {
    SumClass(n);
    PowerSumWraps((n - 96) / 32, (n - 96) % 32);
  }

  /** Two powers of two below 2^32 add up to a multiple of 2^32 only when both are 2^31. */
  lemma PowerSumWraps(i: nat, j: nat)
    requires i < 32 && j < 32
    ensures (Pow2(i) + Pow2(j)) % Two32 == 0 <==> i == 31 && j == 31
  {
    assert 1 <= Pow2(i) <= 0x8000_0000 && 1 <= Pow2(j) <= 0x8000_0000 by {
      ShlOne(i);
      ShlOne(j);
    }
    assert Pow2(i) == 0x8000_0000 <==> i == 31 by {
      BelowTop(i);
    }
    assert Pow2(j) == 0x8000_0000 <==> j == 31 by {
      BelowTop(j);
    }
    WrapsAtTop(Pow2(i), Pow2(j));
  }

  /** Two numbers in 1..2^31 add up to a multiple of 2^32 only when both are 2^31. */
  lemma WrapsAtTop(x: nat, y: nat)
    requires 1 <= x <= 0x8000_0000 && 1 <= y <= 0x8000_0000
    ensures (x + y) % Two32 == 0 <==> x == 0x8000_0000 && y == 0x8000_0000
  {
    if x + y < Two32 {
      DivModUnique(x + y, Two32, 0, x + y);
    } else {
      DivModUnique(x + y, Two32, 1, 0);
    }
  }

  /**
   * Class 5: entry n holds 2^i - 2^j modulo 2^32 for i = (n - 1120) / 32
   * and j = (n - 1120) % 32; it is 0 exactly when i == j, and it wraps
   * exactly when i < j.
   */
  lemma DifferenceClass(n: nat)
    requires 1120 <= n < 2144
    ensures Pattern(n) == (Pow2((n - 1120) / 32) - Pow2((n - 1120) % 32)) % Two32
    ensures Pattern(n) == 0 <==> (n - 1120) / 32 == (n - 1120) % 32
    ensures (n - 1120) / 32 >= (n - 1120) % 32 ==>
      Pattern(n) == Pow2((n - 1120) / 32) - Pow2((n - 1120) % 32)
  {
    var i, j := (n - 1120) / 32, (n - 1120) % 32;
    ShlOne(i);
    ShlOne(j);
    assert (Pow2(i) == Pow2(j) <==> i == j) && (i >= j ==> Pow2(i) >= Pow2(j)) by {
      if i < j {
        Pow2StrictMonotone(i, j);
      } else if j < i {
        Pow2StrictMonotone(j, i);
      }
    }
  }

  /** Below 2^31, a power of two is at most 2^30. */
  lemma BelowTop(i: nat)
    requires i < 32
    ensures Pow2(i) == 0x8000_0000 <==> i == 31
    ensures i < 31 ==> Pow2(i) <= 0x4000_0000
  {
    Pow2Table();
    if i < 31 {
      Pow2Monotone(i, 30);
      assert Pow2(31) == 2 * Pow2(30);
    }
  }

  /** Class 6: entry n holds 0xffffffff / (2^i + 1) for i = n - 2144, never 0 since the divisor is at most 2^31 + 1. */
  lemma QuotientClass(n: nat)
    requires 2144 <= n < ClassPatterns
    ensures Pattern(n) == 0xFFFF_FFFF / (Pow2(n - 2144) + 1)
    ensures Pattern(n) >= 1
  {
    var d := Pow2(n - 2144) + 1;
    assert Add(Shl(1, n - 2144), 1) == d <= 0x8000_0001 by {
      ShlOne(n - 2144);
    }
  }

  /** The quotients are the repeating bit patterns 0111..., 0101..., 0011..., and so on. */
  lemma QuotientExamples()
    ensures Pattern(2144) == 0x7FFF_FFFF
    ensures Pattern(2145) == 0x5555_5555
    ensures Pattern(2146) == 0x3333_3333
    ensures Pattern(2148) == 0x0F0F_0F0F
    ensures Pattern(2152) == 0x00FF_00FF
    ensures Pattern(2160) == 0x0000_FFFF
  {
    assert Pattern(2144) == 0x7FFF_FFFF by {
      QuotientClass(2144);
    }
    assert Pattern(2145) == 0x5555_5555 by {
      QuotientClass(2145);
      assert Pow2(1) == 2;
    }
    assert Pattern(2146) == 0x3333_3333 by {
      QuotientClass(2146);
      assert Pow2(2) == 4;
    }
    assert Pattern(2148) == 0x0F0F_0F0F by {
      QuotientClass(2148);
      assert Pow2(4) == 16;
    }
    assert Pattern(2152) == 0x00FF_00FF by {
      QuotientClass(2152);
      Pow2Table();
    }
    assert Pattern(2160) == 0x0000_FFFF by {
      QuotientClass(2160);
      Pow2Table();
    }
  }

  /**
   * The second complement block holds ~x + 1, which is the uint32_t
   * negation of x, and ~ undoes itself; so the pool is closed under both
   * complements of every class entry.
   */
  lemma Complements(x: u32)
    ensures Add(Not(x), 1) == Sub(0, x)
    ensures Add(Add(Not(x), 1), x) == 0
    ensures Not(Not(x)) == x
    ensures x != 0 ==> Sub(0, x) == Two32 - x
  {
  }
}

