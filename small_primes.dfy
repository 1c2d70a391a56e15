/**
 * The table of small primes a PreSieve can pre-sieve, the clamping of a
 * requested limit to that table, and the product of the primes up to a
 * limit (the period of the wheel pattern).
 */
module PrimeTable {
  import opened Arith

  /** The 9 small primes, in increasing order (smallPrimes_). */
  const SmallPrimes: seq<nat> := [2, 3, 5, 7, 11, 13, 17, 19, 23]

  /** The largest limit; above it the wheel would no longer fit in memory or in 32 bits. */
  const MaxLimit: nat := 23

  /** The smallest limit: 2, 3 and 5 are always in the product, so it is a multiple of 30. */
  const MinLimit: nat := 5

  /** One past the largest uint32_t value. */
  const Uint32Bound: nat := 0x1_0000_0000

  /** The product for the largest limit, 2 * 3 * 5 * ... * 23. */
  const MaxPrimeProduct: nat := 223092870

  /** Some d with lo <= d < hi divides n. */
  predicate HasDivisorIn(n: nat, lo: nat, hi: nat)
    requires lo >= 1
    decreases hi - lo
  {
    lo < hi && (n % lo == 0 || HasDivisorIn(n, lo + 1, hi))
  }

  predicate IsPrime(n: nat) {
    n >= 2 && !HasDivisorIn(n, 2, n)
  }

  /** The primes below n, in increasing order. */
  function PrimesBelow(n: nat): seq<nat> {
    if n == 0 then [] else PrimesBelow(n - 1) + (if IsPrime(n - 1) then [n - 1] else [])
  }

  lemma {:induction false} PrimesBelowMembers(n: nat, x: nat)
    ensures x in PrimesBelow(n) <==> x < n && IsPrime(x)
  {
    if n > 0 {
      PrimesBelowMembers(n - 1, x);
    }
  }

  // Primality of the table entries, unfolded a few divisors at a time.
  lemma Prime7()
    ensures IsPrime(7)
  {
    assert !HasDivisorIn(7, 4, 7);
  }

  lemma Prime11()
    ensures IsPrime(11)
  {
    assert !HasDivisorIn(11, 8, 11);
    assert !HasDivisorIn(11, 5, 11);
  }

  lemma Prime13()
    ensures IsPrime(13)
  {
    assert !HasDivisorIn(13, 10, 13);
    assert !HasDivisorIn(13, 7, 13);
    assert !HasDivisorIn(13, 4, 13);
  }

  lemma Prime17()
    ensures IsPrime(17)
  {
    assert !HasDivisorIn(17, 14, 17);
    assert !HasDivisorIn(17, 11, 17);
    assert !HasDivisorIn(17, 8, 17);
    assert !HasDivisorIn(17, 5, 17);
  }

  lemma Prime19()
    ensures IsPrime(19)
  {
    assert !HasDivisorIn(19, 16, 19);
    assert !HasDivisorIn(19, 13, 19);
    assert !HasDivisorIn(19, 10, 19);
    assert !HasDivisorIn(19, 7, 19);
    assert !HasDivisorIn(19, 4, 19);
  }

  lemma Prime23()
    ensures IsPrime(23)
  {
    assert !HasDivisorIn(23, 20, 23);
    assert !HasDivisorIn(23, 17, 23);
    assert !HasDivisorIn(23, 14, 23);
    assert !HasDivisorIn(23, 11, 23);
    assert !HasDivisorIn(23, 8, 23);
    assert !HasDivisorIn(23, 5, 23);
  }

  lemma PrimesBelow4()
    ensures PrimesBelow(4) == [2, 3]
  {
    assert PrimesBelow(1) == [];
    assert PrimesBelow(2) == [];
    assert PrimesBelow(3) == [2];
  }

  lemma PrimesBelow8()
    ensures PrimesBelow(8) == [2, 3, 5, 7]
  {
    PrimesBelow4();
    assert PrimesBelow(5) == [2, 3];
    assert PrimesBelow(6) == [2, 3, 5];
    assert PrimesBelow(7) == [2, 3, 5];
    Prime7();
  }

  lemma PrimesBelow12()
    ensures PrimesBelow(12) == [2, 3, 5, 7, 11]
  {
    PrimesBelow8();
    assert PrimesBelow(9) == [2, 3, 5, 7];
    assert PrimesBelow(10) == [2, 3, 5, 7];
    assert PrimesBelow(11) == [2, 3, 5, 7];
    Prime11();
  }

  lemma PrimesBelow16()
    ensures PrimesBelow(16) == [2, 3, 5, 7, 11, 13]
  {
    PrimesBelow12();
    assert PrimesBelow(13) == [2, 3, 5, 7, 11];
    Prime13();
    assert PrimesBelow(14) == [2, 3, 5, 7, 11, 13];
    assert PrimesBelow(15) == [2, 3, 5, 7, 11, 13];
  }

  lemma PrimesBelow20()
    ensures PrimesBelow(20) == [2, 3, 5, 7, 11, 13, 17, 19]
  {
    PrimesBelow16();
    assert PrimesBelow(17) == [2, 3, 5, 7, 11, 13];
    Prime17();
    assert PrimesBelow(18) == [2, 3, 5, 7, 11, 13, 17];
    assert PrimesBelow(19) == [2, 3, 5, 7, 11, 13, 17];
    Prime19();
  }

  lemma PrimesBelow24()
    ensures PrimesBelow(24) == [2, 3, 5, 7, 11, 13, 17, 19, 23]
  {
    PrimesBelow20();
    assert PrimesBelow(21) == [2, 3, 5, 7, 11, 13, 17, 19];
    assert PrimesBelow(22) == [2, 3, 5, 7, 11, 13, 17, 19];
    assert PrimesBelow(23) == [2, 3, 5, 7, 11, 13, 17, 19];
    Prime23();
  }

  /** The table is strictly increasing and ends at MaxLimit. */
  lemma SmallPrimesIncreasing()
    ensures |SmallPrimes| == 9 && SmallPrimes[|SmallPrimes| - 1] == MaxLimit
    ensures forall i, j :: 0 <= i < j < |SmallPrimes| ==> SmallPrimes[i] < SmallPrimes[j]
  {}

  /** The table holds exactly the primes up to MaxLimit. */
  lemma SmallPrimesExactly(x: nat)
    ensures x in SmallPrimes <==> x <= MaxLimit && IsPrime(x)
  {
    PrimesBelow24();
    PrimesBelowMembers(24, x);
  }

  /** Index of the largest table prime <= x, searching upwards from index i. */
  function LargestIndexFrom(x: nat, i: nat): (j: nat)
    requires i < |SmallPrimes| && SmallPrimes[i] <= x
    ensures i <= j < |SmallPrimes| && SmallPrimes[j] <= x
    ensures j + 1 == |SmallPrimes| || x < SmallPrimes[j + 1]
    decreases |SmallPrimes| - i
  {
    if i + 1 < |SmallPrimes| && SmallPrimes[i + 1] <= x then LargestIndexFrom(x, i + 1) else i
  }

  /**
   * The limit a PreSieve constructed with `requested` works with: the
   * largest table prime <= requested, but never above MaxLimit and never
   * below MinLimit.
   */
  function EffectiveLimit(requested: nat): (limit: nat)
    ensures limit in SmallPrimes && MinLimit <= limit <= MaxLimit
    ensures requested >= MinLimit ==> limit <= requested
    ensures requested < MinLimit ==> limit == MinLimit
    ensures forall j :: 0 <= j < |SmallPrimes| && SmallPrimes[j] <= requested ==> SmallPrimes[j] <= limit
  {
    var x := if requested < MinLimit then MinLimit else requested;
    var j := LargestIndexFrom(x, 2);
    SmallPrimesIncreasing();
    SmallPrimes[j]
  }

  /** Product of the table primes <= limit from index i on (getPrimeProduct walks the increasing table). */
  function ProductFrom(limit: nat, i: nat): (r: nat)
    requires i <= |SmallPrimes|
    ensures r >= 1
    decreases |SmallPrimes| - i
  {
    if i == |SmallPrimes| || limit < SmallPrimes[i] then 1
    else SmallPrimes[i] * ProductFrom(limit, i + 1)
  }

  /** The product of all small primes <= limit (getPrimeProduct). */
  function PrimeProduct(limit: nat): (r: nat)
    ensures r >= 1
  {
    ProductFrom(limit, 0)
  }

  /** Every table prime <= limit divides the product. */
  lemma {:induction false} ProductFromDivisible(limit: nat, i: nat, j: nat)
    requires i <= j < |SmallPrimes| && SmallPrimes[j] <= limit
    ensures ProductFrom(limit, i) % SmallPrimes[j] == 0
    decreases |SmallPrimes| - i
  {
    SmallPrimesIncreasing();
    var p := SmallPrimes[i];
    var rest := ProductFrom(limit, i + 1);
    assert p <= SmallPrimes[j] <= limit;
    if i == j {
      AddMultipleMod(0, rest, p);
    } else {
      ProductFromDivisible(limit, i + 1, j);
      MulDivisible(p, rest, SmallPrimes[j]);
    }
  }

  lemma PrimeProductDivisible(limit: nat, j: nat)
    requires j < |SmallPrimes| && SmallPrimes[j] <= limit
    ensures PrimeProduct(limit) % SmallPrimes[j] == 0
  {
    ProductFromDivisible(limit, 0, j);
  }

  /** From MinLimit on, the product is a multiple of 30 = 2 * 3 * 5. */
  lemma PrimeProductMultipleOf30(limit: nat)
    requires limit >= MinLimit
    ensures PrimeProduct(limit) % 30 == 0
  {
    var r := ProductFrom(limit, 3);
    assert PrimeProduct(limit) == 30 * r;
    AddMultipleMod(0, r, 30);
  }

  /** A table prime divides the product exactly when it is <= limit: the product has no other table factors. */
  lemma PrimeProductFactors(limit: nat, j: nat)
    requires j < |SmallPrimes|
    ensures PrimeProduct(limit) % SmallPrimes[j] == 0 <==> SmallPrimes[j] <= limit
  {
    if SmallPrimes[j] <= limit {
      PrimeProductDivisible(limit, j);
    }
    if limit < 2 {
      assert PrimeProduct(limit) == 1;
    } else if limit < 3 {
      assert PrimeProduct(limit) == 2;
    } else if limit < 5 {
      assert PrimeProduct(limit) == 6;
    } else if limit < 7 {
      assert PrimeProduct(limit) == 30;
    } else if limit < 11 {
      assert PrimeProduct(limit) == 210;
    } else if limit < 13 {
      assert PrimeProduct(limit) == 2310;
    } else if limit < 17 {
      assert PrimeProduct(limit) == 30030;
    } else if limit < 19 {
      assert PrimeProduct(limit) == 510510;
    } else if limit < 23 {
      assert PrimeProduct(limit) == 9699690;
    } else {
      assert PrimeProduct(limit) == 223092870;
    }
  }

  /** The product never exceeds MaxPrimeProduct, so it fits a uint32_t. */
  lemma PrimeProductFitsUint32(limit: nat)
    ensures PrimeProduct(limit) <= MaxPrimeProduct < Uint32Bound
  {
    if limit >= MaxLimit {
      assert PrimeProduct(limit) == PrimeProduct(MaxLimit);
    }
  }

  /** The clamp applied to the requested limits a caller is most likely to pass. */
  lemma EffectiveLimitTable()
    ensures EffectiveLimit(0) == 5 && EffectiveLimit(3) == 5 && EffectiveLimit(5) == 5
    ensures EffectiveLimit(7) == 7 && EffectiveLimit(11) == 11 && EffectiveLimit(12) == 11
    ensures EffectiveLimit(13) == 13 && EffectiveLimit(17) == 17 && EffectiveLimit(19) == 19
    ensures EffectiveLimit(23) == 23 && EffectiveLimit(29) == 23 && EffectiveLimit(1000) == 23
  {}

  /**
   * The documented memory use, PrimeProduct(limit) / 30 bytes: 77 bytes for
   * 11, 1001 bytes for 13, 16.62 KiB for 17, 315.75 KiB for 19 and 7.09 MiB
   * for 23 (rounded to two decimals).
   */
  lemma MemoryTable()
    ensures PrimeProduct(5) / 30 == 1 && PrimeProduct(7) / 30 == 7
    ensures PrimeProduct(11) / 30 == 77
    ensures PrimeProduct(13) / 30 == 1001
    ensures PrimeProduct(17) / 30 == 17017 && (17017 * 100 + 512) / 1024 == 1662
    ensures PrimeProduct(19) / 30 == 323323 && (323323 * 100 + 512) / 1024 == 31575
    ensures PrimeProduct(23) / 30 == 7436429 && (7436429 * 100 + 524288) / 1048576 == 709
  {}
}
