/**
 * The mod-30 wheel encoding of the pre-sieve pattern.
 *
 * Byte i of a wheel (or of a sieve segment starting at 0) covers the 30
 * numbers 30*i .. 30*i + 29; its 8 bits stand for the 8 of them that are
 * coprime to 30. Convention of this model: bit k (mask 1 << k, bit 0 the
 * least significant) stands for 30*i + Residues[k]. A bit is 1 while the
 * number is still a candidate and 0 once it is a multiple of a pre-sieved
 * prime, that is a table prime p with 5 < p <= limit.
 */
module Wheel {
  import opened Arith
  import opened PrimeTable

  /** The residues modulo 30 that are coprime to 30, in bit order. */
  const Residues: seq<nat> := [1, 7, 11, 13, 17, 19, 23, 29]

  /** Masks[k] is the byte with only bit k set. */
  const Masks: seq<bv8> := [0x01, 0x02, 0x04, 0x08, 0x10, 0x20, 0x40, 0x80]

  /** Index of the first pre-sieved prime, 7, in the table. */
  const FirstPreSieved: nat := 3

  predicate BitSet(b: bv8, k: nat)
    requires k < 8
  {
    b & Masks[k] != 0
  }

  /** Clears bit k and keeps the 7 others. */
  function ClearBit(b: bv8, k: nat): (r: bv8)
    requires k < 8
    ensures forall k' :: 0 <= k' < 8 ==> (BitSet(r, k') <==> BitSet(b, k') && k' != k)
  {
    ClearBitBits(b, k);
    b & !Masks[k]
  }

  /** Each mask has exactly one bit set. */
  lemma MaskSingle(k: nat)
    requires k < 8
    ensures Masks[k] != 0 && Masks[k] & (Masks[k] - 1) == 0
  {}

  lemma MasksDistinct(k: nat, k': nat)
    requires k < 8 && k' < 8 && k != k'
    ensures Masks[k] != Masks[k']
  {}

  /** Clearing the single bit m leaves a single bit m' alone unless m' is m. */
  lemma ClearSingleBit(b: bv8, m: bv8, m': bv8)
    requires m != 0 && m & (m - 1) == 0 && m' != 0 && m' & (m' - 1) == 0
    ensures (b & !m) & m' != 0 <==> b & m' != 0 && m != m'
  {}

  lemma ClearBitBits(b: bv8, k: nat)
    requires k < 8
    ensures forall k' :: 0 <= k' < 8 ==> (BitSet(b & !Masks[k], k') <==> BitSet(b, k') && k' != k)
  {
    forall k' | 0 <= k' < 8
      ensures BitSet(b & !Masks[k], k') <==> BitSet(b, k') && k' != k
    {
      MaskSingle(k);
      MaskSingle(k');
      if k != k' {
        MasksDistinct(k, k');
      }
      ClearSingleBit(b, Masks[k], Masks[k']);
    }
  }

  /** A byte is determined by its 8 bits. */
  lemma BitsDetermineByte(a: bv8, b: bv8)
    requires forall k :: 0 <= k < 8 ==> BitSet(a, k) == BitSet(b, k)
    ensures a == b
  {
    assert BitSet(a, 0) == BitSet(b, 0) && BitSet(a, 1) == BitSet(b, 1);
    assert BitSet(a, 2) == BitSet(b, 2) && BitSet(a, 3) == BitSet(b, 3);
    assert BitSet(a, 4) == BitSet(b, 4) && BitSet(a, 5) == BitSet(b, 5);
    assert BitSet(a, 6) == BitSet(b, 6) && BitSet(a, 7) == BitSet(b, 7);
  }

  /** The bit that stands for residue r modulo 30, or -1 when r is not coprime to 30. */
  function BitIndex(r: nat): (k: int)
    ensures -1 <= k < 8
    ensures k >= 0 <==> r in Residues
    ensures k >= 0 ==> Residues[k] == r
  {
    if r == 1 then 0
    else if r == 7 then 1
    else if r == 11 then 2
    else if r == 13 then 3
    else if r == 17 then 4
    else if r == 19 then 5
    else if r == 23 then 6
    else if r == 29 then 7
    else -1
  }

  /** The wheel represents exactly the numbers that 2, 3 and 5 do not divide. */
  lemma ResiduesCoprimeTo30(n: nat)
    ensures n % 30 in Residues <==> n % 2 != 0 && n % 3 != 0 && n % 5 != 0
  {
    var q, r := n / 30, n % 30;
    var q2, q3, q5 := 15 * q + r / 2, 10 * q + r / 3, 6 * q + r / 5;
    ModUnique(n, 2, q2, r % 2);
    ModUnique(n, 3, q3, r % 3);
    ModUnique(n, 5, q5, r % 5);
  }

  /** The number bit k of byte i stands for, in a bit array that starts at 0. */
  function Number(i: nat, k: nat): nat
    requires k < 8
  {
    30 * i + Residues[k]
  }

  /** Bit k of byte i stands for 30*i + Residues[k], and for no other number. */
  lemma Decompose(i: nat, k: nat)
    requires k < 8
    ensures (30 * i + Residues[k]) / 30 == i
    ensures (30 * i + Residues[k]) % 30 == Residues[k]
  {
    ModUnique(30 * i + Residues[k], 30, i, Residues[k]);
  }

  /** Some table prime with index in [FirstPreSieved, hi) divides n. */
  predicate DividedBelow(n: nat, hi: nat)
    requires hi <= |SmallPrimes|
  {
    exists j :: FirstPreSieved <= j < hi && n % SmallPrimes[j] == 0
  }

  /** n is a multiple of a pre-sieved prime: a table prime p with 5 < p <= limit. */
  predicate HasPreSievedDivisor(n: nat, limit: nat) {
    exists j :: FirstPreSieved <= j < |SmallPrimes| && SmallPrimes[j] <= limit && n % SmallPrimes[j] == 0
  }

  /**
   * Walks the table from index j while the primes are <= limit and tells
   * whether one of them divides n.
   */
  predicate CrossedFrom(n: nat, limit: nat, j: nat)
    decreases |SmallPrimes| - j
  {
    j < |SmallPrimes| && SmallPrimes[j] <= limit &&
    (n % SmallPrimes[j] == 0 || CrossedFrom(n, limit, j + 1))
  }

  /** Whether the pre-sieve crosses n off: the walk over the pre-sieved primes. */
  predicate CrossedOff(n: nat, limit: nat) {
    CrossedFrom(n, limit, FirstPreSieved)
  }

  lemma {:induction false} CrossedFromMeaning(n: nat, limit: nat, j: nat)
    requires j <= |SmallPrimes|
    ensures CrossedFrom(n, limit, j) <==>
      exists j' :: j <= j' < |SmallPrimes| && SmallPrimes[j'] <= limit && n % SmallPrimes[j'] == 0
    decreases |SmallPrimes| - j
  {
    if j < |SmallPrimes| {
      CrossedFromMeaning(n, limit, j + 1);
      if limit < SmallPrimes[j] {
        SmallPrimesIncreasing();
      }
    }
  }

  /** Crossing off is exactly divisibility by a pre-sieved prime. */
  lemma CrossedOffMeaning(n: nat, limit: nat)
    ensures CrossedOff(n, limit) <==> HasPreSievedDivisor(n, limit)
  {
    CrossedFromMeaning(n, limit, FirstPreSieved);
  }

  /** The table primes below index hi are exactly those <= limit, so DividedBelow is CrossedOff. */
  lemma DividedBelowIsCrossedOff(n: nat, limit: nat, hi: nat)
    requires FirstPreSieved <= hi <= |SmallPrimes|
    requires forall j :: FirstPreSieved <= j < hi ==> SmallPrimes[j] <= limit
    requires hi == |SmallPrimes| || limit < SmallPrimes[hi]
    ensures DividedBelow(n, hi) <==> CrossedOff(n, limit)
  {
    SmallPrimesIncreasing();
    CrossedOffMeaning(n, limit);
    if HasPreSievedDivisor(n, limit) {
      var j :| FirstPreSieved <= j < |SmallPrimes| && SmallPrimes[j] <= limit && n % SmallPrimes[j] == 0;
      assert j < hi;
    }
  }

  /**
   * The crossing-off state while the multiples of SmallPrimes[j] below m are
   * being cleared: divided by an earlier pre-sieved prime, or one of those
   * multiples.
   */
  predicate CrossedBefore(n: nat, j: nat, m: nat)
    requires FirstPreSieved <= j < |SmallPrimes|
  {
    DividedBelow(n, j) || (n % SmallPrimes[j] == 0 && n < m)
  }

  /** Once all multiples below some m > n are cleared, prime j is done for n. */
  lemma CrossedBeforeDone(n: nat, j: nat, m: nat)
    requires FirstPreSieved <= j < |SmallPrimes| && n < m
    ensures CrossedBefore(n, j, m) <==> DividedBelow(n, j + 1)
  {
    if DividedBelow(n, j + 1) && !DividedBelow(n, j) {
      var j' :| FirstPreSieved <= j' < j + 1 && n % SmallPrimes[j'] == 0;
      assert j' == j;
    }
  }

  /** Bit k of byte i is the bit that multiple m of a prime is cleared in, exactly when it stands for m. */
  lemma SameNumber(i: nat, k: nat, m: nat)
    requires k < 8
    ensures Number(i, k) == m <==> m / 30 == i && BitIndex(m % 30) == k
  {
    Decompose(i, k);
  }

  /** The single bit a crossing-off step clears: the one for multiple m, when m is coprime to 30. */
  function ClearMultiple(bits: seq<bv8>, m: nat): (r: seq<bv8>)
    requires m < 30 * |bits|
    ensures |r| == |bits|
  {
    var k := BitIndex(m % 30);
    if k >= 0 then bits[m / 30 := ClearBit(bits[m / 30], k)] else bits
  }

  /** Every bit of bits is 1 exactly when its number has no pre-sieved factor among the table primes below index j. */
  ghost predicate SievedBelow(bits: seq<bv8>, j: nat)
    requires j <= |SmallPrimes|
  {
    forall i, k :: 0 <= i < |bits| && 0 <= k < 8 ==>
      (BitSet(bits[i], k) <==> !DividedBelow(Number(i, k), j))
  }

  /** Every bit of bits is 1 exactly when its number is not CrossedBefore(_, j, m). */
  ghost predicate SievingAt(bits: seq<bv8>, j: nat, m: nat)
    requires FirstPreSieved <= j < |SmallPrimes|
  {
    forall i, k :: 0 <= i < |bits| && 0 <= k < 8 ==>
      (BitSet(bits[i], k) <==> !CrossedBefore(Number(i, k), j, m))
  }

  /** Freshly set bytes: nothing is crossed off yet. */
  lemma AllOnesSievedBelow(bits: seq<bv8>)
    requires forall i :: 0 <= i < |bits| ==> bits[i] == 0xFF
    ensures SievedBelow(bits, FirstPreSieved)
  {}

  /** Starting on prime j at its first multiple p: no multiple below p is cleared. */
  lemma SievingStart(bits: seq<bv8>, j: nat)
    requires FirstPreSieved <= j < |SmallPrimes| && SievedBelow(bits, j)
    ensures SievingAt(bits, j, SmallPrimes[j])
  {
    var p := SmallPrimes[j];
    forall i, k | 0 <= i < |bits| && 0 <= k < 8
      ensures CrossedBefore(Number(i, k), j, p) <==> DividedBelow(Number(i, k), j)
    {
      var n := Number(i, k);
      if n < p {
        ModUnique(n, p, 0, n);
      }
    }
  }

  /** Clearing multiple m of SmallPrimes[j] moves the crossing-off state from m to m + p. */
  lemma CrossingStep(bits: seq<bv8>, j: nat, m: nat)
    requires FirstPreSieved <= j < |SmallPrimes| && m % SmallPrimes[j] == 0 && m < 30 * |bits|
    requires SievingAt(bits, j, m)
    ensures SievingAt(ClearMultiple(bits, m), j, m + SmallPrimes[j])
  {
    var p := SmallPrimes[j];
    var after := ClearMultiple(bits, m);
    forall i, k | 0 <= i < |bits| && 0 <= k < 8
      ensures BitSet(after[i], k) <==> !CrossedBefore(Number(i, k), j, m + p)
    {
      var n := Number(i, k);
      SameNumber(i, k, m);
      if n % p == 0 && m <= n < m + p {
        MultiplesApart(n, m, p);
      }
    }
  }

  /** Once every multiple below 30 * |bits| is cleared, prime j is done. */
  lemma SievingDone(bits: seq<bv8>, j: nat, m: nat)
    requires FirstPreSieved <= j < |SmallPrimes| && 30 * |bits| <= m && SievingAt(bits, j, m)
    ensures SievedBelow(bits, j + 1)
  {
    forall i, k | 0 <= i < |bits| && 0 <= k < 8
      ensures CrossedBefore(Number(i, k), j, m) <==> DividedBelow(Number(i, k), j + 1)
    {
      CrossedBeforeDone(Number(i, k), j, m);
    }
  }

  /** Byte i of a bit array sieved with exactly the pre-sieved primes <= limit is PatternByte(30 * i, limit). */
  lemma SievedByte(bits: seq<bv8>, limit: nat, j: nat, i: nat)
    requires FirstPreSieved <= j <= |SmallPrimes|
    requires forall j' :: FirstPreSieved <= j' < j ==> SmallPrimes[j'] <= limit
    requires j == |SmallPrimes| || limit < SmallPrimes[j]
    requires i < |bits| && SievedBelow(bits, j)
    ensures bits[i] == PatternByte(30 * i, limit)
  {
    var n0 := 30 * i;
    var b := PatternByte(n0, limit);
    forall k | 0 <= k < 8
      ensures BitSet(bits[i], k) == BitSet(b, k)
    {
      DividedBelowIsCrossedOff(Number(i, k), limit, j);
      PatternByteBits(n0, limit, k);
    }
    BitsDetermineByte(bits[i], b);
  }

  /**
   * When the primes below index j are exactly the pre-sieved primes <= limit
   * and bits has one byte per block of the period, bits is the wheel pattern.
   */
  lemma SievedIsWheel(bits: seq<bv8>, limit: nat, j: nat)
    requires FirstPreSieved <= j <= |SmallPrimes|
    requires forall j' :: FirstPreSieved <= j' < j ==> SmallPrimes[j'] <= limit
    requires j == |SmallPrimes| || limit < SmallPrimes[j]
    requires |bits| == PrimeProduct(limit) / 30 && SievedBelow(bits, j)
    ensures bits == WheelPattern(limit)
  {
    forall i | 0 <= i < |bits|
      ensures bits[i] == WheelPattern(limit)[i]
    {
      SievedByte(bits, limit, j, i);
    }
  }

  lemma OrSingleBit(a: bv8, b: bv8, m: bv8)
    ensures (a | b) & m != 0 <==> a & m != 0 || b & m != 0
  {}

  lemma SingleBits(m: bv8, m': bv8)
    requires m != 0 && m & (m - 1) == 0 && m' != 0 && m' & (m' - 1) == 0
    ensures m & m' != 0 <==> m == m'
  {}

  /** The byte whose bits k >= j are the flags c[k] and whose lower bits are 0. */
  function ByteFrom(c: seq<bool>, j: nat): bv8
    requires |c| == 8 && j <= 8
    decreases 8 - j
  {
    if j == 8 then 0 else (if c[j] then Masks[j] else 0) | ByteFrom(c, j + 1)
  }

  lemma {:induction false} ByteFromBits(c: seq<bool>, j: nat, k: nat)
    requires |c| == 8 && j <= 8 && k < 8
    ensures BitSet(ByteFrom(c, j), k) <==> j <= k && c[k]
    decreases 8 - j
  {
    if j < 8 {
      var f: bv8 := if c[j] then Masks[j] else 0;
      OrSingleBit(f, ByteFrom(c, j + 1), Masks[k]);
      ByteFromBits(c, j + 1, k);
      MaskSingle(j);
      MaskSingle(k);
      if j != k {
        MasksDistinct(j, k);
      }
      SingleBits(Masks[j], Masks[k]);
    }
  }

  /** Which of the 8 numbers of the block starting at n0 are still candidates. */
  function Candidates(n0: nat, limit: nat): (c: seq<bool>)
    ensures |c| == 8
  {
    seq(8, k requires 0 <= k < 8 => !CrossedOff(n0 + Residues[k], limit))
  }

  /** The pre-sieved byte for the block of 30 numbers starting at n0. */
  function PatternByte(n0: nat, limit: nat): bv8 {
    ByteFrom(Candidates(n0, limit), 0)
  }

  lemma PatternByteBits(n0: nat, limit: nat, k: nat)
    requires k < 8
    ensures BitSet(PatternByte(n0, limit), k) <==> !CrossedOff(n0 + Residues[k], limit)
  {
    ByteFromBits(Candidates(n0, limit), 0, k);
  }

  /** The wheel array for limit: one PatternByte per block of 30 below PrimeProduct(limit). */
  function WheelPattern(limit: nat): (w: seq<bv8>)
    ensures |w| == PrimeProduct(limit) / 30
    ensures MinLimit <= limit ==> |w| > 0
  {
    var w := seq(PrimeProduct(limit) / 30, i requires 0 <= i => PatternByte(30 * i, limit));
    assert MinLimit <= limit ==> |w| > 0 by {
      if MinLimit <= limit {
        PrimeProductMultipleOf30(limit);
      }
    }
    w
  }

  /** Bit k of wheel byte i is 1 exactly when Number(i, k) is not crossed off. */
  lemma WheelPatternBit(limit: nat, i: nat, k: nat)
    requires i < PrimeProduct(limit) / 30 && k < 8
    ensures i < |WheelPattern(limit)|
    ensures BitSet(WheelPattern(limit)[i], k) <==> !CrossedOff(Number(i, k), limit)
  {
    var n0 := 30 * i;
    assert WheelPattern(limit)[i] == PatternByte(n0, limit);
    PatternByteBits(n0, limit, k);
  }

  /**
   * In the wheel, the bit for a number n < PrimeProduct(limit) that is coprime
   * to 30 is 0 exactly when n is divisible by a pre-sieved prime.
   */
  lemma WheelBitMeaning(limit: nat, n: nat)
    requires MinLimit <= limit
    requires n < PrimeProduct(limit) && n % 30 in Residues
    ensures n / 30 < |WheelPattern(limit)|
    ensures var k := BitIndex(n % 30);
      0 <= k < 8 &&
      (BitSet(WheelPattern(limit)[n / 30], k) <==> !CrossedOff(n, limit))
  {
    var P := PrimeProduct(limit);
    PrimeProductMultipleOf30(limit);
    var i, k := n / 30, BitIndex(n % 30);
    assert n == Number(i, k);
    assert i < P / 30 by {
      ModUnique(P, 30, P / 30, 0);
    }
    WheelPatternBit(limit, i, k);
  }

  /** Adding a multiple of PrimeProduct(limit) keeps the remainder modulo every pre-sieved prime. */
  lemma PeriodicRemainder(n: nat, t: nat, limit: nat, j: nat)
    requires j < |SmallPrimes| && SmallPrimes[j] <= limit
    ensures (n + t * PrimeProduct(limit)) % SmallPrimes[j] == n % SmallPrimes[j]
  {
    var P, p := PrimeProduct(limit), SmallPrimes[j];
    PrimeProductDivisible(limit, j);
    assert P == (P / p) * p;
    assert t * P == (t * (P / p)) * p;
    AddMultipleMod(n, t * (P / p), p);
  }

  /** Whether a number is crossed off repeats with period PrimeProduct(limit). */
  lemma CrossedOffPeriodic(n: nat, t: nat, limit: nat)
    ensures CrossedOff(n + t * PrimeProduct(limit), limit) <==> CrossedOff(n, limit)
  {
    var x := n + t * PrimeProduct(limit);
    CrossedOffMeaning(n, limit);
    CrossedOffMeaning(x, limit);
    forall j | FirstPreSieved <= j < |SmallPrimes| && SmallPrimes[j] <= limit
      ensures x % SmallPrimes[j] == n % SmallPrimes[j]
    {
      PeriodicRemainder(n, t, limit, j);
    }
  }

  /** For limit 7 the wheel is 7 bytes long and a bit is 0 exactly for the multiples of 7. */
  lemma Limit7Wheel(n: nat)
    requires n < 210 && n % 30 in Residues
    ensures |WheelPattern(7)| == 7
    ensures BitSet(WheelPattern(7)[n / 30], BitIndex(n % 30)) <==> n % 7 != 0
  {
    assert PrimeProduct(7) == 210;
    WheelBitMeaning(7, n);
    assert CrossedOff(n, 7) ==> n % 7 == 0;
    assert n % 7 == 0 ==> n % SmallPrimes[3] == 0;
  }
}
