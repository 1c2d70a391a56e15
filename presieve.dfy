/**
 * The PreSieve object: built once for a requested limit, it owns the wheel
 * array and resets segments of the enclosing sieve by copying that array
 * into them.
 */
module PreSieving {
  import opened Arith
  import opened PrimeTable
  import opened Wheel
  import opened SegmentReset

  /** Copies count bytes from src[srcStart..] to dst[dstStart..] (std::memcpy). */
  method CopyBytes(dst: array<bv8>, dstStart: nat, src: array<bv8>, srcStart: nat, count: nat)
    requires dst != src
    requires dstStart + count <= dst.Length && srcStart + count <= src.Length
    modifies dst
    ensures forall i :: 0 <= i < dst.Length ==>
      dst[i] == if dstStart <= i < dstStart + count then src[srcStart + i - dstStart] else old(dst[i])
  {
    var c := 0;
    while c < count
      invariant 0 <= c <= count
      invariant forall i :: 0 <= i < dst.Length ==>
        dst[i] == if dstStart <= i < dstStart + c then src[srcStart + i - dstStart] else old(dst[i])
    {
      dst[dstStart + c] := src[srcStart + c];
      c := c + 1;
    }
  }

  /**
   * Fills dst[..len] with src read circularly from byte off: the tail of
   * src from off, then whole copies of src, then a prefix (the copying
   * part of doIt).
   */
  method CopyCircular(dst: array<bv8>, len: nat, src: array<bv8>, off: nat)
    requires dst != src && len <= dst.Length && off < src.Length
    modifies dst
    ensures dst[..len] == Circular(src[..], off, len)
    ensures dst[len..] == old(dst[len..])
  {
    ghost var w := src[..];
    ghost var target := Circular(w, off, len);
    var size := src.Length;
    var sizeLeft := size - off;
    if len <= sizeLeft {
      CopyBytes(dst, 0, src, off, len);
      forall i | 0 <= i < len
        ensures dst[i] == target[i]
      {
        CircularHead(w, off, len, i);
      }
    } else {
      CopyBytes(dst, 0, src, off, sizeLeft);
      forall i | 0 <= i < sizeLeft
        ensures dst[i] == target[i]
      {
        CircularHead(w, off, len, i);
      }
      var index := sizeLeft;
      ModUnique(off + index, size, 1, 0);
      while index + size < len
        invariant sizeLeft <= index <= len && (off + index) % size == 0
        invariant forall i :: 0 <= i < index ==> dst[i] == target[i]
        invariant forall i :: len <= i < dst.Length ==> dst[i] == old(dst[i])
      {
        CopyBytes(dst, index, src, 0, size);
        forall i | index <= i < index + size
          ensures dst[i] == target[i]
        {
          CircularTile(w, off, len, index, i);
        }
        AddMultipleMod(off + index, 1, size);
        index := index + size;
      }
      CopyBytes(dst, index, src, 0, len - index);
      forall i | index <= i < len
        ensures dst[i] == target[i]
      {
        CircularTile(w, off, len, index, i);
      }
    }
  }

  class PreSieve {
    /** Multiples of the table primes <= limit (at most 23) are pre-sieved (limit_). */
    var limit: nat
    /** Product of the table primes <= limit (primeProduct_). */
    var primeProduct: nat
    /** One byte per 30 numbers of one period (wheelArray_). */
    var wheelArray: array<bv8>
    /** Length of wheelArray (size_). */
    var size: nat

    /** The scalar fields agree with each other and with the wheel array's length. */
    ghost predicate Sized()
      reads this
    {
      limit in SmallPrimes && MinLimit <= limit <= MaxLimit &&
      primeProduct == PrimeProduct(limit) &&
      size == primeProduct / 30 && wheelArray.Length == size
    }

    /** The object is ready: the wheel array holds the pre-sieved pattern. */
    ghost predicate Valid()
      reads this, wheelArray
    {
      Sized() && wheelArray[..] == WheelPattern(limit)
    }

    constructor (requested: nat)
      ensures Valid() && fresh(wheelArray)
      ensures limit == EffectiveLimit(requested)
    {
      var l := EffectiveLimit(requested);
      var product := PrimeProduct(l);
      limit, primeProduct, size := l, product, product / 30;
      wheelArray := new bv8[product / 30];
      new;
      InitWheelArray();
    }

    /** The limit in effect (getLimit). */
    function GetLimit(): (r: nat)
      reads this
      requires Sized()
      ensures r in SmallPrimes && MinLimit <= r <= MaxLimit
      ensures PrimeProduct(r) == primeProduct && PrimeProduct(r) / 30 == size
    {
      limit
    }

    /**
     * Sets every bit of the wheel array, then clears, for each table prime p
     * with 5 < p <= limit, the bit of every multiple of p below primeProduct
     * whose residue modulo 30 has a bit (initWheelArray).
     */
    method InitWheelArray()
      requires Sized()
      modifies wheelArray
      ensures Valid()
    {
      var i := 0;
      while i < size
        invariant 0 <= i <= size
        invariant forall i' :: 0 <= i' < i ==> wheelArray[i'] == 0xFF
      {
        wheelArray[i] := 0xFF;
        i := i + 1;
      }
      AllOnesSievedBelow(wheelArray[..]);
      SmallPrimesIncreasing();
      var j := FirstPreSieved;
      while j < |SmallPrimes| && SmallPrimes[j] <= limit
        invariant FirstPreSieved <= j <= |SmallPrimes|
        invariant forall j' :: FirstPreSieved <= j' < j ==> SmallPrimes[j'] <= limit
        invariant SievedBelow(wheelArray[..], j)
      {
        CrossOffMultiples(j);
        j := j + 1;
      }
      SievedIsWheel(wheelArray[..], limit, j);
    }

    /** The inner loop of initWheelArray: clears the bits of the multiples of SmallPrimes[j]. */
    method CrossOffMultiples(j: nat)
      requires Sized() && FirstPreSieved <= j < |SmallPrimes| && SmallPrimes[j] <= limit
      requires SievedBelow(wheelArray[..], j)
      modifies wheelArray
      ensures SievedBelow(wheelArray[..], j + 1)
    {
      var p := SmallPrimes[j];
      PrimeProductFitsUint32(limit);
      PrimeProductMultipleOf30(limit);
      SievingStart(wheelArray[..], j);
      var m := p;
      while m < primeProduct
        invariant p <= m < primeProduct + p && m % p == 0
        invariant SievingAt(wheelArray[..], j, m)
      {
        assert m + p < Uint32Bound;
        ghost var before := wheelArray[..];
        CrossingStep(before, j, m);
        var k := BitIndex(m % 30);
        if k >= 0 {
          var b := m / 30;
          wheelArray[b] := ClearBit(wheelArray[b], k);
        }
        assert wheelArray[..] == ClearMultiple(before, m);
        AddMultipleMod(m, 1, p);
        m := m + p;
      }
      SievingDone(wheelArray[..], j, m);
    }

    /**
     * Resets the first sieveSize bytes of sieve with the wheel pattern, read
     * circularly from the byte that lines up with segmentLow (doIt).
     */
    method DoIt(sieve: array<bv8>, sieveSize: nat, segmentLow: nat)
      requires Valid()
      requires sieveSize <= sieve.Length && sieve != wheelArray
      modifies sieve
      ensures Valid() && wheelArray[..] == old(wheelArray[..])
      ensures limit == old(limit) && primeProduct == old(primeProduct) && size == old(size)
      ensures sieve[..sieveSize] == Stamp(wheelArray[..], primeProduct, segmentLow, sieveSize)
      ensures sieve[sieveSize..] == old(sieve[sieveSize..])
      ensures segmentLow % 30 == 0 ==> forall i, k :: 0 <= i < sieveSize && 0 <= k < 8 ==>
        (BitSet(sieve[i], k) <==> !CrossedOff(segmentLow + Number(i, k), limit))
    {
      PrimeProductMultipleOf30(limit);
      var remainder := segmentLow % primeProduct;
      var index := remainder / 30;
      WheelOffsetInRange(size, primeProduct, segmentLow);
      CopyCircular(sieve, sieveSize, wheelArray, index);
      if segmentLow % 30 == 0 {
        StampedBits(sieve[..sieveSize], limit, segmentLow);
      }
    }
  }
}
