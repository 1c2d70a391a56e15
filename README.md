# PreSieve: a verified model of primesieve's pre-sieving wheel

primesieve's segmented sieve of Eratosthenes keeps one bit per candidate
number (one byte per 30 numbers, one bit for each of the 8 residues modulo
30 that are coprime to 30). A `PreSieve` object is built once for a small
limit (at most 23). It computes the product of the small primes up to that
limit and fills a *wheel array* of `product / 30` bytes. In that array every
multiple of a small prime `p` with `5 < p <= limit` is crossed off (its bit
cleared) and every other bit is 1. After each segment the sieve calls
`doIt`, which copies the wheel array circularly into the segment. The copy
starts at the byte that matches the segment's position modulo the product.
One copy both resets the segment and pre-sieves it.

The class is declared in `soe/PreSieve.h`; its bodies are not part of this
model, so the behaviour is rebuilt from the declaration and its doc
comments. The model has five modules:

- `Arith`: helper lemmas for Euclidean division and remainders.
- `PrimeTable`: the table of the nine small primes. Also the limit clamp of
  the constructor, the prime product (`getPrimeProduct`) and the
  documented memory figures.
- `Wheel`: the bit encoding and what the wheel array holds
  (`WheelPattern`). Also the loop invariants of the crossing-off loops in
  `initWheelArray`, written as predicates on the byte sequence.
- `SegmentReset`: `Stamp`, what a reset writes into a segment. Its laws:
  periodicity, identity, tiling, and the meaning of every bit.
- `PreSieving`: the `PreSieve` class, with fields `limit`, `primeProduct`,
  `wheelArray` and `size` for `limit_`, `primeProduct_`, `wheelArray_` and
  `size_`. Its constructor, `GetLimit`, `InitWheelArray` and `DoIt` are
  imperative Dafny: loops over arrays, proved against the functions above.

Conventions this model fixes where the header leaves them open:

- Bit order: bit `k` (mask `1 << k`, bit 0 least significant) of byte `i`
  stands for `30*i + Residues[k]`, with `Residues = [1, 7, 11, 13, 17, 19, 23, 29]`.
- Limit clamp: the effective limit is the largest table prime `<=` the
  requested limit. It is never more than 23 and never less than 5. With
  the floor of 5 the product is always a multiple of 30 (5 itself gives a
  one-byte all-ones wheel).
- `initWheelArray` sets every byte to `0xFF`. Then, for each table prime
  `p` with `5 < p <= limit`, it clears the bits of `p, 2p, 3p, ...` below
  the product. Only multiples whose residue modulo 30 has a bit are
  touched.
- `doIt` is a memcpy-style copy: the tail of the wheel from the offset,
  then whole copies of the wheel, then a prefix of it.
- Integers are unbounded `nat`. The product is proved to be at most
  223092870, so it fits the declared `uint32_t`.

## Model

| member | source | states |
|---|---|---|
| PrimeTable.SmallPrimesIncreasing | soe/PreSieve.h:77-78 | the table has nine entries, strictly increasing, the last being the maximum limit 23 |
| PrimeTable.SmallPrimesExactly | soe/PreSieve.h:77 | a number is in the table exactly when it is a prime `<= 23` (primality defined by trial division) |
| PrimeTable.EffectiveLimit | soe/PreSieve.h:70 | the limit in effect is a table prime between 5 and 23; a request below 5 gives exactly 5; otherwise it is never above the request and at least every table prime the request admits, so it is the largest table prime `<=` min(request, 23) |
| PrimeTable.EffectiveLimitTable | soe/PreSieve.h:78-79 | concrete clamps: 0, 3 and 5 give 5; 12 gives 11; 29 and 1000 give 23 |
| PrimeTable.PrimeProduct | soe/PreSieve.h:89 | the product of the table primes `<= limit` is at least 1; what it is made of is stated by PrimeProductFactors, PrimeProductFitsUint32 and MemoryTable |
| PrimeTable.PrimeProductDivisible | soe/PreSieve.h:80-81 | every table prime `<= limit` divides the product |
| PrimeTable.PrimeProductFactors | soe/PreSieve.h:80-81 | a table prime divides the product exactly when it is `<= limit` |
| PrimeTable.PrimeProductMultipleOf30 | soe/PreSieve.h:60 | from limit 5 on, the product is a multiple of 30, so the wheel is a whole number of bytes |
| PrimeTable.PrimeProductFitsUint32 | soe/PreSieve.h:81 | the product never exceeds 223092870 and so fits in 32 bits |
| PrimeTable.MemoryTable | soe/PreSieve.h:60-66 | product/30 is 77, 1001, 17017, 323323 and 7436429 bytes for limits 11 to 23; rounded, that is 16.62 KiB, 315.75 KiB and 7.09 MiB |
| Wheel.ClearBit | soe/PreSieve.h:44-45 | crossing off clears exactly bit k and keeps the other seven |
| Wheel.BitIndex | soe/PreSieve.h:82-85 | a residue modulo 30 has a bit exactly when it is one of the eight coprime residues, and the bit maps back to that residue |
| Wheel.ResiduesCoprimeTo30 | soe/PreSieve.h:82-85 | the wheel covers exactly the numbers that 2, 3 and 5 do not divide |
| Wheel.CrossedOffMeaning | soe/PreSieve.h:43-45 | the table walk that decides a bit is exactly divisibility by a prime `p` with `5 < p <= limit` |
| Wheel.WheelPattern | soe/PreSieve.h:82-85 | the wheel has PrimeProduct(limit) / 30 bytes, at least one from limit 5 on; the meaning of its bits is stated by WheelPatternBit and WheelBitMeaning |
| Wheel.PatternByteBits | soe/PreSieve.h:82-85 | bit k of a wheel byte is 1 exactly when its number is not crossed off |
| Wheel.WheelPatternBit | soe/PreSieve.h:82-85 | the same, for byte i of the wheel array |
| Wheel.WheelBitMeaning | soe/PreSieve.h:82-85 | for n below the product and coprime to 30, n's bit in the wheel is 0 exactly when a pre-sieved prime divides n |
| Wheel.CrossedOffPeriodic | soe/PreSieve.h:80-81 | whether n is crossed off repeats with period equal to the product |
| Wheel.Limit7Wheel | soe/PreSieve.h:82-85 | for limit 7 the wheel has 7 bytes, and a bit is 0 exactly for the multiples of 7 |
| Wheel.CrossingStep | soe/PreSieve.h:90 | clearing one multiple m of p moves the loop invariant of the inner crossing-off loop from m to m + p |
| Wheel.SievingDone | soe/PreSieve.h:90 | once the multiples of p reach the end of the wheel, p is fully crossed off |
| Wheel.SievedIsWheel | soe/PreSieve.h:90 | bytes sieved with exactly the pre-sieved primes `<= limit` are the wheel pattern |
| SegmentReset.Stamp | soe/PreSieve.h:75 | a reset writes exactly len bytes; their layout and meaning are stated by StampLayout, StampPeriodic, StampIdentity and StampBitMeaning |
| SegmentReset.StampPeriodic | soe/PreSieve.h:75 | resets for segmentLow and segmentLow + t * product write the same bytes |
| SegmentReset.StampIdentity | soe/PreSieve.h:46-47 | a reset of size bytes at a multiple of the product reproduces the wheel |
| SegmentReset.CircularTiles | soe/PreSieve.h:46-47 | read circularly from the start, the wheel gives whole copies and then a prefix |
| SegmentReset.StampLayout | soe/PreSieve.h:75 | a reset is the wheel from the offset on; if that is too short, it continues with whole tiles and a partial tail |
| SegmentReset.StampBitMeaning | soe/PreSieve.h:41-47 | in a reset 30-aligned segment, bit k of byte i is 1 exactly when segmentLow + 30*i + Residues[k] is not crossed off |
| SegmentReset.StampedBits | soe/PreSieve.h:41-47 | the same for every bit of the segment at once |
| SegmentReset.Limit7Stamps | soe/PreSieve.h:46-47 | for limit 7, a 20-byte reset at 0 is two wheels and 6 bytes; segments 630 apart get the same bytes |
| PreSieving.CopyBytes | soe/PreSieve.h:75 | copies count bytes into the destination range and leaves every other destination byte alone |
| PreSieving.CopyCircular | soe/PreSieve.h:75 | the first len bytes become the source read circularly from the offset; the rest are unchanged |
| PreSieving.PreSieve.constructor | soe/PreSieve.h:70 | the new object uses the clamped limit, and its fields and wheel array are consistent, with the wheel pattern in the array |
| PreSieving.PreSieve.GetLimit | soe/PreSieve.h:72-74 | the limit read is a table prime in [5, 23] whose product and size are the stored ones |
| PreSieving.PreSieve.InitWheelArray | soe/PreSieve.h:90 | after setting all bytes to 0xFF and crossing off every pre-sieved prime, the array is the wheel pattern |
| PreSieving.PreSieve.CrossOffMultiples | soe/PreSieve.h:90 | the loop of one prime p clears the bits of all its multiples below the product and keeps the invariant |
| PreSieving.PreSieve.DoIt | soe/PreSieve.h:75 | writes exactly the circular wheel copy into sieve[0..sieveSize) and nothing else; leaves the object unchanged; every written bit of a 30-aligned segment is 1 exactly when its number is not crossed off |

## Left out

- The destructor and the `new`/`delete` lifetime of the wheel array: the
  array is an owned Dafny array, and allocation failure is not modelled.
- `defs.h`: it only supplies integer typedefs. The model uses unbounded
  `nat` and proves the product bound instead.
- PreSieving.PreSieve.DoIt: the 32-bit arithmetic of `sieveSize` and of
  the copy index is not modelled as wrapping. Numbers are unbounded, so a
  `sieveSize` near 2^32, where the index could overflow, is not covered.
- PreSieving.PreSieve.DoIt: the bit meaning is stated only for segments
  that start on a multiple of 30. For other segments the bytes still
  follow `Stamp`, but their bits do not stand for `segmentLow + 30*i + r`.
- The enclosing `SieveOfEratosthenes` engine, how it reads the segment
  bits and how it picks segments.
- The speed-up claim and the thesis reference in the class comment: they
  are informational.
- Thread safety of concurrent `doIt` calls: the model is sequential.
- The implementation file of `PreSieve` is not part of this model. The
  clamp floor of 5, the bit order and the order of the crossing-off loops
  are choices consistent with the header's comments, not read from code.
