/**
 * What a segment reset writes: the wheel read as a circular buffer, from
 * the byte that matches the segment's position, for as many bytes as the
 * segment has. Laws: the result only depends on segmentLow modulo the
 * wheel period, reproduces the wheel at offset 0, tiles the wheel when the
 * segment is longer than it, and puts in every bit exactly the crossing-off
 * state of the number that bit stands for.
 */
module SegmentReset {
  import opened Arith
  import opened PrimeTable
  import opened Wheel

  /** The byte of the wheel that lines up with a segment starting at segmentLow. */
  function WheelOffset(product: nat, segmentLow: nat): nat
    requires product > 0
  {
    (segmentLow % product) / 30
  }

  /** len bytes of w read circularly from byte start on. */
  function Circular(w: seq<bv8>, start: nat, len: nat): seq<bv8>
    requires |w| > 0
  {
    seq(len, i requires 0 <= i < len => w[(start + i) % |w|])
  }

  /** The first len bytes of a segment starting at segmentLow after the reset. */
  function Stamp(w: seq<bv8>, product: nat, segmentLow: nat, len: nat): (r: seq<bv8>)
    requires |w| > 0 && product > 0
    ensures |r| == len
  {
    Circular(w, WheelOffset(product, segmentLow), len)
  }

  /** t whole copies of w. */
  function Repeat(w: seq<bv8>, t: nat): seq<bv8> {
    if t == 0 then [] else w + Repeat(w, t - 1)
  }

  /** len bytes made of whole copies of w followed by a prefix of w. */
  function Tiled(w: seq<bv8>, len: nat): seq<bv8>
    requires |w| > 0
  {
    Repeat(w, len / |w|) + w[..len % |w|]
  }

  /** Only segmentLow modulo the period matters. */
  lemma StampPeriodic(w: seq<bv8>, product: nat, segmentLow: nat, t: nat, len: nat)
    requires |w| > 0 && product > 0
    ensures Stamp(w, product, segmentLow + t * product, len) == Stamp(w, product, segmentLow, len)
  {
    AddMultipleMod(segmentLow, t, product);
  }

  /** Reading circularly from the start, the first |w| bytes are w itself. */
  lemma CircularPrefix(w: seq<bv8>, len: nat)
    requires 0 < |w| && len <= |w|
    ensures Circular(w, 0, len) == w[..len]
  {
    forall i | 0 <= i < len
      ensures Circular(w, 0, len)[i] == w[i]
    {
      ModUnique(i, |w|, 0, i);
    }
  }

  /** A segment starting at a multiple of the period gets an exact copy of the wheel. */
  lemma StampIdentity(w: seq<bv8>, product: nat, t: nat)
    requires |w| > 0 && product > 0
    ensures Stamp(w, product, t * product, |w|) == w
  {
    StampPeriodic(w, product, 0, t, |w|);
    CircularPrefix(w, |w|);
  }

  /** Reading circularly from the start gives whole copies of w and then a prefix of it. */
  lemma {:induction false} CircularTiles(w: seq<bv8>, len: nat)
    requires |w| > 0
    ensures Circular(w, 0, len) == Tiled(w, len)
    decreases len
  {
    var n := |w|;
    if len < n {
      ModUnique(len, n, 0, len);
      CircularPrefix(w, len);
    } else {
      var rest := len - n;
      ModUnique(len, n, rest / n + 1, rest % n);
      CircularTiles(w, rest);
      forall i | 0 <= i < len
        ensures Circular(w, 0, len)[i] == (w + Circular(w, 0, rest))[i]
      {
        if i < n {
          ModUnique(i, n, 0, i);
        } else {
          AddMultipleMod(i - n, 1, n);
        }
      }
      assert Circular(w, 0, len) == w + Circular(w, 0, rest);
    }
  }

  /** The wheel offset of any segment falls inside the wheel. */
  lemma WheelOffsetInRange(n: nat, product: nat, segmentLow: nat)
    requires n > 0 && product == 30 * n
    ensures WheelOffset(product, segmentLow) < n
  {}

  /** Reading circularly from off: the tail of w from off, then again from the start. */
  lemma CircularFrom(w: seq<bv8>, off: nat, len: nat)
    requires off < |w|
    ensures len <= |w| - off ==> Circular(w, off, len) == w[off..off + len]
    ensures len > |w| - off ==> Circular(w, off, len) == w[off..] + Circular(w, 0, len - (|w| - off))
  {
    var n := |w|;
    if len <= n - off {
      forall i | 0 <= i < len
        ensures Circular(w, off, len)[i] == w[off + i]
      {
        ModUnique(off + i, n, 0, off + i);
      }
    } else {
      var rest := len - (n - off);
      forall i | 0 <= i < len
        ensures Circular(w, off, len)[i] == (w[off..] + Circular(w, 0, rest))[i]
      {
        if i < n - off {
          ModUnique(off + i, n, 0, off + i);
        } else {
          AddMultipleMod(i - (n - off), 1, n);
        }
      }
    }
  }

  /** Before the first wrap, reading circularly from off copies w from off on. */
  lemma CircularHead(w: seq<bv8>, off: nat, len: nat, i: nat)
    requires i < len && off + i < |w|
    ensures Circular(w, off, len)[i] == w[off + i]
  {
    ModUnique(off + i, |w|, 0, off + i);
  }

  /** From a position that lines up with the start of w, reading circularly copies w from its start again. */
  lemma CircularTile(w: seq<bv8>, off: nat, len: nat, start: nat, i: nat)
    requires |w| > 0 && (off + start) % |w| == 0
    requires start <= i < start + |w| && i < len
    ensures Circular(w, off, len)[i] == w[i - start]
  {
    ModUnique(off + i, |w|, (off + start) / |w|, i - start);
  }

  /**
   * The layout the reset produces: when it fits, the wheel from the offset
   * on; otherwise the wheel's tail from the offset, then whole copies, then
   * a prefix.
   */
  lemma StampLayout(w: seq<bv8>, product: nat, segmentLow: nat, len: nat)
    requires |w| > 0 && product == 30 * |w|
    ensures WheelOffset(product, segmentLow) < |w|
    ensures var off := WheelOffset(product, segmentLow);
      len <= |w| - off ==> Stamp(w, product, segmentLow, len) == w[off..off + len]
    ensures var off := WheelOffset(product, segmentLow);
      len > |w| - off ==> Stamp(w, product, segmentLow, len) == w[off..] + Tiled(w, len - (|w| - off))
  {
    var off := WheelOffset(product, segmentLow);
    WheelOffsetInRange(|w|, product, segmentLow);
    CircularFrom(w, off, len);
    if len > |w| - off {
      CircularTiles(w, len - (|w| - off));
    }
  }

  /** For a block-aligned segmentLow, the offset is exactly the segment's position in the period. */
  lemma AlignedOffset(product: nat, segmentLow: nat)
    requires product > 0 && product % 30 == 0 && segmentLow % 30 == 0
    ensures segmentLow % product == 30 * WheelOffset(product, segmentLow)
  {
    var q, r := segmentLow / product, segmentLow % product;
    var c := product / 30;
    assert segmentLow == q * product + r;
    assert q * product == (q * c) * 30;
    AddMultipleMod(r, q * c, 30);
  }

  /**
   * Byte i of an aligned segment stands for the same numbers as wheel byte
   * m = (WheelOffset + i) % n, shifted by t whole periods.
   */
  lemma AlignedPosition(n: nat, product: nat, segmentLow: nat, i: nat) returns (t: nat, m: nat)
    requires n > 0 && product == 30 * n && segmentLow % 30 == 0
    ensures m == (WheelOffset(product, segmentLow) + i) % n && m < n
    ensures segmentLow + 30 * i == t * product + 30 * m
  {
    var off := WheelOffset(product, segmentLow);
    AlignedOffset(product, segmentLow);
    var q := segmentLow / product;
    DivNonNegative(segmentLow, product);
    DivNonNegative(off + i, n);
    var s := (off + i) / n;
    m := (off + i) % n;
    ShiftByPeriods(product, n, segmentLow, i, q, off, s, m);
    t := q + s;
  }

  /** Byte i of a reset aligned segment is wheel byte m, for numbers t periods further on. */
  lemma StampByte(limit: nat, segmentLow: nat, len: nat, i: nat) returns (t: nat, m: nat)
    requires MinLimit <= limit
    requires segmentLow % 30 == 0 && i < len
    ensures 0 < |WheelPattern(limit)| && m < |WheelPattern(limit)|
    ensures m < PrimeProduct(limit) / 30
    ensures Stamp(WheelPattern(limit), PrimeProduct(limit), segmentLow, len)[i] == WheelPattern(limit)[m]
    ensures segmentLow + 30 * i == t * PrimeProduct(limit) + 30 * m
  {
    var w, P := WheelPattern(limit), PrimeProduct(limit);
    PrimeProductMultipleOf30(limit);
    ModUnique(P, 30, P / 30, 0);
    t, m := AlignedPosition(|w|, P, segmentLow, i);
  }

  /** Numbers a whole number of periods apart are crossed off together. */
  lemma ShiftedCrossedOff(x: nat, e: nat, t: nat, limit: nat)
    requires x == e + t * PrimeProduct(limit)
    ensures CrossedOff(x, limit) <==> CrossedOff(e, limit)
  {
    CrossedOffPeriodic(e, t, limit);
  }

  /**
   * After a reset of a block-aligned segment with the wheel for limit, bit k
   * of byte i is 1 exactly when segmentLow + 30*i + Residues[k] is not a
   * multiple of any pre-sieved prime.
   */
  lemma StampBitMeaning(limit: nat, segmentLow: nat, len: nat, i: nat, k: nat)
    requires MinLimit <= limit
    requires segmentLow % 30 == 0 && i < len && k < 8
    ensures |WheelPattern(limit)| > 0
    ensures BitSet(Stamp(WheelPattern(limit), PrimeProduct(limit), segmentLow, len)[i], k)
      <==> !CrossedOff(segmentLow + Number(i, k), limit)
  {
    var t, m := StampByte(limit, segmentLow, len, i);
    WheelPatternBit(limit, m, k);
    var x, e := segmentLow + Number(i, k), Number(m, k);
    ShiftedCrossedOff(x, e, t, limit);
  }

  /** StampBitMeaning for every bit of a reset segment at once. */
  lemma StampedBits(segment: seq<bv8>, limit: nat, segmentLow: nat)
    requires MinLimit <= limit && segmentLow % 30 == 0
    requires segment == Stamp(WheelPattern(limit), PrimeProduct(limit), segmentLow, |segment|)
    ensures forall i, k :: 0 <= i < |segment| && 0 <= k < 8 ==>
      (BitSet(segment[i], k) <==> !CrossedOff(segmentLow + Number(i, k), limit))
  {
    forall i, k | 0 <= i < |segment| && 0 <= k < 8
      ensures BitSet(segment[i], k) <==> !CrossedOff(segmentLow + Number(i, k), limit)
    {
      StampBitMeaning(limit, segmentLow, |segment|, i, k);
    }
  }

  /** The worked examples for limit 7: period 210, wheel of 7 bytes. */
  lemma Limit7Stamps()
    ensures var w := WheelPattern(7);
      |w| == 7 &&
      Stamp(w, 210, 0, 20) == w + w + w[..6] &&
      Stamp(w, 210, 3 * 210 + 60, 7) == Stamp(w, 210, 60, 7)
  {
    var w := WheelPattern(7);
    assert PrimeProduct(7) == 210;
    assert WheelOffset(210, 0) == 0;
    StampLayout(w, 210, 0, 20);
    assert Repeat(w, 1) == w;
    assert Tiled(w, 13) == w + w[..6];
    assert w[0..] == w;
    StampPeriodic(w, 210, 60, 3, 7);
  }
}
