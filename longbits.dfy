/**
 * A 64-bit integer held as two unsigned 32-bit words, as in
 * packages/core/src/longbits.ts.  Conversions and the varint length are pure
 * functions on the pair; the ZigZag transform updates a LongBits object in
 * place, as the source does.
 */
module LongBits {
  import opened WireFormat

  const TWO31: nat := 0x8000_0000

  /** `x >>> 0` on an integral number: its residue modulo 2^32. */
  function U32(x: int): nat
  {
    x % TWO32
  }

  /** The (lo, hi) pair of a LongBits object. */
  datatype Words = Words(lo: nat, hi: nat)
  {
    predicate Valid()
    {
      lo < TWO32 && hi < TWO32
    }

    /** The unsigned 64-bit value the pair stands for. */
    function Value(): nat
    {
      hi * TWO32 + lo
    }
  }

  /** The canonical zero, `LongBits.zero`. */
  const Zero: Words := Words(0, 0)

  /** The signed reading of an unsigned 64-bit value (two's complement). */
  function Signed64(u: nat): int
  {
    if u < TWO63 then u else u - TWO64
  }

  /** `LongBits.fromNumber`: splits the magnitude into two words and, for a
      negative input, takes the two's complement of the pair. */
  function FromNumber(v: int): (r: Words)
    ensures r.Valid() && r.Value() == v % TWO64
    ensures v == 0 ==> r == Zero
  {
    if v == 0 then Zero
    else
      var sign := v < 0;
      var m: nat := if sign then -v else v;
      var lo := U32(m);
      var hi := U32((m - lo) / TWO32);
      SplitWords(m);
      if !sign then Words(lo, hi)
      else
        NegatedResidue(m, hi * TWO32 + lo);
        Negate(Words(lo, hi))
  }

  /** The negative branch of `fromNumber`: invert both words and add one,
      carrying from the low word into the high one; the pair then stands for
      the two's complement of its old value. */
  function Negate(w: Words): (r: Words)
    requires w.Valid()
    ensures r.Valid() && r.Value() == (TWO64 - w.Value()) % TWO64
  {
    var notHi := TWO32 - 1 - w.hi;
    var notLo := TWO32 - 1 - w.lo;
    if notLo + 1 > TWO32 - 1 then
      var r := Words(0, if notHi + 1 > TWO32 - 1 then 0 else notHi + 1);
      assert r.Value() == (TWO64 - w.Value()) % TWO64 by {
        if w.hi == 0 {
          DivUnique(TWO64, TWO64, 1, 0);
        } else {
          DivUnique(TWO64 - w.Value(), TWO64, 0, TWO64 - w.Value());
        }
      }
      r
    else
      var r := Words(notLo + 1, notHi);
      assert r.Value() == (TWO64 - w.Value()) % TWO64 by {
        DivUnique(TWO64 - w.Value(), TWO64, 0, TWO64 - w.Value());
      }
      r
  }

  /** The residue of a negated number is the complement of its own residue. */
  lemma NegatedResidue(m: int, u: nat)
    requires 0 <= m && u == m % TWO64
    ensures (-m) % TWO64 == (TWO64 - u) % TWO64
  {
    var q := m / TWO64;
    assert m == TWO64 * q + u;
    if u == 0 {
      ModUnique(-m, TWO64, -q, 0);
    } else {
      ModUnique(-m, TWO64, -q - 1, TWO64 - u);
    }
  }

  /** Euclidean remainder on integers of either sign is determined by any
      quotient-remainder split. */
  lemma ModUnique(x: int, d: nat, q: int, r: nat)
    requires 0 < d && r < d && x == d * q + r
    ensures x % d == r
  {
    var q', r' := x / d, x % d;
    assert d * q' + r' == d * q + r;
    var k := q - q';
    assert d * k == r' - r;
    if k >= 1 {
      assert false;
    } else if k <= -1 {
      assert false;
    }
  }

  /** The two words of a magnitude recombine to it modulo 2^64. */
  lemma SplitWords(m: nat)
    ensures U32((m - U32(m)) / TWO32) * TWO32 + U32(m) == m % TWO64
  {
    var q, r := m / TWO32, m % TWO32;
    DivUnique(m - r, TWO32, q, 0);
    var a, b := q / TWO32, q % TWO32;
    MulMono(TWO32, b, TWO32 - 1);
    assert m == TWO64 * a + (TWO32 * b + r);
    DivUnique(m, TWO64, a, TWO32 * b + r);
  }

  /** A Long object as `from` receives it: two signed 32-bit words. */
  datatype IntoLongBits =
    | Number(n: int)
    | Long(low: int, high: int)
  {
    predicate InRange()
    {
      match this
      case Number(_) => true
      case Long(low, high) => -low <= TWO31 && low < TWO31 && -high <= TWO31 && high < TWO31
    }

    /** The integer the input denotes. */
    function Denotes(): int
    {
      match this
      case Number(n) => n
      case Long(low, high) => high * TWO32 + U32(low)
    }
  }

  /** `LongBits.from` for a number or a Long object (the decimal-string
      branch is not part of this model). */
  function From(x: IntoLongBits): (r: Words)
    requires x.InRange()
    ensures r.Valid() && r.Value() == x.Denotes() % TWO64
    ensures r == Zero <==> x.Denotes() % TWO64 == 0
  {
    match x
    case Number(n) => FromNumber(n)
    case Long(low, high) =>
      LongWords(low, high);
      if low != 0 || high != 0 then Words(U32(low), U32(high)) else Zero
  }

  lemma LongWords(low: int, high: int)
    requires -low <= TWO31 && low < TWO31 && -high <= TWO31 && high < TWO31
    ensures U32(high) * TWO32 + U32(low) == (high * TWO32 + U32(low)) % TWO64
    ensures U32(low) == 0 <==> low == 0
    ensures U32(high) == 0 <==> high == 0
  {
    var u := high * TWO32 + U32(low);
    if high >= 0 {
      DivUnique(u, TWO64, 0, u);
    } else {
      DivUnique(u + TWO64, TWO64, 0, u + TWO64);
    }
  }

  /** `length()`: the varint width of the pair, by threshold comparisons on
      three slices of the value (bits 0..31, 28..59 and 56..63). */
  function Length(w: Words): (r: nat)
    ensures 1 <= r <= 10
  {
    var part0 := w.lo;
    var part1 := (w.lo / 0x1000_0000 + w.hi * 16) % TWO32;
    var part2 := w.hi / 0x100_0000;
    if part2 == 0 then
      if part1 == 0 then
        if part0 < 16384 then (if part0 < 128 then 1 else 2)
        else (if part0 < 2097152 then 3 else 4)
      else
        if part1 < 16384 then (if part1 < 128 then 5 else 6)
        else (if part1 < 2097152 then 7 else 8)
    else
      if part2 < 128 then 9 else 10
  }

  /** A value in [128^(k-1), 128^k) has a k-byte varint. */
  lemma VarintLenExact(v: nat, k: nat)
    requires k >= 2 && Pow(128, k - 1) <= v < Pow(128, k)
    ensures VarintLen(v) == k
  {
    VarintLenLeast(v, k);
    VarintLenLeast(v, k - 1);
  }

  /** `length()` is the number of bytes of the varint of the pair's value. */
  lemma LengthIsVarintLen(w: Words)
    requires w.Valid()
    ensures Length(w) == VarintLen(w.Value())
    ensures 1 <= Length(w) <= 10
  {
    var v := w.Value();
    VarintLenBelow64(v);
    assert Pow(128, 1) == 128;
    assert Pow(128, 2) == 16384;
    assert Pow(128, 3) == 2097152;
    assert Pow(128, 4) == 0x1000_0000;
    assert Pow(128, 5) == 0x8_0000_0000;
    assert Pow(128, 6) == 0x400_0000_0000;
    assert Pow(128, 7) == 0x2_0000_0000_0000;
    assert Pow(128, 8) == 0x100_0000_0000_0000;
    assert Pow(128, 9) == TWO63;
    if w.hi < 0x100_0000 {
      // part1 is bits 28..59 of the value and nothing is lost to the 32-bit cut
      var q := w.hi * 16 + w.lo / 0x1000_0000;
      assert w.lo == 0x1000_0000 * (w.lo / 0x1000_0000) + w.lo % 0x1000_0000;
      DivUnique(v, 0x1000_0000, q, w.lo % 0x1000_0000);
      DivBelow(w.lo, 0x1000_0000, 16);
      assert q < TWO32;
      assert (w.lo / 0x1000_0000 + w.hi * 16) % TWO32 == v / 0x1000_0000;
      MulMono(TWO32, w.hi, 0xFF_FFFF);
      DivBelow(v, 0x1000_0000, 1);
      DivBelow(v, 0x1000_0000, 128);
      DivBelow(v, 0x1000_0000, 16384);
      DivBelow(v, 0x1000_0000, 2097152);
      if v < 0x1000_0000 {
        assert w.hi == 0;
        if v >= 128 {
          if v < 16384 { VarintLenExact(v, 2); }
          else if v < 2097152 { VarintLenExact(v, 3); }
          else { VarintLenExact(v, 4); }
        }
      } else if v < 0x8_0000_0000 {
        VarintLenExact(v, 5);
      } else if v < 0x400_0000_0000 {
        VarintLenExact(v, 6);
      } else if v < 0x2_0000_0000_0000 {
        VarintLenExact(v, 7);
      } else {
        VarintLenExact(v, 8);
      }
    } else {
      DivBelow(w.hi, 0x100_0000, 128);
      DivBelow(w.hi, 0x100_0000, 1);
      MulMono(TWO32, 0x100_0000, w.hi);
      if w.hi < TWO31 {
        MulMono(TWO32, w.hi, TWO31 - 1);
        VarintLenExact(v, 9);
      } else {
        MulMono(TWO32, TWO31, w.hi);
        VarintLenTen(v);
      }
    }
  }

  /** `length()` is the least k with value < 128^k. */
  lemma LengthLeast(w: Words, k: nat)
    requires w.Valid() && k >= 1
    ensures w.Value() < Pow(128, k) <==> Length(w) <= k
  {
    LengthIsVarintLen(w);
    VarintLenLeast(w.Value(), k);
  }

  /** Shifting the pair left by one bit, as `hi << 1 | lo >>> 31` and
      `lo << 1` do, doubles the value modulo 2^64. */
  lemma ShiftLeftOne(w: Words)
    requires w.Valid()
    ensures (2 * w.hi + w.lo / TWO31) % TWO32 * TWO32 + (2 * w.lo) % TWO32 == (2 * w.Value()) % TWO64
  {
    var c := w.lo / TWO31;
    DivBelow(w.lo, TWO31, 2);
    DivUnique(2 * w.lo, TWO32, c, 2 * w.lo - c * TWO32);
    var h2 := 2 * w.hi + c;
    var d := h2 / TWO32;
    DivBelow(h2, TWO32, 2);
    assert h2 == d * TWO32 + h2 % TWO32;
    var e := (h2 % TWO32) * TWO32 + (2 * w.lo) % TWO32;
    MulMono(TWO32, h2 % TWO32, TWO32 - 1);
    assert 2 * w.Value() == h2 * TWO32 + (2 * w.lo - c * TWO32);
    assert 2 * w.Value() == TWO64 * d + e;
    DivUnique(2 * w.Value(), TWO64, d, e);
  }

  /** The word-level ZigZag of `zzEncode` computes ZigZag of the signed
      64-bit value. */
  lemma ZigZagWords(w: Words)
    requires w.Valid()
    ensures var sh := (2 * w.hi + w.lo / TWO31) % TWO32;
            var sl := (2 * w.lo) % TWO32;
            var r := if w.hi >= TWO31 then Words(TWO32 - 1 - sl, TWO32 - 1 - sh) else Words(sl, sh);
            r.Valid() && r.Value() == ZigZag(Signed64(w.Value()))
  {
    var sh := (2 * w.hi + w.lo / TWO31) % TWO32;
    var sl := (2 * w.lo) % TWO32;
    var v := w.Value();
    ShiftLeftOne(w);
    assert sh * TWO32 + sl == (2 * v) % TWO64;
    if w.hi >= TWO31 {
      MulMono(TWO32, TWO31, w.hi);
      assert v >= TWO63;
      DivUnique(2 * v, TWO64, 1, 2 * v - TWO64);
      var r := Words(TWO32 - 1 - sl, TWO32 - 1 - sh);
      assert (TWO32 - 1 - sh) * TWO32 == TWO64 - TWO32 - sh * TWO32;
      assert r.Value() == TWO64 - 1 - (sh * TWO32 + sl);
    } else {
      MulMono(TWO32, w.hi, TWO31 - 1);
      assert v < TWO63;
      DivUnique(2 * v, TWO64, 0, 2 * v);
    }
  }

  /** One step of the first loop of `_writeVarint64`: `lo >>> 7 | hi << 25`
      (the two parts occupy disjoint bits, so the OR is a sum) and
      `hi >>> 7` shift the pair right by seven bits; the seven bits shifted
      out are the low bits of `lo`. */
  lemma ShiftRightSeven(w: Words)
    requires w.Valid()
    ensures var r := Words((w.lo / 128 + w.hi * 0x200_0000) % TWO32, w.hi / 128);
            && r.Valid() && r.Value() == w.Value() / 128
            && w.Value() % 128 == w.lo % 128
  {
    var h1, h0 := w.hi / 128, w.hi % 128;
    var x := w.lo / 128 + h0 * 0x200_0000;
    DivBelow(w.lo, 128, 0x200_0000);
    MulMono(0x200_0000, h0, 127);
    assert w.lo / 128 + w.hi * 0x200_0000 == TWO32 * h1 + x;
    DivUnique(w.lo / 128 + w.hi * 0x200_0000, TWO32, h1, x);
    DivBelow(w.hi, 128, 0x200_0000);
    assert w.Value() == 128 * (w.hi * 0x200_0000 + w.lo / 128) + w.lo % 128;
    DivUnique(w.Value(), 128, w.hi * 0x200_0000 + w.lo / 128, w.lo % 128);
  }

  /** The pair as a mutable object: `zzEncode` rewrites its words in place. */
  class LongBits {
    var lo: nat
    var hi: nat

    constructor (w: Words)
      ensures Bits() == w
    {
      lo, hi := w.lo, w.hi;
    }

    function Bits(): Words
      reads this
    {
      Words(lo, hi)
    }

    /** 64-bit ZigZag: the signed value n becomes 2n or -2n-1.  The mask is
        the sign bit replicated (`hi >> 31`); XOR with an all-ones mask is
        the complement within 32 bits. */
    method ZzEncode() returns (self: LongBits)
      requires Bits().Valid()
      modifies this
      ensures self == this && Bits().Valid()
      ensures Bits().Value() == ZigZag(Signed64(old(Bits().Value())))
    {
      ghost var w := Bits();
      ZigZagWords(w);
      var negative := hi >= TWO31;
      var shiftedHi := (2 * hi + lo / TWO31) % TWO32;
      var shiftedLo := (2 * lo) % TWO32;
      if negative {
        hi, lo := TWO32 - 1 - shiftedHi, TWO32 - 1 - shiftedLo;
      } else {
        hi, lo := shiftedHi, shiftedLo;
      }
      assert Bits() == (if w.hi >= TWO31 then Words(TWO32 - 1 - shiftedLo, TWO32 - 1 - shiftedHi) else Words(shiftedLo, shiftedHi));
      self := this;
    }
  }
}
