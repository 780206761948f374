/**
 * Reference definitions of the Protocol Buffers wire encodings the writer
 * produces: base-128 varints, ZigZag signed-integer mapping and little-endian
 * fixed-width integers ("Encoding" section of the Protocol Buffers
 * documentation).  Every encoder in the model is proved against these.
 */
module WireFormat {

  /** One octet of output. */
  type Byte = x: int | 0 <= x < 256

  const TWO32: nat := 0x1_0000_0000
  const TWO63: nat := 0x8000_0000_0000_0000
  const TWO64: nat := 0x1_0000_0000_0000_0000

  datatype Option<T> = None | Some(value: T)

  function Pow(b: nat, k: nat): nat
  {
    if k == 0 then 1 else b * Pow(b, k - 1)
  }

  // ---------------------------------------------------------------------
  // Base 128 varints

  /** The varint of `v`: 7-bit groups, least significant first, bit 7 set on
      every byte except the last. */
  function Varint(v: nat): seq<Byte>
    decreases v
  {
    if v < 128 then [v] else [v % 128 + 128] + Varint(v / 128)
  }

  /** Number of bytes in the varint of `v`. */
  function VarintLen(v: nat): nat
    decreases v
  {
    if v < 128 then 1 else 1 + VarintLen(v / 128)
  }

  /** Inverse of Varint: reads one varint from the front of `bs` and returns
      its value together with the number of bytes it occupied. */
  function DecodeVarint(bs: seq<Byte>): Option<(nat, nat)>
    decreases |bs|
  {
    if bs == [] then None
    else if bs[0] < 128 then Some((bs[0], 1))
    else match DecodeVarint(bs[1..])
      case None => None
      case Some((v, n)) => Some((bs[0] - 128 + 128 * v, n + 1))
  }

  lemma {:induction false} VarintShape(v: nat)
    ensures |Varint(v)| == VarintLen(v) >= 1
    ensures Varint(v)[|Varint(v)| - 1] < 128
    ensures forall i :: 0 <= i < |Varint(v)| - 1 ==> Varint(v)[i] >= 128
    decreases v
  {
    if v >= 128 {
      VarintShape(v / 128);
    }
  }

  /** Decoding the varint of `v`, whatever follows it, yields `v` and its width. */
  lemma {:induction false} VarintRoundTrip(v: nat, rest: seq<Byte>)
    ensures DecodeVarint(Varint(v) + rest) == Some((v, VarintLen(v)))
    decreases v
  {
    if v >= 128 {
      VarintRoundTrip(v / 128, rest);
      assert (Varint(v) + rest)[1..] == Varint(v / 128) + rest;
    }
  }

  /** VarintLen(v) is the least k >= 1 with v < 128^k. */
  lemma {:induction false} VarintLenLeast(v: nat, k: nat)
    requires k >= 1
    ensures v < Pow(128, k) <==> VarintLen(v) <= k
    decreases k
  {
    PowPositive(128, k - 1);
    assert Pow(128, k) == 128 * Pow(128, k - 1);
    if k > 1 && v >= 128 {
      VarintLenLeast(v / 128, k - 1);
      DivBelow(v, 128, Pow(128, k - 1));
    }
  }

  lemma PowPositive(b: nat, k: nat)
    requires b >= 1
    ensures Pow(b, k) >= 1
  {
  }

  /** x < d * c exactly when x / d < c. */
  lemma DivBelow(x: nat, d: nat, c: nat)
    requires d > 0
    ensures x < d * c <==> x / d < c
  {
    assert x == d * (x / d) + x % d;
    if x / d < c {
      assert d * (x / d) <= d * (c - 1) by { MulMono(d, x / d, c - 1); }
    } else {
      MulMono(d, c, x / d);
    }
  }

  lemma MulMono(d: nat, a: nat, b: nat)
    requires a <= b
    ensures d * a <= d * b
  {
  }

  /** The width of a varint lies in 1..10 for any value below 2^64. */
  lemma VarintLenBelow64(v: nat)
    requires v < TWO64
    ensures 1 <= VarintLen(v) <= 10
  {
    assert Pow(128, 10) == 0x4000_0000_0000_0000_00;
    VarintLenLeast(v, 10);
  }

  /** The width of a varint lies in 1..5 for any value below 2^32. */
  lemma VarintLenBelow32(v: nat)
    requires v < TWO32
    ensures 1 <= VarintLen(v) <= 5
  {
    assert Pow(128, 5) == 0x8_0000_0000;
    VarintLenLeast(v, 5);
  }

  /** Every value in [2^63, 2^64) has a 10-byte varint. */
  lemma VarintLenTen(v: nat)
    requires TWO63 <= v < TWO64
    ensures VarintLen(v) == 10
  {
    assert Pow(128, 9) == 0x8000_0000_0000_0000;
    VarintLenLeast(v, 9);
    VarintLenBelow64(v);
  }

  // ---------------------------------------------------------------------
  // ZigZag

  /** ZigZag maps a signed value to an unsigned one: n to 2n when n >= 0 and
      to -2n - 1 when n < 0. */
  function ZigZag(n: int): nat
  {
    if n >= 0 then 2 * n else -2 * n - 1
  }

  function UnZigZag(z: nat): int
  {
    if z % 2 == 0 then z / 2 else -(z + 1) / 2
  }

  lemma ZigZagRoundTrip(n: int)
    ensures UnZigZag(ZigZag(n)) == n
  {
  }

  lemma ZigZagSurjective(z: nat)
    ensures ZigZag(UnZigZag(z)) == z
  {
  }

  // ---------------------------------------------------------------------
  // Fixed-width little-endian

  /** The four little-endian bytes of a 32-bit value. */
  function LE32(v: nat): seq<Byte>
    requires v < TWO32
  {
    [v % 256, v / 256 % 256, v / 65536 % 256, v / 16777216]
  }

  function DecodeLE32(bs: seq<Byte>): nat
    requires |bs| >= 4
  {
    bs[0] as int + 256 * (bs[1] as int) + 65536 * (bs[2] as int) + 16777216 * (bs[3] as int)
  }

  lemma LE32RoundTrip(v: nat)
    requires v < TWO32
    ensures |LE32(v)| == 4 && DecodeLE32(LE32(v)) == v
  {
    var q1 := v / 256;
    var q2 := q1 / 256;
    var q3 := q2 / 256;
    assert v == v % 256 + 256 * q1;
    assert q1 == q1 % 256 + 256 * q2;
    assert q2 == q2 % 256 + 256 * q3;
    assert v / 65536 == q2;
    assert v / 16777216 == q3;
    assert q3 < 256 by { DivBelow(v, 16777216, 256); }
  }

  lemma DivUnique(x: nat, d: nat, q: nat, r: nat)
    requires d > 0 && r < d && x == d * q + r
    ensures x / d == q && x % d == r
  {
    var q' := x / d;
    assert x == d * q' + x % d;
    if q' < q {
      MulMono(d, q' + 1, q);
    } else if q' > q {
      MulMono(d, q + 1, q');
    }
  }

  // ---------------------------------------------------------------------
  // Known encodings from the Protocol Buffers documentation

  lemma Varint300()
    ensures Varint(300) == [0xAC, 0x02]
  {
  }
}
