/**
 * The protobuf writer of packages/core/src/writer.ts on top of the chunked
 * byte store.  Every write appends the wire encoding of its argument to the
 * store; `fork` remembers where a length-delimited message begins and
 * reserves one byte for its length, `ldelim` writes that length in front of
 * the message (shifting the message right when the length needs more than
 * one byte), `reset` rolls back to the last fork, and `finish` hands out the
 * bytes.
 */
module Writer {
  import opened WireFormat
  import opened Chunks
  import opened ByteVec
  import opened LongBits

  /** `GUESS_VARINT_LEN_FOR_LDELIM`: the bytes `fork` reserves for the length. */
  const GuessVarintLen: nat := 1

  /** `_varint32Len(value)`: the width of the varint of `value >>> 0`, by
      comparison with 128, 128^2, 128^3 and 128^4. */
  function Varint32Len(value: int): (r: nat)
    ensures r == VarintLen(U32(value)) && 1 <= r <= 5
  {
    var v := U32(value);
    VarintLen32(v);
    if v < 128 then 1
    else if v < 16384 then 2
    else if v < 2097152 then 3
    else if v < 268435456 then 4
    else 5
  }

  /** The varint width of a 32-bit value, threshold by threshold. */
  lemma VarintLen32(v: nat)
    requires v < TWO32
    ensures v < 128 ==> VarintLen(v) == 1
    ensures 128 <= v < 16384 ==> VarintLen(v) == 2
    ensures 16384 <= v < 2097152 ==> VarintLen(v) == 3
    ensures 2097152 <= v < 268435456 ==> VarintLen(v) == 4
    ensures 268435456 <= v ==> VarintLen(v) == 5
  {
    assert Pow(128, 1) == 128;
    assert Pow(128, 2) == 16384;
    assert Pow(128, 3) == 2097152;
    assert Pow(128, 4) == 268435456;
    VarintLenBelow32(v);
    if v >= 268435456 {
      VarintLenLeast(v, 4);
    } else if v >= 2097152 {
      VarintLenExact(v, 4);
    } else if v >= 16384 {
      VarintLenExact(v, 3);
    } else if v >= 128 {
      VarintLenExact(v, 2);
    }
  }

  /** `value | 0` in JavaScript: the signed 32-bit reading of `value >>> 0`. */
  function ToInt32(value: int): (r: int)
    ensures -0x8000_0000 <= r < TWO31 && U32(r) == U32(value)
  {
    var u := U32(value);
    if u >= TWO31 then u - TWO32 else u
  }

  /** The 32-bit ZigZag of `sint32`, `(value << 1 ^ value >> 31) >>> 0`:
      `value << 1` is the doubled value cut to signed 32 bits, and `value >> 31`
      is 0 or -1, so the XOR keeps the doubled value or complements it. */
  function ZigZag32(value: int): (r: nat)
    ensures r < TWO32 && r == ZigZag(ToInt32(value))
  {
    var s := ToInt32(value);
    var shifted := ToInt32(2 * s);
    var mask := if s < 0 then -1 else 0;
    ZigZag32Words(s);
    U32(if mask == -1 then -shifted - 1 else shifted)
  }

  lemma ZigZag32Words(s: int)
    requires -0x8000_0000 <= s < TWO31
    ensures s >= 0 ==> U32(ToInt32(2 * s)) == ZigZag(s)
    ensures s < 0 ==> U32(-ToInt32(2 * s) - 1) == ZigZag(s)
  {
    var t := ToInt32(2 * s);
    if s >= 0 {
      DivUnique(2 * s, TWO32, 0, 2 * s);
    } else {
      // 2s and t differ by a multiple of 2^32, so -t - 1 and -2s - 1 do too
      assert U32(t) == U32(2 * s);
      var z := -2 * s - 1;
      assert 0 < z < TWO32;
      DivUnique(z, TWO32, 0, z);
      assert (-t - 1) % TWO32 == z % TWO32 by {
        assert (-t - 1) - z == 2 * s - t;
        assert (2 * s - t) % TWO32 == 0;
      }
    }
  }

  /** `sint32(-2)` writes the single byte 3. */
  lemma Sint32MinusTwo()
    ensures ZigZag32(-2) == 3 && Varint(ZigZag32(-2)) == [3]
  {
    assert ToInt32(-2) == -2;
  }

  /** The eight bytes `fixed64` writes, lo word first, read back. */
  lemma Fixed64RoundTrip(w: Words)
    requires w.Valid()
    ensures DecodeLE32(LE32(w.lo)) + TWO32 * DecodeLE32(LE32(w.hi)) == w.Value()
  {
    LE32RoundTrip(w.lo);
    LE32RoundTrip(w.hi);
  }

  /** One step of `_writeVarint64`'s first loop: the low seven bits of `lo`
      with the continuation bit, followed by the varint of the pair shifted
      right by seven, is the varint of the pair. */
  lemma VarintShiftStep(w: Words, b: Byte, r: Words)
    requires w.Valid() && w.hi != 0 && b == w.lo % 128 + 128
    requires r == Words((w.lo / 128 + w.hi * 0x200_0000) % TWO32, w.hi / 128)
    ensures r.Valid() && Varint(w.Value()) == [b] + Varint(r.Value())
  {
    ShiftRightSeven(w);
  }

  /** One step of `_writeVarint32ByAtIter` on the bytes c, written over
      from p: `done` is written so far, `v` is left to write, and the next
      byte extends `done` over position q. */
  lemma VarintOverStep(c: seq<Byte>, p: nat, done: seq<Byte>, q: nat, v: nat, val: nat, b: Byte)
    requires q == p + |done| && done + Varint(v) == Varint(val) && q + VarintLen(v) <= |c|
    requires v > 127 && b == v % 128 + 128
    ensures (c[..p] + done + c[q..])[q := b] == c[..p] + (done + [b]) + c[q + 1..]
    ensures (done + [b]) + Varint(v / 128) == Varint(val)
    ensures q + 1 + VarintLen(v / 128) <= |c| && q + 1 < |c|
  {
    assert (done + [b]) + Varint(v / 128) == done + ([b] + Varint(v / 128));
  }

  /** The last byte of `_writeVarint32ByAtIter` completes the varint. */
  lemma VarintOverLast(c: seq<Byte>, p: nat, done: seq<Byte>, q: nat, v: nat, val: nat)
    requires q == p + |done| && done + Varint(v) == Varint(val) && q + VarintLen(v) <= |c|
    requires v <= 127
    ensures p + VarintLen(val) == q + 1 <= |c|
    ensures (c[..p] + done + c[q..])[q := v] == c[..p] + Varint(val) + c[p + VarintLen(val)..]
  {
    assert Varint(v) == [v];
    assert VarintLen(val) == |done| + 1 by { VarintShape(val); }
    var m := c[..p] + done + c[q..];
    assert m[q := v] == c[..p] + (done + [v]) + c[q + 1..];
  }

  /** The bytes after `ldelim`'s grow-and-move: the store c, grown by x,
      with its last `len` bytes moved from start + 1 to start + width. */
  lemma MessageShifted(c: seq<Byte>, x: seq<Byte>, c1: seq<Byte>, c2: seq<Byte>, start: nat, len: nat, width: nat)
    requires |c| == start + GuessVarintLen + len && |x| == width - GuessVarintLen && GuessVarintLen < width
    requires c1 == c + x
    requires len > 0 ==> c2 == c1[..start + width] + c1[start + GuessVarintLen..start + GuessVarintLen + len] + c1[start + width + len..]
    requires len == 0 ==> c2 == c1
    ensures |c2| == start + width + len
    ensures c2[..start] == c[..start] && c2[start + width..] == c[start + GuessVarintLen..]
  {
    assert c1[..start] == c[..start];
    assert c1[start + GuessVarintLen..start + GuessVarintLen + len] == c[start + GuessVarintLen..];
  }

  /** What `ldelim` does to the bytes, whichever branch it takes: the
      message after the reserved byte ends up right after the varint of
      its length. */
  lemma LengthInPlace(c: seq<Byte>, c1: seq<Byte>, c2: seq<Byte>, start: nat, len: nat)
    requires |c| == start + GuessVarintLen + len
    requires |c1| == start + VarintLen(len) + len
    requires c1[..start] == c[..start] && c1[start + VarintLen(len)..] == c[start + GuessVarintLen..]
    requires c2 == c1[..start] + Varint(len) + c1[start + VarintLen(len)..]
    ensures c2 == c[..start] + Varint(len) + c[start + GuessVarintLen..]
  {
  }

  /** Overwriting a region just appended to c replaces it. */
  lemma OverwriteAppended(c: seq<Byte>, x: seq<Byte>, w: seq<Byte>)
    requires |x| == |w|
    ensures (c + x)[..|c|] + w + (c + x)[|c| + |w|..] == c + w
  {
    assert (c + x)[..|c|] == c;
    assert (c + x)[|c| + |w|..] == [];
  }

  /** Appending b and then the rest is appending the whole. */
  lemma AppendStep(c: seq<Byte>, b: Byte, rest: seq<Byte>, whole: seq<Byte>)
    requires whole == [b] + rest
    ensures (c + [b]) + rest == c + whole
  {
  }

  /** Four one-byte appends are one four-byte append. */
  lemma AppendFour(c: seq<Byte>, b0: Byte, b1: Byte, b2: Byte, b3: Byte)
    ensures c + [b0] + [b1] + [b2] + [b3] == c + [b0, b1, b2, b3]
  {
  }

  // ---------------------------------------------------------------------
  // The fork stack

  /** The snapshots on the fork stack are usable on the chunks `b`, were
      taken at strictly increasing lengths (each fork wrote a byte), and the
      last is below the current length. */
  ghost predicate Stacked(ss: seq<ByteVecSnapshot>, b: seq<Chunk>)
  {
    && (forall i :: 0 <= i < |ss| ==> FitsIn(ss[i], b))
    && (forall i, j :: 0 <= i < j < |ss| ==> ss[i].len < ss[j].len)
    && (|ss| > 0 ==> ss[|ss| - 1].len < |Flatten(b)|)
  }

  /** Appending to the store keeps the stack. */
  lemma StackedGrows(ss: seq<ByteVecSnapshot>, b0: seq<Chunk>, b1: seq<Chunk>)
    requires Stacked(ss, b0) && Grows(b0, b1) && |Flatten(b0)| <= |Flatten(b1)|
    ensures Stacked(ss, b1)
  {
    forall i | 0 <= i < |ss|
      ensures FitsIn(ss[i], b1)
    {
      GrowsKeepsFits(ss[i], b0, b1);
    }
  }

  /** Writing over bytes keeps every chunk length, hence the stack. */
  lemma StackedSameLens(ss: seq<ByteVecSnapshot>, b0: seq<Chunk>, b1: seq<Chunk>)
    requires Stacked(ss, b0) && SameLens(b0, b1) && |b0| >= 1
    ensures Stacked(ss, b1) && |Flatten(b1)| == |Flatten(b0)|
  {
    OffsetSameLens(b0, b1, |b0|);
    OffsetLast(b0);
    OffsetLast(b1);
    StackedGrows(ss, b0, b1);
  }

  /** A snapshot taken at the current length, followed by one written
      byte, can go on top of the stack. */
  lemma StackedPush(ss: seq<ByteVecSnapshot>, s: ByteVecSnapshot, b: seq<Chunk>)
    requires Stacked(ss, b) && FitsIn(s, b) && s.len < |Flatten(b)|
    requires |ss| > 0 ==> ss[|ss| - 1].len < s.len
    ensures Stacked(ss + [s], b)
  {
    PushedFits(ss, s, b, ss + [s]);
    PushedIncreasing(ss, s, ss + [s]);
  }

  lemma PushedFits(ss: seq<ByteVecSnapshot>, s: ByteVecSnapshot, b: seq<Chunk>, t: seq<ByteVecSnapshot>)
    requires t == ss + [s] && FitsIn(s, b)
    requires forall i :: 0 <= i < |ss| ==> FitsIn(ss[i], b)
    ensures forall i :: 0 <= i < |t| ==> FitsIn(t[i], b)
  {
    forall i | 0 <= i < |t|
      ensures FitsIn(t[i], b)
    {
      if i < |ss| {
        assert t[i] == ss[i];
      }
    }
  }

  lemma PushedIncreasing(ss: seq<ByteVecSnapshot>, s: ByteVecSnapshot, t: seq<ByteVecSnapshot>)
    requires t == ss + [s] && (|ss| > 0 ==> ss[|ss| - 1].len < s.len)
    requires forall i, j :: 0 <= i < j < |ss| ==> ss[i].len < ss[j].len
    ensures forall i, j :: 0 <= i < j < |t| ==> t[i].len < t[j].len
  {
    forall i, j | 0 <= i < j < |t|
      ensures t[i].len < t[j].len
    {
      assert t[i] == ss[i];
      if j == |ss| {
        assert t[j] == s;
        if i < |ss| - 1 {
          assert ss[i].len < ss[|ss| - 1].len;
        }
      } else {
        assert t[j] == ss[j];
      }
    }
  }

  /** Popping the top snapshot and cutting the store back to it keeps the
      rest of the stack. */
  lemma StackedRestore(ss: seq<ByteVecSnapshot>, b: seq<Chunk>)
    requires Stacked(ss, b) && |ss| > 0
    ensures var s := ss[|ss| - 1];
            s.buffersIndex < |b| && s.bufferLen <= b[s.buffersIndex].len
    ensures var s := ss[|ss| - 1];
            |Flatten(CutBack(b, s.buffersIndex, s.bufferLen))| == s.len ==>
              Stacked(ss[..|ss| - 1], CutBack(b, s.buffersIndex, s.bufferLen))
  {
    var s := ss[|ss| - 1];
    forall i | 0 <= i < |ss| - 1
      ensures FitsIn(ss[i], CutBack(b, s.buffersIndex, s.bufferLen))
    {
      RestoreKeepsFits(ss[i], s, b);
    }
  }

  /** Dropping the top snapshot keeps the rest of the stack. */
  lemma StackedPop(ss: seq<ByteVecSnapshot>, b: seq<Chunk>)
    requires Stacked(ss, b) && |ss| > 0
    ensures Stacked(ss[..|ss| - 1], b) && ss[|ss| - 1].len < |Flatten(b)|
    ensures FitsIn(ss[|ss| - 1], b)
  {
    if |ss| > 1 {
      assert ss[|ss| - 2].len < ss[|ss| - 1].len;
    }
  }

  /** `Writer`: a byte store, its fork stack, the snapshot of an empty store
      and a cursor for `ldelim`. */
  class Writer {
    const vec: ByteVec
    var snapshots: seq<ByteVecSnapshot>
    const emptySnapshot: ByteVecSnapshot
    const iter1: Cursor

    /** The bytes written so far. */
    ghost function Content(): seq<Byte>
      reads vec
    {
      vec.Content()
    }

    ghost predicate Valid()
      reads this, vec
    {
      && vec.Valid()
      && iter1 != vec.iter1 && iter1 != vec.iter2
      && emptySnapshot == ByteVecSnapshot(0, 0, 0, 2 * vec.initVecCapacity)
      && Stacked(snapshots, vec.buffers)
    }

    /** `new Writer()`: an empty store, no forks; the empty snapshot is
        taken from the fresh store.  The store's first chunk capacity is a
        parameter here. */
    constructor (initCapacity: nat)
      requires initCapacity >= 1
      ensures Valid() && fresh(vec) && fresh(vec.iter1) && fresh(vec.iter2) && fresh(iter1)
      ensures Content() == [] && snapshots == []
    {
      var v := new ByteVec(initCapacity);
      vec := v;
      snapshots := [];
      emptySnapshot := v.SnapshotEmpty();
      iter1 := new Cursor();
    }

    /** `len`: the number of bytes written. */
    function Len(): (r: nat)
      reads this, vec
      requires Valid()
      ensures r == |Content()|
    {
      vec.Len()
    }

    /** `_writeByte(val)`: appends the byte `val`; every caller passes a
        value below 256. */
    method WriteByte(val: Byte)
      requires Valid()
      modifies vec
      ensures Valid() && snapshots == old(snapshots)
      ensures Content() == old(Content()) + [val]
    {
      ghost var b := vec.buffers;
      vec.PushByte(val);
      StackedGrows(snapshots, b, vec.buffers);
    }

    /** `_writeVarint32(val)`: seven bits at a time, low first, with the
        continuation bit (`val & 127 | 128`) on every byte but the last. */
    method WriteVarint32(val: nat)
      requires Valid() && val < TWO32
      modifies vec
      ensures Valid() && snapshots == old(snapshots)
      ensures Content() == old(Content()) + Varint(val)
    {
      ghost var goal := Content() + Varint(val);
      var v := val;
      while v > 127
        invariant Valid() && snapshots == old(snapshots)
        invariant Content() + Varint(v) == goal
        decreases v
      {
        ghost var c := Content();
        var b: Byte := v % 128 + 128;
        assert Varint(v) == [b] + Varint(v / 128);
        WriteByte(b);
        AppendStep(c, b, Varint(v / 128), Varint(v));
        v := v / 128;
      }
      WriteByte(v);
    }

    /** `uint32(value)`: the varint of `value >>> 0`. */
    method Uint32(value: int)
      requires Valid()
      modifies vec
      ensures Valid() && snapshots == old(snapshots)
      ensures Content() == old(Content()) + Varint(U32(value))
    {
      WriteVarint32(U32(value));
    }

    /** `int32(value)`: a negative value is written as the ten-byte varint
        of its 64-bit two's complement, a non-negative one as `uint32`. */
    method Int32(value: int)
      requires Valid()
      modifies vec
      ensures Valid() && snapshots == old(snapshots)
      ensures value < 0 ==> Content() == old(Content()) + Varint(value % TWO64)
      ensures value >= 0 ==> Content() == old(Content()) + Varint(U32(value))
    {
      if value < 0 {
        var bits := new LongBits(FromNumber(value));
        WriteVarint64(bits);
      } else {
        Uint32(value);
      }
    }

    /** `sint32(value)`: the varint of the 32-bit ZigZag of `value`. */
    method Sint32(value: int)
      requires Valid()
      modifies vec
      ensures Valid() && snapshots == old(snapshots)
      ensures Content() == old(Content()) + Varint(ZigZag(ToInt32(value)))
    {
      var z := ZigZag32(value);
      DivUnique(z, TWO32, 0, z);
      Uint32(z);
    }

    /** `uint64(value)` (and `int64`, the same method): the varint of the
        value's 64-bit two's complement. */
    method Uint64(value: IntoLongBits)
      requires Valid() && value.InRange()
      modifies vec
      ensures Valid() && snapshots == old(snapshots)
      ensures Content() == old(Content()) + Varint(value.Denotes() % TWO64)
    {
      var bits := new LongBits(From(value));
      WriteVarint64(bits);
    }

    /** `sint64(value)`: the varint of the 64-bit ZigZag of the value. */
    method Sint64(value: IntoLongBits)
      requires Valid() && value.InRange()
      modifies vec
      ensures Valid() && snapshots == old(snapshots)
      ensures Content() == old(Content()) + Varint(ZigZag(Signed64(value.Denotes() % TWO64)))
    {
      var bits := new LongBits(From(value));
      bits := bits.ZzEncode();
      WriteVarint64(bits);
    }

    /** `_writeVarint64(val)`: while the high word is non-zero, writes the
        low seven bits of `lo` with the continuation bit and shifts the pair
        right by seven; then finishes as `_writeVarint32` on `lo`.  The pair
        is consumed in place. */
    method WriteVarint64(val: LongBits)
      requires Valid() && val.Bits().Valid()
      modifies vec, val
      ensures Valid() && snapshots == old(snapshots)
      ensures Content() == old(Content()) + Varint(old(val.Bits().Value()))
      ensures val.hi == 0 && val.lo <= 127 && val.lo == Content()[|Content()| - 1]
    {
      ghost var goal := Content() + Varint(val.Bits().Value());
      while val.hi != 0
        invariant Valid() && snapshots == old(snapshots) && val.Bits().Valid()
        invariant Content() + Varint(val.Bits().Value()) == goal
        decreases val.hi
      {
        ghost var c, w := Content(), val.Bits();
        var lo, hi := (val.lo / 128 + val.hi * 0x200_0000) % TWO32, val.hi / 128;
        var b: Byte := val.lo % 128 + 128;
        VarintShiftStep(w, b, Words(lo, hi));
        WriteByte(b);
        val.lo, val.hi := lo, hi;
        AppendStep(c, b, Varint(Words(lo, hi).Value()), Varint(w.Value()));
      }
      while val.lo > 127
        invariant Valid() && snapshots == old(snapshots) && val.Bits().Valid() && val.hi == 0
        invariant Content() + Varint(val.lo) == goal
        decreases val.lo
      {
        ghost var c, v := Content(), val.lo;
        var b: Byte := val.lo % 128 + 128;
        var lo := val.lo / 128;
        assert Varint(v) == [b] + Varint(lo);
        WriteByte(b);
        val.lo := lo;
        AppendStep(c, b, Varint(lo), Varint(v));
      }
      WriteByte(val.lo);
    }

    /** `bool(value)`: one byte, 1 or 0. */
    method Bool(value: bool)
      requires Valid()
      modifies vec
      ensures Valid() && snapshots == old(snapshots)
      ensures Content() == old(Content()) + [if value then 1 else 0]
    {
      WriteByte(if value then 1 else 0);
    }

    /** `_writeFixed32(val)` (and `fixed32`, `sfixed32`): the four bytes of
        `val >>> 0`, least significant first. */
    method WriteFixed32(val: int)
      requires Valid()
      modifies vec
      ensures Valid() && snapshots == old(snapshots)
      ensures Content() == old(Content()) + LE32(U32(val))
    {
      var u := U32(val);
      DivBelow(u, 16777216, 256);
      var b0: Byte, b1: Byte, b2: Byte, b3: Byte := u % 256, u / 256 % 256, u / 65536 % 256, u / 16777216;
      ghost var c := Content();
      WriteByte(b0);
      WriteByte(b1);
      WriteByte(b2);
      WriteByte(b3);
      AppendFour(c, b0, b1, b2, b3);
    }

    /** `fixed64(value)` (and `sfixed64`): the low word, then the high word,
        each as four little-endian bytes. */
    method Fixed64(value: IntoLongBits)
      requires Valid() && value.InRange()
      modifies vec
      ensures Valid() && snapshots == old(snapshots)
      ensures Content() == old(Content()) + LE32(From(value).lo) + LE32(From(value).hi)
    {
      var bits := From(value);
      DivUnique(bits.lo, TWO32, 0, bits.lo);
      DivUnique(bits.hi, TWO32, 0, bits.hi);
      WriteFixed32(bits.lo);
      WriteFixed32(bits.hi);
    }

    /** `bytes(value)` for a byte array: an empty array is the single byte
        0, the varint of zero; otherwise the varint of the length, then the
        bytes, copied into a region reserved at the end of the store. */
    method Bytes(value: seq<Byte>)
      requires Valid() && |value| < TWO32
      modifies vec
      ensures Valid() && snapshots == old(snapshots)
      ensures Content() == old(Content()) + Varint(|value|) + value
    {
      var len := U32(|value|);
      DivUnique(|value|, TWO32, 0, |value|);
      if len == 0 {
        WriteByte(0);
        return;
      }
      Uint32(len);
      CopyIn(value);
    }

    /** The copy of `bytes`: reserves |value| bytes at the end of the store
        and sets them to `value` in the chunk that holds them. */
    method CopyIn(value: seq<Byte>)
      requires Valid()
      modifies vec
      ensures Valid() && Content() == old(Content()) + value
    {
      ghost var c1 := Content();
      var a, x := Reserve(|value|);
      ghost var b2 := vec.buffers;
      vec.SetInChunk(a.buffersIndex, a.offset, value);
      OverwriteAppended(c1, x, value);
      StackedSameLens(snapshots, b2, vec.buffers);
    }

    /** `reserveMore(n, allocated)` followed by `addLen(n)`: appends n bytes
        whose values are whatever the chunk held, and names where they are
        so that the caller can fill them in place. */
    method Reserve(n: nat) returns (a: Allocated, ghost x: seq<Byte>)
      requires Valid()
      modifies vec
      ensures Valid() && snapshots == old(snapshots)
      ensures |x| == n && Content() == old(Content()) + x
      ensures a.buffersIndex < |vec.buffers| && a.offset + n <= vec.buffers[a.buffersIndex].len
      ensures Offset(vec.buffers, a.buffersIndex) + a.offset == old(|Content()|)
    {
      ghost var b0 := vec.buffers;
      a := vec.Allocate(n);
      x := vec.CurrentChunk().bytes[a.offset..a.offset + n];
      StackedGrows(snapshots, b0, vec.buffers);
    }

    /** `fork()`: pushes a snapshot of the store onto the stack and writes
        the one byte reserved for the length `ldelim` will put there. */
    method Fork()
      requires Valid()
      modifies this, vec
      ensures Valid()
      ensures |snapshots| == |old(snapshots)| + 1 && snapshots[..|old(snapshots)|] == old(snapshots)
      ensures snapshots[|old(snapshots)|].len == |old(Content())|
      ensures Content() == old(Content()) + [0]
    {
      var s := vec.Snapshot();
      ghost var ss, b0 := snapshots, vec.buffers;
      snapshots := snapshots + [s];
      vec.PushByte(0);
      ghost var b1 := vec.buffers;
      StackedGrows(ss, b0, b1);
      GrowsKeepsFits(s, b0, b1);
      StackedPush(ss, s, b1);
    }

    /** `reset()`: pops the last fork and rolls the store back to it, fork
        byte included; with no fork it empties the store. */
    method Reset()
      requires Valid()
      modifies this, vec
      ensures Valid()
      ensures old(snapshots) != [] ==>
                && snapshots == old(snapshots)[..|old(snapshots)| - 1]
                && Content() == old(Content())[..old(snapshots)[|old(snapshots)| - 1].len]
      ensures old(snapshots) == [] ==> snapshots == [] && Content() == []
    {
      ghost var ss, b0, c0 := snapshots, vec.buffers, Content();
      if |snapshots| > 0 {
        var s := snapshots[|snapshots| - 1];
        StackedRestore(ss, b0);
        StackedPop(ss, b0);
        snapshots := snapshots[..|snapshots| - 1];
        vec.RestoreSnapshot(s);
      } else {
        OffsetFirst(b0);
        vec.RestoreSnapshot(emptySnapshot);
      }
    }

    /** `_writeVarint32ByAtIter(val, iter)`: writes the varint of `val` over
        the bytes from the cursor on, moving the cursor forward between
        bytes. */
    method WriteVarint32ByAtIter(val: nat, it: Cursor, ghost p: nat)
      requires Valid() && val < TWO32 && vec.At(it, p) && p + VarintLen(val) <= |Content()|
      modifies vec, it
      ensures Valid() && snapshots == old(snapshots)
      ensures Content() == old(Content())[..p] + Varint(val) + old(Content())[p + VarintLen(val)..]
    {
      ghost var c0 := Content();
      ghost var q: nat := p;
      ghost var done: seq<Byte> := [];
      var v := val;
      while v > 127
        invariant WritingOver(it, c0, p, done, q, v, val)
        decreases v
      {
        done, q := WriteGroup(it, v, c0, p, done, q, val);
        v := v / 128;
      }
      WriteLast(it, v, c0, p, done, q, val);
    }

    /** The state of `_writeVarint32ByAtIter` over the bytes c0 from p:
        `done` is written, the cursor is on position q, and `v` is left to
        write. */
    ghost predicate WritingOver(it: Cursor, c0: seq<Byte>, p: nat, done: seq<Byte>, q: nat, v: nat, val: nat)
      reads this, vec, it
    {
      && Valid() && vec.At(it, q)
      && q == p + |done| && done + Varint(v) == Varint(val)
      && q + VarintLen(v) <= |c0|
      && Content() == c0[..p] + done + c0[q..]
    }

    /** One pass of the `_writeVarint32ByAtIter` loop: the low seven bits of
        `v` with the continuation bit go under the cursor, which moves on. */
    method WriteGroup(it: Cursor, v: nat, ghost c0: seq<Byte>, ghost p: nat, ghost done: seq<Byte>, ghost q: nat, ghost val: nat)
      returns (ghost done': seq<Byte>, ghost q': nat)
      requires WritingOver(it, c0, p, done, q, v, val) && v > 127
      modifies vec, it
      ensures WritingOver(it, c0, p, done', q', v / 128, val)
    {
      var b: Byte := v % 128 + 128;
      VarintOverStep(c0, p, done, q, v, val, b);
      WriteAndStep(it, b, q);
      done', q' := done + [b], q + 1;
    }

    /** The last byte of `_writeVarint32ByAtIter`, written after the loop,
        completes the varint of `val` at p. */
    method WriteLast(it: Cursor, v: nat, ghost c0: seq<Byte>, ghost p: nat, ghost done: seq<Byte>, ghost q: nat, ghost val: nat)
      requires WritingOver(it, c0, p, done, q, v, val) && v <= 127
      modifies vec
      ensures Valid() && p + VarintLen(val) <= |c0|
      ensures Content() == c0[..p] + Varint(val) + c0[p + VarintLen(val)..]
    {
      WriteAtCursor(it, v, q);
      VarintOverLast(c0, p, done, q, v, val);
    }

    /** Writes a byte under the cursor and moves it on. */
    method WriteAndStep(it: Cursor, b: Byte, ghost q: nat)
      requires Valid() && vec.At(it, q) && q + 1 < |Content()|
      modifies vec, it
      ensures Valid() && snapshots == old(snapshots) && vec.At(it, q + 1)
      ensures Content() == old(Content())[q := b]
    {
      WriteAtCursor(it, b, q);
      vec.ForwardIter(it, q);
    }

    /** `writeByteAtIter` on the store, keeping the fork stack. */
    method WriteAtCursor(it: Cursor, b: Byte, ghost q: nat)
      requires Valid() && vec.At(it, q)
      modifies vec
      ensures Valid() && snapshots == old(snapshots) && vec.At(it, q)
      ensures Content() == old(Content())[q := b]
    {
      ghost var b0 := vec.buffers;
      vec.WriteByteAtIter(it, b, q);
      StackedSameLens(snapshots, b0, vec.buffers);
    }

    /** The branch of `ldelim` for a length that needs more than the one
        reserved byte: grows the store by the missing bytes and moves the
        message right to make room. */
    method ShiftMessage(start: nat, len: nat, width: nat)
      requires Valid() && start + GuessVarintLen + len == |Content()| && GuessVarintLen < width
      modifies vec, vec.iter1, vec.iter2
      ensures Valid() && snapshots == old(snapshots)
      ensures |Content()| == start + width + len
      ensures Content()[..start] == old(Content())[..start]
      ensures Content()[start + width..] == old(Content())[start + GuessVarintLen..]
    {
      ghost var c := Content();
      ghost var x: seq<Byte> := [];
      var maxLen := (if start + GuessVarintLen > start + width then start + GuessVarintLen else start + width) + len;
      if maxLen > vec.Len() {
        var left := maxLen - vec.Len();
        var a;
        a, x := Reserve(left);
      }
      ghost var c1 := Content();
      MoveBytes(start + GuessVarintLen, start + width, len);
      MessageShifted(c, x, c1, Content(), start, len, width);
    }

    /** `moveBackward` on the store, keeping the fork stack. */
    method MoveBytes(from: nat, to: nat, n: nat)
      requires Valid() && (n > 0 ==> from < to && to + n <= |Content()|)
      modifies vec, vec.iter1, vec.iter2
      ensures Valid() && snapshots == old(snapshots)
      ensures n == 0 ==> Content() == old(Content())
      ensures n > 0 ==> Content() == old(Content())[..to] + old(Content())[from..from + n] + old(Content())[to + n..]
    {
      ghost var b0 := vec.buffers;
      vec.MoveBackward(from, to, n);
      StackedSameLens(snapshots, b0, vec.buffers);
    }

    /** `ldelim()`: pops the last fork and writes the length of everything
        written since, as a varint, where the fork reserved its byte. */
    method Ldelim()
      requires Valid() && Len() <= TWO32
      modifies this`snapshots, vec, vec.iter1, vec.iter2, iter1
      ensures Valid()
      ensures old(snapshots) == [] ==> snapshots == [] && Content() == old(Content())
      ensures old(snapshots) != [] ==>
                var s := old(snapshots)[|old(snapshots)| - 1];
                var c := old(Content());
                && s.len < |c|
                && snapshots == old(snapshots)[..|old(snapshots)| - 1]
                && Content() == c[..s.len] + Varint(|c| - s.len - GuessVarintLen) + c[s.len + GuessVarintLen..]
    {
      if |snapshots| == 0 {
        return;
      }
      var s := PopSnapshot();
      var len: nat := vec.Len() - s.len - GuessVarintLen;
      WriteLength(s.len, len);
    }

    /** A fork, a payload copied in as by `bytes`, then `ldelim`: the
        payload ends up right after the varint of its length, the
        placeholder byte gone, whatever the length's width. */
    method ForkLdelim(payload: seq<Byte>)
      requires Valid() && Len() + GuessVarintLen + |payload| <= TWO32
      modifies this, vec, vec.iter1, vec.iter2, iter1
      ensures Valid() && snapshots == old(snapshots)
      ensures Content() == old(Content()) + Varint(|payload|) + payload
    {
      ghost var pre := Content();
      Fork();
      CopyIn(payload);
      ghost var c := Content();
      assert c == pre + [0] + payload;
      Ldelim();
      assert c[..|pre|] == pre && c[|pre| + GuessVarintLen..] == payload;
    }

    /** `_snapshots.pop()`: the top fork leaves the stack. */
    method PopSnapshot() returns (s: ByteVecSnapshot)
      requires Valid() && |snapshots| > 0
      modifies this`snapshots
      ensures Valid() && s == old(snapshots)[|old(snapshots)| - 1] && s.len < |Content()|
      ensures snapshots == old(snapshots)[..|old(snapshots)| - 1]
    {
      s := snapshots[|snapshots| - 1];
      StackedPop(snapshots, vec.buffers);
      snapshots := snapshots[..|snapshots| - 1];
    }

    /** The rest of `ldelim` once the fork is popped: the varint of `len`
        replaces the byte reserved at `start`, the message after it moving
        right when the varint is wider than that byte. */
    method WriteLength(start: nat, len: nat)
      requires Valid() && start + GuessVarintLen + len == |Content()| && len < TWO32
      modifies vec, vec.iter1, vec.iter2, iter1
      ensures Valid() && snapshots == old(snapshots)
      ensures Content() == old(Content())[..start] + Varint(len) + old(Content())[start + GuessVarintLen..]
    {
      ghost var c := Content();
      var width := Varint32Len(len);
      DivUnique(len, TWO32, 0, len);
      assert width == VarintLen(len);
      if width != GuessVarintLen {
        ShiftMessage(start, len, width);
      }
      ghost var c1 := Content();
      vec.GetIter(start, iter1);
      WriteVarint32ByAtIter(len, iter1, start);
      LengthInPlace(c, c1, Content(), start, len);
    }

    /** `finish()`: hands out the bytes after the last fork's reserved byte
        (all of them with no fork) and leaves the writer without chunks or
        forks. */
    method Finish() returns (r: seq<Byte>)
      requires Valid()
      modifies this, vec
      ensures snapshots == [] && vec.buffers == []
      ensures old(snapshots) == [] ==> r == old(Content())
      ensures old(snapshots) != [] ==>
                var s := old(snapshots)[|old(snapshots)| - 1];
                s.len < |old(Content())| && r == old(Content())[s.len + GuessVarintLen..]
    {
      if |snapshots| > 0 {
        var s := snapshots[|snapshots| - 1];
        StackedPop(snapshots, vec.buffers);
        snapshots := [];
        r := vec.ToBufferAndClear(s.len + GuessVarintLen);
      } else {
        r := vec.ToBufferAndClear(0);
      }
    }
  }
}
