/**
 * The chunk list of packages/core/src/byte-vec.ts as a value.
 *
 * A chunk (`InternalArray`) has a fixed capacity, the length of its `bytes`,
 * and a count `len` of the bytes in use.  The logical content of a chunk
 * list is the concatenation of the used bytes of each chunk (`Flatten`), and
 * chunk i starts at logical offset `Offset(b, i)`.  The lemmas here say how
 * the content moves when one chunk is appended, grown, overwritten in part,
 * or cut back, which is all the byte store ever does to its chunks.
 */
module Chunks {
  import opened WireFormat

  /** `InternalArray`: a chunk; `|bytes|` is its capacity, `len` the bytes in use. */
  datatype InternalArray = InternalArray(bytes: seq<Byte>, len: nat)

  /** A chunk never claims more bytes than it has. */
  type Chunk = c: InternalArray | c.len <= |c.bytes| witness InternalArray([], 0)

  /** The bytes of a chunk that are in use. */
  function View(c: Chunk): seq<Byte>
  {
    c.bytes[..c.len]
  }

  /** The logical content of a chunk list. */
  ghost function Flatten(b: seq<Chunk>): seq<Byte>
    decreases |b|
  {
    if b == [] then [] else Flatten(b[..|b| - 1]) + View(b[|b| - 1])
  }

  /** The logical offset at which chunk i starts. */
  ghost function Offset(b: seq<Chunk>, i: nat): nat
    requires i <= |b|
  {
    |Flatten(b[..i])|
  }

  /** Every chunk strictly between the first and the last holds a byte. */
  ghost predicate Dense(b: seq<Chunk>)
  {
    forall k :: 1 <= k < |b| - 1 ==> b[k].len > 0
  }

  // ---------------------------------------------------------------------
  // Flatten and Offset

  lemma TakeAppend(x: seq<Byte>, y: seq<Byte>, k: nat)
    requires k <= |y|
    ensures (x + y)[..|x| + k] == x + y[..k]
  {
  }

  /** Taking k bytes past x out of x + (y + z), with k within y. */
  lemma TakeInMiddle(x: seq<Byte>, y: seq<Byte>, z: seq<Byte>, k: nat)
    requires k <= |y|
    ensures |x| + k <= |x + (y + z)| && (x + (y + z))[..|x| + k] == x + y[..k]
  {
    assert (y + z)[..k] == y[..k];
    TakeAppend(x, y + z, k);
  }

  lemma DropAppend(x: seq<Byte>, y: seq<Byte>, k: nat)
    requires k <= |y|
    ensures (x + y)[|x| + k..] == y[k..]
  {
  }

  /** The middle part of a + v + z, sliced. */
  lemma SliceMiddle(a: seq<Byte>, v: seq<Byte>, z: seq<Byte>, lo: nat, hi: nat)
    requires lo <= hi <= |v|
    ensures (a + v + z)[|a| + lo..|a| + hi] == v[lo..hi]
  {
    var c := a + v + z;
    forall q | 0 <= q < hi - lo
      ensures c[|a| + lo..|a| + hi][q] == v[lo..hi][q]
    {
      assert c[|a| + lo + q] == v[lo + q];
    }
  }

  /** Two adjacent slices join into one. */
  lemma SliceJoin(c: seq<Byte>, a: nat, m: nat, e: nat)
    requires a <= m <= e <= |c|
    ensures c[a..m] + c[m..e] == c[a..e]
  {
  }

  /** Splicing one byte in is updating that position. */
  lemma SpliceOne(c: seq<Byte>, p: nat, v: Byte)
    requires p < |c|
    ensures c[..p] + [v] + c[p + 1..] == c[p := v]
  {
  }

  lemma DropPrefix(x: seq<Byte>, y: seq<Byte>, k: nat)
    requires k <= |x|
    ensures (x + y)[k..] == x[k..] + y
  {
  }


  lemma FlattenPush(b: seq<Chunk>, x: Chunk)
    ensures Flatten(b + [x]) == Flatten(b) + View(x)
  {
    assert (b + [x])[..|b|] == b;
  }

  lemma {:induction false} FlattenConcat(p: seq<Chunk>, q: seq<Chunk>)
    ensures Flatten(p + q) == Flatten(p) + Flatten(q)
    decreases |q|
  {
    if q == [] {
      assert p + q == p;
    } else {
      var q' := q[..|q| - 1];
      assert (p + q)[..|p + q| - 1] == p + q';
      FlattenConcat(p, q');
    }
  }

  /** The content is the content before chunk i, then chunk i, then the rest. */
  lemma FlattenSplit(b: seq<Chunk>, i: nat)
    requires i < |b|
    ensures Flatten(b) == Flatten(b[..i]) + View(b[i]) + Flatten(b[i + 1..])
    ensures Offset(b, i) + b[i].len <= |Flatten(b)|
  {
    assert b == b[..i] + ([b[i]] + b[i + 1..]);
    FlattenConcat(b[..i], [b[i]] + b[i + 1..]);
    FlattenConcat([b[i]], b[i + 1..]);
    assert Flatten([b[i]]) == View(b[i]) by {
      assert [b[i]][..0] == [];
    }
  }

  /** The content up to chunk i is the content of the first i chunks. */
  lemma FlattenPrefix(b: seq<Chunk>, i: nat)
    requires i <= |b|
    ensures Offset(b, i) <= |Flatten(b)| && Flatten(b)[..Offset(b, i)] == Flatten(b[..i])
  {
    assert b == b[..i] + b[i..];
    FlattenConcat(b[..i], b[i..]);
  }

  /** Byte j of chunk i is byte Offset(b, i) + j of the content. */
  lemma FlattenAt(b: seq<Chunk>, i: nat, j: nat)
    requires i < |b| && j < b[i].len
    ensures Offset(b, i) + j < |Flatten(b)| && Flatten(b)[Offset(b, i) + j] == b[i].bytes[j]
  {
    FlattenSplit(b, i);
    assert Flatten(b)[Offset(b, i) + j] == (Flatten(b[..i]) + View(b[i]))[Offset(b, i) + j];
  }

  /** Chunk i + 1 starts where chunk i ends. */
  lemma OffsetStep(b: seq<Chunk>, i: nat)
    requires i < |b|
    ensures Offset(b, i + 1) == Offset(b, i) + b[i].len
  {
    assert b[..i + 1][..i] == b[..i];
  }

  lemma OffsetFirst(b: seq<Chunk>)
    ensures Offset(b, 0) == 0
  {
    assert b[..0] == [];
  }

  lemma OffsetLast(b: seq<Chunk>)
    ensures Offset(b, |b|) == |Flatten(b)|
  {
    assert b[..|b|] == b;
  }

  /** Offsets grow with the chunk index. */
  lemma OffsetMonotone(b: seq<Chunk>, i: nat, i': nat)
    requires i <= i' <= |b|
    ensures Offset(b, i) <= Offset(b, i')
  {
    assert b[..i'] == b[..i] + b[i..i'];
    FlattenConcat(b[..i], b[i..i']);
  }

  /** Offsets depend only on the lengths of the chunks before. */
  lemma {:induction false} OffsetSameLens(b0: seq<Chunk>, b1: seq<Chunk>, i: nat)
    requires i <= |b0| && i <= |b1|
    requires forall k :: 0 <= k < i ==> b0[k].len == b1[k].len
    ensures Offset(b0, i) == Offset(b1, i)
  {
    if i == 0 {
      OffsetFirst(b0);
      OffsetFirst(b1);
    } else {
      OffsetSameLens(b0, b1, i - 1);
      OffsetStep(b0, i - 1);
      OffsetStep(b1, i - 1);
    }
  }

  /** Bytes lo .. hi of chunk i are the content from Offset(b, i) + lo to
      Offset(b, i) + hi. */
  lemma ChunkSlice(b: seq<Chunk>, i: nat, lo: nat, hi: nat)
    requires i < |b| && lo <= hi <= b[i].len
    ensures Offset(b, i) + hi <= |Flatten(b)|
    ensures b[i].bytes[lo..hi] == Flatten(b)[Offset(b, i) + lo..Offset(b, i) + hi]
  {
    var a, v, z := Flatten(b[..i]), View(b[i]), Flatten(b[i + 1..]);
    assert Flatten(b) == a + v + z && Offset(b, i) == |a| by { FlattenSplit(b, i); }
    SliceMiddle(a, v, z, lo, hi);
    assert v[lo..hi] == b[i].bytes[lo..hi];
  }

  /** Extending the chunk prefix by one chunk extends its content by that chunk. */
  lemma FlattenStep(b: seq<Chunk>, j: nat)
    requires j < |b|
    ensures Flatten(b[..j + 1]) == Flatten(b[..j]) + View(b[j])
  {
    assert b[..j + 1] == b[..j] + [b[j]];
    FlattenPush(b[..j], b[j]);
  }

  // ---------------------------------------------------------------------
  // What the store does to its chunks

  /** Replacing the last chunk by one whose used bytes extend it by `bs`
      appends `bs` to the content. */
  lemma GrowLast(b: seq<Chunk>, x: Chunk, bs: seq<Byte>)
    requires |b| >= 1 && View(x) == View(b[|b| - 1]) + bs
    ensures Flatten(b[|b| - 1 := x]) == Flatten(b) + bs
  {
    assert b[|b| - 1 := x][..|b| - 1] == b[..|b| - 1];
  }

  /** The chunk that overwrites bytes o .. o+|w| of chunk c with w. */
  function Overwrite(c: Chunk, o: nat, w: seq<Byte>): (r: Chunk)
    requires o + |w| <= c.len
    ensures r.len == c.len && |r.bytes| == |c.bytes|
    ensures View(r) == View(c)[..o] + w + View(c)[o + |w|..]
  {
    var r := InternalArray(c.bytes[..o] + w + c.bytes[o + |w|..], c.len);
    assert View(r) == View(c)[..o] + w + View(c)[o + |w|..];
    r
  }

  /** Splicing w into the middle part v of a + v + z is splicing it into the whole. */
  lemma SpliceMiddle(a: seq<Byte>, v: seq<Byte>, z: seq<Byte>, o: nat, w: seq<Byte>, c: seq<Byte>, p: nat)
    requires o + |w| <= |v| && c == a + v + z && p == |a| + o
    ensures p + |w| <= |c| && c[..p] + w + c[p + |w|..] == a + (v[..o] + w + v[o + |w|..]) + z
  {
    assert c == a + (v + z);
    TakeAppend(a, v + z, o);
    assert (v + z)[..o] == v[..o];
    DropAppend(a, v + z, o + |w|);
    assert (v + z)[o + |w|..] == v[o + |w|..] + z;
  }

  /** Overwriting bytes o .. o+|w| of chunk i overwrites the bytes at the
      same place of the content, Offset(b, i) + o onwards. */
  lemma OverwriteIn(b: seq<Chunk>, i: nat, o: nat, w: seq<Byte>, p: nat)
    requires i < |b| && o + |w| <= b[i].len && p == Offset(b, i) + o
    ensures p + |w| <= |Flatten(b)|
    ensures Flatten(b[i := Overwrite(b[i], o, w)]) == Flatten(b)[..p] + w + Flatten(b)[p + |w|..]
  {
    var x := Overwrite(b[i], o, w);
    var a, v, z := Flatten(b[..i]), View(b[i]), Flatten(b[i + 1..]);
    assert p == |a| + o;
    assert Flatten(b) == a + v + z by {
      FlattenSplit(b, i);
    }
    assert Flatten(b[i := x]) == a + View(x) + z by {
      FlattenUpdate(b, i, x, b[i := x]);
    }
    SpliceMiddle(a, v, z, o, w, Flatten(b), p);
  }

  /** Replacing chunk i replaces its part of the content. */
  lemma FlattenUpdate(b: seq<Chunk>, i: nat, x: Chunk, b': seq<Chunk>)
    requires i < |b| && b' == b[i := x]
    ensures Flatten(b') == Flatten(b[..i]) + View(x) + Flatten(b[i + 1..])
  {
    FlattenSplit(b', i);
    assert b'[..i] == b[..i] && b'[i + 1..] == b[i + 1..];
  }

  /** The chunk list cut back to a snapshot: chunks after `idx` dropped and
      chunk `idx` shortened to `bl` bytes.  What remains is exactly the
      content up to the end of those `bl` bytes. */
  function CutBack(b: seq<Chunk>, idx: nat, bl: nat): (r: seq<Chunk>)
    requires idx < |b| && bl <= b[idx].len
    ensures |r| == idx + 1
    ensures Offset(b, idx) + bl <= |Flatten(b)| && Flatten(r) == Flatten(b)[..Offset(b, idx) + bl]
  {
    var r := b[..idx] + [InternalArray(b[idx].bytes, bl)];
    CutBackContent(b, idx, bl, r);
    r
  }

  /** Cutting back keeps exactly the first Offset(b, idx) + bl bytes. */
  lemma CutBackContent(b: seq<Chunk>, idx: nat, bl: nat, r: seq<Chunk>)
    requires idx < |b| && bl <= b[idx].len
    requires r == b[..idx] + [InternalArray(b[idx].bytes, bl)]
    ensures Offset(b, idx) + bl <= |Flatten(b)|
    ensures Flatten(r) == Flatten(b)[..Offset(b, idx) + bl]
  {
    var a, v, z := Flatten(b[..idx]), View(b[idx]), Flatten(b[idx + 1..]);
    assert Flatten(b) == a + (v + z) by {
      FlattenSplit(b, idx);
    }
    CutBackLast(b[..idx], b[idx], bl, r);
    TakeInMiddle(a, v, z, bl);
  }

  /** The last chunk cut to its first bl used bytes. */
  lemma CutBackLast(p: seq<Chunk>, c: Chunk, bl: nat, r: seq<Chunk>)
    requires bl <= c.len && r == p + [InternalArray(c.bytes, bl)]
    ensures Flatten(r) == Flatten(p) + View(c)[..bl]
  {
    var x: Chunk := InternalArray(c.bytes, bl);
    FlattenPush(p, x);
    assert View(x) == View(c)[..bl];
  }
}
