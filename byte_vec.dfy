/**
 * The chunked byte store of packages/core/src/byte-vec.ts.
 *
 * The store keeps a list of chunks (see module Chunks).  Appends go to the
 * last chunk only; when it is full, a new chunk follows it whose capacity is
 * `nextCapacity`, and `nextCapacity` doubles.  Chunks dropped by a rollback
 * go to a free list and are reused only when their capacity is exactly the
 * one wanted.  The store supports LIFO snapshots, materialising a suffix,
 * positional cursors, and an in-place right shift of a range.
 *
 * The logical content of the store is `Content()`, the concatenation of the
 * used bytes of its chunks; every operation is specified by what it does to
 * that sequence.
 */
module ByteVec {
  import opened WireFormat
  import opened Chunks

  /** `ByteVecSnapshot`: which chunk was last, its length, the total length
      and the next chunk capacity at the time of capture. */
  datatype ByteVecSnapshot = ByteVecSnapshot(buffersIndex: nat, bufferLen: nat, len: nat, nextCapacity: nat)

  /** `IAllocated`: the region handed out by `allocate`, a chunk (named by
      its index in the chunk list) and an offset in it. */
  datatype Allocated = Allocated(buffersIndex: nat, offset: nat)

  // ---------------------------------------------------------------------
  // Snapshots and how the chunk list evolves

  /** A snapshot still describes a prefix of the chunk list `b`: its chunk
      exists and is at least as long as it was, and the bytes before it are
      where they were. */
  ghost predicate FitsIn(s: ByteVecSnapshot, b: seq<Chunk>)
  {
    && s.buffersIndex < |b|
    && s.bufferLen <= b[s.buffersIndex].len
    && (s.buffersIndex > 0 ==> s.bufferLen > 0)
    && s.len == Offset(b, s.buffersIndex) + s.bufferLen
    && s.nextCapacity >= 1
  }

  /** The chunks b1 arose from b0 by appending and overwriting: earlier
      chunks kept their length, the old last chunk may have grown, and new
      chunks may follow it. */
  ghost predicate Grows(b0: seq<Chunk>, b1: seq<Chunk>)
  {
    && 1 <= |b0| <= |b1|
    && (forall k :: 0 <= k < |b0| - 1 ==> b1[k].len == b0[k].len)
    && b1[|b0| - 1].len >= b0[|b0| - 1].len
  }

  /** Every chunk kept its used length. */
  ghost predicate SameLens(b0: seq<Chunk>, b1: seq<Chunk>)
  {
    |b0| == |b1| && forall k :: 0 <= k < |b0| ==> b1[k].len == b0[k].len
  }

  lemma SameLensTransitive(b0: seq<Chunk>, b1: seq<Chunk>, b2: seq<Chunk>)
    requires SameLens(b0, b1) && SameLens(b1, b2)
    ensures SameLens(b0, b2)
  {
  }

  /** Byte j of chunk i is at position p of the content. */
  ghost predicate AtIn(b: seq<Chunk>, i: nat, j: nat, p: nat)
  {
    i < |b| && j < b[i].len && Offset(b, i) + j == p && p < |Flatten(b)|
  }

  /** Positions do not move while chunk lengths stay the same. */
  lemma SameLensAt(b0: seq<Chunk>, b1: seq<Chunk>, i: nat, j: nat, p: nat)
    requires SameLens(b0, b1) && i < |b0| && j < b0[i].len && Offset(b0, i) + j == p
    ensures AtIn(b1, i, j, p)
  {
    OffsetSameLens(b0, b1, i);
    OffsetSameLens(b0, b1, |b0|);
    OffsetLast(b0);
    OffsetLast(b1);
    FlattenAt(b0, i, j);
  }

  lemma GrowsTransitive(b0: seq<Chunk>, b1: seq<Chunk>, b2: seq<Chunk>)
    requires Grows(b0, b1) && Grows(b1, b2)
    ensures Grows(b0, b2)
  {
  }

  /** Appending keeps every snapshot usable. */
  lemma GrowsKeepsFits(s: ByteVecSnapshot, b0: seq<Chunk>, b1: seq<Chunk>)
    requires FitsIn(s, b0) && Grows(b0, b1)
    ensures FitsIn(s, b1)
  {
    OffsetSameLens(b0, b1, s.buffersIndex);
  }

  /** Rolling back to snapshot s keeps every older snapshot t usable. */
  lemma RestoreKeepsFits(t: ByteVecSnapshot, s: ByteVecSnapshot, b: seq<Chunk>)
    requires FitsIn(t, b) && FitsIn(s, b) && t.len <= s.len
    ensures FitsIn(t, CutBack(b, s.buffersIndex, s.bufferLen))
  {
    var b' := CutBack(b, s.buffersIndex, s.bufferLen);
    if t.buffersIndex > s.buffersIndex {
      OffsetStep(b, s.buffersIndex);
      OffsetMonotone(b, s.buffersIndex + 1, t.buffersIndex);
      assert false;
    }
    assert b'[..t.buffersIndex] == b[..t.buffersIndex];
  }

  /** The next chunk capacity after `allocate` has doubled it until the
      request fits. */
  function Grown(capacity: nat, request: nat): nat
    requires capacity >= 1
    decreases request - capacity
  {
    if request > capacity then Grown(2 * capacity, request) else capacity
  }

  /** Doubling stops at the first capacity that holds the request. */
  lemma {:induction false} GrownFits(capacity: nat, request: nat)
    requires capacity >= 1
    ensures Grown(capacity, request) >= request && Grown(capacity, request) >= capacity
    ensures Grown(capacity, request) > capacity ==> Grown(capacity, request) < 2 * request
    decreases request - capacity
  {
    if request > capacity {
      GrownFits(2 * capacity, request);
    }
  }

  /** How `_allocateNewInternalArray` consumes the free list f0 when it
      wants capacity `cap`: free chunks are popped from the end, each of
      another capacity dropped, until one of capacity `cap` is found; its
      bytes are the new chunk's and f1 is what lies below it.  With no such
      chunk the list ends empty and the new chunk is zero-filled. */
  ghost predicate TookFree(f0: seq<Chunk>, f1: seq<Chunk>, cap: nat, bytes: seq<Byte>)
  {
    && |f1| <= |f0| && f1 == f0[..|f1|]
    && (forall i :: |f1| < i < |f0| ==> |f0[i].bytes| != cap)
    && if |f1| < |f0| && |f0[|f1|].bytes| == cap then bytes == f0[|f1|].bytes
       else f1 == [] && (forall i :: 0 <= i < |f0| ==> |f0[i].bytes| != cap) && bytes == seq(cap, _ => 0)
  }

  /** The chunks of `s`, last first. */
  function Reversed(s: seq<Chunk>): (r: seq<Chunk>)
    ensures |r| == |s|
  {
    if s == [] then [] else Reversed(s[1..]) + [s[0]]
  }

  lemma ReversedFirst(s: seq<Chunk>, i: nat)
    requires i < |s|
    ensures Reversed(s[i..]) == Reversed(s[i + 1..]) + [s[i]]
  {
    assert s[i..][1..] == s[i + 1..];
  }

  /** One step of the second loop of `toBuffer`: the content from `start`
      to the end of chunk i is the content up to chunk i, then chunk i. */
  lemma SuffixStep(b: seq<Chunk>, start: nat, i: nat)
    requires i < |b| && start <= Offset(b, i)
    ensures Offset(b, i + 1) == Offset(b, i) + b[i].len <= |Flatten(b)|
    ensures Flatten(b)[start..Offset(b, i + 1)] == Flatten(b)[start..Offset(b, i)] + View(b[i])
  {
    ChunkSlice(b, i, 0, b[i].len);
    OffsetStep(b, i);
    SliceJoin(Flatten(b), start, Offset(b, i), Offset(b, i + 1));
  }

  // ---------------------------------------------------------------------
  // The backward move, on sequences

  /** The content part-way through `moveBackward(from, to, n)` with `left`
      bytes still to copy: the last n - left bytes of the source range are
      already at the end of the target range. */
  ghost function Moved(c: seq<Byte>, from: nat, to: nat, n: nat, left: nat): seq<Byte>
    requires left <= n && from < to && to + n <= |c|
  {
    c[..to + left] + c[from + left..from + n] + c[to + n..]
  }

  lemma MovedStart(c: seq<Byte>, from: nat, to: nat, n: nat)
    requires from < to && to + n <= |c|
    ensures Moved(c, from, to, n, n) == c
  {
  }

  /** Bytes below to + left have not been written yet. */
  lemma MovedAt(c: seq<Byte>, from: nat, to: nat, n: nat, left: nat, q: nat)
    requires left <= n && from < to && to + n <= |c| && q < to + left
    ensures |Moved(c, from, to, n, left)| == |c| && Moved(c, from, to, n, left)[q] == c[q]
  {
  }

  /** Copying the k bytes at s = from + left - k to p = to + left - k
      advances the move by k bytes; the source bytes are still the original
      ones. */
  lemma MovedStep(c: seq<Byte>, from: nat, to: nat, n: nat, left: nat, k: nat, s: nat, p: nat)
    requires 1 <= k <= left <= n && from < to && to + n <= |c|
    requires s == from + left - k && p == to + left - k
    ensures var m := Moved(c, from, to, n, left);
            && |m| == |c| && s + k <= |c| && p + k <= |c|
            && m[s..s + k] == c[s..s + k]
            && m[..p] + c[s..s + k] + m[p + k..] == Moved(c, from, to, n, left - k)
  {
    var m := Moved(c, from, to, n, left);
    var w := c[s..s + k];
    var m' := m[..p] + w + m[p + k..];
    var r := Moved(c, from, to, n, left - k);
    assert |m| == |c|;
    forall q | 0 <= q < |c|
      ensures m'[q] == r[q]
    {
      if q < p {
        assert m'[q] == m[q];
      } else if q < p + k {
        assert m'[q] == w[q - p];
      } else {
        assert m'[q] == m[q];
      }
    }
    assert m[s..s + k] == w by {
      forall q | 0 <= q < k
        ensures m[s + q] == w[q]
      {
      }
    }
  }

  /** Copying the byte v, the source byte at from + left - 1, to position
      p = to + left - 1 advances the move by one byte, and the source byte
      before it is still the original one. */
  lemma ByteMoved(c: seq<Byte>, from: nat, to: nat, n: nat, left: nat, v: Byte, m: seq<Byte>, p: nat)
    requires from < to && to + n <= |c| && 0 < left <= n
    requires m == Moved(c, from, to, n, left) && v == c[from + left - 1] && p == to + left - 1
    ensures p < |m| && m[p := v] == Moved(c, from, to, n, left - 1)
  {
    var s := from + left - 1;
    MovedStep(c, from, to, n, left, 1, s, p);
    assert c[s..s + 1] == [v];
    SpliceOne(m, p, v);
  }

  /** Cursors on the bytes before the ones just copied, the source cursor
      holding the byte it is on, are again a loop state. */
  lemma ByteCursors(b: seq<Chunk>, c0: seq<Byte>, from: nat, to: nat, n: nat, left: nat,
                    fi: nat, fj: nat, fv: Byte, ti: nat, tj: nat)
    requires from < to && to + n <= |c0| && 0 < left <= n
    requires Flatten(b) == Moved(c0, from, to, n, left)
    requires AtIn(b, fi, fj, from + left - 1) && AtIn(b, ti, tj, to + left - 1)
    requires fv == Flatten(b)[from + left - 1]
    ensures MovingIn(b, c0, from, to, n, left, fi, fj, fv, ti, tj)
  {
    MovedAt(c0, from, to, n, left, from + left - 1);
  }

  /** The k bytes of chunk i from offset o, which is position s of the
      content, are the k bytes of the content from s. */
  lemma BlockSource(b: seq<Chunk>, i: nat, o: nat, k: nat, s: nat)
    requires i < |b| && o + k <= b[i].len && Offset(b, i) + o == s
    ensures s + k <= |Flatten(b)| && b[i].bytes[o..o + k] == Flatten(b)[s..s + k]
  {
    ChunkSlice(b, i, o, o + k);
  }

  /** Overwriting k bytes of chunk ti from offset to' with the k bytes of
      chunk fi from offset fo, which end at the two cursors of the move, is
      one block step of the backward move. */
  lemma BlockMoved(b: seq<Chunk>, fi: nat, fo: nat, ti: nat, tn: nat, k: nat, c0: seq<Byte>,
                   from: nat, to: nat, n: nat, left: nat)
    requires from < to && to + n <= |c0| && 0 < k <= left <= n
    requires Flatten(b) == Moved(c0, from, to, n, left)
    requires fi < |b| && fo + k <= b[fi].len && Offset(b, fi) + fo == from + left - k
    requires ti < |b| && tn + k <= b[ti].len && Offset(b, ti) + tn == to + left - k
    ensures Flatten(b[ti := Overwrite(b[ti], tn, b[fi].bytes[fo..fo + k])])
            == Moved(c0, from, to, n, left - k)
  {
    var s, p := from + left - k, to + left - k;
    var w := b[fi].bytes[fo..fo + k];
    BlockSource(b, fi, fo, k, s);
    MovedStep(c0, from, to, n, left, k, s, p);
    OverwriteIn(b, ti, tn, w, p);
  }

  /** The loop state of `moveBackward(from, to, n)` with `left` > 0 bytes
      still to copy: the source cursor (chunk fi, offset fj, loaded byte fv)
      is on the next byte to read and holds its original value, and the
      target cursor (chunk ti, offset tj) is on the next byte to write. */
  ghost predicate MovingIn(b: seq<Chunk>, c0: seq<Byte>, from: nat, to: nat, n: nat, left: nat,
                           fi: nat, fj: nat, fv: Byte, ti: nat, tj: nat)
  {
    && from < to && to + n <= |c0| && 0 < left <= n
    && Flatten(b) == Moved(c0, from, to, n, left)
    && AtIn(b, fi, fj, from + left - 1) && AtIn(b, ti, tj, to + left - 1)
    && fv == c0[from + left - 1]
  }

  /** After a block step of k bytes that leaves bytes to copy, both cursors
      moved k bytes back within their chunks are again a loop state. */
  lemma BlockCursors(b0: seq<Chunk>, b: seq<Chunk>, c0: seq<Byte>, from: nat, to: nat, n: nat, left: nat, k: nat,
                     fi: nat, fj: nat, fv: Byte, ti: nat, tj: nat)
    requires 0 < k < left && k <= fj && k <= tj
    requires MovingIn(b0, c0, from, to, n, left, fi, fj, fv, ti, tj)
    requires SameLens(b0, b) && Flatten(b) == Moved(c0, from, to, n, left - k)
    ensures fi < |b| && fj - k < |b[fi].bytes|
    ensures MovingIn(b, c0, from, to, n, left - k, fi, fj - k, b[fi].bytes[fj - k], ti, tj - k)
  {
    var left' := left - k;
    SameLensAt(b0, b, fi, fj - k, from + left' - 1);
    SameLensAt(b0, b, ti, tj - k, to + left' - 1);
    FlattenAt(b, fi, fj - k);
    MovedAt(c0, from, to, n, left', from + left' - 1);
  }

  /** `Math.min` of three naturals. */
  function Min3(x: nat, y: nat, z: nat): (r: nat)
    ensures r <= x && r <= y && r <= z
    ensures r == x || r == y || r == z
  {
    if x <= y && x <= z then x else if y <= z then y else z
  }


  /** A chunk list with at least one chunk, holding `total` bytes, with
      no empty chunk strictly inside it. */
  ghost predicate Laid(b: seq<Chunk>, total: nat)
  {
    |b| >= 1 && total == |Flatten(b)| && Dense(b)
  }

  /** Only the first chunk can be empty. */
  ghost predicate Settled(b: seq<Chunk>)
  {
    |b| > 1 ==> b[|b| - 1].len > 0
  }

  /** Cutting back the chunks kept by the pop loop, b1, is cutting back
      the whole list b; it keeps the representation invariant and the
      snapshot, and exactly the snapshot's length of content. */
  lemma CutBackValid(b: seq<Chunk>, b1: seq<Chunk>, s: ByteVecSnapshot, r: seq<Chunk>)
    requires FitsIn(s, b) && Dense(b) && b1 == b[..s.buffersIndex + 1]
    requires s.bufferLen <= b1[s.buffersIndex].len && r == CutBack(b1, s.buffersIndex, s.bufferLen)
    ensures r == CutBack(b, s.buffersIndex, s.bufferLen)
    ensures Laid(r, s.len) && Settled(r) && FitsIn(s, r)
    ensures s.len <= |Flatten(b)| && Flatten(r) == Flatten(b)[..s.len]
  {
    assert CutBack(b, s.buffersIndex, s.bufferLen) == r by {
      assert b1[..s.buffersIndex] == b[..s.buffersIndex];
    }
    assert r[..s.buffersIndex] == b[..s.buffersIndex];
  }

  /** `ByteVecIter`: a cursor on one byte of the store, remembering its
      chunk, its offset in the chunk and the byte it last read. */
  class Cursor {
    var indexInArrayList: nat
    var indexInArray: nat
    var byte: Byte

    /** `createInitialByteVecIter`: a cursor at chunk 0, offset 0. */
    constructor ()
      ensures indexInArrayList == 0 && indexInArray == 0 && byte == 0
    {
      indexInArrayList, indexInArray, byte := 0, 0, 0;
    }
  }

  class ByteVec {
    var buffers: seq<Chunk>
    var freeBuffers: seq<Chunk>
    var totalLen: nat
    var nextCapacity: nat
    const initVecCapacity: nat
    const iter1: Cursor
    const iter2: Cursor

    /** The logical bytes of the store. */
    ghost function Content(): seq<Byte>
      reads this
    {
      Flatten(buffers)
    }

    /** The representation invariant; a chunk appended by
        AllocateNewInternalArray is empty until the caller writes to it. */
    ghost predicate Inv()
      reads this
    {
      && Laid(buffers, totalLen)
      && iter1 != iter2
      && initVecCapacity >= 1 && nextCapacity >= 1
    }

    /** The invariant between public operations: only the first chunk can be empty. */
    ghost predicate Valid()
      reads this
    {
      Inv() && Settled(buffers)
    }

    /** A snapshot that can be restored on the current state. */
    ghost predicate Fits(s: ByteVecSnapshot)
      reads this
    {
      FitsIn(s, buffers)
    }

    /** `_currentChunk`: the chunk appends go to, always the last one. */
    function CurrentChunk(): Chunk
      reads this
      requires |buffers| > 0
    {
      buffers[|buffers| - 1]
    }

    /** `new ByteVec(initVecCapacity)`: one empty chunk of the initial
        capacity; the next chunk will be twice as large. */
    constructor (initCapacity: nat)
      requires initCapacity >= 1
      ensures Valid() && fresh(iter1) && fresh(iter2)
      ensures Content() == [] && freeBuffers == []
      ensures buffers == [InternalArray(seq(initCapacity, _ => 0), 0)]
      ensures initVecCapacity == initCapacity && nextCapacity == 2 * initCapacity
    {
      buffers := [InternalArray(seq(initCapacity, _ => 0), 0)];
      freeBuffers := [];
      totalLen := 0;
      initVecCapacity := initCapacity;
      nextCapacity := initCapacity * 2;
      iter1 := new Cursor();
      iter2 := new Cursor();
      new;
      assert buffers[..0] == [];
      assert Flatten(buffers) == Flatten([]) + View(buffers[0]) == [];
    }

    /** `len()`: the number of bytes stored. */
    function Len(): (r: nat)
      reads this
      requires Valid()
      ensures r == |Content()|
    {
      totalLen
    }

    /** `snapshot()`: captures the last chunk, its length, the total length
        and the next capacity. */
    function Snapshot(): (s: ByteVecSnapshot)
      reads this
      requires Valid()
      ensures Fits(s) && s.len == |Content()| && s.nextCapacity == nextCapacity
      ensures s.buffersIndex == |buffers| - 1
    {
      OffsetStep(buffers, |buffers| - 1);
      OffsetLast(buffers);
      ByteVecSnapshot(|buffers| - 1, CurrentChunk().len, totalLen, nextCapacity)
    }

    /** `snapshotEmpty()`: the state of a freshly constructed store. */
    function SnapshotEmpty(): (s: ByteVecSnapshot)
      reads this
      requires Valid()
      ensures Fits(s) && s.len == 0 && s.buffersIndex == 0
      ensures s.nextCapacity == 2 * initVecCapacity
    {
      OffsetFirst(buffers);
      ByteVecSnapshot(0, 0, 0, initVecCapacity * 2)
    }

    /** The free-list scan of `_allocateNewInternalArray`: free chunks are
        popped one by one until one has capacity exactly `nextCapacity`;
        those popped before it are dropped.  Returns the match, if any. */
    method PopFreeMatching() returns (found: Option<Chunk>)
      modifies this`freeBuffers
      ensures |freeBuffers| <= old(|freeBuffers|) && freeBuffers == old(freeBuffers)[..|freeBuffers|]
      ensures forall i :: |freeBuffers| < i < old(|freeBuffers|) ==> |old(freeBuffers)[i].bytes| != nextCapacity
      ensures found.Some? ==>
                && |freeBuffers| < old(|freeBuffers|) && found.value == old(freeBuffers)[|freeBuffers|]
                && |found.value.bytes| == nextCapacity
      ensures found.None? ==>
                freeBuffers == [] && forall i :: 0 <= i < old(|freeBuffers|) ==> |old(freeBuffers)[i].bytes| != nextCapacity
    {
      while |freeBuffers| > 0
        invariant |freeBuffers| <= old(|freeBuffers|) && freeBuffers == old(freeBuffers)[..|freeBuffers|]
        invariant forall i :: |freeBuffers| <= i < old(|freeBuffers|) ==> |old(freeBuffers)[i].bytes| != nextCapacity
        decreases |freeBuffers|
      {
        var chunk := freeBuffers[|freeBuffers| - 1];
        freeBuffers := freeBuffers[..|freeBuffers| - 1];
        if |chunk.bytes| == nextCapacity {
          return Some(chunk);
        }
      }
      return None;
    }

    /** `_allocateNewInternalArray`: appends an empty chunk of capacity
        `nextCapacity` and doubles `nextCapacity`.  The chunk is a free one
        of exactly that capacity, with its length reset to 0, or else a
        fresh zero-filled one. */
    method AllocateNewInternalArray()
      requires Valid()
      modifies this
      ensures Inv() && Content() == old(Content()) && totalLen == old(totalLen)
      ensures |buffers| == old(|buffers|) + 1 && buffers[..|buffers| - 1] == old(buffers)
      ensures CurrentChunk().len == 0 && |CurrentChunk().bytes| == old(nextCapacity)
      ensures nextCapacity == 2 * old(nextCapacity)
      ensures TookFree(old(freeBuffers), freeBuffers, old(nextCapacity), CurrentChunk().bytes)
    {
      var found := PopFreeMatching();
      var bytes := if found.Some? then found.value.bytes else seq(nextCapacity, _ => 0);
      FlattenPush(buffers, InternalArray(bytes, 0));
      buffers := buffers + [InternalArray(bytes, 0)];
      nextCapacity := 2 * nextCapacity;
    }

    /** `pushByte(value)`: appends `value` modulo 256 (a Uint8Array store)
        to the last chunk, after appending a new chunk if it is full. */
    method PushByte(value: int)
      requires Valid()
      modifies this
      ensures Valid() && Content() == old(Content()) + [value % 256]
      ensures Grows(old(buffers), buffers)
      ensures old(CurrentChunk().len) < old(|CurrentChunk().bytes|) ==>
                |buffers| == old(|buffers|) && nextCapacity == old(nextCapacity) && freeBuffers == old(freeBuffers)
      ensures old(CurrentChunk().len) == old(|CurrentChunk().bytes|) ==>
                && |buffers| == old(|buffers|) + 1
                && |CurrentChunk().bytes| == old(nextCapacity) && nextCapacity == 2 * old(nextCapacity)
                && exists taken :: |taken| == old(nextCapacity) && TookFree(old(freeBuffers), freeBuffers, old(nextCapacity), taken)
                                   && CurrentChunk().bytes == taken[0 := value % 256]
    {
      if CurrentChunk().len == |CurrentChunk().bytes| {
        AllocateNewInternalArray();
      }
      ghost var taken := CurrentChunk().bytes;
      AppendInChunk(value % 256);
    }

    /** The store step of `pushByte`: the byte goes after the used part of
        the last chunk, which has room for it. */
    method AppendInChunk(value: Byte)
      requires Inv() && CurrentChunk().len < |CurrentChunk().bytes|
      modifies this`buffers, this`totalLen
      ensures Inv() && Content() == old(Content()) + [value]
      ensures |buffers| == old(|buffers|) && buffers[..|buffers| - 1] == old(buffers)[..|buffers| - 1]
      ensures CurrentChunk().len == old(CurrentChunk().len) + 1
      ensures CurrentChunk().bytes == old(CurrentChunk().bytes)[old(CurrentChunk().len) := value]
    {
      var last := |buffers| - 1;
      var c := buffers[last];
      var x: Chunk := InternalArray(c.bytes[c.len := value], c.len + 1);
      assert View(x) == View(c) + [value];
      GrowLast(buffers, x, [value]);
      totalLen, buffers := totalLen + 1, buffers[last := x];
    }

    /** The doubling loop of `allocate`: `nextCapacity` doubles until it
        holds `n`. */
    method GrowNextCapacity(n: nat)
      requires nextCapacity >= 1
      modifies this`nextCapacity
      ensures nextCapacity == Grown(old(nextCapacity), n)
    {
      while n > nextCapacity
        invariant nextCapacity >= 1 && Grown(nextCapacity, n) == Grown(old(nextCapacity), n)
        decreases n - nextCapacity
      {
        nextCapacity := nextCapacity * 2;
      }
    }

    /** `allocate(n, allocated)`: reserves n bytes at the end of the store,
        in the last chunk when it has room and otherwise in a new chunk of
        capacity at least n.  The region holds whatever the chunk held
        there before; the caller overwrites it (`SetInChunk`). */
    method Allocate(n: nat) returns (a: Allocated)
      requires Valid()
      modifies this
      ensures Valid() && Grows(old(buffers), buffers)
      ensures a.buffersIndex == |buffers| - 1 && a.offset + n == CurrentChunk().len
      ensures Offset(buffers, a.buffersIndex) + a.offset == old(|Content()|)
      ensures Content() == old(Content()) + CurrentChunk().bytes[a.offset..a.offset + n]
      ensures n <= old(|CurrentChunk().bytes| - CurrentChunk().len) ==>
                && |buffers| == old(|buffers|) && a.offset == old(CurrentChunk().len)
                && nextCapacity == old(nextCapacity) && freeBuffers == old(freeBuffers)
      ensures n > old(|CurrentChunk().bytes| - CurrentChunk().len) ==>
                && |buffers| == old(|buffers|) + 1 && a.offset == 0
                && |CurrentChunk().bytes| == Grown(old(nextCapacity), n)
                && nextCapacity == 2 * Grown(old(nextCapacity), n)
                && TookFree(old(freeBuffers), freeBuffers, Grown(old(nextCapacity), n), CurrentChunk().bytes)
    {
      var currentChunkLeft := |CurrentChunk().bytes| - CurrentChunk().len;
      if n > currentChunkLeft {
        a := AllocateInNew(n);
      } else {
        a := Allocated(|buffers| - 1, CurrentChunk().len);
        ExtendCurrent(n);
      }
    }

    /** The branch of `allocate` for a request the last chunk cannot hold:
        `nextCapacity` doubles until it holds n, a chunk of that capacity
        is appended and the region is its start. */
    method AllocateInNew(n: nat) returns (a: Allocated)
      requires Valid() && n > |CurrentChunk().bytes| - CurrentChunk().len
      modifies this
      ensures Valid() && Grows(old(buffers), buffers)
      ensures a.buffersIndex == |buffers| - 1 && a.offset + n == CurrentChunk().len
      ensures Offset(buffers, a.buffersIndex) + a.offset == old(|Content()|)
      ensures Content() == old(Content()) + CurrentChunk().bytes[a.offset..a.offset + n]
      ensures |buffers| == old(|buffers|) + 1 && a.offset == 0
      ensures |CurrentChunk().bytes| == Grown(old(nextCapacity), n)
      ensures nextCapacity == 2 * Grown(old(nextCapacity), n)
      ensures TookFree(old(freeBuffers), freeBuffers, Grown(old(nextCapacity), n), CurrentChunk().bytes)
    {
      GrowNextCapacity(n);
      GrownFits(old(nextCapacity), n);
      AllocateNewInternalArray();
      a := Allocated(|buffers| - 1, 0);
      ExtendCurrent(n);
    }

    /** The commit step of both branches of `allocate`: the last chunk and
        the total length grow by n. */
    method ExtendCurrent(n: nat)
      requires Inv() && CurrentChunk().len + n <= |CurrentChunk().bytes|
      requires |buffers| > 1 ==> CurrentChunk().len + n > 0
      modifies this`buffers, this`totalLen
      ensures Valid() && |buffers| == old(|buffers|)
      ensures buffers == old(buffers)[|buffers| - 1 := InternalArray(old(CurrentChunk().bytes), old(CurrentChunk().len) + n)]
      ensures Offset(buffers, |buffers| - 1) + old(CurrentChunk().len) == old(|Content()|)
      ensures Content() == old(Content()) + old(CurrentChunk().bytes)[old(CurrentChunk().len)..old(CurrentChunk().len) + n]
    {
      var last := |buffers| - 1;
      var c := buffers[last];
      var x: Chunk := InternalArray(c.bytes, c.len + n);
      assert View(x) == View(c) + c.bytes[c.len..c.len + n];
      GrowLast(buffers, x, c.bytes[c.len..c.len + n]);
      OffsetStep(buffers, last);
      OffsetLast(buffers);
      totalLen := totalLen + n;
      buffers := buffers[last := x];
      assert buffers[..last] == old(buffers)[..last];
    }

    /** A write through a chunk's bytes (`bytes.set(w, o)` or `bytes[o] = v`
        on chunk i): the chunk's used length does not change, and the
        content changes at the same place. */
    method SetInChunk(i: nat, o: nat, w: seq<Byte>)
      requires Valid() && i < |buffers| && o + |w| <= buffers[i].len
      modifies this`buffers
      ensures Valid() && buffers == old(buffers)[i := Overwrite(old(buffers)[i], o, w)]
      ensures var p := Offset(old(buffers), i) + o;
              && p + |w| <= |old(Content())|
              && Content() == old(Content())[..p] + w + old(Content())[p + |w|..]
    {
      OverwriteIn(buffers, i, o, w, Offset(buffers, i) + o);
      buffers := buffers[i := Overwrite(buffers[i], o, w)];
    }

    /** The first loop of `toBuffer`: walks the chunks, summing their
        lengths, to the chunk that holds byte `startIndex`. */
    method FindStart(startIndex: nat) returns (startBuffersIndex: nat, startOffset: nat)
      requires Valid() && startIndex < Len()
      ensures startBuffersIndex < |buffers| && startOffset < buffers[startBuffersIndex].len
      ensures Offset(buffers, startBuffersIndex) + startOffset == startIndex
    {
      OffsetFirst(buffers);
      OffsetLast(buffers);
      startBuffersIndex, startOffset := 0, 0;
      var start := 0;
      while startBuffersIndex < |buffers|
        invariant startBuffersIndex <= |buffers| && start == Offset(buffers, startBuffersIndex) && start <= startIndex
        decreases |buffers| - startBuffersIndex
      {
        OffsetStep(buffers, startBuffersIndex);
        var end := start + buffers[startBuffersIndex].len;
        if startIndex < end {
          startOffset := startIndex - start;
          return;
        }
        startBuffersIndex := startBuffersIndex + 1;
        start := end;
      }
      assert false;
    }

    /** `toBuffer(startIndex)`: the content from `startIndex` on: the rest
        of the chunk holding `startIndex`, then the used bytes of every
        later chunk. */
    method ToBuffer(startIndex: nat) returns (r: seq<Byte>)
      requires Valid() && startIndex <= Len()
      ensures r == Content()[startIndex..]
    {
      var len := totalLen - startIndex;
      if len == 0 {
        return [];
      }
      var startBuffersIndex, startOffset := FindStart(startIndex);
      var startArray := buffers[startBuffersIndex];
      ChunkSlice(buffers, startBuffersIndex, startOffset, startArray.len);
      OffsetStep(buffers, startBuffersIndex);
      r := startArray.bytes[startOffset..startArray.len];
      r := CollectChunks(startIndex, startBuffersIndex + 1, r);
    }

    /** The second loop of `toBuffer`: appends the used bytes of chunks
        i0 .. to what was collected so far. */
    method CollectChunks(startIndex: nat, i0: nat, r0: seq<Byte>) returns (r: seq<Byte>)
      requires Valid() && i0 <= |buffers| && startIndex <= Offset(buffers, i0) <= |Content()|
      requires r0 == Content()[startIndex..Offset(buffers, i0)]
      ensures r == Content()[startIndex..]
    {
      ghost var c := Content();
      r := r0;
      var offset := |r0|;
      for i := i0 to |buffers|
        invariant startIndex <= Offset(buffers, i) <= |c|
        invariant r == c[startIndex..Offset(buffers, i)] && offset == |r|
      {
        var buf := buffers[i];
        SuffixStep(buffers, startIndex, i);
        // the source skips the subarray view when the chunk is full
        r := r + View(buf);
        offset := offset + buf.len;
      }
      OffsetLast(buffers);
    }

    /** `toBufferAndClear(startIndex)`: `toBuffer`, after which the store
        has no chunks at all. */
    method ToBufferAndClear(startIndex: nat) returns (r: seq<Byte>)
      requires Valid() && startIndex <= Len()
      modifies this`buffers, this`freeBuffers
      ensures r == old(Content())[startIndex..]
      ensures buffers == [] && freeBuffers == []
    {
      r := ToBuffer(startIndex);
      buffers := [];
      freeBuffers := [];
    }

    /** The loop of `restoreSnapshot`: pops chunks after `idx` and pushes
        each onto the free list, so the free list gains them last first. */
    method PopToFree(idx: nat)
      requires idx < |buffers|
      modifies this`buffers, this`freeBuffers
      ensures buffers == old(buffers)[..idx + 1]
      ensures freeBuffers == old(freeBuffers) + Reversed(old(buffers)[idx + 1..])
    {
      while |buffers| - 1 > idx
        invariant idx < |buffers| <= old(|buffers|) && buffers == old(buffers)[..|buffers|]
        invariant freeBuffers == old(freeBuffers) + Reversed(old(buffers)[|buffers|..])
        decreases |buffers|
      {
        ReversedFirst(old(buffers), |buffers| - 1);
        var chunk := buffers[|buffers| - 1];
        buffers := buffers[..|buffers| - 1];
        freeBuffers := freeBuffers + [chunk];
      }
    }

    /** `restoreSnapshot(s)`: the content is cut back to its first s.len
        bytes and `nextCapacity` is what it was; the chunks after the
        snapshot's chunk move to the free list. */
    method RestoreSnapshot(s: ByteVecSnapshot)
      requires Valid() && Fits(s)
      modifies this`buffers, this`freeBuffers, this`totalLen, this`nextCapacity
      ensures Valid() && Fits(s) && s.len <= old(|Content()|) && Content() == old(Content())[..s.len]
      ensures buffers == CutBack(old(buffers), s.buffersIndex, s.bufferLen)
      ensures freeBuffers == old(freeBuffers) + Reversed(old(buffers)[s.buffersIndex + 1..])
      ensures nextCapacity == s.nextCapacity
    {
      ghost var b0 := buffers;
      PopToFree(s.buffersIndex);
      CutCurrent(s, b0);
    }

    /** The end of `restoreSnapshot`, once the later chunks are gone: the
        snapshot's chunk, now the last, is cut back to its old used length. */
    method CutCurrent(s: ByteVecSnapshot, ghost b0: seq<Chunk>)
      requires FitsIn(s, b0) && Dense(b0) && buffers == b0[..s.buffersIndex + 1]
      requires iter1 != iter2 && initVecCapacity >= 1
      modifies this`buffers, this`totalLen, this`nextCapacity
      ensures Valid() && Fits(s) && s.len <= |Flatten(b0)| && Content() == Flatten(b0)[..s.len]
      ensures buffers == CutBack(b0, s.buffersIndex, s.bufferLen) && nextCapacity == s.nextCapacity
    {
      var r := CutBack(buffers, s.buffersIndex, s.bufferLen);
      CutBackValid(b0, buffers, s, r);
      buffers, totalLen, nextCapacity := r, s.len, s.nextCapacity;
    }

    /** Cursor `it` denotes logical position p: it names a chunk and an
        offset inside that chunk's used bytes. */
    ghost predicate At(it: Cursor, p: nat)
      reads this, it
    {
      AtIn(buffers, it.indexInArrayList, it.indexInArray, p)
    }

    /** `getIter(index, it)`: walks the chunks, summing their lengths, and
        places `it` on byte `index`, loading that byte. */
    method GetIter(index: nat, it: Cursor)
      requires Valid() && index < Len()
      modifies it
      ensures At(it, index) && it.byte == Content()[index]
    {
      OffsetFirst(buffers);
      OffsetLast(buffers);
      var start := 0;
      for i := 0 to |buffers|
        invariant start == Offset(buffers, i) && start <= index
      {
        OffsetStep(buffers, i);
        var end := start + buffers[i].len;
        if index < end {
          it.indexInArrayList := i;
          it.indexInArray := index - start;
          it.byte := buffers[i].bytes[index - start];
          FlattenAt(buffers, i, index - start);
          return;
        }
        start := end;
      }
      assert false;
    }

    /** `fowardIter(it)`: moves `it` one byte on, to the first byte of the
        next chunk when it is on the last byte of its chunk. */
    method ForwardIter(it: Cursor, ghost p: nat)
      requires Valid() && At(it, p) && p + 1 < Len()
      modifies it
      ensures At(it, p + 1) && it.byte == Content()[p + 1]
    {
      var i := it.indexInArrayList;
      OffsetStep(buffers, i);
      OffsetLast(buffers);
      if it.indexInArray == buffers[i].len - 1 {
        it.indexInArrayList := i + 1;
        it.indexInArray := 0;
        it.byte := buffers[i + 1].bytes[0];
      } else {
        it.indexInArray := it.indexInArray + 1;
        it.byte := buffers[i].bytes[it.indexInArray];
      }
      FlattenAt(buffers, it.indexInArrayList, it.indexInArray);
    }

    /** `_backwardIter(it)`: moves `it` one byte back, to the last byte of
        the previous chunk when it is on the first byte of its chunk. */
    method BackwardIter(it: Cursor, ghost p: nat)
      requires Valid() && At(it, p) && p > 0
      modifies it
      ensures At(it, p - 1) && it.byte == Content()[p - 1]
    {
      var i := it.indexInArrayList;
      OffsetFirst(buffers);
      if it.indexInArray == 0 {
        OffsetStep(buffers, i - 1);
        it.indexInArrayList := i - 1;
        it.indexInArray := buffers[i - 1].len - 1;
        it.byte := buffers[i - 1].bytes[it.indexInArray];
      } else {
        it.indexInArray := it.indexInArray - 1;
        it.byte := buffers[i].bytes[it.indexInArray];
      }
      FlattenAt(buffers, it.indexInArrayList, it.indexInArray);
    }

    /** `writeByteAtIter(it, value)`: stores `value` modulo 256 at the
        cursor's position; no chunk changes length. */
    method WriteByteAtIter(it: Cursor, value: int, ghost p: nat)
      requires Valid() && At(it, p)
      modifies this`buffers
      ensures Valid() && At(it, p) && SameLens(old(buffers), buffers)
      ensures Content() == old(Content())[p := value % 256]
      ensures 0 <= value < 256 ==> Content() == old(Content())[p := value]
    {
      ghost var c, b0 := Content(), buffers;
      var i := it.indexInArrayList;
      SetInChunk(i, it.indexInArray, [value % 256]);
      assert SameLens(b0, buffers);
      SameLensAt(b0, buffers, i, it.indexInArray, p);
      SpliceOne(c, p, value % 256);
    }

    /** The loop state of `moveBackward(from, to, n)` with `left` > 0 bytes
        still to copy, on the store and its two cursors. */
    ghost predicate Moving(c0: seq<Byte>, from: nat, to: nat, n: nat, left: nat, fromIt: Cursor, toIt: Cursor)
      reads this, fromIt, toIt
    {
      && Valid()
      && MovingIn(buffers, c0, from, to, n, left, fromIt.indexInArrayList, fromIt.indexInArray, fromIt.byte,
                  toIt.indexInArrayList, toIt.indexInArray)
    }

    /** `moveBackward(from, to, n)`: copies bytes from .. from+n to
        to .. to+n, last byte first, so that an overlapping source is read
        before it is overwritten. */
    method MoveBackward(from: nat, to: nat, n: nat)
      requires Valid() && (n > 0 ==> from < to && to + n <= Len())
      modifies this`buffers, iter1, iter2
      ensures Valid() && SameLens(old(buffers), buffers)
      ensures n == 0 ==> Content() == old(Content())
      ensures n > 0 ==> Content() == old(Content())[..to] + old(Content())[from..from + n] + old(Content())[to + n..]
    {
      if n == 0 {
        return;
      }
      ghost var c0 := Content();
      var fromRbeginIter, toRbeginIter := iter1, iter2;
      GetIter(from + n - 1, fromRbeginIter);
      GetIter(to + n - 1, toRbeginIter);
      MovedStart(c0, from, to, n);
      var left: nat := n;
      while left > 0
        invariant Valid() && SameLens(old(buffers), buffers) && left <= n
        invariant from < to && to + n <= |c0| && c0 == old(Content())
        invariant Content() == Moved(c0, from, to, n, left)
        invariant left > 0 ==> Moving(c0, from, to, n, left, fromRbeginIter, toRbeginIter)
        decreases left
      {
        ghost var b := buffers;
        if fromRbeginIter.indexInArray == 0 || toRbeginIter.indexInArray == 0 {
          left := CopyByteBack(fromRbeginIter, toRbeginIter, from, to, n, left, c0);
        } else {
          left := CopyBlockBack(fromRbeginIter, toRbeginIter, from, to, n, left, c0);
        }
        SameLensTransitive(old(buffers), b, buffers);
      }
      assert Moved(c0, from, to, n, 0) == c0[..to] + c0[from..from + n] + c0[to + n..];
    }

    /** The boundary branch of the `moveBackward` loop: one byte is copied
        and, if any are left, both cursors step back. */
    method CopyByteBack(fromIt: Cursor, toIt: Cursor, from: nat, to: nat, n: nat, left: nat, ghost c0: seq<Byte>)
      returns (left': nat)
      requires Moving(c0, from, to, n, left, fromIt, toIt) && fromIt != toIt
      modifies this`buffers, fromIt, toIt
      ensures Valid() && SameLens(old(buffers), buffers)
      ensures left' == left - 1 && Content() == Moved(c0, from, to, n, left')
      ensures left' > 0 ==> Moving(c0, from, to, n, left', fromIt, toIt)
    {
      var v := fromIt.byte;
      var p := to + left - 1;
      ghost var fi, fj := fromIt.indexInArrayList, fromIt.indexInArray;
      ByteMoved(c0, from, to, n, left, v, Content(), p);
      WriteByteAtIter(toIt, v, p);
      SameLensAt(old(buffers), buffers, fi, fj, from + left - 1);
      left' := left - 1;
      if left' > 0 {
        StepBack(fromIt, toIt, from, to, n, left', c0);
      }
    }

    /** Both cursors of the boundary branch step back one byte. */
    method StepBack(fromIt: Cursor, toIt: Cursor, from: nat, to: nat, n: nat, left: nat, ghost c0: seq<Byte>)
      requires Valid() && from < to && to + n <= |c0| && 0 < left <= n
      requires Content() == Moved(c0, from, to, n, left) && fromIt != toIt
      requires At(fromIt, from + left) && At(toIt, to + left)
      modifies fromIt, toIt
      ensures Moving(c0, from, to, n, left, fromIt, toIt)
    {
      BackwardIter(fromIt, from + left);
      ghost var fi, fj, fv := fromIt.indexInArrayList, fromIt.indexInArray, fromIt.byte;
      assert AtIn(buffers, fi, fj, from + left - 1) && fv == Content()[from + left - 1];
      BackwardIter(toIt, to + left);
      assert AtIn(buffers, toIt.indexInArrayList, toIt.indexInArray, to + left - 1);
      ByteCursors(buffers, c0, from, to, n, left, fi, fj, fv, toIt.indexInArrayList, toIt.indexInArray);
      assert fromIt.indexInArrayList == fi && fromIt.indexInArray == fj && fromIt.byte == fv;
    }

    /** The block branch of the `moveBackward` loop: both cursors are past
        the start of their chunks, and the largest block that keeps both
        inside them (at most `left` bytes) is copied at once.  The target's
        loaded byte is reloaded from its own offset. */
    method CopyBlockBack(fromIt: Cursor, toIt: Cursor, from: nat, to: nat, n: nat, left: nat, ghost c0: seq<Byte>)
      returns (left': nat)
      requires Moving(c0, from, to, n, left, fromIt, toIt) && fromIt != toIt
      requires fromIt.indexInArray > 0 && toIt.indexInArray > 0
      modifies this`buffers, fromIt, toIt
      ensures Valid() && SameLens(old(buffers), buffers)
      ensures left' < left && Content() == Moved(c0, from, to, n, left')
      ensures left' > 0 ==> Moving(c0, from, to, n, left', fromIt, toIt)
    {
      var k := Min3(toIt.indexInArray, fromIt.indexInArray, left);
      var fi, fj := fromIt.indexInArrayList, fromIt.indexInArray;
      var ti, tj := toIt.indexInArrayList, toIt.indexInArray;
      CopyBlock(fi, fj + 1 - k, ti, tj + 1 - k, k, c0, from, to, n, left);
      left' := left - k;
      if left' > 0 {
        BlockCursors(old(buffers), buffers, c0, from, to, n, left, k, fi, fj, old(fromIt.byte), ti, tj);
      }
      fromIt.indexInArray := fj - k;
      fromIt.byte := buffers[fi].bytes[fj - k];
      toIt.indexInArray := tj - k;
      toIt.byte := buffers[ti].bytes[tj - k];
      assert fromIt.indexInArrayList == fi && toIt.indexInArrayList == ti;
    }

    /** The copy of the block branch: the k bytes of chunk fi from offset fo
        are written over the k bytes of chunk ti from offset tn. */
    method CopyBlock(fi: nat, fo: nat, ti: nat, tn: nat, k: nat, ghost c0: seq<Byte>,
                     ghost from: nat, ghost to: nat, ghost n: nat, ghost left: nat)
      requires Valid() && from < to && to + n <= |c0| && 0 < k <= left <= n
      requires Content() == Moved(c0, from, to, n, left)
      requires fi < |buffers| && fo + k <= buffers[fi].len && Offset(buffers, fi) + fo == from + left - k
      requires ti < |buffers| && tn + k <= buffers[ti].len && Offset(buffers, ti) + tn == to + left - k
      modifies this`buffers
      ensures Valid() && SameLens(old(buffers), buffers)
      ensures Content() == Moved(c0, from, to, n, left - k)
    {
      var w := buffers[fi].bytes[fo..fo + k];
      BlockMoved(buffers, fi, fo, ti, tn, k, c0, from, to, n, left);
      SetInChunk(ti, tn, w);
    }
  }
}
