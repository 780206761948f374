# pbw-moon writer core in Dafny

This project models the core of the pbw-moon Protocol Buffers writer (TypeScript, `packages/core/src`):

- **`ByteVec`** (`byte_vec.dfy`, `chunks.dfy`) is a growable byte store made of fixed-capacity chunks. Its logical content is the used bytes of each chunk, concatenated (`Chunks.Flatten`, `ByteVec.ByteVec.Content`).
  - Appends go to the last chunk. When that chunk is full, a chunk of capacity `nextCapacity` is appended and `nextCapacity` doubles. A chunk is reused from the free list only when its capacity matches exactly.
  - Snapshots are taken and restored LIFO. A restore moves the later chunks to the free list.
  - `toBuffer` materialises a suffix of the content.
  - Cursors read and write single bytes across chunk boundaries.
  - `moveBackward` shifts a range right in place. It block-copies inside chunks and copies one byte at a time at chunk boundaries.
- **`Writer`** (`writer.dfy`) appends Protocol Buffers wire encodings to the store:
  - varints, ZigZag, fixed 32/64-bit, bool and byte strings;
  - length-delimited messages through `fork`/`ldelim`;
  - rollback through `reset`;
  - `finish`.
- **`LongBits`** (`longbits.dfy`) holds a 64-bit integer as two unsigned 32-bit words. It provides conversion from an integer or a Long object, 64-bit ZigZag in place, and the varint width of the pair.
- **`WireFormat`** (`wire_format.dfy`) holds the reference definitions every encoder is proved against:
  - the base-128 varint and its decoder;
  - ZigZag and its inverse;
  - four-byte little-endian.

These follow the "Encoding" section of the Protocol Buffers documentation.

The model follows the shape of the source:
- `ByteVec`, `Writer`, the cursor (`ByteVecIter`) and `LongBits` are classes. Their methods update fields. Each method's contract states the fields it changes in terms of their old values. The contracts also state the invariant the method keeps and what it appends or returns.
- The chunk list is a `seq` of value chunks. A chunk's `bytes` sequence has the chunk's capacity as its length.
- `fromNumber`, `from` and `length` are functions.

All of the writer's JavaScript number coercions are written out as explicit arithmetic: `>>> 0` is `U32`, `| 0` is `ToInt32`, and the store holds bytes modulo 256 (`Uint8Array`).

## Model

| member | source | states |
|---|---|---|
| WireFormat.VarintShape | packages/core/src/writer.ts:229-235 | the varint of v has `VarintLen(v) >= 1` bytes; every byte but the last has bit 7 set, and the last is below 128 |
| WireFormat.VarintRoundTrip | packages/core/src/writer.ts:229-235 | decoding the varint of v, whatever follows it, gives back v and the number of bytes it took |
| WireFormat.VarintLenLeast | packages/core/src/longbits.ts:47-60 | `VarintLen(v) <= k` exactly when `v < 128^k` (the varint width is the least such k) |
| WireFormat.VarintLenBelow64 | packages/core/src/writer.ts:246-257 | a value below 2^64 has a varint of 1 to 10 bytes |
| WireFormat.VarintLenBelow32 | packages/core/src/writer.ts:229-235 | a value below 2^32 has a varint of 1 to 5 bytes |
| WireFormat.VarintLenTen | packages/core/src/writer.ts:61-66 | every value in [2^63, 2^64), which includes the 64-bit image of every negative int32, has a 10-byte varint |
| WireFormat.ZigZagRoundTrip | packages/core/src/writer.ts:69-72 | ZigZag is injective: `UnZigZag(ZigZag(n)) == n` |
| WireFormat.ZigZagSurjective | packages/core/src/writer.ts:69-72 | every natural number is the ZigZag of some integer |
| WireFormat.LE32RoundTrip | packages/core/src/writer.ts:259-264 | the four little-endian bytes of a 32-bit value read back as that value |
| WireFormat.Varint300 | packages/core/src/writer.ts:54-58 | 300 encodes as `[0xAC, 0x02]` |
| WireFormat.DivBelow | packages/core/src/writer.ts:263 | `x < d*c` exactly when `x / d < c`; with d = 2^24 and c = 256, the top byte of a 32-bit value fits a byte |
| WireFormat.DivUnique | packages/core/src/longbits.ts:18 | quotient and remainder are unique: `x == d*q + r` with `r < d` gives `x / d == q` and `x % d == r` |
| LongBits.FromNumber | packages/core/src/longbits.ts:11-29 | `fromNumber(v)` yields two words below 2^32 whose value is `v mod 2^64` (two's complement for negative v), and the canonical zero `Zero` (both words 0) for 0 |
| LongBits.Negate | packages/core/src/longbits.ts:19-27 | complementing both words and adding one with carry gives `(2^64 - value) mod 2^64`, the 64-bit negation |
| LongBits.NegatedResidue | packages/core/src/longbits.ts:14-27 | negating the magnitude and then reducing mod 2^64 is the 64-bit negation of the magnitude's residue |
| LongBits.ModUnique | packages/core/src/longbits.ts:22-26 | the remainder mod d is unique even for a negative dividend |
| LongBits.SplitWords | packages/core/src/longbits.ts:17-18 | `lo = m >>> 0` and `hi = (m - lo) / 2^32 >>> 0` recombine to `m mod 2^64` |
| LongBits.From | packages/core/src/longbits.ts:31-38 | `from` on a number or a Long `{low, high}` yields valid words worth the denoted integer mod 2^64; the result is `Zero` exactly when that residue is 0 |
| LongBits.LongWords | packages/core/src/longbits.ts:37 | `(low >>> 0, high >>> 0)` is worth `high*2^32 + (low >>> 0)` mod 2^64; each word is 0 exactly when the signed word is 0 |
| LongBits.Length | packages/core/src/longbits.ts:47-60 | `length()` is between 1 and 10 for any pair; `LengthIsVarintLen` is its partner, tying it to the varint width |
| LongBits.LengthIsVarintLen | packages/core/src/longbits.ts:47-60 | `length()` of a valid pair equals the number of bytes in the varint of its value and lies in 1..10 |
| LongBits.LengthLeast | packages/core/src/longbits.ts:47-60 | `length() <= k` exactly when the value is below `128^k` |
| LongBits.VarintLenExact | packages/core/src/longbits.ts:51-59 | a value in `[128^(k-1), 128^k)` has a varint of exactly k bytes |
| LongBits.ShiftLeftOne | packages/core/src/longbits.ts:42-43 | the high word shifted left by one with the top bit of `lo` brought in, and `lo` shifted left by one, each cut to 32 bits, are the pair doubled mod 2^64 |
| LongBits.ZigZagWords | packages/core/src/longbits.ts:40-45 | the word-level `zzEncode` (shift left, XOR with the sign mask) computes ZigZag of the signed 64-bit value |
| LongBits.ShiftRightSeven | packages/core/src/writer.ts:249-250 | the new `lo` (`lo` shifted right by seven, with the low bits of `hi` brought in above) and `hi >>> 7` shift the pair's value right by seven bits; the bits shifted out are the low seven bits of `lo` |
| LongBits.LongBits.constructor | packages/core/src/longbits.ts:9 | the new object holds the given words |
| LongBits.LongBits.ZzEncode | packages/core/src/longbits.ts:40-45 | updates the words in place to ZigZag of the signed 64-bit value and returns the same object |
| Chunks.FlattenConcat | packages/core/src/byte-vec.ts:100-141 | the content of two chunk lists side by side is the concatenation of their contents |
| Chunks.FlattenSplit | packages/core/src/byte-vec.ts:100-141 | the content is the chunks before i, chunk i's used bytes, then the chunks after i; chunk i starts at `Offset(b, i)` |
| Chunks.FlattenAt | packages/core/src/byte-vec.ts:226 | byte j of chunk i, within its used length, is content byte `Offset(b, i) + j` |
| Chunks.ChunkSlice | packages/core/src/byte-vec.ts:130 | a range of chunk i's used bytes is the same range of the content, shifted by the chunk's offset |
| Chunks.OffsetSameLens | packages/core/src/byte-vec.ts:263-265 | chunk offsets depend only on chunk lengths |
| Chunks.OffsetMonotone | packages/core/src/byte-vec.ts:111-122 | chunk offsets never decrease along the list |
| Chunks.GrowLast | packages/core/src/byte-vec.ts:57 | growing the last chunk's used part appends the new bytes to the content |
| Chunks.OverwriteIn | packages/core/src/byte-vec.ts:197 | overwriting bytes inside chunk i's used part overwrites the same bytes of the content, at the chunk's offset |
| Chunks.CutBack | packages/core/src/byte-vec.ts:161-172 | the chunk list cut back to chunk `idx` holding `bl` bytes has `idx + 1` chunks, and its content is exactly the old content's first `Offset(b, idx) + bl` bytes (proved by `CutBackContent`) |
| Chunks.CutBackContent | packages/core/src/byte-vec.ts:161-172 | cutting back keeps exactly the first `Offset(b, idx) + bl` bytes of the content, and that many bytes exist |
| ByteVec.GrowsKeepsFits | packages/core/src/byte-vec.ts:143-150 | appending to the store keeps an earlier snapshot restorable |
| ByteVec.RestoreKeepsFits | packages/core/src/byte-vec.ts:161-172 | restoring a snapshot keeps every older snapshot restorable (LIFO use) |
| ByteVec.GrownFits | packages/core/src/byte-vec.ts:74-77 | the doubling loop of `allocate` stops at a capacity that holds the request, below twice the request when it doubled at all |
| ByteVec.ReversedFirst | packages/core/src/byte-vec.ts:162-165 | pushing the chunks popped from the end onto the free list puts them there last first |
| ByteVec.SuffixStep | packages/core/src/byte-vec.ts:133-138 | each pass of the second `toBuffer` loop extends the collected bytes by one whole chunk's used bytes |
| ByteVec.MovedStep | packages/core/src/byte-vec.ts:195-204 | copying the next k bytes of the backward move (last bytes first) advances the move by k, and the source bytes read are still the original ones |
| ByteVec.ByteMoved | packages/core/src/byte-vec.ts:188-190 | copying one byte at a chunk boundary advances the backward move by one |
| ByteVec.BlockMoved | packages/core/src/byte-vec.ts:196-197 | the block copy `bytes.set(subarray)` between two chunks is one k-byte step of the backward move |
| ByteVec.BlockCursors | packages/core/src/byte-vec.ts:199-203 | after a block copy that leaves bytes to move, both cursors moved k bytes back are on the next source and target bytes |
| ByteVec.CutBackValid | packages/core/src/byte-vec.ts:161-172 | the chunks cut back to a snapshot keep the representation invariant and hold exactly the snapshot's length of content |
| ByteVec.Min3 | packages/core/src/byte-vec.ts:196 | `Math.min` of three values is one of them and no larger than any |
| ByteVec.Cursor.constructor | packages/core/src/byte-vec.ts:29-36 | a new cursor is at chunk 0, offset 0, byte 0 |
| ByteVec.ByteVec.constructor | packages/core/src/byte-vec.ts:38-48 | one empty chunk of the initial capacity, no free chunks, empty content, next capacity twice the initial one |
| ByteVec.ByteVec.Len | packages/core/src/byte-vec.ts:89-91 | `len()` is the length of the content |
| ByteVec.ByteVec.Snapshot | packages/core/src/byte-vec.ts:143-150 | the snapshot names the last chunk, is restorable, and records the content length and the next capacity |
| ByteVec.ByteVec.SnapshotEmpty | packages/core/src/byte-vec.ts:152-159 | the snapshot of an empty store is restorable on any store and records twice the initial capacity |
| ByteVec.ByteVec.PopFreeMatching | packages/core/src/byte-vec.ts:268-277 | pops free chunks until one has capacity exactly `nextCapacity`; the chunks popped before it are dropped, all of other capacities |
| ByteVec.ByteVec.AllocateNewInternalArray | packages/core/src/byte-vec.ts:267-286 | appends an empty chunk of capacity `nextCapacity`, then doubles `nextCapacity`; the content is unchanged. By `TookFree`, the chunk's bytes are those of the topmost free chunk of that capacity, and the free list is cut to the chunks below it. With no such chunk the free list ends empty and the bytes are zeros |
| ByteVec.ByteVec.PushByte | packages/core/src/byte-vec.ts:50-58 | the content gains `value mod 256` at its end. A new chunk appears, and the capacity doubles, exactly when the last chunk was full. That chunk is the one taken as in `TookFree`, with the byte at position 0. Otherwise the free list is unchanged |
| ByteVec.ByteVec.AppendInChunk | packages/core/src/byte-vec.ts:56-57 | the byte is stored at the first unused position of the last chunk, and the used length grows by one; no other chunk changes |
| ByteVec.ByteVec.GrowNextCapacity | packages/core/src/byte-vec.ts:75-77 | `nextCapacity` doubles until it holds n |
| ByteVec.ByteVec.Allocate | packages/core/src/byte-vec.ts:61-87 | reserves n bytes at the end of the content, in the last chunk when they fit, otherwise in a new chunk of the grown capacity taken as in `TookFree`; the region starts at the old content length, and the content before it is unchanged |
| ByteVec.ByteVec.AllocateInNew | packages/core/src/byte-vec.ts:74-86 | the request goes to the start of a new last chunk of capacity `Grown(nextCapacity, n)`, and `nextCapacity` becomes twice that. The chunk is taken from the free list, or made fresh, as in `TookFree` |
| ByteVec.ByteVec.ExtendCurrent | packages/core/src/byte-vec.ts:66-70 | the last chunk's used length and the total length grow by n; the content gains the chunk's next n bytes |
| ByteVec.ByteVec.SetInChunk | packages/core/src/byte-vec.ts:197 | writing w into chunk i at offset o replaces the content bytes from `Offset(i) + o` by w; no chunk length changes |
| ByteVec.ByteVec.FindStart | packages/core/src/byte-vec.ts:107-125 | finds the chunk and the offset in it that hold content byte `startIndex` |
| ByteVec.ByteVec.ToBuffer | packages/core/src/byte-vec.ts:100-141 | returns exactly `content[startIndex..]`, empty when `startIndex == len()`, without changing the store |
| ByteVec.ByteVec.CollectChunks | packages/core/src/byte-vec.ts:133-139 | the second loop completes the collected bytes to the whole suffix from `startIndex` |
| ByteVec.ByteVec.ToBufferAndClear | packages/core/src/byte-vec.ts:93-98 | returns the suffix from `startIndex` and leaves no chunks and no free chunks |
| ByteVec.ByteVec.PopToFree | packages/core/src/byte-vec.ts:162-165 | keeps chunks 0..idx and appends the others to the free list, last first |
| ByteVec.ByteVec.RestoreSnapshot | packages/core/src/byte-vec.ts:161-172 | the content becomes its first `s.len` bytes, `nextCapacity` becomes the snapshot's, the later chunks move to the free list, and the invariant holds again |
| ByteVec.ByteVec.CutCurrent | packages/core/src/byte-vec.ts:166-169 | the snapshot's chunk, now last, is cut to its recorded length; the total length and the next capacity are the snapshot's |
| ByteVec.ByteVec.GetIter | packages/core/src/byte-vec.ts:215-232 | places the cursor on content byte `index` and loads that byte |
| ByteVec.ByteVec.ForwardIter | packages/core/src/byte-vec.ts:234-246 | moves a cursor from byte p to byte p+1, across a chunk boundary if needed, and loads it |
| ByteVec.ByteVec.BackwardIter | packages/core/src/byte-vec.ts:248-261 | moves a cursor from byte p to byte p-1, across a chunk boundary if needed, and loads it |
| ByteVec.ByteVec.WriteByteAtIter | packages/core/src/byte-vec.ts:263-265 | only content byte p changes, to `value mod 256`; the cursor stays valid |
| ByteVec.ByteVec.MoveBackward | packages/core/src/byte-vec.ts:174-213 | `content[to..to+n)` becomes the old `content[from..from+n)`; every other byte and every chunk length are unchanged; n = 0 is a no-op |
| ByteVec.ByteVec.CopyByteBack | packages/core/src/byte-vec.ts:188-194 | the boundary branch copies one byte and steps both cursors back, keeping the loop state |
| ByteVec.ByteVec.StepBack | packages/core/src/byte-vec.ts:191-194 | both cursors step back one byte onto the next source and target bytes |
| ByteVec.ByteVec.CopyBlockBack | packages/core/src/byte-vec.ts:195-204 | the block branch copies the largest block that keeps both cursors inside their chunks and moves them back by it |
| ByteVec.ByteVec.CopyBlock | packages/core/src/byte-vec.ts:197 | the block copy is one step of the backward move; no chunk length changes |
| Writer.Varint32Len | packages/core/src/writer.ts:12-19 | `_varint32Len(value)` is the number of bytes in the varint of `value >>> 0`, 1 to 5 |
| Writer.VarintLen32 | packages/core/src/writer.ts:14-18 | each threshold of `_varint32Len` matches the varint width |
| Writer.ToInt32 | packages/core/src/writer.ts:70 | the signed reading of `value` (a bitwise OR with 0) is the signed 32-bit number with the same low 32 bits |
| Writer.ZigZag32 | packages/core/src/writer.ts:69-72 | `(value << 1 ^ value >> 31) >>> 0` is ZigZag of the value read as a signed 32-bit integer |
| Writer.ZigZag32Words | packages/core/src/writer.ts:70 | the shift-and-XOR is 2s for s >= 0 and -2s-1 for s < 0, mod 2^32 |
| Writer.Sint32MinusTwo | packages/core/src/writer.ts:69-72 | `sint32(-2)` writes the single byte 3 |
| Writer.Fixed64RoundTrip | packages/core/src/writer.ts:106-111 | the eight bytes of `fixed64`, lo word first, read back as the 64-bit value |
| Writer.VarintShiftStep | packages/core/src/writer.ts:247-251 | one pass of the first `_writeVarint64` loop emits the first varint byte of the pair and leaves the varint of the shifted pair |
| Writer.VarintOverStep | packages/core/src/writer.ts:238-242 | one pass of the `_writeVarint32ByAtIter` loop extends the written prefix of the varint over the next byte |
| Writer.VarintOverLast | packages/core/src/writer.ts:243 | the byte after the loop completes the varint of `val` in place |
| Writer.MessageShifted | packages/core/src/writer.ts:199-207 | growing the store and moving the message right leaves the bytes before the fork in place and the message right after a gap of the varint's width |
| Writer.LengthInPlace | packages/core/src/writer.ts:190-217 | whichever branch `ldelim` takes, the result is the bytes before the fork, the varint of the length, then the message |
| Writer.OverwriteAppended | packages/core/src/writer.ts:147-151 | overwriting a just-reserved region with the input is appending the input |
| Writer.AppendStep | packages/core/src/writer.ts:229-235 | appending one varint byte and then the rest is appending the whole varint |
| Writer.AppendFour | packages/core/src/writer.ts:259-264 | four one-byte appends are one four-byte append |
| Writer.StackedGrows | packages/core/src/writer.ts:170-176 | appending to the store keeps every pending fork restorable |
| Writer.StackedSameLens | packages/core/src/writer.ts:237-244 | writing over bytes keeps every pending fork restorable |
| Writer.StackedPush | packages/core/src/writer.ts:170-176 | a snapshot taken at the current length, followed by the placeholder byte, can go on top of the fork stack |
| Writer.PushedFits | packages/core/src/writer.ts:171 | after the push, every snapshot on the stack is restorable |
| Writer.PushedIncreasing | packages/core/src/writer.ts:171-174 | after the push, the snapshots' lengths still strictly increase up the stack |
| Writer.StackedRestore | packages/core/src/writer.ts:179-187 | rolling back to the top fork keeps the rest of the stack restorable |
| Writer.StackedPop | packages/core/src/writer.ts:195 | dropping the top fork keeps the rest of the stack, and the top fork lies inside the content |
| Writer.Writer.constructor | packages/core/src/writer.ts:21-51 | an empty store with no forks; the store and all its cursors are fresh objects, and the empty snapshot comes from that store |
| Writer.Writer.Len | packages/core/src/writer.ts:33-35 | `len` is the number of bytes written |
| Writer.Writer.WriteByte | packages/core/src/writer.ts:266-268 | appends one byte |
| Writer.Writer.WriteVarint32 | packages/core/src/writer.ts:229-235 | appends exactly the varint of `val` |
| Writer.Writer.Uint32 | packages/core/src/writer.ts:54-58 | appends the varint of `value >>> 0` |
| Writer.Writer.Int32 | packages/core/src/writer.ts:61-66 | a negative value appends the varint of its 64-bit two's complement (10 bytes); a non-negative one appends what `uint32` does |
| Writer.Writer.Sint32 | packages/core/src/writer.ts:69-72 | appends the varint of the 32-bit ZigZag of the value |
| Writer.Writer.Uint64 | packages/core/src/writer.ts:75-82 | appends the varint of the value mod 2^64 |
| Writer.Writer.Sint64 | packages/core/src/writer.ts:85-89 | appends the varint of ZigZag of the value read as a signed 64-bit integer |
| Writer.Writer.WriteVarint64 | packages/core/src/writer.ts:246-257 | appends exactly the varint of `hi*2^32 + lo`; with `LengthIsVarintLen`, `length()` bytes. The pair ends with `hi` 0 and `lo` the last group, the final byte written |
| Writer.Writer.Bool | packages/core/src/writer.ts:92-95 | appends 1 or 0 |
| Writer.Writer.WriteFixed32 | packages/core/src/writer.ts:97-101 | appends the four little-endian bytes of `val >>> 0` |
| Writer.Writer.Fixed64 | packages/core/src/writer.ts:106-111 | appends the low word and then the high word, four little-endian bytes each |
| Writer.Writer.Bytes | packages/core/src/writer.ts:133-153 | an empty input appends the byte 0; otherwise appends the varint of the length, then the input |
| Writer.Writer.CopyIn | packages/core/src/writer.ts:147-151 | reserving n bytes and setting them in place appends the input |
| Writer.Writer.Reserve | packages/core/src/writer.ts:148-151 | appends n bytes and names the chunk and offset where they start |
| Writer.Writer.Fork | packages/core/src/writer.ts:170-176 | pushes a snapshot at the current length and appends the placeholder byte 0, which is `GuessVarintLen` (1) byte wide |
| Writer.Writer.Reset | packages/core/src/writer.ts:179-187 | with a pending fork, pops it and restores the content to what it was before that fork; otherwise empties the content |
| Writer.Writer.WriteVarint32ByAtIter | packages/core/src/writer.ts:237-244 | the varint of `val` replaces the `VarintLen(val)` bytes from the cursor's position; nothing else changes |
| Writer.Writer.WriteGroup | packages/core/src/writer.ts:238-242 | one loop pass writes the next varint byte under the cursor and moves it on |
| Writer.Writer.WriteLast | packages/core/src/writer.ts:243 | the last byte completes the varint in place |
| Writer.Writer.WriteAndStep | packages/core/src/writer.ts:239-240 | writes a byte under the cursor and moves the cursor one byte on |
| Writer.Writer.WriteAtCursor | packages/core/src/writer.ts:239 | `writeByteAtIter` changes one byte and keeps the fork stack |
| Writer.Writer.ShiftMessage | packages/core/src/writer.ts:199-207 | grows the store by the missing bytes and moves the message right by the varint's extra width |
| Writer.Writer.MoveBytes | packages/core/src/writer.ts:207 | `moveBackward` on the store keeps the fork stack |
| Writer.Writer.Ldelim | packages/core/src/writer.ts:190-217 | with a pending fork, pops it; the `GuessVarintLen`-byte placeholder is replaced by the varint of the message length, with the message right after it; with no fork, nothing changes |
| Writer.Writer.ForkLdelim | packages/core/src/writer.ts:170-217 | `fork`, a payload, then `ldelim` append the varint of the payload's length followed by the payload |
| Writer.Writer.PopSnapshot | packages/core/src/writer.ts:195 | the top fork leaves the stack and lies inside the content |
| Writer.Writer.WriteLength | packages/core/src/writer.ts:196-215 | the varint of `len` replaces the byte reserved at `start`, and the message after it follows the varint |
| Writer.Writer.Finish | packages/core/src/writer.ts:219-227 | with no fork, returns the whole content; otherwise returns the content after the most recent fork's placeholder; no forks or chunks remain |

## Left out

- `float`, `double`, `string` and the base64 branch of `bytes` (packages/core/src/writer.ts:116-130, 139-146, 155-167) call external codecs (`@protobufjs/float`, `@protobufjs/utf8`, `@protobufjs/base64`) that are not part of this model.
- The getters `head`, `tail` and `states` only throw.
- `int64`, `sfixed32` and `sfixed64` are aliases of `uint64`, `fixed32` and `fixed64`. They are modelled by those methods.
- LongBits.From: the decimal-string branch goes through the external `Long.fromString` parser and is not modelled.
- LongBits.FromNumber: works on mathematical integers. JavaScript's loss of precision above 2^53 and non-integral inputs are not modelled.
- The chunk list is a sequence of values, not of shared `Uint8Array` objects. As a result, the model does not capture:
  - the aliasing between a cursor's `_array` and the chunk it came from (a cursor names its chunk by index);
  - the `subarray` views that `toBuffer` copies from;
  - the `_currentChunk` reference, which is always the last chunk here (`CurrentChunk`);
  - the `allocated.bytes` reference handed out by `allocate` (`Allocated` names the chunk by index).
- The allocation-avoidance and memory behaviour of the chunk pool is not modelled beyond the free list's contents.
- ByteVec.ByteVec.CopyBlockBack: packages/core/src/byte-vec.ts:202 reloads the target cursor's cached byte using the source cursor's offset. That cached byte is never read, and the model reloads it from the target's own offset.
- writer.ts constructs `new ByteVec()` with no capacity and calls `reserveMore` and `addLen`, neither of which exists in byte-vec.ts:
  - the initial capacity is a parameter of the Writer constructor;
  - `reserveMore(n)` followed by the write and `addLen(n)` is modelled as `allocate(n)` followed by a write into the region it returns (Writer.Writer.Reserve, Writer.Writer.CopyIn).
- The debug `assert`s of byte-vec.ts are stripped from production builds, so they are not runtime checks here. They become preconditions and invariants. For example, `moveBackward` requires `from < to` and `to + n <= len()`, and `toBuffer` requires `startIndex <= len()`.
- Writer.Writer.Bytes: requires the input to be shorter than 2^32 bytes. Longer inputs would make `length >>> 0` wrap.
- Writer.Writer.Ldelim: requires the store to hold at most 2^32 bytes, so that the message length is a 32-bit value and `_varint32Len` sees it unchanged.
- Writer.Writer.WriteByte: takes a byte. Every caller passes a value below 256. `ByteVec.PushByte` takes any integer and stores it modulo 256.
- Writer.Writer.WriteVarint32ByAtIter: takes a value below 2^32, which is what its one caller passes. The precondition also asks the varint to fit in the bytes after the cursor, which `ldelim` guarantees.
- Writer.Writer.Finish: follows the code, which returns the bytes after the most recently pushed fork (not the outermost one). After `finish` the store has no chunks, so the writer is not used again.
- Writer.Writer.constructor: the empty snapshot is modelled as a constant field, fixed when the writer is built.
