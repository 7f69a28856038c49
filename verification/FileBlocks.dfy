/** The block layer of the file system: files cut into blocks of 4096 bytes, numbered from 0 and
stored under "path:number", written and read back in chunks.

The key-value system is represented by the latest bytes of each key. The source keeps the number
of the block before the current one in an unsigned variable that wraps below 0; here it is -1.
*/
module FileBlocks {
  import opened Common
  import opened CompositeKeys
  import opened Reassembly
  import Slices

  type Blocks = map<string, Bytes>

  function Min(a: int, b: int): int {
    if a < b then a else b
  }

  /** Block `i` of a file, counted from 0. */
  function FileBlock(data: Bytes, i: nat): Bytes
    requires i * BLK_SIZE <= |data|
  {
    data[i * BLK_SIZE..Min((i + 1) * BLK_SIZE, |data|)]
  }

  lemma SliceOfSlice(data: Bytes, a: nat, b: nat, c: nat, d: nat)
    requires a <= b <= |data| && c <= d <= b - a
    ensures data[a..b][c..d] == data[a + c..a + d]
  {
    var x, y := data[a..b][c..d], data[a + c..a + d];
    assert |x| == |y|;
    forall k | 0 <= k < |x| ensures x[k] == y[k] {
      assert x[k] == data[a..b][c + k] == data[a + c + k];
    }
  }

  lemma FileBlockShifts(data: Bytes, i: nat)
    requires i >= 1 && i * BLK_SIZE < |data|
    ensures (i - 1) * BLK_SIZE < |data| - BLK_SIZE && FileBlock(data[BLK_SIZE..], i - 1) == FileBlock(data, i)
  {
    var from := (i - 1) * BLK_SIZE;
    assert from + BLK_SIZE == i * BLK_SIZE && (i + 1) * BLK_SIZE == i * BLK_SIZE + BLK_SIZE;
    SliceOfSlice(data, BLK_SIZE, |data|, from, Min(i * BLK_SIZE, |data| - BLK_SIZE));
  }

  /** Reading the next block of a range that starts at a block. */
  lemma NextBlock(data: Bytes, blk: nat, size: nat, i: nat)
    requires blk * BLK_SIZE + size <= |data| && i * BLK_SIZE < size
    ensures var start, at := blk * BLK_SIZE, i * BLK_SIZE;
            var piece := Min(BLK_SIZE, size - at);
            && (blk + i) * BLK_SIZE == start + at
            && piece <= |FileBlock(data, blk + i)| <= BLK_SIZE
            && at + piece == Min((i + 1) * BLK_SIZE, size)
            && data[start..start + at] + FileBlock(data, blk + i)[..piece] == data[start..start + at + piece]
  {
    var from, piece := (blk + i) * BLK_SIZE, Min(BLK_SIZE, size - i * BLK_SIZE);
    assert from == blk * BLK_SIZE + i * BLK_SIZE;
    assert (blk + i + 1) * BLK_SIZE == from + BLK_SIZE && (i + 1) * BLK_SIZE == i * BLK_SIZE + BLK_SIZE;
    SliceOfSlice(data, from, Min(from + BLK_SIZE, |data|), 0, piece);
    assert data[blk * BLK_SIZE..from] + data[from..from + piece] == data[blk * BLK_SIZE..from + piece];
  }

  /** The key-value system holds the blocks of `data` under `path`; blocks past the end of the file
      are left as they are. */
  ghost predicate Stores(kv: Blocks, path: string, data: Bytes) {
    forall i: nat :: i * BLK_SIZE < |data| ==>
      BlockPath(path, i) in kv && kv[BlockPath(path, i)] == FileBlock(data, i)
  }

  /** The blocks after writing `buf` from block `start` on, one block at a time. */
  function Written(kv: Blocks, path: string, start: nat, buf: Bytes): Blocks
    decreases |buf|
  {
    if buf == [] then kv
    else
      var size := Min(BLK_SIZE, |buf|);
      Written(kv[BlockPath(path, start) := buf[..size]], path, start + 1, buf[size..])
  }

  /** What a write leaves under the keys of its own blocks. */
  lemma {:induction false} WrittenBlock(kv: Blocks, path: string, start: nat, buf: Bytes, i: nat)
    requires i * BLK_SIZE < |buf|
    ensures BlockPath(path, start + i) in Written(kv, path, start, buf)
    ensures Written(kv, path, start, buf)[BlockPath(path, start + i)] == FileBlock(buf, i)
    decreases |buf|
  {
    var size := Min(BLK_SIZE, |buf|);
    var kv1, rest := kv[BlockPath(path, start) := buf[..size]], buf[size..];
    if i == 0 {
      WrittenElsewhere(kv1, path, start + 1, rest, path, start);
    } else {
      FileBlockShifts(buf, i);
      WrittenBlock(kv1, path, start + 1, rest, i - 1);
      assert start + 1 + (i - 1) == start + i;
    }
  }

  /** All other block keys keep their value. */
  lemma {:induction false} WrittenElsewhere(kv: Blocks, path: string, start: nat, buf: Bytes, other: string, n: nat)
    requires other != path || n < start || (n - start) * BLK_SIZE >= |buf|
    ensures BlockPath(other, n) in Written(kv, path, start, buf) <==> BlockPath(other, n) in kv
    ensures BlockPath(other, n) in kv ==> Written(kv, path, start, buf)[BlockPath(other, n)] == kv[BlockPath(other, n)]
    decreases |buf|
  {
    if buf == [] {
    } else {
      var size := Min(BLK_SIZE, |buf|);
      assert BlockPath(other, n) != BlockPath(path, start) by {
        if BlockPath(other, n) == BlockPath(path, start) { BlockPathIsInjective(other, n, path, start); }
      }
      WrittenElsewhere(kv[BlockPath(path, start) := buf[..size]], path, start + 1, buf[size..], other, n);
    }
  }

  /** Writing whole blocks first and the rest later is the same as writing all at once. */
  lemma {:induction false} WrittenInChunks(kv: Blocks, path: string, start: nat, a: Bytes, b: Bytes, n: nat)
    requires |a| == n * BLK_SIZE
    ensures Written(Written(kv, path, start, a), path, start + n, b) == Written(kv, path, start, a + b)
    decreases |a|
  {
    if n == 0 {
      assert a + b == b;
    } else {
      var kv1 := kv[BlockPath(path, start) := a[..BLK_SIZE]];
      assert (a + b)[..BLK_SIZE] == a[..BLK_SIZE] && (a + b)[BLK_SIZE..] == a[BLK_SIZE..] + b;
      WrittenInChunks(kv1, path, start + 1, a[BLK_SIZE..], b, n - 1);
      assert start + 1 + (n - 1) == start + n;
    }
  }

  /** A chunk is whole blocks, or it is the last one. */
  lemma ChunkStep(kv: Blocks, path: string, start: nat, chunk: Bytes, rest: Bytes)
    requires |chunk| % BLK_SIZE == 0 || rest == []
    ensures Written(Written(kv, path, start, chunk), path, start + |chunk| / BLK_SIZE, rest)
            == Written(kv, path, start, chunk + rest)
  {
    if rest == [] {
      assert chunk + rest == chunk;
    } else {
      WrittenInChunks(kv, path, start, chunk, rest, |chunk| / BLK_SIZE);
    }
  }

  // ----- one write against a byte sequence

  /** The file after overwriting from `offset`. */
  function Spliced(data: Bytes, offset: nat, buf: Bytes): Bytes
    requires offset <= |data|
  {
    data[..offset] + buf + if offset + |buf| < |data| then data[offset + |buf|..] else []
  }

  /** The blocks after a write: the start of the block that holds the offset is kept. */
  function WriteKv(kv: Blocks, path: string, offset: nat, buf: Bytes): Blocks
    requires offset % BLK_SIZE != 0 ==>
      BlockPath(path, offset / BLK_SIZE) in kv && offset % BLK_SIZE <= |kv[BlockPath(path, offset / BLK_SIZE)]|
  {
    var nr, off := offset / BLK_SIZE, offset % BLK_SIZE;
    if off == 0 then Written(kv, path, nr, buf)
    else Written(kv, path, nr, kv[BlockPath(path, nr)][..off] + buf)
  }

  /** A write loses nothing exactly when it ends at or past the end of the file or on a block
      boundary: otherwise the rest of its last block is dropped. */
  predicate KeepsTail(size: nat, offset: nat, len: nat) {
    offset + len >= size || (offset + len) % BLK_SIZE == 0
  }

  /** The part of a block that holds the offset and lies before it. */
  lemma HeadOfBlock(kv: Blocks, path: string, data: Bytes, offset: nat)
    requires Stores(kv, path, data) && offset <= |data| && offset % BLK_SIZE != 0
    ensures var nr, off := offset / BLK_SIZE, offset % BLK_SIZE;
            && BlockPath(path, nr) in kv && off <= |kv[BlockPath(path, nr)]|
            && kv[BlockPath(path, nr)][..off] == data[nr * BLK_SIZE..offset]
  {
    var nr, off := offset / BLK_SIZE, offset % BLK_SIZE;
    assert offset == nr * BLK_SIZE + off;
    assert kv[BlockPath(path, nr)] == FileBlock(data, nr);
  }

  /** Blocks outside a block-aligned write are blocks of the old file. */
  lemma AlignedWriteOutside(data: Bytes, nr: nat, buf: Bytes, i: nat)
    requires nr * BLK_SIZE <= |data| && KeepsTail(|data|, nr * BLK_SIZE, |buf|)
    requires i * BLK_SIZE < |Spliced(data, nr * BLK_SIZE, buf)|
    requires i < nr || (i - nr) * BLK_SIZE >= |buf|
    ensures i * BLK_SIZE < |data| && FileBlock(Spliced(data, nr * BLK_SIZE, buf), i) == FileBlock(data, i)
  {
    var all := Spliced(data, nr * BLK_SIZE, buf);
    if i < nr {
      assert (i + 1) * BLK_SIZE <= nr * BLK_SIZE;
    } else {
      assert i * BLK_SIZE >= nr * BLK_SIZE + |buf|;
      assert |all| == |data|;
    }
  }

  /** Blocks inside it are blocks of the buffer, except a last one that is cut short. */
  lemma AlignedWriteInside(data: Bytes, nr: nat, buf: Bytes, j: nat)
    requires nr * BLK_SIZE <= |data| && j * BLK_SIZE < |buf|
    ensures (nr + j) * BLK_SIZE < |Spliced(data, nr * BLK_SIZE, buf)|
    ensures FileBlock(Spliced(data, nr * BLK_SIZE, buf), nr + j) == FileBlock(buf, j) <==>
            (j + 1) * BLK_SIZE <= |buf| || nr * BLK_SIZE + |buf| >= |data|
  {
    var all := Spliced(data, nr * BLK_SIZE, buf);
    var from := (nr + j) * BLK_SIZE;
    assert from == nr * BLK_SIZE + j * BLK_SIZE;
    assert (nr + j + 1) * BLK_SIZE == from + BLK_SIZE && (j + 1) * BLK_SIZE == j * BLK_SIZE + BLK_SIZE;
    assert |FileBlock(all, nr + j)| == Min(BLK_SIZE, |all| - from);
    assert |FileBlock(buf, j)| == Min(BLK_SIZE, |buf| - j * BLK_SIZE);
  }

  lemma AlignedWriteStores(kv: Blocks, path: string, data: Bytes, nr: nat, buf: Bytes, i: nat)
    requires Stores(kv, path, data) && nr * BLK_SIZE <= |data| && KeepsTail(|data|, nr * BLK_SIZE, |buf|)
    requires i * BLK_SIZE < |Spliced(data, nr * BLK_SIZE, buf)|
    ensures BlockPath(path, i) in Written(kv, path, nr, buf)
    ensures Written(kv, path, nr, buf)[BlockPath(path, i)] == FileBlock(Spliced(data, nr * BLK_SIZE, buf), i)
  {
    if i >= nr && (i - nr) * BLK_SIZE < |buf| {
      AlignedWriteStoresInside(kv, path, data, nr, buf, i - nr);
      assert nr + (i - nr) == i;
    } else {
      WrittenElsewhere(kv, path, nr, buf, path, i);
      AlignedWriteOutside(data, nr, buf, i);
    }
  }

  lemma AlignedWriteStoresInside(kv: Blocks, path: string, data: Bytes, nr: nat, buf: Bytes, j: nat)
    requires nr * BLK_SIZE <= |data| && KeepsTail(|data|, nr * BLK_SIZE, |buf|) && j * BLK_SIZE < |buf|
    ensures (nr + j) * BLK_SIZE < |Spliced(data, nr * BLK_SIZE, buf)|
    ensures BlockPath(path, nr + j) in Written(kv, path, nr, buf)
    ensures Written(kv, path, nr, buf)[BlockPath(path, nr + j)] == FileBlock(Spliced(data, nr * BLK_SIZE, buf), nr + j)
  {
    WrittenBlock(kv, path, nr, buf, j);
    AlignedWriteInside(data, nr, buf, j);
    if nr * BLK_SIZE + |buf| < |data| { WholeBlocks(nr, |buf|, j); }
  }

  lemma WholeBlocks(nr: nat, len: nat, j: nat)
    requires j * BLK_SIZE < len && (nr * BLK_SIZE + len) % BLK_SIZE == 0
    ensures (j + 1) * BLK_SIZE <= len
  {
  }

  lemma AlignedWriteIff(kv: Blocks, path: string, data: Bytes, nr: nat, buf: Bytes)
    requires Stores(kv, path, data) && nr * BLK_SIZE <= |data|
    ensures Stores(Written(kv, path, nr, buf), path, Spliced(data, nr * BLK_SIZE, buf))
            <==> KeepsTail(|data|, nr * BLK_SIZE, |buf|)
  {
    if KeepsTail(|data|, nr * BLK_SIZE, |buf|) {
      forall i: nat | i * BLK_SIZE < |Spliced(data, nr * BLK_SIZE, buf)|
        ensures BlockPath(path, i) in Written(kv, path, nr, buf)
        ensures Written(kv, path, nr, buf)[BlockPath(path, i)] == FileBlock(Spliced(data, nr * BLK_SIZE, buf), i)
      {
        AlignedWriteStores(kv, path, data, nr, buf, i);
      }
    } else {
      var j := |buf| / BLK_SIZE;
      assert j * BLK_SIZE < |buf| < (j + 1) * BLK_SIZE;
      AlignedWriteInside(data, nr, buf, j);
      WrittenBlock(kv, path, nr, buf, j);
    }
  }

  /** Overwriting from an earlier offset with the bytes in between changes nothing. */
  lemma SplicedFromBlock(data: Bytes, start: nat, offset: nat, buf: Bytes)
    requires start <= offset <= |data|
    ensures Spliced(data, start, data[start..offset] + buf) == Spliced(data, offset, buf)
  {
    assert data[..start] + data[start..offset] == data[..offset];
    assert data[..start] + (data[start..offset] + buf) == data[..offset] + buf;
  }

  /** A write at any offset up to the end of the file stores exactly the overwritten file if and
      only if it keeps the tail of its last block. */
  lemma WriteRefinesBytesIff(kv: Blocks, path: string, data: Bytes, offset: nat, buf: Bytes)
    requires Stores(kv, path, data) && offset <= |data|
    ensures offset % BLK_SIZE != 0 ==>
      BlockPath(path, offset / BLK_SIZE) in kv && offset % BLK_SIZE <= |kv[BlockPath(path, offset / BLK_SIZE)]|
    ensures Stores(WriteKv(kv, path, offset, buf), path, Spliced(data, offset, buf))
            <==> KeepsTail(|data|, offset, |buf|)
  {
    var nr, off := offset / BLK_SIZE, offset % BLK_SIZE;
    assert offset == nr * BLK_SIZE + off;
    if off == 0 {
      AlignedWriteIff(kv, path, data, nr, buf);
    } else {
      HeadOfBlock(kv, path, data, offset);
      HeadedWriteIff(kv, path, data, nr, offset, buf);
    }
  }

  lemma HeadedWriteIff(kv: Blocks, path: string, data: Bytes, nr: nat, offset: nat, buf: Bytes)
    requires Stores(kv, path, data) && nr * BLK_SIZE <= offset <= |data|
    ensures Stores(Written(kv, path, nr, data[nr * BLK_SIZE..offset] + buf), path, Spliced(data, offset, buf))
            <==> KeepsTail(|data|, offset, |buf|)
  {
    var start, whole := nr * BLK_SIZE, data[nr * BLK_SIZE..offset] + buf;
    SplicedFromBlock(data, start, offset, buf);
    SameTail(|data|, start, |whole|, offset, |buf|);
    AlignedWriteIff(kv, path, data, nr, whole);
  }

  lemma SameTail(size: nat, start: nat, n: nat, offset: nat, m: nat)
    requires start + n == offset + m
    ensures KeepsTail(size, start, n) <==> KeepsTail(size, offset, m)
  {
  }

  /** Writes to one file leave the blocks of every other file alone. */
  lemma OtherKeysUntouched(kv: Blocks, path: string, offset: nat, buf: Bytes, other: string, i: nat)
    requires offset % BLK_SIZE != 0 ==>
      BlockPath(path, offset / BLK_SIZE) in kv && offset % BLK_SIZE <= |kv[BlockPath(path, offset / BLK_SIZE)]|
    requires other != path
    ensures BlockPath(other, i) in WriteKv(kv, path, offset, buf) <==> BlockPath(other, i) in kv
    ensures BlockPath(other, i) in kv ==> WriteKv(kv, path, offset, buf)[BlockPath(other, i)] == kv[BlockPath(other, i)]
  {
    var nr, off := offset / BLK_SIZE, offset % BLK_SIZE;
    WrittenElsewhere(kv, path, nr, if off == 0 then buf else kv[BlockPath(path, nr)][..off] + buf, other, i);
  }

  /** A short overwrite inside a block drops the rest of the block. */
  lemma TailCanBeDropped() returns (data: Bytes, buf: Bytes)
    ensures forall kv, path :: Stores(kv, path, data) ==>
              !Stores(WriteKv(kv, path, 0, buf), path, Spliced(data, 0, buf))
  {
    data, buf := [1, 2, 3], [9];
    forall kv, path | Stores(kv, path, data)
      ensures !Stores(WriteKv(kv, path, 0, buf), path, Spliced(data, 0, buf))
    {
      WriteRefinesBytesIff(kv, path, data, 0, buf);
    }
  }

  // ----- reads

  /** Start of the block that holds the offset, and how many bytes of that block the file has. */
  function BlockStart(offset: nat): nat {
    offset / BLK_SIZE * BLK_SIZE
  }

  function InBlock(size: nat, offset: nat): int {
    Min(BLK_SIZE, size - BlockStart(offset))
  }

  /** How much an unaligned read copies out of the buffer that holds its first block. */
  function FirstSize(fileSize: nat, offset: nat, size: nat): int {
    var inBlock := InBlock(fileSize, offset);
    if size <= inBlock then size else Min(BLK_SIZE - offset % BLK_SIZE, inBlock)
  }

  /** What it then still reads. The number of bytes left in the file is unsigned: if too much was
      copied it wraps around, and does not limit the read. */
  function Missing(fileSize: nat, offset: nat, size: nat): int {
    var wanted := size - FirstSize(fileSize, offset, size);
    var left := fileSize - offset - FirstSize(fileSize, offset, size);
    if left >= 0 then Min(wanted, left) else wanted
  }

  /** The read does not wait for a block that was never written. */
  predicate ReadIsDefined(fileSize: nat, offset: nat, size: nat) {
    || offset >= fileSize || offset % BLK_SIZE == 0
    || BlockStart(offset) + Missing(fileSize, offset, size) <= fileSize
    || Missing(fileSize, offset, size) <= BLK_SIZE
  }

  /** A short last block is read over and over until there are enough bytes. */
  function Cycled(block: Bytes, n: nat): Bytes
    requires block != []
  {
    if n <= |block| then block[..n] else block + Cycled(block, n - |block|)
  }

  function Rest(data: Bytes, start: nat, n: nat): Bytes
    requires start < |data|
  {
    if start + n <= |data| then data[start..start + n] else Cycled(data[start..], n)
  }

  /** The block of the offset in its buffer, followed by whatever the memory holds. */
  function Buffer(data: Bytes, offset: nat, memory: Bytes): Bytes
    requires offset < |data|
  {
    data[BlockStart(offset)..BlockStart(offset) + InBlock(|data|, offset)] + memory
  }

  lemma FirstFits(fileSize: nat, offset: nat, size: nat)
    requires offset < fileSize
    ensures 0 <= FirstSize(fileSize, offset, size) <= BLK_SIZE && 0 <= Missing(fileSize, offset, size)
  {
  }

  predicate Enough(memory: Bytes) {
    |memory| >= 2 * BLK_SIZE
  }

  /** The bytes a read returns: past the first block an unaligned read starts over at that block. */
  function ReadBytes(data: Bytes, offset: nat, size: nat, memory: Bytes): Bytes
    requires offset < |data| && ReadIsDefined(|data|, offset, size) && Enough(memory)
  {
    var off, first := offset % BLK_SIZE, FirstSize(|data|, offset, size);
    if off == 0 then data[offset..Min(offset + size, |data|)]
    else Buffer(data, offset, memory)[off..off + first]
         + Rest(data, BlockStart(offset), Missing(|data|, offset, size))
  }

  /** The read is exact whatever the memory holds. */
  ghost predicate ReadIsExact(data: Bytes, offset: nat, size: nat)
    requires offset < |data| && ReadIsDefined(|data|, offset, size)
  {
    forall memory :: Enough(memory) ==>
      ReadBytes(data, offset, size, memory) == data[offset..Min(offset + size, |data|)]
  }

  /** The part of an unaligned read that comes from the file's bytes in the first buffer. */
  lemma FirstPart(data: Bytes, offset: nat, n: nat, memory: Bytes)
    requires offset < |data| && offset % BLK_SIZE + n <= InBlock(|data|, offset)
    ensures Buffer(data, offset, memory)[offset % BLK_SIZE..offset % BLK_SIZE + n] == data[offset..offset + n]
  {
    var start, off, ini := BlockStart(offset), offset % BLK_SIZE, InBlock(|data|, offset);
    assert offset == start + off;
    var block := data[start..start + ini];
    assert (block + memory)[off..off + n] == block[off..off + n];
    SliceOfSlice(data, start, start + ini, off, off + n);
  }

  lemma ReadInside(data: Bytes, offset: nat, size: nat, memory: Bytes)
    requires offset < |data| && offset % BLK_SIZE != 0 && Enough(memory)
    requires offset % BLK_SIZE + size <= InBlock(|data|, offset)
    ensures ReadIsDefined(|data|, offset, size)
    ensures ReadBytes(data, offset, size, memory) == data[offset..Min(offset + size, |data|)]
  {
    var start, off := BlockStart(offset), offset % BLK_SIZE;
    assert offset == start + off;
    FirstPart(data, offset, size, memory);
    assert data[start..start] == [];
  }

  lemma ReadShort(data: Bytes, offset: nat, size: nat, memory: Bytes)
    requires offset < |data| && offset % BLK_SIZE != 0 && Enough(memory) && size <= InBlock(|data|, offset)
    ensures ReadIsDefined(|data|, offset, size)
    ensures ReadBytes(data, offset, size, memory) ==
            Buffer(data, offset, memory)[offset % BLK_SIZE..offset % BLK_SIZE + size]
  {
    assert data[BlockStart(offset)..BlockStart(offset)] == [];
  }

  /** A short read over the end of its block copies memory instead of the next block. */
  lemma ReadOverEnd(data: Bytes, offset: nat, size: nat) returns (memory: Bytes)
    requires offset < |data| && offset % BLK_SIZE != 0
    requires size <= InBlock(|data|, offset) < offset % BLK_SIZE + size
    ensures ReadIsDefined(|data|, offset, size) && Enough(memory)
    ensures ReadBytes(data, offset, size, memory) != data[offset..Min(offset + size, |data|)]
  {
    var start, off, ini := BlockStart(offset), offset % BLK_SIZE, InBlock(|data|, offset);
    assert offset == start + off;
    var next: byte := if start + ini < |data| && data[start + ini] == 0 then 1 else 0;
    memory := seq(2 * BLK_SIZE, _ => next);
    var buffer := Buffer(data, offset, memory);
    ReadShort(data, offset, size, memory);
    if start + ini < |data| {
      assert buffer[off..off + size][ini - off] == buffer[ini] == next;
      assert data[offset..Min(offset + size, |data|)][ini - off] == data[start + ini];
    }
  }

  /** A longer read starts over at the block. */
  lemma ReadOn(data: Bytes, offset: nat, size: nat, memory: Bytes)
    requires offset < |data| && offset % BLK_SIZE != 0 && Enough(memory)
    requires InBlock(|data|, offset) == BLK_SIZE < size
    ensures ReadIsDefined(|data|, offset, size)
    ensures var start := BlockStart(offset);
            var missing := Min(offset + size, |data|) - start - BLK_SIZE;
            && ReadBytes(data, offset, size, memory) == data[offset..start + BLK_SIZE] + data[start..start + missing]
            && data[offset..Min(offset + size, |data|)] ==
               data[offset..start + BLK_SIZE] + data[start + BLK_SIZE..start + BLK_SIZE + missing]
  {
    var start, off := BlockStart(offset), offset % BLK_SIZE;
    assert offset == start + off;
    FirstPart(data, offset, BLK_SIZE - off, memory);
  }

  /** A read past a short last block returns more than the file has. */
  lemma {:induction false} CycledLength(block: Bytes, n: nat)
    requires block != []
    ensures |Cycled(block, n)| == n
  {
    if n <= |block| {
    } else {
      CycledLength(block, n - |block|);
    }
  }

  /** Byte by byte the block, over and over: it starts with the block and has its length as period. */
  lemma {:induction false} CycledAt(block: Bytes, n: nat, k: nat)
    requires block != [] && k < n
    ensures |Cycled(block, n)| == n
    ensures Cycled(block, n)[k] == if k < |block| then block[k] else Cycled(block, n)[k - |block|]
  {
    CycledLength(block, n);
    var size := |block|;
    if k >= size {
      CycledLength(block, n - size);
      assert Cycled(block, n) == block + Cycled(block, n - size);
      if k >= 2 * size {
        CycledAt(block, n - size, k - size);
      }
      CycledStart(block, n - size, k - size);
      CycledStart(block, n, k - size);
    }
  }

  lemma CycledStart(block: Bytes, n: nat, k: nat)
    requires block != [] && k < n
    ensures |Cycled(block, n)| == n && (k < |block| ==> Cycled(block, n)[k] == block[k])
  {
    CycledLength(block, n);
  }

  lemma LastBlock(data: Bytes, blk: nat)
    requires blk * BLK_SIZE < |data| <= (blk + 1) * BLK_SIZE
    ensures FileBlock(data, blk) == data[blk * BLK_SIZE..]
  {
  }

  lemma StoredLast(kv: Blocks, path: string, data: Bytes, blk: nat)
    requires Stores(kv, path, data) && blk * BLK_SIZE < |data| <= (blk + 1) * BLK_SIZE
    ensures BlockPath(path, blk) in kv && kv[BlockPath(path, blk)] == data[blk * BLK_SIZE..] != []
  {
    LastBlock(data, blk);
  }

  /** Round after round of the same block. */
  method Repeat(block: Bytes, size: nat) returns (buf: Bytes)
    requires block != []
    ensures buf == Cycled(block, size)
  {
    buf := [];
    while |buf| < size
      invariant |buf| <= size && buf + Cycled(block, size - |buf|) == Cycled(block, size)
      decreases size - |buf|
    {
      CycledStep(block, buf, size - |buf|);
      buf := buf + block[..Min(|block|, size - |buf|)];
    }
  }

  lemma CycledStep(block: Bytes, before: Bytes, n: nat)
    requires block != []
    ensures var piece := block[..Min(|block|, n)];
            before + Cycled(block, n) == (before + piece) + Cycled(block, n - |piece|)
  {
    var piece := block[..Min(|block|, n)];
    assert Cycled(block, n) == piece + Cycled(block, n - |piece|);
  }

  lemma ReadPastEnd(data: Bytes, offset: nat, size: nat, memory: Bytes)
    requires offset < |data| && offset % BLK_SIZE != 0 && Enough(memory)
    requires ReadIsDefined(|data|, offset, size) && InBlock(|data|, offset) < Min(BLK_SIZE, size)
    ensures |ReadBytes(data, offset, size, memory)| == size > |data| - offset
  {
    var start := BlockStart(offset);
    assert offset == start + offset % BLK_SIZE;
    CycledLength(data[start..], Missing(|data|, offset, size));
  }

  /** The part of the file after the first block is a copy of what the read starts over at. */
  predicate Repeats(data: Bytes, offset: nat, size: nat)
    requires offset < |data|
  {
    var start, end := BlockStart(offset), Min(offset + size, |data|);
    && InBlock(|data|, offset) == BLK_SIZE < size
    && data[start..end - BLK_SIZE] == data[start + BLK_SIZE..end]
  }

  lemma ReadOnIff(data: Bytes, offset: nat, size: nat, memory: Bytes)
    requires offset < |data| && offset % BLK_SIZE != 0 && Enough(memory)
    requires InBlock(|data|, offset) == BLK_SIZE < size
    ensures ReadIsDefined(|data|, offset, size)
    ensures ReadBytes(data, offset, size, memory) == data[offset..Min(offset + size, |data|)] <==>
            Repeats(data, offset, size)
  {
    var start, end := BlockStart(offset), Min(offset + size, |data|);
    assert start <= offset < start + BLK_SIZE;
    ReadOn(data, offset, size, memory);
    SameHead(data[offset..start + BLK_SIZE], data[start..end - BLK_SIZE], data[start + BLK_SIZE..end]);
  }

  /** A read returns the requested part of the file, whatever is in memory, if and only if it is
      aligned, stays in its block, or the block it starts over at happens to repeat. */
  lemma ReadIsExactIff(data: Bytes, offset: nat, size: nat)
    requires offset < |data| && ReadIsDefined(|data|, offset, size)
    ensures ReadIsExact(data, offset, size) <==>
      || offset % BLK_SIZE == 0
      || offset % BLK_SIZE + size <= InBlock(|data|, offset)
      || Repeats(data, offset, size)
  {
    var off, some := offset % BLK_SIZE, seq(2 * BLK_SIZE, _ => 0);
    assert Enough(some);
    if off == 0 {
    } else if off + size <= InBlock(|data|, offset) {
      forall memory | Enough(memory)
        ensures ReadBytes(data, offset, size, memory) == data[offset..Min(offset + size, |data|)]
      {
        ReadInside(data, offset, size, memory);
      }
    } else if size <= InBlock(|data|, offset) {
      var memory := ReadOverEnd(data, offset, size);
      assert Enough(memory);
    } else if InBlock(|data|, offset) == BLK_SIZE {
      forall memory | Enough(memory)
        ensures ReadBytes(data, offset, size, memory) == data[offset..Min(offset + size, |data|)] <==>
                Repeats(data, offset, size)
      {
        ReadOnIff(data, offset, size, memory);
      }
    } else {
      ReadPastEnd(data, offset, size, some);
    }
  }

  lemma SameHead(head: Bytes, a: Bytes, b: Bytes)
    ensures head + a == head + b <==> a == b
  {
    assert (head + a)[|head|..] == a && (head + b)[|head|..] == b;
  }

  /** An unaligned read of one block starts in one block and ends in memory. */
  lemma UnalignedReadCanBeWrong() returns (data: Bytes, offset: nat, size: nat)
    ensures offset < |data| && ReadIsDefined(|data|, offset, size) && size <= BLK_SIZE && offset + size <= |data|
    ensures !ReadIsExact(data, offset, size)
  {
    data := seq(2 * BLK_SIZE, _ => 0);
    offset, size := 1, BLK_SIZE;
    ReadIsExactIff(data, offset, size);
  }

  // ----- sequences of writes

  datatype WriteOp = WriteOp(offset: nat, buf: Bytes)

  /** Each write starts within the file of its time and keeps the tail. */
  ghost predicate GoodWrites(data: Bytes, ops: seq<WriteOp>)
    decreases ops
  {
    ops == [] ||
    (ops[0].offset <= |data| && KeepsTail(|data|, ops[0].offset, |ops[0].buf|)
     && GoodWrites(Spliced(data, ops[0].offset, ops[0].buf), ops[1..]))
  }

  ghost function SplicedAll(data: Bytes, ops: seq<WriteOp>): Bytes
    requires GoodWrites(data, ops)
    decreases ops
  {
    if ops == [] then data else SplicedAll(Spliced(data, ops[0].offset, ops[0].buf), ops[1..])
  }

  // ----- the operations

  datatype WriteResult = Wrote(count: nat) | NotPermitted | NotOpen

  class BlockLayer {
    const maxParallelRead: nat
    const maxParallelWrite: nat
    var kv: Blocks
    var sizes: map<string, nat>

    constructor (maxParallelRead: nat, maxParallelWrite: nat)
      ensures this.maxParallelRead == maxParallelRead && this.maxParallelWrite == maxParallelWrite
      ensures kv == map[] && sizes == map[]
    {
      this.maxParallelRead, this.maxParallelWrite := maxParallelRead, maxParallelWrite;
      kv, sizes := map[], map[];
    }

    /** The parallel limits are positive multiples of the block size. */
    ghost predicate Configured() {
      && maxParallelRead > 0 && maxParallelRead % BLK_SIZE == 0
      && maxParallelWrite > 0 && maxParallelWrite % BLK_SIZE == 0
    }

    /** The open file `path` holds `data`. */
    ghost predicate Holds(path: string, data: Bytes)
      reads this
    {
      path in sizes && sizes[path] == |data| && Stores(kv, path, data)
    }

    /** `put_fixed_size_blocks_from_buffer`. */
    method PutBlocks(buf: Bytes, path: string, currentBlk: int)
      requires currentBlk >= -1
      modifies this`kv
      ensures kv == Written(old(kv), path, currentBlk + 1, buf)
    {
      var blk, readOff := currentBlk, 0;
      while readOff < |buf|
        invariant readOff >= 0 && blk >= -1
        invariant Written(kv, path, blk + 1, if readOff <= |buf| then buf[readOff..] else [])
                  == Written(old(kv), path, currentBlk + 1, buf)
        decreases |buf| - readOff
      {
        var writeSize := if readOff + BLK_SIZE > |buf| then |buf| - readOff else BLK_SIZE;
        blk := blk + 1;
        var data := buf[readOff..readOff + writeSize];
        assert data == buf[readOff..][..writeSize];
        assert buf[readOff..][writeSize..] == buf[readOff + writeSize..];
        kv := kv[BlockPath(path, blk) := data];
        readOff := readOff + BLK_SIZE;
      }
    }

    /** One round of the limited form: returns the number of the last whole block written. */
    method PutChunk(chunk: Bytes, ghost rest: Bytes, path: string, currentBlk: int) returns (blk: int)
      requires currentBlk >= -1 && (|chunk| % BLK_SIZE == 0 || rest == [])
      modifies this`kv
      ensures blk == currentBlk + |chunk| / BLK_SIZE >= -1
      ensures Written(kv, path, blk + 1, rest) == Written(old(kv), path, currentBlk + 1, chunk + rest)
    {
      ChunkStep(kv, path, currentBlk + 1, chunk, rest);
      PutBlocks(chunk, path, currentBlk);
      blk := currentBlk + |chunk| / BLK_SIZE;
      assert blk + 1 == currentBlk + 1 + |chunk| / BLK_SIZE;
    }

    /** `put_fixed_size_blocks_from_buffer_limited_paralelization`. */
    method PutBlocksLimited(buf: Bytes, path: string, currentBlk: int)
      requires Configured() && currentBlk >= -1
      modifies this`kv
      ensures kv == Written(old(kv), path, currentBlk + 1, buf)
    {
      var writeOff, blk := 0, currentBlk;
      while writeOff < |buf|
        invariant 0 <= writeOff <= |buf| && blk >= -1
        invariant Written(kv, path, blk + 1, buf[writeOff..]) == Written(old(kv), path, currentBlk + 1, buf)
      {
        writeOff, blk := PutRound(buf, path, writeOff, blk);
      }
    }

    /** The next chunk of the buffer. */
    method PutRound(buf: Bytes, path: string, writeOff: nat, currentBlk: int) returns (next: nat, blk: int)
      requires Configured() && currentBlk >= -1 && writeOff < |buf|
      modifies this`kv
      ensures writeOff < next <= |buf| && blk >= -1
      ensures Written(kv, path, blk + 1, buf[next..]) == Written(old(kv), path, currentBlk + 1, buf[writeOff..])
    {
      var writeSize := Min(maxParallelWrite, |buf| - writeOff);
      next := writeOff + writeSize;
      var chunk := buf[writeOff..next];
      assert buf[writeOff..] == chunk + buf[next..];
      assert |chunk| == maxParallelWrite || buf[next..] == [];
      blk := PutChunk(chunk, buf[next..], path, currentBlk);
    }

    /** `read_fixed_size_blocks_to_buffer`, for a range that lies within the file. */
    method ReadBlocks(size: nat, path: string, currentBlk: int, ghost data: Bytes) returns (buf: Bytes)
      requires currentBlk >= -1 && Stores(kv, path, data) && (currentBlk + 1) * BLK_SIZE + size <= |data|
      ensures buf == data[(currentBlk + 1) * BLK_SIZE..(currentBlk + 1) * BLK_SIZE + size]
    {
      ghost var start := (currentBlk + 1) * BLK_SIZE;
      var nrBlocks := NrBlocks(size);
      buf := [];
      for i := 0 to nrBlocks
        invariant |buf| == Min(i * BLK_SIZE, size) && buf == data[start..start + |buf|]
      {
        var key := BlockPath(path, currentBlk + 1 + i);
        assert |buf| == i * BLK_SIZE < size;
        NextBlock(data, currentBlk + 1, size, i);
        assert kv[key] == FileBlock(data, currentBlk + 1 + i);
        var piece := Min(|kv[key]|, size - |buf|);
        buf := buf + kv[key][..piece];
      }
    }

    /** `read_fixed_size_blocks_to_buffer_limited_paralelization`. */
    method ReadBlocksLimited(size: nat, path: string, currentBlk: int, ghost data: Bytes) returns (buf: Bytes)
      requires Configured() && currentBlk >= -1
      requires Stores(kv, path, data) && (currentBlk + 1) * BLK_SIZE + size <= |data|
      ensures buf == data[(currentBlk + 1) * BLK_SIZE..(currentBlk + 1) * BLK_SIZE + size]
    {
      ghost var start := (currentBlk + 1) * BLK_SIZE;
      var blk := currentBlk;
      buf := [];
      while |buf| < size
        invariant |buf| <= size && blk >= -1
        invariant |buf| < size ==> (blk + 1) * BLK_SIZE == start + |buf|
        invariant buf == data[start..start + |buf|]
        decreases size - |buf|
      {
        var readSize := Min(maxParallelRead, size - |buf|);
        var chunk := ReadBlocks(readSize, path, blk, data);
        blk := blk + |chunk| / BLK_SIZE;
        buf := buf + chunk;
      }
    }

    /** `_read` at a block-aligned offset. */
    method ReadAligned(path: string, size: nat, offset: nat, ghost data: Bytes) returns (buf: Bytes)
      requires Configured() && Holds(path, data) && offset % BLK_SIZE == 0
      ensures buf == if offset >= |data| then [] else data[offset..Min(offset + size, |data|)]
    {
      var fileSize := sizes[path];
      var currentBlk := offset / BLK_SIZE - 1;
      if offset >= fileSize { return []; }
      var missing := Min(size, fileSize - offset);
      assert (currentBlk + 1) * BLK_SIZE == offset;
      buf := ReadBlocksLimited(missing, path, currentBlk, data);
    }

    /** The rounds of the limited form when only a short last block is there: each round reads it
        again. */
    method ReadLastBlock(size: nat, path: string, blk: nat, ghost data: Bytes) returns (buf: Bytes)
      requires Stores(kv, path, data) && blk * BLK_SIZE < |data| <= (blk + 1) * BLK_SIZE
      ensures buf == Cycled(data[blk * BLK_SIZE..], size)
    {
      StoredLast(kv, path, data, blk);
      buf := Repeat(kv[BlockPath(path, blk)], size);
    }

    /** `_read`, as long as it does not wait for a block that was never written. The first block of
        an unaligned read goes through a buffer, and `memory` is what follows the file's bytes
        there. */
    method Read(path: string, size: nat, offset: nat, memory: Bytes, ghost data: Bytes) returns (buf: Bytes)
      requires Configured() && Holds(path, data) && ReadIsDefined(|data|, offset, size) && Enough(memory)
      ensures offset >= |data| ==> buf == []
      ensures offset < |data| ==> buf == ReadBytes(data, offset, size, memory)
    {
      if offset >= sizes[path] { return []; }
      if offset % BLK_SIZE == 0 {
        buf := ReadAligned(path, size, offset, data);
      } else {
        buf := ReadUnaligned(path, size, offset, memory, data);
      }
    }

    /** The rest of the first block, then whole blocks, which start over at the first one. */
    method ReadUnaligned(path: string, size: nat, offset: nat, memory: Bytes, ghost data: Bytes) returns (buf: Bytes)
      requires Configured() && Holds(path, data) && offset < |data| && offset % BLK_SIZE != 0
      requires ReadIsDefined(|data|, offset, size) && Enough(memory)
      ensures buf == ReadBytes(data, offset, size, memory)
    {
      buf := ReadHead(path, size, offset, memory, data);
      FirstFits(|data|, offset, size);
      var left := sizes[path] - offset - |buf|;
      var missing := if left >= 0 then Min(size - |buf|, left) else size - |buf|;
      var rest := ReadRest(path, missing, offset, data);
      buf := buf + rest;
    }

    method ReadHead(path: string, size: nat, offset: nat, memory: Bytes, ghost data: Bytes) returns (buf: Bytes)
      requires Configured() && Holds(path, data) && offset < |data| && Enough(memory)
      ensures |buf| == FirstSize(|data|, offset, size)
      ensures offset % BLK_SIZE + |buf| <= |Buffer(data, offset, memory)|
      ensures buf == Buffer(data, offset, memory)[offset % BLK_SIZE..offset % BLK_SIZE + |buf|]
    {
      var off := offset % BLK_SIZE;
      var ini := ReadFirstBlock(path, offset, data);
      FirstFits(|data|, offset, size);
      var iniSize := if size <= |ini| then size else Min(BLK_SIZE - off, |ini|);
      buf := (ini + memory)[off..off + iniSize];
    }

    method ReadFirstBlock(path: string, offset: nat, ghost data: Bytes) returns (ini: Bytes)
      requires Configured() && Holds(path, data) && offset < |data|
      ensures |ini| == InBlock(|data|, offset) && ini == data[BlockStart(offset)..BlockStart(offset) + |ini|]
    {
      var start := offset / BLK_SIZE * BLK_SIZE;
      assert start == BlockStart(offset) <= offset && start % BLK_SIZE == 0;
      ini := ReadAligned(path, BLK_SIZE, start, data);
    }

    method ReadRest(path: string, missing: nat, offset: nat, ghost data: Bytes) returns (rest: Bytes)
      requires Configured() && Holds(path, data) && offset < |data|
      requires BlockStart(offset) + missing <= |data| || missing <= BLK_SIZE
      ensures rest == Rest(data, BlockStart(offset), missing)
    {
      var nr := offset / BLK_SIZE;
      assert nr * BLK_SIZE == BlockStart(offset) <= offset;
      if nr * BLK_SIZE + missing <= sizes[path] {
        rest := ReadBlocksLimited(missing, path, nr - 1, data);
      } else {
        rest := ReadLastBlock(missing, path, nr, data);
      }
    }

    /** `_write`: complete the block that holds the offset, then put the rest in chunks. */
    method Write(path: string, buf: Bytes, offset: nat, ghost data: Bytes) returns (r: WriteResult)
      requires Configured() && (path in sizes ==> Holds(path, data))
      modifies this`kv, this`sizes
      ensures r.NotOpen? <==> path !in old(sizes)
      ensures r.NotPermitted? <==> path in old(sizes) && offset % BLK_SIZE != 0 && offset > |data|
      ensures !r.Wrote? ==> kv == old(kv) && sizes == old(sizes)
      ensures r.Wrote? ==> r.count == |buf| && sizes == old(sizes)[path := if |data| > offset + |buf| then |data| else offset + |buf|]
      ensures r.Wrote? ==>
        && (offset % BLK_SIZE != 0 ==> BlockPath(path, offset / BLK_SIZE) in old(kv)
                                       && offset % BLK_SIZE <= |old(kv)[BlockPath(path, offset / BLK_SIZE)]|)
        && kv == WriteKv(old(kv), path, offset, buf)
    {
      if path !in sizes { return NotOpen; }
      var currentSize := sizes[path];
      var nextSize := if currentSize > offset + |buf| then currentSize else offset + |buf|;
      var nr, off := offset / BLK_SIZE, offset % BLK_SIZE;
      var readOff, currentBlk := 0, nr - 1;
      if off != 0 {
        if offset > currentSize { return NotPermitted; }
        readOff := PutHead(path, buf, offset, data);
        currentBlk := currentBlk + 1;
      }
      PutBlocksLimited(buf[readOff..], path, currentBlk);
      sizes := sizes[path := nextSize];
      r := Wrote(|buf|);
    }

    /** The first, partial block of an unaligned write; returns how much of the buffer it took. */
    method PutHead(path: string, buf: Bytes, offset: nat, ghost data: Bytes) returns (taken: nat)
      requires Configured() && Holds(path, data) && offset % BLK_SIZE != 0 && offset <= |data|
      modifies this`kv
      ensures taken <= |buf| && BlockPath(path, offset / BLK_SIZE) in old(kv)
      ensures offset % BLK_SIZE <= |old(kv)[BlockPath(path, offset / BLK_SIZE)]|
      ensures Written(kv, path, offset / BLK_SIZE + 1, buf[taken..]) == WriteKv(old(kv), path, offset, buf)
    {
      var nr, off := offset / BLK_SIZE, offset % BLK_SIZE;
      HeadOfBlock(kv, path, data, offset);
      var putBuf := ReadAligned(path, BLK_SIZE, nr * BLK_SIZE, data);
      taken := if off + |buf| > BLK_SIZE then BLK_SIZE - off else |buf|;
      ghost var whole := kv[BlockPath(path, nr)][..off] + buf;
      var block := putBuf[..off] + buf[..taken];
      assert putBuf[..off] == data[nr * BLK_SIZE..offset];
      assert block == whole[..Min(BLK_SIZE, |whole|)];
      assert buf[taken..] == whole[Min(BLK_SIZE, |whole|)..];
      kv := kv[BlockPath(path, nr) := block];
    }

    /** Any sequence of writes that start within the file and keep the tail leaves the file holding
        the bytes of the corresponding overwrites. */
    method WriteAll(path: string, ops: seq<WriteOp>, ghost data: Bytes)
      requires Configured() && Holds(path, data) && GoodWrites(data, ops)
      modifies this`kv, this`sizes
      ensures Holds(path, SplicedAll(data, ops))
      decreases |ops|
    {
      if ops != [] {
        var op := ops[0];
        WriteRefinesBytesIff(kv, path, data, op.offset, op.buf);
        var r := Write(path, op.buf, op.offset, data);
        WriteAll(path, ops[1..], Spliced(data, op.offset, op.buf));
      }
    }
  }
}
