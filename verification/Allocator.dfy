/** The pool allocator of allocators.h: blocks are cut from chunks, one after the other, and never given back.
    Sizes are words of 64 bits, and their sums wrap around where the source's do. */
module Allocator {
  import opened Bytes
  import opened Powers

  /** What is left of a sum in 64 bits. */
  function Word(n: nat): Word64 {
    n % TWO_TO_64
  }

  function Sum(a: Word64, b: Word64): Word64 {
    Word(a + b)
  }

  lemma SumFits(a: Word64, b: Word64)
    requires a % 8 == 0 && b % 8 == 0 && a + b < TWO_TO_64
    ensures Sum(a, b) == a + b && Sum(a, b) % 8 == 0
  {
  }

  lemma SumSoFar(sum: nat, a: Word64)
    ensures Sum(Word(sum), a) == Word(sum + a)
  {
  }

  lemma SmallWord(n: nat)
    ensures n < TWO_TO_64 ==> Word(n) == n
  {
  }

  /** What the caller of a block of that size may use: up to a multiple of eight. */
  function Align(size: nat): (n: nat)
    ensures size <= n < size + 8 && n % 8 == 0
  {
    (size + 7) / 8 * 8
  }

  lemma AlignedAlready(n: nat)
    requires n % 8 == 0
    ensures Align(n) == n
  {
  }

  /** RAPIDJSON_ALIGN: the same in 64 bits. */
  function Rounded(size: Word64): Word64 {
    Sum(size, 7) / 8 * 8
  }

  /** The rounding is right up to 2^64 - 8; a larger size becomes 0. */
  lemma RoundedExactly(size: Word64)
    ensures Rounded(size) == (if size <= TWO_TO_64 - 8 then Align(size) else 0) && Rounded(size) % 8 == 0
    ensures Rounded(size) == Align(size) <==> size <= TWO_TO_64 - 8
    ensures size > TWO_TO_64 - 8 ==> Align(size) == TWO_TO_64
  {
  }

  /** The test against the capacity is right unless the sum wraps; then it always passes. */
  lemma CapacityTestExactly(size: Word64, n: Word64, capacity: Word64)
    requires size <= capacity
    ensures size + n >= TWO_TO_64 ==> Sum(size, n) < capacity
    ensures (Sum(size, n) <= capacity <==> size + n <= capacity) <==> size + n < TWO_TO_64
  {
  }

  const HEADER: Word64 := 24  // SIZEOF_CHUNK_HEADER

  lemma SumIs(a: Word64, b: Word64)
    ensures Sum(a, b) == Word(a + b) == if a + b >= TWO_TO_64 then a + b - TWO_TO_64 else a + b
  {
  }

  /** A chunk: its memory, of which the first `size` bytes are used. The memory behind the header is as long as
      `capacity` says, unless their sum wrapped; then it is shorter than the header and there is none. */
  class Chunk {
    const buffer: array<Byte>
    const capacity: Word64
    var size: Word64

    constructor (capacity: Word64)
      ensures fresh(buffer) && this.capacity == capacity && size == 0
      ensures buffer.Length == if HEADER + capacity < TWO_TO_64 then capacity else 0
    {
      buffer := new Byte[if HEADER + capacity < TWO_TO_64 then capacity else 0];
      this.capacity, size := capacity, 0;
    }
  }

  /** A block that has been handed out. Its address is chunk and offset. */
  datatype Block = Block(chunk: Chunk, offset: nat, length: nat)

  /** Nothing, or the address of a block. */
  datatype Pointer = Null | Address(chunk: Chunk, offset: nat)

  /** n bytes of memory. */
  ghost function Content(p: Pointer, n: nat): seq<Byte>
    requires p.Address?
    reads p.chunk.buffer
  {
    if p.offset + n <= p.chunk.buffer.Length then p.chunk.buffer[p.offset..p.offset + n] else []
  }

  ghost function BlockContent(b: Block): seq<Byte>
    reads b.chunk.buffer
  {
    Content(Address(b.chunk, b.offset), b.length)
  }

  /** memcpy between memory that does not overlap. */
  method CopyBytes(to: Pointer, from: Pointer, n: nat)
    requires to.Address? && from.Address?
    requires to.offset + n <= to.chunk.buffer.Length && from.offset + n <= from.chunk.buffer.Length
    requires to.chunk.buffer != from.chunk.buffer || from.offset + n <= to.offset || to.offset + n <= from.offset
    modifies to.chunk.buffer
    ensures Content(to, n) == old(Content(from, n))
    ensures forall k :: 0 <= k < to.offset || to.offset + n <= k < to.chunk.buffer.Length
              ==> to.chunk.buffer[k] == old(to.chunk.buffer[k])
  {
    var target, source := to.chunk.buffer, from.chunk.buffer;
    ghost var before := source[from.offset..from.offset + n];
    for j := 0 to n
      invariant target[to.offset..to.offset + j] == before[..j]
      invariant source[from.offset..from.offset + n] == before
      invariant forall k :: 0 <= k < to.offset || to.offset + j <= k < target.Length ==> target[k] == old(target[k])
    {
      target[to.offset + j] := source[from.offset + j];
      assert source[from.offset..from.offset + n][j] == before[j];
    }
  }

  ghost predicate Apart(a: Block, b: Block) {
    a.chunk != b.chunk || a.offset + a.length <= b.offset || b.offset + b.length <= a.offset
  }

  ghost predicate AllApart(blocks: seq<Block>) {
    forall i, j :: 0 <= i < j < |blocks| ==> Apart(blocks[i], blocks[j])
  }

  function BlockBytes(blocks: seq<Block>): nat {
    if blocks == [] then 0 else BlockBytes(blocks[..|blocks| - 1]) + blocks[|blocks| - 1].length
  }

  lemma {:induction false} BlockGrown(blocks: seq<Block>, i: nat, b: Block)
    requires i < |blocks|
    ensures BlockBytes(blocks[i := b]) == BlockBytes(blocks) - blocks[i].length + b.length
  {
    var last := |blocks| - 1;
    var front := blocks[..last];
    if i < last {
      BlockGrown(front, i, b);
      assert blocks[i := b][..last] == front[i := b];
    } else {
      assert blocks[i := b][..last] == front;
    }
  }

  function UsedBytes(chunks: seq<Chunk>): nat
    reads chunks
  {
    if chunks == [] then 0 else chunks[0].size + UsedBytes(chunks[1..])
  }

  lemma UsedWithMore(chunk: Chunk, chunks: seq<Chunk>)
    ensures UsedBytes([chunk] + chunks) == chunk.size + UsedBytes(chunks)
  {
    assert ([chunk] + chunks)[1..] == chunks;
  }

  lemma UsedNext(chunks: seq<Chunk>, i: nat)
    requires i < |chunks|
    ensures UsedBytes(chunks[i..]) == chunks[i].size + UsedBytes(chunks[i + 1..])
  {
    assert chunks[i..][1..] == chunks[i + 1..];
  }

  lemma OneMoreBlock(blocks: seq<Block>, b: Block)
    requires AllApart(blocks) && forall k :: 0 <= k < |blocks| ==> Apart(blocks[k], b)
    ensures AllApart(blocks + [b]) && BlockBytes(blocks + [b]) == BlockBytes(blocks) + b.length
  {
    assert (blocks + [b])[..|blocks|] == blocks;
  }

  function TotalBytes(chunks: seq<Chunk>): nat {
    if chunks == [] then 0 else chunks[0].capacity + TotalBytes(chunks[1..])
  }

  lemma {:induction false} UsedWithinTotal(chunks: seq<Chunk>)
    requires forall i :: 0 <= i < |chunks| ==> chunks[i].size <= chunks[i].capacity
    ensures UsedBytes(chunks) <= TotalBytes(chunks)
  {
    if chunks != [] {
      UsedWithinTotal(chunks[1..]);
    }
  }

  method SumOfSizes(chunks: seq<Chunk>) returns (size: Word64)
    ensures size == Word(UsedBytes(chunks))
  {
    hide Sum, Word, UsedBytes;
    ghost var sum: nat := 0;
    NothingUsed();
    assert chunks[0..] == chunks;
    size := 0;
    for i := 0 to |chunks|
      invariant sum + UsedBytes(chunks[i..]) == UsedBytes(chunks) && size == Word(sum)
    {
      UsedNext(chunks, i);
      SumSoFar(sum, chunks[i].size);
      size, sum := Sum(size, chunks[i].size), sum + chunks[i].size;
    }
    assert chunks[|chunks|..] == [];
  }

  lemma NothingUsed()
    ensures UsedBytes([]) == 0 && Word(0) == 0
  {
  }

  class MemoryPoolAllocator {
    const chunkCapacity: Word64
    var chunks: seq<Chunk>        // the head, which serves allocations, first; the first or user one last
    ghost var blocks: seq<Block>  // those handed out since the last Clear, as long as their users believe

    ghost function Memory(): set<object>
      reads this`chunks
    {
      (set c: Chunk | c in chunks :: c as object) + (set c: Chunk | c in chunks :: c.buffer as object)
    }

    /** The chunks are different ones, with different memory. */
    ghost predicate ChunksValid()
      reads this`chunks, chunks
    {
      && chunks != []
      && (forall i :: 0 <= i < |chunks| ==>
            chunks[i].size <= chunks[i].capacity == chunks[i].buffer.Length && chunks[i].size % 8 == 0)
      && (forall i, j :: 0 <= i < j < |chunks| ==> chunks[i] != chunks[j] && chunks[i].buffer != chunks[j].buffer)
    }

    /** Every block lies in the used part of a chunk, has a multiple of eight bytes and an address that is one. */
    ghost predicate BlocksInside()
      reads this, chunks
    {
      forall b :: b in blocks ==>
        && b.chunk in chunks && b.length > 0 && b.length % 8 == 0 && b.offset % 8 == 0
        && b.offset + b.length <= b.chunk.size
    }

    /** No two blocks overlap. */
    ghost predicate BlocksApart()
      reads this`blocks
    {
      AllApart(blocks)
    }

    /** Every used byte belongs to a block. */
    ghost predicate NothingLost()
      reads this, chunks
    {
      UsedBytes(chunks) == BlockBytes(blocks)
    }

    ghost predicate Valid()
      reads this, chunks
    {
      ChunksValid() && BlocksInside() && BlocksApart() && NothingLost()
    }

    /** What users rely on: their blocks are in memory and share none of it. */
    ghost predicate Sound()
      reads this
    {
      (forall b :: b in blocks ==> b.chunk in chunks && b.offset + b.length <= b.chunk.buffer.Length) && BlocksApart()
    }

    lemma ValidIsSound()
      requires Valid()
      ensures Sound()
    {
      forall b | b in blocks
        ensures b.chunk in chunks && b.offset + b.length <= b.chunk.buffer.Length
      {
        var k :| 0 <= k < |chunks| && chunks[k] == b.chunk;
      }
    }

    /** Size: the bytes of the blocks handed out, modulo 2^64; never more than there are. */
    method Size() returns (size: Word64)
      requires Valid()
      ensures size == Word(BlockBytes(blocks))
      ensures TotalBytes(chunks) < TWO_TO_64 ==> size == BlockBytes(blocks) <= TotalBytes(chunks)
    {
      UsedWithinTotal(chunks);
      SmallWord(BlockBytes(blocks));
      size := SumOfSizes(chunks);
    }

    method Capacity() returns (capacity: Word64)
      ensures capacity == Word(TotalBytes(chunks))
    {
      hide Word, Sum;
      SmallWord(0);
      capacity := 0;
      ghost var sum: nat := 0;
      assert chunks[0..] == chunks;
      for i := 0 to |chunks|
        invariant sum + TotalBytes(chunks[i..]) == TotalBytes(chunks) && capacity == Word(sum)
      {
        assert chunks[i..][1..] == chunks[i + 1..];
        SumSoFar(sum, chunks[i].capacity);
        capacity, sum := Sum(capacity, chunks[i].capacity), sum + chunks[i].capacity;
      }
    }

    /** With an empty chunk, or with the user's buffer as the first chunk. */
    constructor (chunkSize: Word64, firstCapacity: Word64)
      requires HEADER + firstCapacity < TWO_TO_64
      ensures Valid() && fresh(Memory()) && chunkCapacity == chunkSize
      ensures blocks == [] && |chunks| == 1 && chunks[0].capacity == firstCapacity && chunks[0].size == 0
    {
      var first := new Chunk(firstCapacity);
      chunkCapacity, chunks, blocks := chunkSize, [first], [];
    }

    method Clear()
      requires ChunksValid()
      modifies this, Memory()
      ensures Valid() && blocks == [] && Memory() <= old(Memory())
      ensures |chunks| == 1 && chunks[0] == old(chunks[|chunks| - 1]) && chunks[0].size == 0
    {
      ghost var all, k := chunks, 0;
      assert chunks[0..] == chunks;
      while |chunks| > 1
        invariant k < |all| && chunks == all[k..] && ChunksValid()
        decreases |chunks|
      {
        assert all[k..][1..] == all[k + 1..];
        chunks, k := chunks[1..], k + 1;
      }
      assert chunks == [all[|all| - 1]] && chunks[0] in all;
      chunks[0].size := 0;
      blocks := [];
    }

    /** Adds a chunk, unless the base allocator gives no memory, as it never does for zero bytes. */
    method AddChunk(capacity: Word64, memoryLeft: bool) returns (ok: bool)
      modifies this`chunks
      ensures ok <==> memoryLeft && Sum(HEADER, capacity) != 0
      ensures !ok ==> chunks == old(chunks)
      ensures ok ==> chunks != [] && fresh(chunks[0]) && fresh(chunks[0].buffer) && chunks[1..] == old(chunks)
                     && chunks[0].size == 0 && chunks[0].capacity == capacity
                     && chunks[0].buffer.Length == if HEADER + capacity < TWO_TO_64 then capacity else 0
      ensures old(Valid()) && (ok ==> HEADER + capacity < TWO_TO_64) ==> Valid()
      ensures fresh(Memory() - old(Memory()))
    {
      hide AllApart, BlockBytes, UsedBytes;
      if !memoryLeft || Sum(HEADER, capacity) == 0 {
        return false;
      }
      var chunk := new Chunk(capacity);
      UsedWithMore(chunk, chunks);
      chunks := [chunk] + chunks;
      ok := true;
      assert chunks[1..] == old(chunks);
    }

    method GrowHead(n: Word64)
      requires chunks != []
      modifies chunks[0]
      ensures chunks[0].size == Sum(old(chunks[0].size), n)
      ensures old(ChunksValid()) && n % 8 == 0 && old(chunks[0].size) + n <= chunks[0].capacity ==>
                ChunksValid() && UsedBytes(chunks) == old(UsedBytes(chunks)) + n
    {
      hide Sum;
      if ChunksValid() && n % 8 == 0 && chunks[0].size + n <= chunks[0].capacity {
        assert chunks[0] !in chunks[1..];
        SumFits(chunks[0].size, n);
      }
      chunks[0].size := Sum(chunks[0].size, n);
    }

    /** The next n bytes of the head chunk, of which the user believes that they are `length`. */
    method Cut(n: Word64, ghost length: nat) returns (p: Pointer)
      requires chunks != []
      modifies this`blocks, chunks[0]
      ensures p == Address(chunks[0], old(chunks[0].size)) && chunks[0].size == Sum(old(chunks[0].size), n)
      ensures blocks == old(blocks) + [Block(p.chunk, p.offset, length)]
      ensures old(Valid()) && 0 < n == length && n % 8 == 0 && p.offset + n <= p.chunk.capacity ==> Valid()
    {
      hide UsedBytes, BlockBytes, AllApart, Sum, ChunksValid;
      p := Address(chunks[0], chunks[0].size);
      if Valid() && 0 < n == length && n % 8 == 0 && p.offset + n <= p.chunk.capacity {
        HeadIsThere();
        SumFits(chunks[0].size, n);
        assert forall k :: 0 <= k < |blocks| ==> blocks[k] in blocks;
        OneMoreBlock(blocks, Block(p.chunk, p.offset, length));
      }
      GrowHead(n);
      blocks := blocks + [Block(p.chunk, p.offset, length)];
    }

    /** The rounding of the size wraps, or its sum with the used bytes, or its sum with the header of the chunk
        that it needs. */
    predicate Wraps(size: Word64)
      requires chunks != []
      reads this, chunks[0]
    {
      var n, head := Rounded(size), chunks[0];
      size > 0 &&
      (|| size > TWO_TO_64 - 8
       || head.size + n >= TWO_TO_64
       || (head.size + n > head.capacity && HEADER + NewCapacity(n) >= TWO_TO_64))
    }

    /** Enough for what is asked for, and no less than the usual size. */
    function NewCapacity(n: Word64): (c: Word64)
      ensures n <= c && chunkCapacity <= c && (c == n || c == chunkCapacity)
    {
      if chunkCapacity > n then chunkCapacity else n
    }

    /** A new block: from the head chunk, or from a new one. In a valid pool the blocks stay in memory and
        apart if and only if nothing wraps. No byte of memory changes. */
    method Malloc(size: Word64, memoryLeft: bool) returns (p: Pointer)
      requires chunks != []
      modifies this`chunks, this`blocks, chunks[0]
      ensures chunks != [] && fresh(Memory() - old(Memory()))
      ensures size == 0 ==> p == Null
      ensures p.Null? ==> blocks == old(blocks) && chunks == old(chunks) && chunks[0].size == old(chunks[0].size)
      ensures p.Address? ==> blocks == old(blocks) + [Block(p.chunk, p.offset, Align(size))]
      ensures p.Address? ==> p.chunk == chunks[0] && chunks[0].size == Word(p.offset + Rounded(size))
      ensures var head, n := old(chunks[0]), Rounded(size);
              var used := old(head.size);
              && (size > 0 && Sum(used, n) <= head.capacity ==> p == Address(head, used) && chunks == old(chunks))
              && (size > 0 && Sum(used, n) > head.capacity ==>
                    && (p.Address? <==> memoryLeft && Sum(HEADER, NewCapacity(n)) != 0)
                    && (p.Address? ==>
                          && fresh(p.chunk) && fresh(p.chunk.buffer) && p.offset == 0 && chunks[1..] == old(chunks)
                          && p.chunk.capacity == NewCapacity(n)))
      ensures size > 0 && memoryLeft && !old(Wraps(size)) ==> p.Address?
      ensures old(Valid()) && (p.Null? || !old(Wraps(size))) ==> Valid()
      ensures old(Valid()) && p.Address? ==> (Sound() <==> !old(Wraps(size)))
    {
      hide Valid, Sound, Sum, Rounded, Align;
      if size == 0 {
        return Null;
      }
      RoundedExactly(size);
      var n := Rounded(size);
      ghost var wraps := Wraps(size);
      if Valid() {
        HeadInMemory();
        CapacityTestExactly(chunks[0].size, n, chunks[0].capacity);
      }
      SumIs(HEADER, NewCapacity(n));
      SumIs(chunks[0].size, n);
      if Sum(chunks[0].size, n) > chunks[0].capacity {
        var ok := AddChunk(NewCapacity(n), memoryLeft);
        if !ok {
          return Null;
        }
      }
      SumIs(chunks[0].size, n);
      p := Cut(n, Align(size));
      if old(Valid()) {
        if wraps {
          NotInMemory(|blocks| - 1);
        } else {
          ValidIsSound();
        }
      }
    }

    lemma NotInMemory(i: nat)
      requires i < |blocks| && blocks[i].offset + blocks[i].length > blocks[i].chunk.buffer.Length
      ensures !Sound()
    {
      assert blocks[i] in blocks;
    }

    lemma SharedSums()
      ensures Rounded(64) == Align(64) == 64 && Rounded(8) == Align(8) == 8
      ensures Rounded(TWO_TO_64 - 16) == Align(TWO_TO_64 - 16) == TWO_TO_64 - 16
      ensures Sum(0, 64) == 64 && Sum(64, TWO_TO_64 - 16) == 48 && Sum(48, 8) == 56
    {
    }

    /** A pool with 64 bytes, all handed out: the second size is rounded to itself and makes the sum wrap, so
        that the third block is cut from the first. */
    method SharedBytes() returns (a: Pointer, b: Pointer, c: Pointer)
      requires Valid() && blocks == [] && |chunks| == 1
      requires chunks[0].size == 0 && chunks[0].capacity == 64
      modifies this`chunks, this`blocks, chunks[0]
      ensures a.Address? && b.Address? && c == Address(a.chunk, 48) && a.offset == 0
      ensures blocks == [Block(a.chunk, 0, 64), Block(b.chunk, 64, TWO_TO_64 - 16), Block(c.chunk, 48, 8)]
      ensures !Apart(blocks[0], blocks[2])
    {
      hide Valid, Sound, Wraps, NewCapacity, Memory, Rounded, Align, Sum;
      SharedSums();
      a := Malloc(64, true);
      b := Malloc(TWO_TO_64 - 16, true);
      c := Malloc(8, true);
    }

    /** Where the last block of the head chunk grows, no other one is. */
    lemma GrownApart(i: nat, grown: Block)
      requires BlocksApart() && BlocksInside() && i < |blocks| && chunks != []
      requires blocks[i].chunk == chunks[0] == grown.chunk && grown.offset == blocks[i].offset
      requires blocks[i].offset + blocks[i].length == chunks[0].size
      ensures AllApart(blocks[i := grown])
    {
      forall k | 0 <= k < |blocks| && k != i
        ensures Apart(blocks[k], grown) && Apart(grown, blocks[k])
      {
        assert blocks[k] in blocks;
        assert if k < i then Apart(blocks[k], blocks[i]) else Apart(blocks[i], blocks[k]);
      }
    }

    /** Block i, the last one of the head chunk, grows in place. */
    method Extend(increment: Word64, ghost i: nat)
      requires Valid() && increment % 8 == 0 && i < |blocks|
      requires blocks[i].chunk == chunks[0] && blocks[i].offset + blocks[i].length == chunks[0].size
      modifies this`blocks, chunks[0]
      ensures chunks[0].size == Sum(old(chunks[0].size), increment)
      ensures var b := old(blocks[i]); blocks == old(blocks)[i := Block(b.chunk, b.offset, b.length + increment)]
      ensures old(chunks[0].size) + increment <= chunks[0].capacity ==> Valid()
    {
      hide UsedBytes, BlockBytes, AllApart, ChunksValid, Sum;
      HeadIsThere();
      SumIs(chunks[0].size, increment);
      ghost var grown := Block(blocks[i].chunk, blocks[i].offset, blocks[i].length + increment);
      BlockGrown(blocks, i, grown);
      GrownApart(i, grown);
      GrowHead(increment);
      blocks := blocks[i := grown];
    }

    /** The block at `original` ends where the used part of the head chunk ends. */
    predicate LastOfHead(original: Pointer, size: Word64)
      requires chunks != [] && original.Address?
      reads this, chunks[0]
    {
      original.chunk == chunks[0] && original.offset + size == chunks[0].size
    }

    predicate ReallocWraps(original: Pointer, originalSize: Word64, newSize: Word64)
      requires chunks != []
      reads this, chunks[0]
    {
      if original.Null? || newSize == 0 then Wraps(newSize)
      else
        var size, n := Rounded(originalSize), Rounded(newSize);
        || newSize > TWO_TO_64 - 8
        || (&& size < n
            && if LastOfHead(original, size) && Sum(chunks[0].size, n - size) <= chunks[0].capacity
               then chunks[0].size + (n - size) >= TWO_TO_64
               else Wraps(n))
    }

    /** Realloc of block i. The caller may give a smaller size than the block has, never a larger one. The
        blocks stay in memory and apart if and only if nothing wraps. */
    method Realloc(original: Pointer, originalSize: Word64, newSize: Word64, memoryLeft: bool, ghost i: nat)
      returns (p: Pointer)
      requires Valid()
      requires original.Address? ==>
                 && i < |blocks| && blocks[i].chunk == original.chunk && blocks[i].offset == original.offset
                 && Align(originalSize) <= blocks[i].length
      modifies this, Memory()
      ensures p.Null? || !old(ReallocWraps(original, originalSize, newSize)) ==> Valid()
      ensures p.Address? ==> (Sound() <==> !old(ReallocWraps(original, originalSize, newSize)))
      ensures p.Null? ==> blocks == old(blocks)
      ensures original.Address? && p.Address? && Align(originalSize) >= Align(newSize) ==>
                p == original && blocks == old(blocks)
      ensures original.Address? && p == original && Align(originalSize) < Align(newSize) ==>
                blocks == old(blocks)[i := Block(p.chunk, p.offset, Align(newSize))]
      ensures p.Address? && p != original ==>
                blocks == old(blocks) + [Block(p.chunk, p.offset, Align(newSize))]
      ensures original.Address? && p.Address? && !old(ReallocWraps(original, originalSize, newSize)) ==>
                Content(p, Align(originalSize)) == old(Content(original, Align(originalSize)))
      ensures forall b :: b in old(blocks) ==> BlockContent(b) == old(BlockContent(b))
      ensures newSize == 0 ==> p == Null
      ensures newSize > 0 && memoryLeft && !old(ReallocWraps(original, originalSize, newSize)) ==> p.Address?
      ensures fresh(Memory() - old(Memory()))
    {
      hide BlocksInside, BlocksApart, ChunksValid, NothingLost, Memory, Sound, AllApart, Valid, Sum, Align;
      HeadInMemory();
      ValidIsSound();
      if original.Null? {
        p := Malloc(newSize, memoryLeft);
        return;
      }
      BlockInHead(i);
      if newSize == 0 {
        return Null;
      }
      RoundedExactly(originalSize);
      RoundedExactly(newSize);
      var size, n := Rounded(originalSize), Rounded(newSize);
      if size >= n {
        if newSize > TWO_TO_64 - 8 {
          blocks := blocks[i := Block(original.chunk, original.offset, Align(newSize))];
          NotInMemory(i);
        }
        return original;
      }
      if LastOfHead(original, size) {
        var increment := n - size;
        if Sum(chunks[0].size, increment) <= chunks[0].capacity {
          ExtendLast(increment, i);
          return original;
        }
      }
      p := MallocAndMove(original, size, n, memoryLeft, i);
    }

    method ExtendLast(increment: Word64, ghost i: nat)
      requires Valid() && increment % 8 == 0 && i < |blocks| && Sum(chunks[0].size, increment) <= chunks[0].capacity
      requires blocks[i].chunk == chunks[0] && blocks[i].offset + blocks[i].length == chunks[0].size
      modifies this`blocks, chunks[0]
      ensures var b := old(blocks[i]); blocks == old(blocks)[i := Block(b.chunk, b.offset, b.length + increment)]
      ensures old(chunks[0].size) + increment < TWO_TO_64 ==> Valid()
      ensures Sound() <==> old(chunks[0].size) + increment < TWO_TO_64
    {
      hide BlocksInside, BlocksApart, NothingLost, AllApart;
      ghost var used := chunks[0].size;
      CapacityTestExactly(used, increment, chunks[0].capacity);
      Extend(increment, i);
      if used + increment < TWO_TO_64 {
        ValidIsSound();
      } else {
        NotInMemory(i);
      }
    }

    /** A new block of n bytes, to which the `size` bytes of block i are copied. Where the copy would write
        behind the memory of the chunk, which takes a sum that wraps, the model does not write. */
    method MallocAndMove(original: Pointer, size: Word64, n: Word64, memoryLeft: bool, ghost i: nat) returns (p: Pointer)
      requires Valid() && original.Address? && i < |blocks|
      requires blocks[i].chunk == original.chunk && blocks[i].offset == original.offset && size <= blocks[i].length
      requires size < n && n % 8 == 0
      modifies this, Memory()
      ensures p.Null? || !old(Wraps(n)) ==> Valid()
      ensures p.Address? ==> (Sound() <==> !old(Wraps(n)))
      ensures p.Null? ==> blocks == old(blocks)
      ensures p.Address? ==> p != original && blocks == old(blocks) + [Block(p.chunk, p.offset, n)]
      ensures p.Address? && !old(Wraps(n)) ==> Content(p, size) == old(Content(original, size))
      ensures forall b :: b in old(blocks) ==> BlockContent(b) == old(BlockContent(b))
      ensures memoryLeft && !old(Wraps(n)) ==> p.Address?
      ensures fresh(Memory() - old(Memory()))
    {
      hide Valid, Sound, AllApart, Wraps, Sum, NewCapacity, Rounded, Align;
      ghost var before := blocks;
      BelowHead();
      HeadInMemory();
      AlignedAlready(n);
      p := Malloc(n, memoryLeft);
      if p.Address? && Valid() {
        BlockInHead(|before|);
      }
      if p.Address? && p.offset + size <= p.chunk.buffer.Length {
        Move(p, original, size, before, i);
      }
    }

    /** The bytes of one block go where no block is. */
    method Move(p: Pointer, original: Pointer, size: nat, ghost others: seq<Block>, ghost i: nat)
      requires p.Address? && original.Address? && i < |others| && p.offset + size <= p.chunk.buffer.Length
      requires others[i].chunk == original.chunk && others[i].offset == original.offset && size <= others[i].length
      requires forall b :: b in others ==>
                 && b.offset + b.length <= b.chunk.buffer.Length
                 && (b.chunk.buffer != p.chunk.buffer || b.offset + b.length <= p.offset)
      modifies p.chunk.buffer
      ensures Content(p, size) == old(Content(original, size))
      ensures forall b :: b in others ==> BlockContent(b) == old(BlockContent(b))
    {
      assert others[i] in others;
      CopyBytes(p, original, size);
      forall b | b in others
        ensures BlockContent(b) == old(BlockContent(b))
      {
        if b.chunk.buffer == p.chunk.buffer {
          assert forall j :: b.offset <= j < b.offset + b.length ==> b.chunk.buffer[j] == old(b.chunk.buffer[j]);
        }
      }
    }

    /** Every block is in memory, and one in the head chunk below what is free. */
    lemma BelowHead()
      requires Valid()
      ensures forall b :: b in blocks ==>
                && b.chunk in chunks && b.offset + b.length <= b.chunk.buffer.Length && b.length > 0
                && (b.chunk.buffer != chunks[0].buffer || (b.chunk == chunks[0] && b.offset + b.length <= chunks[0].size))
    {
      forall b | b in blocks
        ensures b.offset + b.length <= b.chunk.buffer.Length
        ensures b.chunk.buffer != chunks[0].buffer || b.chunk == chunks[0]
      {
        var k :| 0 <= k < |chunks| && chunks[k] == b.chunk;
      }
    }

    /** Different blocks share no byte of memory. */
    lemma MemoryApart(i: nat, j: nat)
      requires Valid() && i < j < |blocks|
      ensures var a, b := blocks[i], blocks[j];
              && a.offset + a.length <= a.chunk.buffer.Length && b.offset + b.length <= b.chunk.buffer.Length
              && (a.chunk != b.chunk || a.offset != b.offset)
              && (a.chunk.buffer != b.chunk.buffer || a.offset + a.length <= b.offset || b.offset + b.length <= a.offset)
    {
      var a, b := blocks[i], blocks[j];
      assert a in blocks && b in blocks && Apart(a, b);
      var m :| 0 <= m < |chunks| && chunks[m] == a.chunk;
      var n :| 0 <= n < |chunks| && chunks[n] == b.chunk;
    }

    lemma HeadInMemory()
      requires Valid()
      ensures chunks != [] && chunks[0] in Memory() && chunks[0].buffer in Memory()
      ensures chunks[0].size <= chunks[0].capacity == chunks[0].buffer.Length
    {
    }

    lemma HeadIsThere()
      requires ChunksValid()
      ensures chunks != [] && chunks[0].size % 8 == 0 && chunks[0].size <= chunks[0].capacity
    {
    }

    lemma BlockInHead(i: nat)
      requires Valid() && i < |blocks|
      ensures blocks[i].chunk == chunks[0] ==> blocks[i].offset + blocks[i].length <= chunks[0].size
      ensures blocks[i].offset + blocks[i].length <= blocks[i].chunk.buffer.Length < TWO_TO_64
      ensures blocks[i].chunk.buffer in Memory()
    {
      assert blocks[i] in blocks;
      var k :| 0 <= k < |chunks| && chunks[k] == blocks[i].chunk;
    }
  }
}
