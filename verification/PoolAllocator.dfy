/** allocators.h: `MemoryPoolAllocator` over its linked list of chunk headers. */
module PoolAllocator {
  import opened Bytes
  import opened Allocators

  class ChunkHeader {
    const address: nat
    const capacity: Size
    var size: Size
    var next: ChunkHeader?

    constructor (address: nat, capacity: Size, next: ChunkHeader?)
      ensures this.address == address && this.capacity == capacity && size == 0 && this.next == next
    {
      this.address, this.capacity, size, this.next := address, capacity, 0, next;
    }

    function Contents(): Chunk
      reads this
    {
      Chunk(address, capacity, size)
    }
  }

  class MemoryPoolAllocator {
    var chunkHead: ChunkHeader?
    const chunkCapacity: Size
    const userBuffer: ChunkHeader?
    var memory: map<nat, Byte>

    /** The list, from the oldest chunk to the head, and the pool it stands for. */
    ghost var nodes: seq<ChunkHeader>
    ghost var pool: Pool

    ghost predicate Valid()
      reads this, nodes
    {
      && |nodes| == |pool.chunks| && memory == pool.memory
      && (forall i | 0 <= i < |nodes| :: pool.chunks[i] == nodes[i].Contents())
      && (forall i | 0 < i < |nodes| :: nodes[i].next == nodes[i - 1])
      && (forall i, j | 0 <= i < j < |nodes| :: nodes[i] != nodes[j])
      && (nodes == [] ==> chunkHead == null)
      && (nodes != [] ==> chunkHead == nodes[|nodes| - 1] && nodes[0].next == null)
      && (userBuffer != null ==> nodes != [] && nodes[0] == userBuffer)
    }

    constructor (chunkSize: Size)
      ensures Valid() && nodes == [] && pool == Pool([], map[], map[])
      ensures chunkCapacity == chunkSize && userBuffer == null
    {
      chunkHead, userBuffer, chunkCapacity, memory := null, null, chunkSize, map[];
      nodes, pool := [], Pool([], map[], map[]);
    }

    /** With the user's buffer as the first chunk, its header included. */
    constructor WithBuffer(buffer: nat, size: Size, chunkSize: Size)
      requires size > HEADER
      ensures Valid() && fresh(nodes) && pool == Pool([Chunk(buffer, size - HEADER, 0)], map[], map[])
      ensures chunkCapacity == chunkSize && userBuffer != null
      ensures 0 < buffer && buffer % 8 == 0 && buffer + size <= LIMIT ==> Sound(pool)
    {
      var chunk := new ChunkHeader(buffer, size - HEADER, null);
      chunkHead, userBuffer, chunkCapacity, memory := chunk, chunk, chunkSize, map[];
      nodes, pool := [chunk], Pool([Chunk(buffer, size - HEADER, 0)], map[], map[]);
    }

    method AddChunk(capacity: Size, base: Option<nat>) returns (ok: bool)
      requires Valid()
      modifies this
      ensures Valid() && ok == base.Some?
      ensures ok ==> pool == Grow(old(pool), base.value, capacity) && chunkHead != null && fresh(chunkHead)
      ensures ok ==> nodes == old(nodes) + [chunkHead]
      ensures !ok ==> pool == old(pool) && nodes == old(nodes)
    {
      if base.None? {
        return false;
      }
      var chunk := new ChunkHeader(base.value, capacity, chunkHead);
      nodes := nodes + [chunk];
      pool := Grow(pool, base.value, capacity);
      chunkHead := chunk;
      ok := true;
    }

    /** A block from the head chunk, which has room for it. */
    method CutHead(size: Size, aligned: Size) returns (buffer: nat)
      requires Valid() && chunkHead != null && aligned == Align(size)
      modifies this`pool, chunkHead
      ensures Valid() && old(pool).chunks != [] && pool == Cut(old(pool), size) && buffer == Head(old(pool)).Top()
    {
      hide Align, Wrap;
      buffer := chunkHead.address + HEADER + chunkHead.size;
      chunkHead.size := Wrap(chunkHead.size + aligned);
      pool := Cut(pool, size);
    }

    /** `Malloc`; 0 is the null pointer, and `base` the base allocator's answer. */
    method Malloc(size: Size, base: Option<nat>) returns (buffer: nat)
      requires Valid()
      modifies this, nodes
      ensures Valid() && Answer(pool, buffer) == Allocators.Malloc(old(pool), chunkCapacity, size, base)
      ensures forall n <- nodes :: n in old(nodes) || fresh(n)
    {
      hide Align, Wrap, Cut;
      if size == 0 {
        return 0;
      }
      var aligned := Align(size);
      if chunkHead == null || Wrap(chunkHead.size + aligned) > chunkHead.capacity {
        var ok := AddChunk(if chunkCapacity > aligned then chunkCapacity else aligned, base);
        if !ok {
          return 0;
        }
      }
      buffer := CutHead(size, aligned);
    }

    /** `Realloc` of a block its caller holds. */
    method Realloc(original: nat, originalSize: Size, newSize: Size, base: Option<nat>) returns (buffer: nat)
      requires Valid() && Sound(pool) && Holds(pool, original, originalSize)
      modifies this, nodes
      ensures Valid()
      ensures Answer(pool, buffer)
           == Allocators.Realloc(old(pool), chunkCapacity, original, originalSize, newSize, base)
      ensures forall n <- nodes :: n in old(nodes) || fresh(n)
    {
      hide Align, Wrap, Allocators.Malloc, Sound, Copy;
      if original == 0 {
        buffer := Malloc(newSize, base);
        return;
      }
      if newSize == 0 {
        return 0;
      }
      var oldAligned, newAligned := Align(originalSize), Align(newSize);
      // A block that has room already stays as it is.
      if oldAligned >= newAligned {
        pool := Relabel(pool, original, newSize);
        return original;
      }
      HeldInAChunk(pool, original);
      if original == chunkHead.address + HEADER + chunkHead.size - oldAligned {
        var increment: Size := newAligned - oldAligned;
        if Wrap(chunkHead.size + increment) <= chunkHead.capacity {
          chunkHead.size := Wrap(chunkHead.size + increment);
          pool := ResizeInPlace(pool, original, originalSize, newSize);
          return original;
        }
      }
      ghost var before := pool;
      buffer := Malloc(newAligned, base);
      if buffer != 0 {
        CopyBytes(buffer, original, oldAligned);
        pool := Relabel(pool, buffer, newSize).(memory := memory);
        pool := pool.(blocks := pool.blocks - {original});
      }
    }

    /** `memcpy`. */
    method CopyBytes(to: nat, from: nat, n: nat)
      modifies `memory
      ensures memory == Copy(old(memory), to, from, n)
    {
      var i := 0;
      while i < n
        invariant 0 <= i <= n && memory == Copy(old(memory), to, from, i)
      {
        memory := memory[to + i := ByteAt(memory, from + i)];
        i := i + 1;
      }
    }

    /** `Clear`: chunks are given back up to the user's buffer. */
    method Clear()
      requires Valid()
      modifies this, nodes
      ensures Valid() && pool == Allocators.Clear(old(pool), userBuffer != null)
      ensures userBuffer == null ==> pool.chunks == []
      ensures userBuffer != null ==> old(pool).chunks != [] && pool.chunks == [old(pool).chunks[0].(size := 0)]
    {
      while chunkHead != null && chunkHead != userBuffer
        invariant Valid() && nodes <= old(nodes) && memory == old(memory)
        invariant forall i | 0 <= i < |nodes| :: pool.chunks[i] == old(pool).chunks[i]
        invariant forall n <- nodes :: n.size == old(n.size)
        decreases |nodes|
      {
        var next := chunkHead.next;
        nodes := nodes[..|nodes| - 1];
        pool := pool.(chunks := pool.chunks[..|nodes|]);
        chunkHead := next;
      }
      if chunkHead != null && chunkHead == userBuffer {
        chunkHead.size := 0;
        assert |nodes| == 1;
        pool := Pool([pool.chunks[0].(size := 0)], map[], memory);
      } else {
        pool := Pool([], map[], memory);
      }
    }

    /** `Size`: in a sound pool the sum does not wrap, and is at most the capacity. */
    method Size() returns (size: Allocators.Size)
      requires Valid() && Sound(pool)
      ensures size == TotalSize(pool.chunks) <= TotalCapacity(pool.chunks)
    {
      hide Sound, TotalSize, TotalCapacity, Wrap;
      SizeWithinCapacity(pool);
      size := 0;
      var c := chunkHead;
      ghost var i := |nodes|;
      assert pool.chunks[..i] == pool.chunks;
      while c != null
        invariant 0 <= i <= |nodes| && c == (if i == 0 then null else nodes[i - 1])
        invariant size + TotalSize(pool.chunks[..i]) == TotalSize(pool.chunks)
        decreases i
      {
        TotalSizeOf(pool.chunks, i - 1);
        WrapSmall(size + c.size);
        size := Wrap(size + c.size);
        c := c.next;
        i := i - 1;
      }
      TotalsOfNone(pool.chunks[..0]);
    }

    method Capacity() returns (capacity: Allocators.Size)
      requires Valid() && Sound(pool)
      ensures capacity == TotalCapacity(pool.chunks)
    {
      hide Sound, TotalSize, TotalCapacity, Wrap;
      SizeWithinCapacity(pool);
      capacity := 0;
      var c := chunkHead;
      ghost var i := |nodes|;
      assert pool.chunks[..i] == pool.chunks;
      while c != null
        invariant 0 <= i <= |nodes| && c == (if i == 0 then null else nodes[i - 1])
        invariant capacity + TotalCapacity(pool.chunks[..i]) == TotalCapacity(pool.chunks)
        decreases i
      {
        TotalCapacityOf(pool.chunks, i - 1);
        WrapSmall(capacity + c.capacity);
        capacity := Wrap(capacity + c.capacity);
        c := c.next;
        i := i - 1;
      }
      TotalsOfNone(pool.chunks[..0]);
    }
  }

  lemma TotalSizeOf(chunks: seq<Chunk>, i: nat)
    requires i < |chunks|
    ensures TotalSize(chunks[..i + 1]) == TotalSize(chunks[..i]) + chunks[i].size
  {
    assert chunks[..i + 1][..i] == chunks[..i];
  }

  lemma TotalCapacityOf(chunks: seq<Chunk>, i: nat)
    requires i < |chunks|
    ensures TotalCapacity(chunks[..i + 1]) == TotalCapacity(chunks[..i]) + chunks[i].capacity
  {
    assert chunks[..i + 1][..i] == chunks[..i];
  }

  lemma TotalsOfNone(chunks: seq<Chunk>)
    requires chunks == []
    ensures TotalSize(chunks) == TotalCapacity(chunks) == 0
  {
  }

  /** A held block lies in a chunk, so there is a head. */
  lemma HeldInAChunk(p: Pool, original: nat)
    requires Sound(p) && original in p.blocks
    ensures p.chunks != []
  {
  }
}
