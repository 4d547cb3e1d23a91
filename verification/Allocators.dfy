/**
 allocators.h: the pool allocator, over one flat 64-bit address space.  Blocks are cut from the
 head of a linked list of chunks, each of which starts with a 24-byte header.
 */
module Allocators {
  import opened Bytes
  import opened Bits

  const LIMIT: nat := 0x1_0000_0000_0000_0000

  /** `size_t`. */
  type Size = n: nat | n < 0x1_0000_0000_0000_0000

  function Wrap(n: nat): Size {
    n % LIMIT
  }

  /** `sizeof(ChunkHeader)`, already a multiple of eight. */
  const HEADER: nat := 24

  /** `RAPIDJSON_ALIGN`. */
  function Align(x: Size): Size {
    var sum := Wrap(x + 7);
    AndNotSeven(sum);
    BitAnd(sum, LIMIT - 8)
  }

  lemma AndNotSeven(a: Size)
    ensures BitAnd(a, LIMIT - 8) == a / 8 * 8 <= a
  {
    hide BitAnd, Pow;
    Pow61();
    AndMask(a / 8, 61);
    AndOfEights(a, LIMIT / 8 - 1);
  }

  lemma AndOfEights(a: nat, b: nat)
    ensures BitAnd(a, 8 * b) == 8 * BitAnd(a / 8, b)
  {
    hide BitAnd;
    AndOfEven(a, 4 * b);
    AndOfEven(a / 2, 2 * b);
    AndOfEven(a / 4, b);
    assert a / 2 / 2 == a / 4 && a / 4 / 2 == a / 8;
  }

  lemma Pow61()
    ensures Pow(2, 61) == LIMIT / 8
  {
    PowersOfTwo();
    PowSum(2, 3, 61);
    assert Pow(2, 3) == 8;
  }

  lemma AndOfEven(a: nat, b: nat)
    ensures BitAnd(a, 2 * b) == 2 * BitAnd(a / 2, b)
  {
  }

  /** Rounding up to a multiple of eight, exactly for the sizes that leave room for it. */
  lemma AlignRoundsUp(x: Size)
    ensures Align(x) % 8 == 0 && Align(Align(x)) == Align(x)
    ensures x <= Align(x) <==> x <= LIMIT - 8
    ensures x <= LIMIT - 8 ==> Align(x) < x + 8
    ensures x > LIMIT - 8 ==> Align(x) == 0
    ensures x > 0 && x <= LIMIT - 8 ==> Align(x) > 0
  {
    AlignValue(x);
    AlignValue(Align(x));
    hide Align;
    if x <= LIMIT - 8 {
      assert Align(x) == (x + 7) / 8 * 8;
    } else {
      assert Align(x) == (x + 7 - LIMIT) / 8 * 8;
    }
  }

  lemma AlignValue(x: Size)
    ensures Align(x) == (if x + 7 < LIMIT then x + 7 else x + 7 - LIMIT) / 8 * 8
  {
    hide BitAnd;
    AndNotSeven(Wrap(x + 7));
  }

  /** The test for room in a chunk is exact just when the sum does not wrap around. */
  lemma RoomTestIsExact(used: Size, size: Size, capacity: Size)
    requires used <= capacity
    ensures (Wrap(used + size) > capacity <==> used + size > capacity) <==> used + size < LIMIT
  {
  }

  // ---------------------------------------------------------------------------------------
  // The pool as a value
  // ---------------------------------------------------------------------------------------

  /** A chunk: its header at `address`, and `capacity` bytes after it, the first `size` in use. */
  datatype Chunk = Chunk(address: nat, capacity: Size, size: Size) {
    function Payload(): nat {
      address + HEADER
    }

    function Top(): nat {
      address + HEADER + size
    }

    function End(): nat {
      address + HEADER + capacity
    }
  }

  /** A live block: the size its holder asked for, and the chunk it lies in. */
  datatype Block = Block(size: Size, home: nat)

  /** The chunks from the oldest to the head of the list, the live blocks by address, and the bytes. */
  datatype Pool = Pool(chunks: seq<Chunk>, blocks: map<nat, Block>, memory: map<nat, Byte>)

  predicate ChunkSound(c: Chunk) {
    0 < c.address && c.address % 8 == 0 && c.End() <= LIMIT && c.size <= c.capacity && c.size % 8 == 0
  }

  predicate Apart(c: Chunk, d: Chunk) {
    c.End() <= d.address || d.End() <= c.address
  }

  predicate ChunksSound(chunks: seq<Chunk>) {
    && (forall i | 0 <= i < |chunks| :: ChunkSound(chunks[i]))
    && (forall i, j | 0 <= i < j < |chunks| :: Apart(chunks[i], chunks[j]))
  }

  predicate Placed(chunks: seq<Chunk>, p: nat, b: Block) {
    && b.home < |chunks| && p % 8 == 0 && 0 < b.size <= LIMIT - 8
    && chunks[b.home].Payload() <= p && p + Align(b.size) <= chunks[b.home].Top()
  }

  ghost predicate BlocksSound(chunks: seq<Chunk>, blocks: map<nat, Block>) {
    && (forall p | p in blocks :: Placed(chunks, p, blocks[p]))
    && (forall p, q | p in blocks && q in blocks && p < q :: p + Align(blocks[p].size) <= q)
  }

  /** Live blocks are 8-aligned, inside the used part of their chunk, and pairwise disjoint. */
  ghost predicate Sound(p: Pool) {
    ChunksSound(p.chunks) && BlocksSound(p.chunks, p.blocks)
  }

  function Head(p: Pool): Chunk
    requires p.chunks != []
  {
    p.chunks[|p.chunks| - 1]
  }

  /** Whether the head chunk has no room for an aligned size. */
  predicate NeedsChunk(p: Pool, aligned: Size) {
    p.chunks == [] || Wrap(Head(p).size + aligned) > Head(p).capacity
  }

  function NewCapacity(least: Size, aligned: Size): Size {
    if least > aligned then least else aligned
  }

  /** `AddChunk`, with the memory at `address`. */
  function Grow(p: Pool, address: nat, capacity: Size): Pool {
    p.(chunks := p.chunks + [Chunk(address, capacity, 0)])
  }

  /** The block cut from the head chunk. */
  function Cut(p: Pool, size: Size): Pool
    requires p.chunks != []
  {
    var n := |p.chunks| - 1;
    p.(chunks := p.chunks[n := Head(p).(size := Wrap(Head(p).size + Align(size)))],
       blocks := p.blocks[Head(p).Top() := Block(size, n)])
  }

  datatype Answer = Answer(pool: Pool, buffer: nat)

  /**
   `Malloc`: `least` is the smallest capacity of a chunk, `base` what the base allocator answers
   when asked for one, and 0 the null pointer.
   */
  function Malloc(p: Pool, least: Size, size: Size, base: Option<nat>): Answer {
    if size == 0 then Answer(p, 0)
    else if NeedsChunk(p, Align(size)) then
      match base
      case None => Answer(p, 0)
      case Some(address) =>
        var grown := Grow(p, address, NewCapacity(least, Align(size)));
        Answer(Cut(grown, size), Head(grown).Top())
    else Answer(Cut(p, size), Head(p).Top())
  }

  function ByteAt(memory: map<nat, Byte>, p: nat): Byte {
    if p in memory then memory[p] else 0
  }

  function Copy(memory: map<nat, Byte>, to: nat, from: nat, n: nat): map<nat, Byte> {
    if n == 0 then memory
    else Copy(memory, to, from, n - 1)[to + n - 1 := ByteAt(Copy(memory, to, from, n - 1), from + n - 1)]
  }

  /** The block grows in place when it is the last of the head chunk and there is room. */
  predicate GrowsInPlace(p: Pool, original: nat, oldSize: Size, newSize: Size) {
    && p.chunks != [] && original + oldSize == Head(p).Top() && oldSize <= newSize
    && Wrap(Head(p).size + (newSize - oldSize)) <= Head(p).capacity
  }

  /** The used part of the head chunk grows. */
  function Extend(p: Pool, increment: Size): Pool
    requires p.chunks != []
  {
    p.(chunks := p.chunks[|p.chunks| - 1 := Head(p).(size := Wrap(Head(p).size + increment))])
  }

  /** The holder of a block now holds `size` bytes there. */
  function Relabel(p: Pool, original: nat, size: Size): Pool {
    if original in p.blocks then p.(blocks := p.blocks[original := p.blocks[original].(size := size)]) else p
  }

  function ResizeInPlace(p: Pool, original: nat, originalSize: Size, newSize: Size): Pool
    requires p.chunks != [] && Align(originalSize) <= Align(newSize)
  {
    Relabel(Extend(p, Align(newSize) - Align(originalSize)), original, newSize)
  }

  /** `Realloc` of a live block, or of the null pointer. */
  function Realloc(p: Pool, least: Size, original: nat, originalSize: Size, newSize: Size, base: Option<nat>): Answer {
    if original == 0 then Malloc(p, least, newSize, base)
    else if newSize == 0 then Answer(p, 0)
    else if Align(originalSize) >= Align(newSize) then Answer(Relabel(p, original, newSize), original)
    else if GrowsInPlace(p, original, Align(originalSize), Align(newSize)) then
      Answer(ResizeInPlace(p, original, originalSize, newSize), original)
    else
      var moved := Malloc(p, least, Align(newSize), base);
      if moved.buffer == 0 then moved
      else
        var to := Relabel(moved.pool, moved.buffer, newSize);
        Answer(to.(blocks := to.blocks - {original},
                   memory := Copy(to.memory, moved.buffer, original, Align(originalSize))),
               moved.buffer)
  }

  // ---------------------------------------------------------------------------------------
  // The pool stays sound
  // ---------------------------------------------------------------------------------------

  /** The base allocator's promise: aligned memory inside the address space, apart from the chunks. */
  predicate Granted(p: Pool, address: nat, asked: Size) {
    && 0 < address && address % 8 == 0 && address + asked <= LIMIT
    && forall i | 0 <= i < |p.chunks| :: p.chunks[i].End() <= address || address + asked <= p.chunks[i].address
  }

  lemma GrowSound(p: Pool, address: nat, capacity: Size)
    requires Sound(p) && Granted(p, address, Wrap(HEADER + capacity))
    ensures Sound(Grow(p, address, capacity)) <==> HEADER + capacity < LIMIT
    ensures BlocksSound(Grow(p, address, capacity).chunks, p.blocks)
  {
    hide Align;
    var q := Grow(p, address, capacity);
    var n := |p.chunks|;
    assert forall i | 0 <= i < n :: q.chunks[i] == p.chunks[i];
    if HEADER + capacity >= LIMIT {
      assert !ChunkSound(q.chunks[n]);
    }
  }

  /** Where the live blocks lie about the top of the head chunk. */
  lemma AboutTheTop(p: Pool, a: nat)
    requires Sound(p) && p.chunks != [] && a in p.blocks
    ensures a < Head(p).Top() ==> a + Align(p.blocks[a].size) <= Head(p).Top()
    ensures a >= Head(p).Top() ==> Head(p).End() <= a
    ensures a != Head(p).Top()
    ensures Align(p.blocks[a].size) > 0
  {
    var n := |p.chunks| - 1;
    AlignRoundsUp(p.blocks[a].size);
    hide Align;
    assert Placed(p.chunks, a, p.blocks[a]) && ChunkSound(p.chunks[p.blocks[a].home]) && ChunkSound(p.chunks[n]);
    if p.blocks[a].home != n {
      assert Apart(p.chunks[p.blocks[a].home], p.chunks[n]);
    }
  }

  lemma CutSound(p: Pool, size: Size)
    requires Sound(p) && p.chunks != [] && 0 < size <= LIMIT - 8 && Head(p).size + Align(size) <= Head(p).capacity
    ensures Sound(Cut(p, size)) && Head(p).Top() !in p.blocks
  {
    AlignRoundsUp(size);
    hide Align, ChunksSound;
    var n := |p.chunks| - 1;
    assert ChunkSound(p.chunks[n]) by {
      HeadIsSound(p);
    }
    ChunkResized(p.chunks, n, Head(p).size + Align(size));
    CutBlocks(p, size);
  }

  lemma CutBlocks(p: Pool, size: Size)
    requires Sound(p) && p.chunks != [] && 0 < size <= LIMIT - 8 && Head(p).size + Align(size) <= Head(p).capacity
    ensures BlocksSound(Cut(p, size).chunks, Cut(p, size).blocks) && Head(p).Top() !in p.blocks
  {
    hide Align, Sound, Placed, BlocksSound;
    var q, top := Cut(p, size), Head(p).Top();
    CutPlaced(p, size);
    forall a | a in p.blocks
      ensures a != top && Placed(q.chunks, a, p.blocks[a])
      ensures if a < top then a + Align(p.blocks[a].size) <= top else top + Align(size) <= a
    {
      CutSpares(p, size, a);
      CutIsApart(p, size, a);
    }
    forall a, b | a in p.blocks && b in p.blocks && a < b
      ensures a + Align(p.blocks[a].size) <= b
    {
      DisjointOf(p, a, b);
    }
    BlockAdded(q.chunks, p.blocks, top, Block(size, |p.chunks| - 1));
  }

  /** The block cut lies in the used part of the head chunk. */
  lemma CutPlaced(p: Pool, size: Size)
    requires Sound(p) && p.chunks != [] && 0 < size <= LIMIT - 8 && Head(p).size + Align(size) <= Head(p).capacity
    ensures Placed(Cut(p, size).chunks, Head(p).Top(), Block(size, |p.chunks| - 1))
  {
    HeadIsSound(p);
    hide Align, Sound;
  }

  /** The other blocks stay where they are. */
  lemma CutSpares(p: Pool, size: Size, a: nat)
    requires Sound(p) && p.chunks != [] && a in p.blocks && Head(p).size + Align(size) <= Head(p).capacity
    ensures Placed(Cut(p, size).chunks, a, p.blocks[a])
  {
    hide *;
    PlacedOf(p, a);
    CutChunks(p, size);
    PlacedInLonger(p.chunks, |p.chunks| - 1, Head(p).size + Align(size), a, p.blocks[a]);
  }

  lemma CutChunks(p: Pool, size: Size)
    requires p.chunks != [] && Head(p).size + Align(size) <= Head(p).capacity
    ensures Cut(p, size).chunks == p.chunks[|p.chunks| - 1 := Head(p).(size := Head(p).size + Align(size))]
    ensures Head(p) == p.chunks[|p.chunks| - 1]
  {
    hide Align;
  }

  /** They are apart from the new one. */
  lemma CutIsApart(p: Pool, size: Size, a: nat)
    requires Sound(p) && p.chunks != [] && a in p.blocks && Head(p).size + Align(size) <= Head(p).capacity
    ensures a != Head(p).Top()
    ensures if a < Head(p).Top() then a + Align(p.blocks[a].size) <= Head(p).Top() else Head(p).Top() + Align(size) <= a
  {
    hide Align, Sound;
    AboutTheTop(p, a);
  }

  lemma BlockAdded(chunks: seq<Chunk>, blocks: map<nat, Block>, top: nat, block: Block)
    requires forall a | a in blocks :: Placed(chunks, a, blocks[a])
    requires Placed(chunks, top, block) && top !in blocks
    requires forall a, b | a in blocks && b in blocks && a < b :: a + Align(blocks[a].size) <= b
    requires forall a | a in blocks ::
               if a < top then a + Align(blocks[a].size) <= top else top + Align(block.size) <= a
    ensures BlocksSound(chunks, blocks[top := block])
  {
    hide Align, Placed;
  }

  lemma PlacedOf(p: Pool, a: nat)
    requires Sound(p) && a in p.blocks
    ensures Placed(p.chunks, a, p.blocks[a])
  {
  }

  lemma DisjointOf(p: Pool, a: nat, b: nat)
    requires Sound(p) && a in p.blocks && b in p.blocks && a < b
    ensures a + Align(p.blocks[a].size) <= b
  {
  }

  lemma ChunkResized(chunks: seq<Chunk>, n: nat, size: Size)
    requires ChunksSound(chunks) && n < |chunks| && size <= chunks[n].capacity && size % 8 == 0
    ensures ChunksSound(chunks[n := chunks[n].(size := size)])
  {
  }

  /** A block that wraps around is not where it was said to be. */
  lemma CutUnsound(p: Pool, size: Size)
    requires p.chunks != [] && Head(p).size <= Head(p).capacity
    requires size > LIMIT - 8 || Head(p).size + Align(size) >= LIMIT
    ensures !Sound(Cut(p, size)) && Broken(Cut(p, size), Head(p).Top())
  {
  }

  /** No sum on the way of a request for `size` bytes passes 2^64. */
  predicate NoWrap(p: Pool, least: Size, size: Size) {
    && size <= LIMIT - 8
    && (p.chunks != [] ==> Head(p).size + Align(size) < LIMIT)
    && (NeedsChunk(p, Align(size)) ==> HEADER + NewCapacity(least, Align(size)) < LIMIT)
  }

  predicate BaseKeepsPromise(p: Pool, least: Size, size: Size, base: Option<nat>) {
    base.Some? ==> Granted(p, base.value, Wrap(HEADER + NewCapacity(least, Align(size))))
  }

  /** What shows that a request wrapped around. */
  predicate Broken(p: Pool, buffer: nat) {
    !ChunksSound(p.chunks) || (buffer in p.blocks && !Placed(p.chunks, buffer, p.blocks[buffer]))
  }

  /** `Malloc` leaves the pool sound, its new block included, exactly when no sum wraps around. */
  lemma MallocSound(p: Pool, least: Size, size: Size, base: Option<nat>)
    requires Sound(p) && BaseKeepsPromise(p, least, size, base)
    ensures Malloc(p, least, size, base).buffer == 0 <==> size == 0 || (NeedsChunk(p, Align(size)) && base.None?)
    ensures Malloc(p, least, size, base).buffer == 0 ==> Malloc(p, least, size, base).pool == p
    ensures Malloc(p, least, size, base).buffer != 0 ==>
              (Sound(Malloc(p, least, size, base).pool) <==> NoWrap(p, least, size))
    ensures Malloc(p, least, size, base).buffer != 0 && !NoWrap(p, least, size) ==>
              Broken(Malloc(p, least, size, base).pool, Malloc(p, least, size, base).buffer)
    ensures Malloc(p, least, size, base).buffer != 0 && NoWrap(p, least, size) ==>
              Malloc(p, least, size, base).buffer !in p.blocks
  {
    AlignRoundsUp(size);
    hide Align, Sound, Broken;
    var aligned := Align(size);
    if size > 0 {
      if !NeedsChunk(p, aligned) {
        HeadIsSound(p);
        if NoWrap(p, least, size) {
          CutSound(p, size);
        } else {
          CutUnsound(p, size);
        }
      } else if base.Some? {
        var capacity := NewCapacity(least, aligned);
        var grown := Grow(p, base.value, capacity);
        GrowSound(p, base.value, capacity);
        if size > LIMIT - 8 {
          CutUnsound(grown, size);
        } else if HEADER + capacity < LIMIT {
          CutSound(grown, size);
          if p.chunks != [] && Head(p).size + aligned >= LIMIT {
            HeadIsSound(p);
            assert false;
          }
        } else {
          TooLargeStaysUnsound(p, base.value, capacity, size);
        }
      }
    }
  }

  /** A fresh pool asked for 2^64 - 1 bytes: the rounded size is zero, and a block of no room is handed out. */
  lemma RoundingWrapExample()
    ensures var p, size := Pool([], map[], map[]), LIMIT - 1;
            && Sound(p) && BaseKeepsPromise(p, 65536, size, Some(8)) && !NoWrap(p, 65536, size)
            && Malloc(p, 65536, size, Some(8)).buffer == 32
            && Head(Malloc(p, 65536, size, Some(8)).pool) == Chunk(8, 65536, 0)
            && !Sound(Malloc(p, 65536, size, Some(8)).pool)
  {
    var p, size: Size := Pool([], map[], map[]), LIMIT - 1;
    AlignRoundsUp(size);
    hide Align, Sound;
    assert Sound(p) by {
      NothingIsSound();
    }
    MallocSound(p, 65536, size, Some(8));
  }

  lemma NothingIsSound()
    ensures Sound(Pool([], map[], map[]))
  {
  }

  /**
   A chunk of 64 bytes with 32 in use, asked for 2^64 - 24 bytes: the sum in the test for room is 8,
   and the chunk is left with 8 bytes in use.
   */
  lemma RoomWrapExample()
    ensures var p, size := Pool([Chunk(8, 64, 32)], map[], map[]), LIMIT - 24;
            && Sound(p) && BaseKeepsPromise(p, 64, size, None) && !NoWrap(p, 64, size)
            && Malloc(p, 64, size, None).buffer == 64
            && Head(Malloc(p, 64, size, None).pool) == Chunk(8, 64, 8)
            && !Sound(Malloc(p, 64, size, None).pool)
  {
    var p, size: Size := Pool([Chunk(8, 64, 32)], map[], map[]), LIMIT - 24;
    AlignValue(size);
    assert Align(size) == LIMIT - 24;
    hide Align, Sound;
    assert Sound(p) by {
      OneChunkIsSound();
    }
    MallocSound(p, 64, size, None);
  }

  lemma OneChunkIsSound()
    ensures Sound(Pool([Chunk(8, 64, 32)], map[], map[]))
  {
  }

  /** A fresh pool asked for 2^64 - 8 bytes: the base allocator is asked for 16, header and all. */
  lemma ChunkWrapExample()
    ensures var p, size := Pool([], map[], map[]), LIMIT - 8;
            && Sound(p) && BaseKeepsPromise(p, 65536, size, Some(8)) && !NoWrap(p, 65536, size)
            && Wrap(HEADER + NewCapacity(65536, Align(size))) == 16
            && Malloc(p, 65536, size, Some(8)).buffer == 32
            && !Sound(Malloc(p, 65536, size, Some(8)).pool)
  {
    var p, size: Size := Pool([], map[], map[]), LIMIT - 8;
    AlignValue(size);
    assert Align(size) == LIMIT - 8;
    hide Align, Sound;
    assert Sound(p) by {
      NothingIsSound();
    }
    MallocSound(p, 65536, size, Some(8));
  }

  lemma HeadIsSound(p: Pool)
    requires Sound(p) && p.chunks != []
    ensures ChunkSound(Head(p))
  {
  }

  lemma TooLargeStaysUnsound(p: Pool, address: nat, capacity: Size, size: Size)
    requires 0 < address && HEADER + capacity >= LIMIT
    ensures !Sound(Cut(Grow(p, address, capacity), size))
    ensures Broken(Cut(Grow(p, address, capacity), size), Head(Grow(p, address, capacity)).Top())
  {
  }

  // ---------------------------------------------------------------------------------------
  // Realloc
  // ---------------------------------------------------------------------------------------

  /** The block at `original` is its holder's, or none is given. */
  predicate Holds(p: Pool, original: nat, originalSize: Size) {
    original != 0 ==> original in p.blocks && p.blocks[original].size == originalSize
  }

  predicate ReallocNoWrap(p: Pool, least: Size, original: nat, originalSize: Size, newSize: Size) {
    if original == 0 then NoWrap(p, least, newSize)
    else if newSize == 0 then true
    else if Align(originalSize) >= Align(newSize) then newSize <= LIMIT - 8
    else if GrowsInPlace(p, original, Align(originalSize), Align(newSize)) then
      Head(p).size + (Align(newSize) - Align(originalSize)) < LIMIT
    else NoWrap(p, least, Align(newSize))
  }

  predicate ReallocBase(p: Pool, least: Size, original: nat, newSize: Size, base: Option<nat>) {
    BaseKeepsPromise(p, least, if original == 0 then newSize else Align(newSize), base)
  }

  /** A block that ends where the head chunk's used part ends is in the head chunk. */
  lemma LastBlockIsInHead(p: Pool, original: nat)
    requires Sound(p) && p.chunks != [] && original in p.blocks
    requires original + Align(p.blocks[original].size) == Head(p).Top()
    ensures p.blocks[original].home == |p.chunks| - 1
  {
  }

  lemma RelabelSound(p: Pool, original: nat, size: Size)
    requires Sound(p) && original in p.blocks && 0 < size
    requires Align(size) <= Align(p.blocks[original].size)
    ensures Sound(Relabel(p, original, size)) <==> size <= LIMIT - 8
    ensures Relabel(p, original, size).blocks.Keys == p.blocks.Keys
  {
    hide Align;
    var q := Relabel(p, original, size);
    PlacedOf(p, original);
    if size > LIMIT - 8 {
      assert !Placed(q.chunks, original, q.blocks[original]);
    } else {
      forall a | a in q.blocks
        ensures Placed(q.chunks, a, q.blocks[a])
      {
        PlacedOf(p, a);
      }
    }
  }

  lemma InPlaceShape(p: Pool, original: nat, newSize: Size)
    requires p.chunks != [] && original in p.blocks && Align(p.blocks[original].size) < Align(newSize)
    ensures ResizeInPlace(p, original, p.blocks[original].size, newSize)
         == Pool(p.chunks[|p.chunks| - 1 :=
                            Head(p).(size := Wrap(Head(p).size + (Align(newSize) - Align(p.blocks[original].size))))],
                 p.blocks[original := Block(newSize, p.blocks[original].home)], p.memory)
  {
  }

  lemma InPlaceFits(p: Pool, original: nat, newSize: Size, grown: Size)
    requires p.chunks != [] && original in p.blocks && Align(p.blocks[original].size) < Align(newSize)
    requires grown == Head(p).size + (Align(newSize) - Align(p.blocks[original].size))
    ensures ResizeInPlace(p, original, p.blocks[original].size, newSize)
         == Pool(p.chunks[|p.chunks| - 1 := Head(p).(size := grown)],
                 p.blocks[original := Block(newSize, p.blocks[original].home)], p.memory)
  {
    WrapSmall(grown);
    hide Align, Wrap, ResizeInPlace;
    InPlaceShape(p, original, newSize);
  }

  lemma InPlaceSound(p: Pool, original: nat, newSize: Size)
    requires Sound(p) && original in p.blocks && newSize > 0
    requires Align(p.blocks[original].size) < Align(newSize)
    requires GrowsInPlace(p, original, Align(p.blocks[original].size), Align(newSize))
    ensures Sound(ResizeInPlace(p, original, p.blocks[original].size, newSize))
       <==> Head(p).size + (Align(newSize) - Align(p.blocks[original].size)) < LIMIT
  {
    hide Align, Sound, ChunksSound, BlocksSound, Wrap, ResizeInPlace;
    AlignRoundsUp(newSize);
    LastBlockIsInHead(p, original);
    WrapSmall(Head(p).size + (Align(newSize) - Align(p.blocks[original].size)));
    SoundParts(ResizeInPlace(p, original, p.blocks[original].size, newSize));
    if Head(p).size + (Align(newSize) - Align(p.blocks[original].size)) < LIMIT {
      InPlaceChunks(p, original, newSize);
      InPlaceBlocks(p, original, newSize);
    } else {
      InPlaceOverrun(p, original, newSize);
    }
  }

  lemma WrapSmall(n: nat)
    ensures n < LIMIT ==> Wrap(n) == n
  {
  }

  lemma InPlaceChunks(p: Pool, original: nat, newSize: Size)
    requires Sound(p) && p.chunks != [] && original in p.blocks
    requires Align(p.blocks[original].size) < Align(newSize)
    requires Head(p).size + (Align(newSize) - Align(p.blocks[original].size)) <= Head(p).capacity
    ensures ChunksSound(ResizeInPlace(p, original, p.blocks[original].size, newSize).chunks)
  {
    hide Align, Sound, ChunksSound, Wrap, ResizeInPlace;
    var grown: Size := Head(p).size + (Align(newSize) - Align(p.blocks[original].size));
    AlignRoundsUp(newSize);
    AlignRoundsUp(p.blocks[original].size);
    SoundParts(p);
    HeadIsSound(p);
    InPlaceFits(p, original, newSize, grown);
    Eights(Head(p).size, Align(newSize), Align(p.blocks[original].size));
    ChunkResized(p.chunks, |p.chunks| - 1, grown);
  }

  lemma Eights(x: nat, y: nat, z: nat)
    requires x % 8 == 0 && y % 8 == 0 && z % 8 == 0
    ensures (x + (y - z)) % 8 == 0
  {
  }

  lemma SoundParts(p: Pool)
    ensures Sound(p) <==> ChunksSound(p.chunks) && BlocksSound(p.chunks, p.blocks)
  {
  }

  lemma InPlaceBlocks(p: Pool, original: nat, newSize: Size)
    requires Sound(p) && p.chunks != [] && original in p.blocks && 0 < newSize <= LIMIT - 8
    requires original + Align(p.blocks[original].size) == Head(p).Top() && p.blocks[original].home == |p.chunks| - 1
    requires Align(p.blocks[original].size) < Align(newSize)
    requires Head(p).size + (Align(newSize) - Align(p.blocks[original].size)) <= Head(p).capacity
    ensures BlocksSound(ResizeInPlace(p, original, p.blocks[original].size, newSize).chunks,
                        ResizeInPlace(p, original, p.blocks[original].size, newSize).blocks)
  {
    hide *;
    var grown: Size := Head(p).size + (Align(newSize) - Align(p.blocks[original].size));
    InPlaceFits(p, original, newSize, grown);
    LastBlockGrown(p, original, newSize, grown);
  }

  lemma LastBlockGrown(p: Pool, original: nat, newSize: Size, grown: Size)
    requires Sound(p) && p.chunks != [] && original in p.blocks && 0 < newSize <= LIMIT - 8
    requires original + Align(p.blocks[original].size) == Head(p).Top() && p.blocks[original].home == |p.chunks| - 1
    requires Align(p.blocks[original].size) < Align(newSize)
    requires grown == Head(p).size + (Align(newSize) - Align(p.blocks[original].size)) <= Head(p).capacity
    ensures BlocksSound(p.chunks[|p.chunks| - 1 := Head(p).(size := grown)],
                        p.blocks[original := Block(newSize, p.blocks[original].home)])
  {
    hide Align, Sound, Placed, ChunksSound;
    var n, oldSize := |p.chunks| - 1, p.blocks[original].size;
    var chunks, q := p.chunks[n := p.chunks[n].(size := grown)], p.blocks[original := Block(newSize, n)];
    forall a | a in q
      ensures Placed(chunks, a, q[a])
    {
      PlacedOf(p, a);
      if a == original {
        FillsTheHead(p.chunks, n, a, oldSize, newSize, grown);
      } else {
        PlacedInLonger(p.chunks, n, grown, a, p.blocks[a]);
      }
    }
    forall a, b | a in q && b in q && a < b
      ensures a + Align(q[a].size) <= b
    {
      GrownIsApart(p, original, newSize, a, b);
    }
  }

  lemma GrownIsApart(p: Pool, original: nat, newSize: Size, a: nat, b: nat)
    requires Sound(p) && p.chunks != [] && original in p.blocks && a in p.blocks && b in p.blocks && a < b
    requires original + Align(p.blocks[original].size) == Head(p).Top()
    requires Align(p.blocks[original].size) < Align(newSize)
    requires Head(p).size + (Align(newSize) - Align(p.blocks[original].size)) <= Head(p).capacity
    ensures a + Align(if a == original then newSize else p.blocks[a].size) <= b
  {
    DisjointOf(p, a, b);
    if a == original {
      AboutTheTop(p, b);
    }
    hide Align, Sound;
  }

  /** A block stays in place when a chunk has more of its bytes in use. */
  lemma PlacedInLonger(chunks: seq<Chunk>, n: nat, size: Size, a: nat, b: Block)
    requires n < |chunks| && chunks[n].size <= size && Placed(chunks, a, b)
    ensures Placed(chunks[n := chunks[n].(size := size)], a, b)
  {
  }

  /** The last block, grown, ends where the used part of the head chunk now ends. */
  lemma FillsTheHead(chunks: seq<Chunk>, n: nat, a: nat, oldSize: Size, newSize: Size, grown: Size)
    requires n < |chunks| && Placed(chunks, a, Block(oldSize, n)) && a + Align(oldSize) == chunks[n].Top()
    requires 0 < newSize <= LIMIT - 8 && grown == chunks[n].size + (Align(newSize) - Align(oldSize))
    ensures Placed(chunks[n := chunks[n].(size := grown)], a, Block(newSize, n))
  {
    hide Align;
  }

  lemma InPlaceOverrun(p: Pool, original: nat, newSize: Size)
    requires Sound(p) && p.chunks != [] && original in p.blocks
    requires original + Align(p.blocks[original].size) == Head(p).Top() && p.blocks[original].home == |p.chunks| - 1
    requires Align(p.blocks[original].size) < Align(newSize)
    requires Head(p).size + (Align(newSize) - Align(p.blocks[original].size)) >= LIMIT
    ensures !BlocksSound(ResizeInPlace(p, original, p.blocks[original].size, newSize).chunks,
                         ResizeInPlace(p, original, p.blocks[original].size, newSize).blocks)
  {
    var q := ResizeInPlace(p, original, p.blocks[original].size, newSize);
    InPlaceShape(p, original, newSize);
    hide Align, Sound, ResizeInPlace;
    assert !Placed(q.chunks, original, q.blocks[original]);
  }

  /** The last branch: the block moves, and its old place is given up. */
  lemma MovedSound(p: Pool, least: Size, original: nat, newSize: Size, base: Option<nat>)
    requires Sound(p) && original in p.blocks && original != 0 && newSize > 0
    requires BaseKeepsPromise(p, least, Align(newSize), base)
    requires Align(p.blocks[original].size) < Align(newSize)
    requires !GrowsInPlace(p, original, Align(p.blocks[original].size), Align(newSize))
    ensures var r := Realloc(p, least, original, p.blocks[original].size, newSize, base);
            r.buffer != 0 ==> (Sound(r.pool) <==> NoWrap(p, least, Align(newSize)))
  {
    hide Align, Sound, ChunksSound, GrowsInPlace, Malloc, NoWrap;
    AlignRoundsUp(newSize);
    AlignRoundsUp(p.blocks[original].size);
    MallocSound(p, least, Align(newSize), base);
    var moved := Malloc(p, least, Align(newSize), base);
    var r := Realloc(p, least, original, p.blocks[original].size, newSize, base);
    if moved.buffer != 0 {
      MallocLabels(p, least, Align(newSize), base);
      if NoWrap(p, least, Align(newSize)) {
        RelabelSound(moved.pool, moved.buffer, newSize);
        var to := Relabel(moved.pool, moved.buffer, newSize);
        FreedSound(to, r.pool, original);
      } else if ChunksSound(moved.pool.chunks) {
        if original == moved.buffer {
          OriginalIsNotMoved(p, least, original, Align(newSize), base);
        }
        assert !Placed(r.pool.chunks, r.buffer, r.pool.blocks[r.buffer]);
        SoundParts(r.pool);
      } else {
        SoundParts(r.pool);
      }
    }
  }

  lemma MallocLabels(p: Pool, least: Size, size: Size, base: Option<nat>)
    ensures var r := Malloc(p, least, size, base);
            r.buffer != 0 ==>
              && r.buffer in r.pool.blocks && r.pool.blocks[r.buffer].size == size
              && r.pool.blocks.Keys == p.blocks.Keys + {r.buffer} && r.pool.memory == p.memory
              && forall a | a in p.blocks && a != r.buffer :: r.pool.blocks[a] == p.blocks[a]
  {
    hide Align;
  }

  lemma OriginalIsNotMoved(p: Pool, least: Size, original: nat, size: Size, base: Option<nat>)
    requires Sound(p) && original in p.blocks && BaseKeepsPromise(p, least, size, base)
    requires Malloc(p, least, size, base).buffer != 0 && ChunksSound(Malloc(p, least, size, base).pool.chunks)
    ensures Malloc(p, least, size, base).buffer != original
  {
    hide Align;
    if NeedsChunk(p, Align(size)) {
      var grown := Grow(p, base.value, NewCapacity(least, Align(size)));
      GrowSound(p, base.value, NewCapacity(least, Align(size)));
      if HEADER + NewCapacity(least, Align(size)) < LIMIT {
        AboutTheTop(grown, original);
      } else {
        assert !ChunkSound(Malloc(p, least, size, base).pool.chunks[|p.chunks|]);
      }
    } else {
      AboutTheTop(p, original);
    }
  }

  lemma FreedSound(p: Pool, q: Pool, original: nat)
    requires Sound(p) && q.chunks == p.chunks && q.blocks == p.blocks - {original}
    ensures Sound(q)
  {
    hide Align, ChunksSound;
    forall a | a in q.blocks
      ensures Placed(q.chunks, a, q.blocks[a])
    {
      PlacedOf(p, a);
    }
  }

  /** `Realloc` leaves the pool sound exactly when no sum wraps around. */
  lemma ReallocSound(p: Pool, least: Size, original: nat, originalSize: Size, newSize: Size, base: Option<nat>)
    requires Sound(p) && Holds(p, original, originalSize) && ReallocBase(p, least, original, newSize, base)
    ensures Realloc(p, least, original, originalSize, newSize, base).buffer == 0 ==>
              Realloc(p, least, original, originalSize, newSize, base).pool == p
    ensures Realloc(p, least, original, originalSize, newSize, base).buffer != 0 ==>
              (Sound(Realloc(p, least, original, originalSize, newSize, base).pool)
               <==> ReallocNoWrap(p, least, original, originalSize, newSize))
  {
    AlignRoundsUp(newSize);
    hide Align, Sound;
    if original == 0 {
      MallocSound(p, least, newSize, base);
    } else if newSize != 0 {
      if Align(originalSize) >= Align(newSize) {
        RelabelSound(p, original, newSize);
      } else if GrowsInPlace(p, original, Align(originalSize), Align(newSize)) {
        InPlaceSound(p, original, newSize);
      } else {
        MallocSound(p, least, Align(newSize), base);
        MovedSound(p, least, original, newSize, base);
      }
    }
  }

  // ---------------------------------------------------------------------------------------
  // What the bytes of the blocks become
  // ---------------------------------------------------------------------------------------

  /** The `n` bytes at `a`. */
  function Read(memory: map<nat, Byte>, a: nat, n: nat): (bytes: seq<Byte>)
    ensures |bytes| == n && forall i | 0 <= i < n :: bytes[i] == ByteAt(memory, a + i)
  {
    if n == 0 then [] else Read(memory, a, n - 1) + [ByteAt(memory, a + n - 1)]
  }

  lemma ReadSnoc(memory: map<nat, Byte>, a: nat, n: nat)
    ensures Read(memory, a, n + 1) == Read(memory, a, n) + [ByteAt(memory, a + n)]
  {
  }

  lemma ReadFirst(memory: map<nat, Byte>, a: nat, m: nat, n: nat)
    requires m <= n
    ensures Read(memory, a, m) == Read(memory, a, n)[..m]
  {
  }

  /** Bytes outside the target of a copy stay as they were. */
  lemma {:induction false} CopyElsewhere(memory: map<nat, Byte>, to: nat, from: nat, n: nat, a: nat, m: nat)
    requires a + m <= to || to + n <= a
    ensures Read(Copy(memory, to, from, n), a, m) == Read(memory, a, m)
    decreases n
  {
    if n > 0 {
      CopyElsewhere(memory, to, from, n - 1, a, m);
      var before, after := Copy(memory, to, from, n - 1), Copy(memory, to, from, n);
      assert after == before[to + n - 1 := ByteAt(before, from + n - 1)];
      hide Copy;
      assert Read(after, a, m) == Read(before, a, m);
    }
  }

  lemma {:induction false} CopyMoves(memory: map<nat, Byte>, to: nat, from: nat, n: nat)
    requires to + n <= from || from + n <= to
    ensures Read(Copy(memory, to, from, n), to, n) == Read(memory, from, n)
    decreases n
  {
    if n > 0 {
      CopyMoves(memory, to, from, n - 1);
      CopyElsewhere(memory, to, from, n - 1, from + n - 1, 1);
      var before, after := Copy(memory, to, from, n - 1), Copy(memory, to, from, n);
      assert after == before[to + n - 1 := ByteAt(before, from + n - 1)];
      hide Copy;
      assert ByteAt(before, from + n - 1) == Read(before, from + n - 1, 1)[0] == Read(memory, from + n - 1, 1)[0];
      ReadSnoc(memory, from, n - 1);
      ReadSnoc(after, to, n - 1);
      assert Read(after, to, n - 1) == Read(before, to, n - 1);
    }
  }

  /** A block and its bytes are untouched. */
  predicate Kept(before: Pool, after: Pool, b: nat) {
    && b in before.blocks && b in after.blocks && before.blocks[b] == after.blocks[b]
    && Read(after.memory, b, before.blocks[b].size) == Read(before.memory, b, before.blocks[b].size)
  }

  /**
   The block now at `buffer` begins with the bytes of the one at `original`, as far as the smaller
   of the two sizes, and every other live block is untouched.
   */
  ghost predicate KeepsBytes(before: Pool, original: nat, after: Pool, buffer: nat, size: Size) {
    && original in before.blocks
    && (var n := if size < before.blocks[original].size then size else before.blocks[original].size;
        Read(after.memory, buffer, n) == Read(before.memory, original, n))
    && forall b | b in after.blocks && b != buffer :: Kept(before, after, b)
  }

  /** What `Realloc` does when the block moves. */
  lemma MovedShape(p: Pool, least: Size, original: nat, newSize: Size, base: Option<nat>)
    requires original in p.blocks && original != 0 && newSize > 0
    requires Align(p.blocks[original].size) < Align(newSize)
    requires !GrowsInPlace(p, original, Align(p.blocks[original].size), Align(newSize))
    requires Malloc(p, least, Align(newSize), base).buffer != 0
    ensures Realloc(p, least, original, p.blocks[original].size, newSize, base)
         == Answer(Pool(Malloc(p, least, Align(newSize), base).pool.chunks,
                        Relabel(Malloc(p, least, Align(newSize), base).pool,
                                Malloc(p, least, Align(newSize), base).buffer, newSize).blocks - {original},
                        Copy(Malloc(p, least, Align(newSize), base).pool.memory,
                             Malloc(p, least, Align(newSize), base).buffer, original,
                             Align(p.blocks[original].size))),
                   Malloc(p, least, Align(newSize), base).buffer)
  {
    hide Align, GrowsInPlace, Malloc;
  }

  lemma MovedKeepsBytes(p: Pool, least: Size, original: nat, newSize: Size, base: Option<nat>)
    requires Sound(p) && original in p.blocks && original != 0 && newSize > 0
    requires BaseKeepsPromise(p, least, Align(newSize), base) && NoWrap(p, least, Align(newSize))
    requires Align(p.blocks[original].size) < Align(newSize)
    requires !GrowsInPlace(p, original, Align(p.blocks[original].size), Align(newSize))
    requires Malloc(p, least, Align(newSize), base).buffer != 0
    ensures KeepsBytes(p, original, Realloc(p, least, original, p.blocks[original].size, newSize, base).pool,
                       Realloc(p, least, original, p.blocks[original].size, newSize, base).buffer, newSize)
  {
    MallocSound(p, least, Align(newSize), base);
    MallocLabels(p, least, Align(newSize), base);
    MovedShape(p, least, original, newSize, base);
    hide Align, Sound, Malloc, Realloc, NoWrap, GrowsInPlace, BaseKeepsPromise, Copy, KeepsBytes;
    var moved := Malloc(p, least, Align(newSize), base);
    var r := Realloc(p, least, original, p.blocks[original].size, newSize, base);
    CopiedKeepsBytes(p, moved.pool, moved.buffer, r.pool, original, newSize);
  }

  lemma CopiedKeepsBytes(p: Pool, moved: Pool, buffer: nat, q: Pool, original: nat, newSize: Size)
    requires Sound(p) && original in p.blocks && Sound(moved) && buffer !in p.blocks && moved.memory == p.memory
    requires Align(p.blocks[original].size) < Align(newSize)
    requires moved.blocks.Keys == p.blocks.Keys + {buffer} && moved.blocks[buffer].size == Align(newSize)
    requires forall a | a in p.blocks :: moved.blocks[a] == p.blocks[a]
    requires q.memory == Copy(p.memory, buffer, original, Align(p.blocks[original].size))
    requires q.blocks == Relabel(moved, buffer, newSize).blocks - {original}
    ensures KeepsBytes(p, original, q, buffer, newSize)
  {
    hide Align, Sound, Copy, Kept, Read;
    PlacedSize(p, original);
    AlignRoundsUp(newSize);
    PlacedSize(moved, buffer);
    var n := Align(p.blocks[original].size);
    var m := if newSize < p.blocks[original].size then newSize else p.blocks[original].size;
    ApartIn(moved, original, buffer);
    CopyMoves(p.memory, buffer, original, n);
    ReadFirst(q.memory, buffer, m, n);
    ReadFirst(p.memory, original, m, n);
    forall b | b in q.blocks && b != buffer
      ensures Kept(p, q, b)
    {
      ApartIn(moved, b, buffer);
      PlacedSize(p, b);
      CopyElsewhere(p.memory, buffer, original, n, b, p.blocks[b].size);
      KeptBy(p, q, b);
    }
  }

  lemma KeptBy(p: Pool, q: Pool, b: nat)
    requires b in p.blocks && b in q.blocks && p.blocks[b] == q.blocks[b]
    requires Read(q.memory, b, p.blocks[b].size) == Read(p.memory, b, p.blocks[b].size)
    ensures Kept(p, q, b)
  {
  }

  lemma PlacedSize(p: Pool, a: nat)
    requires Sound(p) && a in p.blocks
    ensures p.blocks[a].size <= Align(p.blocks[a].size)
  {
    PlacedOf(p, a);
    AlignRoundsUp(p.blocks[a].size);
  }

  lemma ApartIn(p: Pool, a: nat, b: nat)
    requires Sound(p) && a in p.blocks && b in p.blocks && a != b
    ensures a + Align(p.blocks[a].size) <= b || b + Align(p.blocks[b].size) <= a
  {
    if a < b {
      DisjointOf(p, a, b);
    } else {
      DisjointOf(p, b, a);
    }
  }

  lemma UnmovedKeepsBytes(p: Pool, q: Pool, original: nat, size: Size)
    requires original in p.blocks && q.memory == p.memory && q.blocks.Keys == p.blocks.Keys
    requires forall b | b in p.blocks && b != original :: q.blocks[b] == p.blocks[b]
    ensures KeepsBytes(p, original, q, original, size)
  {
  }

  /** `Realloc` keeps the bytes, whether the block shrinks, grows in place or moves. */
  lemma ReallocKeepsBytes(p: Pool, least: Size, original: nat, newSize: Size, base: Option<nat>)
    requires Sound(p) && original != 0 && original in p.blocks && ReallocBase(p, least, original, newSize, base)
    requires ReallocNoWrap(p, least, original, p.blocks[original].size, newSize)
    requires Realloc(p, least, original, p.blocks[original].size, newSize, base).buffer != 0
    ensures KeepsBytes(p, original, Realloc(p, least, original, p.blocks[original].size, newSize, base).pool,
                       Realloc(p, least, original, p.blocks[original].size, newSize, base).buffer, newSize)
  {
    hide Align, Sound, Malloc, NoWrap, KeepsBytes;
    var oldSize := p.blocks[original].size;
    if Align(oldSize) >= Align(newSize) {
      UnmovedKeepsBytes(p, Relabel(p, original, newSize), original, newSize);
    } else if GrowsInPlace(p, original, Align(oldSize), Align(newSize)) {
      UnmovedKeepsBytes(p, ResizeInPlace(p, original, oldSize, newSize), original, newSize);
    } else {
      MovedKeepsBytes(p, least, original, newSize, base);
    }
  }

  // ---------------------------------------------------------------------------------------
  // Totals
  // ---------------------------------------------------------------------------------------

  function TotalSize(chunks: seq<Chunk>): nat {
    if chunks == [] then 0 else TotalSize(chunks[..|chunks| - 1]) + chunks[|chunks| - 1].size
  }

  function TotalCapacity(chunks: seq<Chunk>): nat {
    if chunks == [] then 0 else TotalCapacity(chunks[..|chunks| - 1]) + chunks[|chunks| - 1].capacity
  }

  function Span(lo: nat, n: nat): set<nat> {
    if n == 0 then {} else Span(lo, n - 1) + {lo + n - 1}
  }

  lemma {:induction false} SpanHas(lo: nat, n: nat, x: nat)
    ensures x in Span(lo, n) <==> lo <= x < lo + n
    decreases n
  {
    if n > 0 {
      SpanHas(lo, n - 1, x);
    }
  }

  lemma {:induction false} SpanSize(lo: nat, n: nat)
    ensures |Span(lo, n)| == n
    decreases n
  {
    if n > 0 {
      SpanSize(lo, n - 1);
      SpanHas(lo, n - 1, lo + n - 1);
    }
  }

  lemma {:induction false} SubsetSize(a: set<nat>, b: set<nat>)
    requires a <= b
    ensures |a| <= |b|
    decreases a
  {
    if a != {} {
      var x :| x in a;
      SubsetSize(a - {x}, b - {x});
    }
  }

  /** The addresses the chunks take up. */
  function Footprint(chunks: seq<Chunk>): set<nat> {
    if chunks == [] then {}
    else Footprint(chunks[..|chunks| - 1]) + Span(chunks[|chunks| - 1].address, HEADER + chunks[|chunks| - 1].capacity)
  }

  lemma {:induction false} FootprintIn(chunks: seq<Chunk>, x: nat) returns (i: nat)
    requires x in Footprint(chunks)
    ensures i < |chunks| && chunks[i].address <= x < chunks[i].End()
    decreases |chunks|
  {
    var n := |chunks| - 1;
    if x in Footprint(chunks[..n]) {
      i := FootprintIn(chunks[..n], x);
    } else {
      SpanHas(chunks[n].address, HEADER + chunks[n].capacity, x);
      i := n;
    }
  }

  lemma {:induction false} FootprintSize(chunks: seq<Chunk>)
    requires ChunksSound(chunks)
    ensures TotalCapacity(chunks) <= |Footprint(chunks)|
    ensures Footprint(chunks) <= Span(1, LIMIT - 1)
    decreases |chunks|
  {
    hide Span, ChunksSound, ChunkSound;
    if chunks != [] {
      var n := |chunks| - 1;
      var before, last := chunks[..n], chunks[n];
      ChunksBefore(chunks);
      FootprintSize(before);
      FootprintsDisjoint(chunks);
      SpanSize(last.address, HEADER + last.capacity);
      var taken, span := Footprint(before), Span(last.address, HEADER + last.capacity);
      assert |taken + span| == |taken| + |span|;
      SpanWithin(last);
    }
  }

  lemma ChunksBefore(chunks: seq<Chunk>)
    requires ChunksSound(chunks) && chunks != []
    ensures ChunksSound(chunks[..|chunks| - 1]) && ChunkSound(chunks[|chunks| - 1])
  {
  }

  lemma SpanWithin(c: Chunk)
    requires ChunkSound(c)
    ensures Span(c.address, HEADER + c.capacity) <= Span(1, LIMIT - 1)
  {
    var inner, outer := Span(c.address, HEADER + c.capacity), Span(1, LIMIT - 1);
    forall x | x in inner
      ensures x in outer
    {
      SpanHas(c.address, HEADER + c.capacity, x);
      SpanHas(1, LIMIT - 1, x);
    }
  }

  lemma FootprintsDisjoint(chunks: seq<Chunk>)
    requires ChunksSound(chunks) && chunks != []
    ensures var n := |chunks| - 1;
            Footprint(chunks[..n]) !! Span(chunks[n].address, HEADER + chunks[n].capacity)
  {
    hide Footprint;
    var n := |chunks| - 1;
    forall x | x in Footprint(chunks[..n])
      ensures x !in Span(chunks[n].address, HEADER + chunks[n].capacity)
    {
      var i := FootprintIn(chunks[..n], x);
      assert Apart(chunks[i], chunks[n]);
      SpanHas(chunks[n].address, HEADER + chunks[n].capacity, x);
    }
  }

  /** In a sound pool `Size` is at most `Capacity`, and neither sum wraps around. */
  lemma SizeWithinCapacity(p: Pool)
    requires Sound(p)
    ensures TotalSize(p.chunks) <= TotalCapacity(p.chunks) < LIMIT
  {
    hide Span;
    SizesAtMost(p.chunks);
    FootprintSize(p.chunks);
    SpanSize(1, LIMIT - 1);
    SubsetSize(Footprint(p.chunks), Span(1, LIMIT - 1));
  }

  lemma {:induction false} SizesAtMost(chunks: seq<Chunk>)
    requires forall i | 0 <= i < |chunks| :: ChunkSound(chunks[i])
    ensures TotalSize(chunks) <= TotalCapacity(chunks)
    decreases |chunks|
  {
    if chunks != [] {
      SizesAtMost(chunks[..|chunks| - 1]);
      assert ChunkSound(chunks[|chunks| - 1]);
    }
  }

  // ---------------------------------------------------------------------------------------
  // Runs
  // ---------------------------------------------------------------------------------------

  /** `Clear`: only the user's buffer, the oldest chunk, stays, and no block is live. */
  function Clear(p: Pool, userBuffer: bool): Pool {
    Pool(if userBuffer && p.chunks != [] then [p.chunks[0].(size := 0)] else [], map[], p.memory)
  }

  datatype Request =
    | Allocate(size: Size, base: Option<nat>)
    | Resize(original: nat, originalSize: Size, size: Size, base: Option<nat>)
    | Reset

  /** The caller resizes what it holds, the base allocator keeps its promise, and no sum wraps. */
  predicate Legal(p: Pool, least: Size, r: Request) {
    match r
    case Allocate(size, base) => BaseKeepsPromise(p, least, size, base) && NoWrap(p, least, size)
    case Resize(original, originalSize, size, base) =>
      && Holds(p, original, originalSize) && ReallocBase(p, least, original, size, base)
      && ReallocNoWrap(p, least, original, originalSize, size)
    case Reset => true
  }

  function Serve(p: Pool, least: Size, userBuffer: bool, r: Request): Pool {
    match r
    case Allocate(size, base) => Malloc(p, least, size, base).pool
    case Resize(original, originalSize, size, base) => Realloc(p, least, original, originalSize, size, base).pool
    case Reset => Clear(p, userBuffer)
  }

  function Run(p: Pool, least: Size, userBuffer: bool, requests: seq<Request>): Option<Pool>
    decreases |requests|
  {
    if requests == [] then Some(p)
    else if !Legal(p, least, requests[0]) then None
    else Run(Serve(p, least, userBuffer, requests[0]), least, userBuffer, requests[1..])
  }

  /** After any run of requests the pool is sound and its size within its capacity. */
  lemma {:induction false} RunStaysSound(p: Pool, least: Size, userBuffer: bool, requests: seq<Request>)
    requires Sound(p) && Run(p, least, userBuffer, requests).Some?
    ensures Sound(Run(p, least, userBuffer, requests).value)
    ensures TotalSize(Run(p, least, userBuffer, requests).value.chunks)
         <= TotalCapacity(Run(p, least, userBuffer, requests).value.chunks) < LIMIT
    decreases |requests|
  {
    if requests == [] {
      SizeWithinCapacity(p);
    } else {
      ServeSound(p, least, userBuffer, requests[0]);
      hide Sound, Serve, Legal;
      RunStaysSound(Serve(p, least, userBuffer, requests[0]), least, userBuffer, requests[1..]);
    }
  }

  lemma ServeSound(p: Pool, least: Size, userBuffer: bool, r: Request)
    requires Sound(p) && Legal(p, least, r)
    ensures Sound(Serve(p, least, userBuffer, r))
  {
    if r.Reset? {
      assert p.chunks != [] ==> ChunkSound(p.chunks[0]);
    } else {
      hide Sound, Malloc, Realloc, NoWrap, ReallocNoWrap, BaseKeepsPromise, ReallocBase, Holds;
      if r.Allocate? {
        MallocSound(p, least, r.size, r.base);
      } else {
        ReallocSound(p, least, r.original, r.originalSize, r.size, r.base);
      }
    }
  }

  // ---------------------------------------------------------------------------------------
  // In whole numbers
  // ---------------------------------------------------------------------------------------

  /** `rounded` is the least multiple of eight that is no less than `size`. */
  predicate IsRounded(size: nat, rounded: nat) {
    rounded % 8 == 0 && size <= rounded < size + 8
  }

  lemma RoundedIsAlign(size: Size, rounded: nat)
    requires size <= LIMIT - 8 && IsRounded(size, rounded)
    ensures rounded == Align(size)
  {
    hide Align;
    AlignRoundsUp(size);
  }

  /** The last chunk has room for `rounded` bytes more. */
  predicate HasRoom(p: Pool, rounded: nat) {
    p.chunks != [] && Head(p).size + rounded <= Head(p).capacity
  }

  /** The pool from whose last chunk `rounded` bytes are cut: with a chunk more if there is no room, or none. */
  function WithRoom(p: Pool, least: Size, rounded: Size, base: Option<nat>): Option<Pool> {
    if HasRoom(p, rounded) then Some(p)
    else match base
      case None => None
      case Some(address) =>
        Some(p.(chunks := p.chunks + [Chunk(address, if least >= rounded then least else rounded, 0)]))
  }

  /** The chunks of `q` are those of `p`, with `rounded` bytes at `buffer` cut off the last. */
  predicate IsCutAt(p: Pool, q: Pool, buffer: nat, rounded: nat) {
    && |p.chunks| == |q.chunks| > 0
    && (var n := |p.chunks| - 1;
        && q.chunks[..n] == p.chunks[..n]
        && q.chunks[n].address == p.chunks[n].address && q.chunks[n].capacity == p.chunks[n].capacity
        && q.chunks[n].size == p.chunks[n].size + rounded
        && buffer == p.chunks[n].address + 24 + p.chunks[n].size)
  }

  /** So cut, the bytes are a block of `size` bytes. */
  predicate IsCut(p: Pool, q: Pool, buffer: nat, size: Size, rounded: nat) {
    && IsCutAt(p, q, buffer, rounded)
    && q.blocks == p.blocks[buffer := Block(size, |p.chunks| - 1)] && q.memory == p.memory
  }

  /** Whether and where `Malloc` finds room, with no sum wrapping: in the last chunk, else in one it is granted. */
  lemma MallocIsExact(p: Pool, least: Size, size: Size, rounded: nat, base: Option<nat>)
    requires Sound(p) && 0 < size <= LIMIT - 8 && IsRounded(size, rounded)
    requires p.chunks != [] ==> Head(p).size + rounded < LIMIT
    ensures var a := Malloc(p, least, size, base);
            match WithRoom(p, least, rounded, base)
            case None => a.buffer == 0 && a.pool == p
            case Some(q) => IsCut(q, a.pool, a.buffer, size, rounded)
  {
    RoundedIsAlign(size, rounded);
    hide Align, Sound, Cut, IsCut;
    match WithRoom(p, least, rounded, base)
    case None =>
    case Some(q) => CutIsCut(q, size);
  }

  lemma CutIsCut(p: Pool, size: Size)
    requires p.chunks != [] && Head(p).size + Align(size) < LIMIT
    ensures IsCut(p, Cut(p, size), Head(p).Top(), size, Align(size))
  {
    hide Align;
  }

  /**
   What `Realloc` does to a block, with no sum wrapping: it stays where it is if it need not grow, or is
   the last of the last chunk and there is room; otherwise a new block is asked for.
   */
  lemma ReallocIsExact(p: Pool, least: Size, original: nat, originalSize: Size, newSize: Size,
                       oldRounded: nat, newRounded: nat, base: Option<nat>)
    requires Sound(p) && original != 0 && Holds(p, original, originalSize) && p.chunks != []
    requires 0 < newSize <= LIMIT - 8 && IsRounded(originalSize, oldRounded) && IsRounded(newSize, newRounded)
    requires Head(p).size + newRounded < LIMIT
    ensures var a := Realloc(p, least, original, originalSize, newSize, base);
            if newRounded <= oldRounded then a.buffer == original && a.pool.chunks == p.chunks
            else if original + oldRounded == Head(p).Top() && HasRoom(p, newRounded - oldRounded) then
              && a.buffer == original
              && a.pool.chunks == p.chunks[|p.chunks| - 1 := Head(p).(size := Head(p).size + newRounded - oldRounded)]
            else match WithRoom(p, least, newRounded, base)
              case None => a.buffer == 0 && a.pool == p
              case Some(q) => IsCutAt(q, a.pool, a.buffer, newRounded)
  {
    hide Align, Sound, Realloc, HasRoom;
    BlockSizeBound(p, original);
    RoundedIsAlign(originalSize, oldRounded);
    RoundedIsAlign(newSize, newRounded);
    if newRounded <= oldRounded || LastWithRoom(p, original, oldRounded, newRounded) {
      ReallocStays(p, least, original, originalSize, newSize, base);
    } else {
      ReallocMoves(p, least, original, originalSize, newSize, base);
    }
  }

  /** A block of `oldRounded` bytes is the last of the last chunk, and can grow to `newRounded`. */
  predicate LastWithRoom(p: Pool, original: nat, oldRounded: nat, newRounded: nat)
    requires p.chunks != [] && oldRounded <= newRounded
  {
    original + oldRounded == Head(p).Top() && HasRoom(p, newRounded - oldRounded)
  }

  lemma ReallocStays(p: Pool, least: Size, original: nat, originalSize: Size, newSize: Size, base: Option<nat>)
    requires p.chunks != [] && original != 0 && newSize != 0 && Head(p).size + Align(newSize) < LIMIT
    requires Align(newSize) <= Align(originalSize) || LastWithRoom(p, original, Align(originalSize), Align(newSize))
    ensures var a := Realloc(p, least, original, originalSize, newSize, base);
            && a.buffer == original
            && a.pool.chunks == if Align(newSize) <= Align(originalSize) then p.chunks
                                else p.chunks[|p.chunks| - 1 :=
                                                Head(p).(size := Head(p).size + Align(newSize) - Align(originalSize))]
  {
    hide Align, Malloc, Copy;
  }

  lemma ReallocMoves(p: Pool, least: Size, original: nat, originalSize: Size, newSize: Size, base: Option<nat>)
    requires Sound(p) && p.chunks != [] && original != 0 && 0 < newSize <= LIMIT - 8 && Head(p).size + Align(newSize) < LIMIT
    requires Align(originalSize) < Align(newSize) && !LastWithRoom(p, original, Align(originalSize), Align(newSize))
    ensures var a := Realloc(p, least, original, originalSize, newSize, base);
            match WithRoom(p, least, Align(newSize), base)
            case None => a.buffer == 0 && a.pool == p
            case Some(q) => IsCutAt(q, a.pool, a.buffer, Align(newSize))
  {
    var rounded := Align(newSize);
    var moved := Malloc(p, least, rounded, base);
    ReallocAsksMalloc(p, least, original, originalSize, newSize, base);
    AlignRoundsUp(newSize);
    MallocIsExact(p, least, rounded, rounded, base);
    hide Align, Sound, Malloc, Realloc, IsCut, IsCutAt, WithRoom, HasRoom, LastWithRoom;
    match WithRoom(p, least, rounded, base)
    case None =>
    case Some(q) =>
      CutOnly(q, moved.pool, Realloc(p, least, original, originalSize, newSize, base).pool, moved.buffer, rounded);
  }

  lemma ReallocAsksMalloc(p: Pool, least: Size, original: nat, originalSize: Size, newSize: Size, base: Option<nat>)
    requires p.chunks != [] && original != 0 && newSize != 0 && Head(p).size + Align(newSize) < LIMIT
    requires Align(originalSize) < Align(newSize) && !LastWithRoom(p, original, Align(originalSize), Align(newSize))
    ensures var a, moved := Realloc(p, least, original, originalSize, newSize, base), Malloc(p, least, Align(newSize), base);
            && a.buffer == moved.buffer
            && (if a.buffer == 0 then a == moved else a.pool.chunks == moved.pool.chunks)
  {
    hide Align, Malloc, Copy;
  }

  lemma CutOnly(p: Pool, q: Pool, r: Pool, buffer: nat, rounded: Size)
    requires IsCut(p, q, buffer, rounded, rounded) && q.chunks == r.chunks
    ensures IsCutAt(p, r, buffer, rounded)
  {
  }

  lemma BlockSizeBound(p: Pool, original: nat)
    requires Sound(p) && original in p.blocks
    ensures 0 < p.blocks[original].size <= LIMIT - 8
  {
  }

  /** The totals move by what is cut off and what is added. */
  lemma TotalsMove(p: Pool, least: Size, size: Size, rounded: nat, base: Option<nat>)
    requires Sound(p) && 0 < size <= LIMIT - 8 && IsRounded(size, rounded)
    requires p.chunks != [] ==> Head(p).size + rounded < LIMIT
    ensures TotalSize([]) == TotalCapacity([]) == 0
    ensures var a := Malloc(p, least, size, base);
            a.buffer != 0 ==>
              && TotalSize(a.pool.chunks) == TotalSize(p.chunks) + rounded
              && TotalCapacity(a.pool.chunks)
              == TotalCapacity(p.chunks) + if HasRoom(p, rounded) then 0 else if least >= rounded then least else rounded
  {
    MallocIsExact(p, least, size, rounded, base);
    hide Sound, Malloc;
    var a := Malloc(p, least, size, base);
    if HasRoom(p, rounded) {
      TotalsOfCut(p, a.pool, a.buffer, size, rounded);
    } else if base.Some? {
      var c := Chunk(base.value, if least >= rounded then least else rounded, 0);
      var grown := p.(chunks := p.chunks + [c]);
      assert grown.chunks[..|p.chunks|] == p.chunks;
      TotalsOfCut(grown, a.pool, a.buffer, size, rounded);
    }
  }

  lemma TotalsOfCut(p: Pool, q: Pool, buffer: nat, size: Size, rounded: nat)
    requires IsCut(p, q, buffer, size, rounded)
    ensures TotalSize(q.chunks) == TotalSize(p.chunks) + rounded
    ensures TotalCapacity(q.chunks) == TotalCapacity(p.chunks)
  {
  }
}
