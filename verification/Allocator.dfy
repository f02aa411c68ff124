/**
 MemoryPoolAllocator as arithmetic on its chunks: where Malloc and Realloc put blocks, with the wrap-around of
 size_t written out.  A pointer is a chunk and an offset behind its header.
 */
module Allocator {
  import opened Wrappers

  /** 2^64: size_t is a 64-bit register. */
  const SIZE_T: nat := 0x1_0000_0000_0000_0000

  /** RAPIDJSON_ALIGN(sizeof(ChunkHeader)). */
  const HEADER: nat := 24

  function Wrap(n: nat): nat { n % SIZE_T }

  /** RAPIDJSON_ALIGN on a 64-bit platform. */
  function Align(n: nat): nat { Wrap(n + 7) / 8 * 8 }

  datatype Chunk = Chunk(capacity: nat, size: nat)

  /** The chunks, the newest (chunkHead_) last; the first one is the user's buffer if `userBuffer`. */
  datatype Pool = Pool(chunks: seq<Chunk>, chunkCapacity: nat, userBuffer: bool)

  datatype Pointer = Pointer(chunk: nat, offset: nat)

  datatype Allocation = Allocation(pool: Pool, ptr: Option<Pointer>)

  function Head(p: Pool): Chunk
    requires p.chunks != []
  {
    p.chunks[|p.chunks| - 1]
  }

  function WithHead(p: Pool, c: Chunk): Pool
    requires p.chunks != []
  {
    p.(chunks := p.chunks[..|p.chunks| - 1] + [c])
  }

  /** The capacity that Malloc asks AddChunk for. */
  function NewCapacity(p: Pool, n: nat): nat { if p.chunkCapacity > n then p.chunkCapacity else n }

  /** AddChunk, when the base allocator has the memory. */
  function AddChunk(p: Pool, capacity: nat): Pool { p.(chunks := p.chunks + [Chunk(capacity, 0)]) }

  /** The head chunk has no room for `n` more bytes. */
  predicate Full(p: Pool, n: nat) { p.chunks == [] || Wrap(Head(p).size + n) > Head(p).capacity }

  /** Takes `n` bytes, already aligned, off the head chunk. */
  function Bump(p: Pool, n: nat): Allocation
    requires p.chunks != []
  {
    Allocation(WithHead(p, Head(p).(size := Wrap(Head(p).size + n))), Some(Pointer(|p.chunks| - 1, Head(p).size)))
  }

  /** Malloc; `granted` is whether the base allocator gives a chunk if it is asked for one. */
  function Malloc(p: Pool, size: nat, granted: bool): Allocation {
    if size == 0 then Allocation(p, None)
    else
      var n := Align(size);
      if !Full(p, n) then Bump(p, n)
      else if !granted then Allocation(p, None)
      else Bump(AddChunk(p, NewCapacity(p, n)), n)
  }

  /** The block is the newest one of the head chunk, and the chunk has room for it to grow. */
  predicate Extends(p: Pool, ptr: Pointer, old_: nat, new_: nat) {
    && p.chunks != [] && ptr.chunk == |p.chunks| - 1
    && ptr.offset + old_ == Head(p).size
    && Wrap(Head(p).size + (new_ - old_)) <= Head(p).capacity
    && old_ < new_
  }

  /** Realloc of a block; None for a null pointer. */
  function Realloc(p: Pool, ptr: Option<Pointer>, originalSize: nat, newSize: nat, granted: bool): Allocation {
    if ptr.None? then Malloc(p, newSize, granted)
    else if newSize == 0 then Allocation(p, None)
    else
      var o, n := Align(originalSize), Align(newSize);
      if o >= n then Allocation(p, ptr)
      else if Extends(p, ptr.value, o, n) then
        Allocation(WithHead(p, Head(p).(size := Wrap(Head(p).size + (n - o)))), ptr)
      else Malloc(p, n, granted)
  }

  /** Clear: every chunk but the user's is freed, and the user's is emptied. */
  function Clear(p: Pool): Pool {
    if p.userBuffer && p.chunks != [] then p.(chunks := [p.chunks[0].(size := 0)]) else p.(chunks := [])
  }

  // ---------- Live blocks ----------

  /** A block as its owner knows it: the pointer, and the size last asked for. */
  datatype Block = Block(ptr: Pointer, size: nat)

  /** A block lies aligned inside the used part of its chunk. */
  predicate Inside(p: Pool, b: Block) {
    && b.ptr.chunk < |p.chunks| && b.size > 0
    && b.ptr.offset % 8 == 0
    && b.ptr.offset + Align(b.size) <= p.chunks[b.ptr.chunk].size
    && b.size <= Align(b.size)
  }

  predicate Disjoint(a: Block, b: Block) {
    || a.ptr.chunk != b.ptr.chunk
    || a.ptr.offset + Align(a.size) <= b.ptr.offset
    || b.ptr.offset + Align(b.size) <= a.ptr.offset
  }

  /** A chunk with its header is memory that the base allocator was really asked for. */
  predicate ChunkOk(c: Chunk) { c.size <= c.capacity && c.capacity + HEADER < SIZE_T && c.size % 8 == 0 }

  predicate PoolOk(p: Pool) { forall k :: 0 <= k < |p.chunks| ==> ChunkOk(p.chunks[k]) }

  predicate Separate(live: seq<Block>) {
    forall i, j :: 0 <= i < j < |live| ==> Disjoint(live[i], live[j])
  }

  /** Every live block is aligned inside the used part of one chunk, and no two share a byte. */
  predicate Sound(p: Pool, live: seq<Block>) {
    && PoolOk(p)
    && (forall k :: 0 <= k < |live| ==> Inside(p, live[k]))
    && Separate(live)
  }

  /** No sum that Malloc forms for this request leaves the register. */
  predicate Fits(p: Pool, size: nat) {
    && size + 8 <= SIZE_T
    && if Full(p, Align(size)) then NewCapacity(p, Align(size)) + HEADER < SIZE_T
       else Head(p).size + Align(size) < SIZE_T
  }

  lemma AlignFits(n: nat)
    requires n + 8 <= SIZE_T
    ensures n <= Align(n) < n + 8 && Align(n) < SIZE_T && Align(n) % 8 == 0
    ensures n > 0 ==> Align(n) > 0
  {
  }

  lemma AlignTwice(n: nat)
    ensures Align(n) % 8 == 0 && Align(n) + 8 <= SIZE_T && Align(Align(n)) == Align(n)
  {
  }

  /** A pool that differs only in a larger head chunk. */
  lemma Grown(p: Pool, q: Pool, live: seq<Block>, n: nat)
    requires Sound(p, live) && p.chunks != [] && n % 8 == 0
    requires Head(p).size + n <= Head(p).capacity
    requires q == WithHead(p, Head(p).(size := Head(p).size + n))
    ensures PoolOk(q) && Head(q).size == Head(p).size + n && |q.chunks| == |p.chunks|
    ensures forall k :: 0 <= k < |live| ==> Inside(q, live[k])
  {
    hide Align;
    forall k | 0 <= k < |p.chunks| ensures ChunkOk(q.chunks[k]) && q.chunks[k].size >= p.chunks[k].size {
      assert ChunkOk(p.chunks[k]);
    }
  }

  lemma Appended(p: Pool, q: Pool, live: seq<Block>, b: Block)
    requires Sound(p, live) && PoolOk(q) && p.chunks != [] && |q.chunks| == |p.chunks|
    requires forall k :: 0 <= k < |live| ==> Inside(q, live[k])
    requires Inside(q, b) && b.ptr == Pointer(|p.chunks| - 1, Head(p).size)
    ensures Sound(q, live + [b])
  {
    hide Align;
    forall i, j | 0 <= i < j < |live + [b]| ensures Disjoint((live + [b])[i], (live + [b])[j]) {
      if j == |live| { assert Inside(p, live[i]); }
    }
  }

  /** Taking bytes off the head chunk leaves every block inside, and apart from the new one. */
  lemma BumpSound(p: Pool, live: seq<Block>, size: nat)
    requires Sound(p, live) && p.chunks != [] && 0 < size && size + 8 <= SIZE_T
    requires Head(p).size + Align(size) <= Head(p).capacity
    ensures var a := Bump(p, Align(size));
      a.ptr.Some? && Sound(a.pool, live + [Block(a.ptr.value, size)])
  {
    hide Align;
    AlignFits(size);
    var n := Align(size);
    assert ChunkOk(Head(p));
    var a := Bump(p, n);
    Grown(p, a.pool, live, n);
    Appended(p, a.pool, live, Block(a.ptr.value, size));
  }

  lemma AddChunkSound(p: Pool, live: seq<Block>, capacity: nat)
    requires Sound(p, live) && capacity + HEADER < SIZE_T
    ensures Sound(AddChunk(p, capacity), live)
  {
    hide Align;
    var q := AddChunk(p, capacity);
    forall k | 0 <= k < |q.chunks| ensures ChunkOk(q.chunks[k]) {
      if k < |p.chunks| { assert ChunkOk(p.chunks[k]); }
    }
    forall k | 0 <= k < |live| ensures Inside(q, live[k]) { assert Inside(p, live[k]); }
  }

  /** A block that Malloc makes is sound with all the live ones exactly when the request fits. */
  lemma MallocSound(p: Pool, live: seq<Block>, size: nat, granted: bool)
    requires Sound(p, live) && size > 0
    ensures var a := Malloc(p, size, granted);
      && (a.ptr.None? ==> a.pool == p)
      && (a.ptr.Some? ==> (Sound(a.pool, live + [Block(a.ptr.value, size)]) <==> Fits(p, size)))
  {
    hide Align, Separate;
    var n := Align(size);
    AlignTwice(size);
    if Fits(p, size) {
      AlignFits(size);
      if !Full(p, n) {
        BumpSound(p, live, size);
      } else if granted {
        var capacity := NewCapacity(p, n);
        AddChunkSound(p, live, capacity);
        BumpSound(AddChunk(p, capacity), live, size);
      }
    } else {
      MallocUnfit(p, live, size, granted);
      var a := Malloc(p, size, granted);
      if a.ptr.Some? { assert (live + [Block(a.ptr.value, size)])[|live|] == Block(a.ptr.value, size); }
    }
  }

  /** A request that does not fit leaves a chunk without memory, or a block outside the used part of its chunk. */
  lemma MallocUnfit(p: Pool, live: seq<Block>, size: nat, granted: bool)
    requires Sound(p, live) && size > 0 && !Fits(p, size)
    ensures var a := Malloc(p, size, granted);
      a.ptr.Some? ==> !PoolOk(a.pool) || !Inside(a.pool, Block(a.ptr.value, size))
  {
    hide Separate;
    var n := Align(size);
    var a := Malloc(p, size, granted);
    if a.ptr.Some? {
      var b := Block(a.ptr.value, size);
      if size + 8 > SIZE_T {
        assert !Inside(a.pool, b);
      } else if !Full(p, n) {
        assert ChunkOk(Head(p));
        assert Head(a.pool).size == Head(p).size + n - SIZE_T;
        assert !Inside(a.pool, b);
      } else {
        assert !ChunkOk(Head(a.pool));
      }
    }
  }

  /**
   Where Malloc puts a request that fits, `n` being its size rounded up to a multiple of eight: behind what is used of
   the head chunk when that has room; else at the start of a new chunk, of the configured capacity or just large enough,
   when there is memory for one.
   */
  lemma MallocPlaces(p: Pool, size: nat, granted: bool, n: nat)
    requires PoolOk(p) && size > 0 && Fits(p, size)
    requires size <= n < size + 8 && n % 8 == 0
    ensures var a := Malloc(p, size, granted); var k := |p.chunks|;
      if k > 0 && p.chunks[k - 1].size + n <= p.chunks[k - 1].capacity then
        && a.ptr == Some(Pointer(k - 1, p.chunks[k - 1].size))
        && a.pool == p.(chunks := p.chunks[k - 1 := Chunk(p.chunks[k - 1].capacity, p.chunks[k - 1].size + n)])
      else if !granted then a == Allocation(p, None)
      else
        && a.ptr == Some(Pointer(k, 0))
        && exists capacity: nat ::
             a.pool == p.(chunks := p.chunks + [Chunk(capacity, n)])
             && capacity in {p.chunkCapacity, n} && capacity >= p.chunkCapacity && capacity >= n
  {
    hide Align;
    AlignIs(size, n);
    var k := |p.chunks|;
    if k > 0 { HeadPlaces(p, n); }
    if Full(p, n) && granted { NewChunkPlaces(p, n); }
  }

  lemma AlignIs(size: nat, n: nat)
    requires size + 8 <= SIZE_T && size <= n < size + 8 && n % 8 == 0
    ensures n == Align(size)
  {
  }

  lemma HeadPlaces(p: Pool, n: nat)
    requires PoolOk(p) && p.chunks != []
    requires !Full(p, n) ==> Head(p).size + n < SIZE_T
    ensures var last := p.chunks[|p.chunks| - 1];
      && (last.size + n <= last.capacity ==> !Full(p, n))
      && (!Full(p, n) ==>
            && last.size + n <= last.capacity
            && Bump(p, n) == Allocation(p.(chunks := p.chunks[|p.chunks| - 1 := Chunk(last.capacity, last.size + n)]),
                                        Some(Pointer(|p.chunks| - 1, last.size))))
  {
    assert ChunkOk(p.chunks[|p.chunks| - 1]);
  }

  lemma NewChunkPlaces(p: Pool, n: nat)
    requires NewCapacity(p, n) + HEADER < SIZE_T
    ensures var capacity := NewCapacity(p, n);
      && capacity in {p.chunkCapacity, n} && capacity >= p.chunkCapacity && capacity >= n
      && Bump(AddChunk(p, capacity), n)
         == Allocation(p.(chunks := p.chunks + [Chunk(capacity, n)]), Some(Pointer(|p.chunks|, 0)))
  {
  }

  // ---------- Realloc ----------

  /** One block replaced by another that is apart from the rest. */
  lemma Replaced(q: Pool, live: seq<Block>, k: nat, b: Block)
    requires k < |live| && PoolOk(q) && Separate(live) && Inside(q, b)
    requires forall i :: 0 <= i < |live| && i != k ==> Inside(q, live[i]) && Disjoint(live[i], b)
    ensures Sound(q, live[k := b])
  {
    hide Align;
  }

  lemma ShrinkSound(p: Pool, live: seq<Block>, k: nat, size: nat)
    requires Sound(p, live) && k < |live| && 0 < size && size + 8 <= SIZE_T && Align(size) <= Align(live[k].size)
    ensures Sound(p, live[k := Block(live[k].ptr, size)])
  {
    hide Align;
    AlignFits(size);
    var b := Block(live[k].ptr, size);
    forall i | 0 <= i < |live| && i != k ensures Disjoint(live[i], b) {
      assert if i < k then Disjoint(live[i], live[k]) else Disjoint(live[k], live[i]);
    }
    Replaced(p, live, k, b);
  }

  /** The newest block of the head chunk grows where it is: nothing lies behind it. */
  lemma ExtendSound(p: Pool, live: seq<Block>, k: nat, size: nat)
    requires Sound(p, live) && k < |live| && 0 < size && size + 8 <= SIZE_T
    requires Extends(p, live[k].ptr, Align(live[k].size), Align(size))
    requires Head(p).size + (Align(size) - Align(live[k].size)) < SIZE_T
    ensures Sound(Realloc(p, Some(live[k].ptr), live[k].size, size, false).pool, live[k := Block(live[k].ptr, size)])
  {
    hide Align;
    AlignFits(size);
    AlignTwice(size);
    AlignTwice(live[k].size);
    var b := Block(live[k].ptr, size);
    var q := WithHead(p, Head(p).(size := Head(p).size + (Align(size) - Align(live[k].size))));
    Grown(p, q, live, Align(size) - Align(live[k].size));
    forall i | 0 <= i < |live| && i != k ensures Disjoint(live[i], b) {
      assert if i < k then Disjoint(live[i], live[k]) else Disjoint(live[k], live[i]);
      Behind(p, live, i, k);
    }
    Replaced(q, live, k, b);
  }

  /** No live block starts at or behind the used end of its chunk. */
  lemma Behind(p: Pool, live: seq<Block>, i: nat, k: nat)
    requires Sound(p, live) && i < |live| && k < |live|
    requires p.chunks != [] && live[k].ptr.chunk == |p.chunks| - 1
    ensures live[i].ptr.chunk == live[k].ptr.chunk ==> live[i].ptr.offset < Head(p).size
  {
    assert Inside(p, live[i]);
    assert Align(live[i].size) > 0;
  }

  lemma MoveSound(q: Pool, live: seq<Block>, k: nat, ptr: Pointer, n: nat, size: nat)
    requires k < |live| && Sound(q, live + [Block(ptr, n)]) && Align(n) == Align(size) && 0 < size <= Align(size)
    ensures Sound(q, live[k := Block(ptr, size)])
  {
    hide Align;
    var all, b := live + [Block(ptr, n)], Block(ptr, size);
    assert all[|live|] == Block(ptr, n);
    assert Inside(q, all[|live|]);
    forall i, j | 0 <= i < j < |live| ensures Disjoint(live[i], live[j]) { assert Disjoint(all[i], all[j]); }
    forall i | 0 <= i < |live| && i != k ensures Inside(q, live[i]) && Disjoint(live[i], b) {
      assert all[i] == live[i] && Inside(q, all[i]) && Disjoint(all[i], all[|live|]);
    }
    Replaced(q, live, k, b);
  }

  /** No sum that Realloc forms for this block and size leaves the register, on the way that it takes. */
  predicate FitsRealloc(p: Pool, b: Block, size: nat) {
    && size + 8 <= SIZE_T
    && (Align(b.size) < Align(size) ==>
          if Extends(p, b.ptr, Align(b.size), Align(size)) then
            Head(p).size + (Align(size) - Align(b.size)) < SIZE_T
          else Fits(p, Align(size)))
  }

  /**
   A live block that Realloc keeps, grows or moves is sound with all the others exactly when the request fits; and one
   that grows stays in place exactly when it is the newest of the head chunk and there is room.
   */
  lemma ReallocSound(p: Pool, live: seq<Block>, k: nat, size: nat, granted: bool)
    requires Sound(p, live) && k < |live| && size > 0
    ensures var b := live[k];
      var a := Realloc(p, Some(b.ptr), b.size, size, granted);
      && (a.ptr.None? ==> a.pool == p)
      && (a.ptr.Some? ==> (Sound(a.pool, live[k := Block(a.ptr.value, size)]) <==> FitsRealloc(p, b, size)))
      && (Align(b.size) < Align(size) ==>
            (a.ptr == Some(b.ptr) <==> Extends(p, b.ptr, Align(b.size), Align(size))))
  {
    hide Align, Sound, Fits, Malloc, Extends;
    var b, o, n := live[k], Align(live[k].size), Align(size);
    AlignTwice(size);
    if size + 8 > SIZE_T {
      ReallocUnfit(p, live, k, size, granted);
    } else if o >= n {
      ShrinkSound(p, live, k, size);
    } else if Extends(p, b.ptr, o, n) {
      ExtendHead(p, b.ptr, o, n);
      if Head(p).size + (n - o) < SIZE_T {
        ExtendSound(p, live, k, size);
      } else {
        ExtendUnfit(p, live, k, size);
      }
    } else {
      AlignFits(size);
      MallocSound(p, live, n, granted);
      var a := Malloc(p, n, granted);
      if a.ptr.Some? {
        if Fits(p, n) {
          MoveSound(a.pool, live, k, a.ptr.value, n, size);
        } else {
          MoveUnfit(p, live, k, size, granted);
        }
      }
    }
    MovesAway(p, live, k, size, granted);
    RefusalKeeps(p, b, size, granted);
  }

  lemma RefusalKeeps(p: Pool, b: Block, size: nat, granted: bool)
    ensures var a := Realloc(p, Some(b.ptr), b.size, size, granted); a.ptr.None? ==> a.pool == p
  {
    hide Align;
  }

  lemma SoundBlock(p: Pool, live: seq<Block>, k: nat)
    requires Sound(p, live) && k < |live|
    ensures PoolOk(p) && Inside(p, live[k])
  {
  }

  lemma ReallocUnfit(p: Pool, live: seq<Block>, k: nat, size: nat, granted: bool)
    requires k < |live| && size + 8 > SIZE_T
    ensures var a := Realloc(p, Some(live[k].ptr), live[k].size, size, granted);
      a.ptr.Some? ==> !Sound(a.pool, live[k := Block(a.ptr.value, size)])
  {
    hide Sound, Malloc, Extends;
    var a := Realloc(p, Some(live[k].ptr), live[k].size, size, granted);
    AlignTwice(size);
    if a.ptr.Some? && Sound(a.pool, live[k := Block(a.ptr.value, size)]) {
      SoundBlock(a.pool, live[k := Block(a.ptr.value, size)], k);
    }
  }

  /** A block that grows by a sum that wraps around ends outside the used part of its chunk. */
  lemma ExtendUnfit(p: Pool, live: seq<Block>, k: nat, size: nat)
    requires Sound(p, live) && k < |live| && size > 0
    requires Extends(p, live[k].ptr, Align(live[k].size), Align(size))
    requires p.chunks != [] && Head(p).size + (Align(size) - Align(live[k].size)) >= SIZE_T
    ensures !Sound(Realloc(p, Some(live[k].ptr), live[k].size, size, false).pool, live[k := Block(live[k].ptr, size)])
  {
    hide Align, Separate;
    var b := Block(live[k].ptr, size);
    var q := Realloc(p, Some(live[k].ptr), live[k].size, size, false).pool;
    assert ChunkOk(Head(p));
    assert live[k := b][k] == b;
    assert !Inside(q, b);
  }

  lemma MoveUnfit(p: Pool, live: seq<Block>, k: nat, size: nat, granted: bool)
    requires Sound(p, live) && k < |live| && 0 < size <= Align(size) && !Fits(p, Align(size))
    requires Malloc(p, Align(size), granted).ptr.Some?
    ensures var a := Malloc(p, Align(size), granted); !Sound(a.pool, live[k := Block(a.ptr.value, size)])
  {
    hide Align, Separate, Fits, Malloc;
    AlignTwice(size);
    MallocUnfit(p, live, Align(size), granted);
    var a := Malloc(p, Align(size), granted);
    var b := Block(a.ptr.value, size);
    assert live[k := b][k] == b;
  }

  /** What Malloc returns is not where a live block is. */
  lemma MovesAway(p: Pool, live: seq<Block>, k: nat, size: nat, granted: bool)
    requires Sound(p, live) && k < |live| && size > 0
    ensures var b := live[k];
      Align(b.size) < Align(size) ==>
        (Realloc(p, Some(b.ptr), b.size, size, granted).ptr == Some(b.ptr)
         <==> Extends(p, b.ptr, Align(b.size), Align(size)))
  {
    hide Align, Separate;
    assert Inside(p, live[k]);
    AlignPositive(p, live[k]);
  }

  lemma ExtendHead(p: Pool, ptr: Pointer, o: nat, n: nat)
    requires Extends(p, ptr, o, n)
    ensures p.chunks != []
  {
  }

  lemma AlignPositive(p: Pool, b: Block)
    requires Inside(p, b)
    ensures b.ptr.offset < p.chunks[b.ptr.chunk].size
  {
  }

  // ---------- Runs ----------

  datatype Operation = DoMalloc(size: nat, granted: bool) | DoRealloc(k: nat, size: nat, granted: bool) | DoClear

  datatype State = State(pool: Pool, live: seq<Block>)

  /** What an operation does to the pool and to the blocks that its user holds; None for a block that is not there. */
  function Step(s: State, op: Operation): Option<State> {
    match op
    case DoMalloc(size, granted) =>
      var a := Malloc(s.pool, size, granted);
      Some(State(a.pool, if a.ptr.Some? then s.live + [Block(a.ptr.value, size)] else s.live))
    case DoRealloc(k, size, granted) =>
      if k >= |s.live| then None
      else
        var a := Realloc(s.pool, Some(s.live[k].ptr), s.live[k].size, size, granted);
        if size == 0 then Some(State(a.pool, s.live[..k] + s.live[k + 1..]))
        else Some(State(a.pool, if a.ptr.Some? then s.live[k := Block(a.ptr.value, size)] else s.live))
    case DoClear => Some(State(Clear(s.pool), []))
  }

  /**
   The request fits where the operation comes to it: no sum that it forms leaves size_t, unless nothing is allocated
   because a new chunk is needed and not granted.
   */
  predicate Safe(s: State, op: Operation) {
    match op
    case DoMalloc(size, granted) => size == 0 || Refused(s.pool, size, granted) || Fits(s.pool, size)
    case DoRealloc(k, size, granted) =>
      k < |s.live| && size > 0 ==>
        var b := s.live[k];
        || (Align(b.size) < Align(size) && !Extends(s.pool, b.ptr, Align(b.size), Align(size))
            && Refused(s.pool, Align(size), granted))
        || FitsRealloc(s.pool, b, size)
    case DoClear => true
  }

  predicate Refused(p: Pool, size: nat, granted: bool) { Full(p, Align(size)) && !granted }

  lemma MallocRefuses(p: Pool, size: nat, granted: bool)
    requires size > 0
    ensures Malloc(p, size, granted).ptr.None? <==> Refused(p, size, granted)
  {
    hide Align;
  }

  lemma ReallocRefuses(p: Pool, b: Block, size: nat, granted: bool)
    requires size > 0
    ensures Realloc(p, Some(b.ptr), b.size, size, granted).ptr.None?
       <==> Align(b.size) < Align(size) && !Extends(p, b.ptr, Align(b.size), Align(size))
            && Refused(p, Align(size), granted)
  {
    hide Malloc, Refused, Extends;
    if Align(b.size) < Align(size) { MallocRefuses(p, Align(size), granted); }
  }

  /** One operation keeps the live blocks sound exactly when its request fits. */
  lemma StepSound(s: State, op: Operation)
    requires Sound(s.pool, s.live) && Step(s, op).Some?
    ensures var t := Step(s, op).value; Sound(t.pool, t.live) <==> Safe(s, op)
  {
    hide Sound, Malloc, Realloc, Fits, FitsRealloc, Extends, Refused, Align, Clear;
    match op {
      case DoMalloc(size, granted) =>
        if size == 0 {
          NothingAsked(s.pool, granted);
        } else {
          MallocSound(s.pool, s.live, size, granted);
          MallocRefuses(s.pool, size, granted);
        }
      case DoRealloc(k, size, granted) =>
        if size == 0 {
          NothingLeft(s.pool, s.live[k].ptr, s.live[k].size, granted);
          Dropped(s.pool, s.live, k);
        } else {
          ReallocSound(s.pool, s.live, k, size, granted);
          ReallocRefuses(s.pool, s.live[k], size, granted);
        }
      case DoClear =>
        NoneLive(s.pool, s.live);
        ClearSound(s.pool);
    }
  }

  /** The live blocks are sound at every state of a run. */
  predicate AlwaysSound(s: State, ops: seq<Operation>)
    decreases |ops|
  {
    Sound(s.pool, s.live) && (ops != [] && Step(s, ops[0]).Some? ==> AlwaysSound(Step(s, ops[0]).value, ops[1..]))
  }

  /** Every request of a run fits where the run comes to it. */
  predicate AlwaysSafe(s: State, ops: seq<Operation>)
    decreases |ops|
  {
    ops != [] && Step(s, ops[0]).Some? ==> Safe(s, ops[0]) && AlwaysSafe(Step(s, ops[0]).value, ops[1..])
  }

  /**
   A run keeps all live blocks aligned, inside their chunks and apart at every step exactly when every request fits.
   */
  lemma {:induction false} RunSound(s: State, ops: seq<Operation>)
    requires Sound(s.pool, s.live)
    ensures AlwaysSound(s, ops) <==> AlwaysSafe(s, ops)
    decreases |ops|
  {
    hide Sound, Safe, Step;
    if ops != [] && Step(s, ops[0]).Some? {
      var t := Step(s, ops[0]).value;
      StepSound(s, ops[0]);
      if Safe(s, ops[0]) {
        RunSound(t, ops[1..]);
      } else {
        SoundFirst(t, ops[1..]);
      }
    }
  }

  lemma SoundFirst(s: State, ops: seq<Operation>)
    ensures AlwaysSound(s, ops) ==> Sound(s.pool, s.live)
  {
  }

  /** A new allocator, with or without a buffer of the user's. */
  function NewPool(chunkCapacity: nat, buffer: Option<nat>): Pool
    requires buffer.Some? ==> HEADER < buffer.value
  {
    Pool(match buffer case None => [] case Some(n) => [Chunk(n - HEADER, 0)], chunkCapacity, buffer.Some?)
  }

  lemma InitSound(chunkCapacity: nat, buffer: Option<nat>)
    requires buffer.Some? ==> HEADER < buffer.value < SIZE_T
    ensures Sound(NewPool(chunkCapacity, buffer), [])
  {
  }

  /** Every run of a new allocator: sound throughout exactly when every request fits. */
  lemma NewAllocatorSound(chunkCapacity: nat, buffer: Option<nat>, ops: seq<Operation>)
    requires buffer.Some? ==> HEADER < buffer.value < SIZE_T
    ensures var s := State(NewPool(chunkCapacity, buffer), []); AlwaysSound(s, ops) <==> AlwaysSafe(s, ops)
  {
    hide Sound;
    InitSound(chunkCapacity, buffer);
    RunSound(State(NewPool(chunkCapacity, buffer), []), ops);
  }

  // ---------- Modest requests ----------

  /** Requests and chunks far below half the range of size_t. */
  const LIMIT: nat := 0x8000_0000_0000_0000 - 64

  predicate Modest(op: Operation) { !op.DoClear? ==> op.size <= LIMIT }

  predicate Small(p: Pool) {
    && p.chunkCapacity <= LIMIT
    && forall k :: 0 <= k < |p.chunks| ==> p.chunks[k].size <= p.chunks[k].capacity <= LIMIT + 8
  }

  lemma SmallFits(p: Pool, size: nat)
    requires Small(p) && size <= LIMIT
    ensures Fits(p, size) && Fits(p, Align(size)) && Align(size) <= LIMIT + 8
  {
    AlignTwice(size);
  }

  lemma SmallStep(p: Pool, size: nat, granted: bool)
    requires Small(p) && size <= LIMIT + 8
    ensures Small(Malloc(p, size, granted).pool)
  {
    hide Small, Align, Bump;
    if size > 0 {
      var n := Align(size);
      AlignSmall(size);
      if !Full(p, n) {
        SmallBump(p, n);
      } else if granted {
        var capacity := NewCapacity(p, n);
        SmallAdd(p, capacity, n);
        SmallBump(AddChunk(p, capacity), n);
      }
    }
  }

  lemma AlignSmall(size: nat)
    requires size <= LIMIT + 8
    ensures Align(size) <= LIMIT + 8
  {
  }

  lemma SmallBump(p: Pool, n: nat)
    requires Small(p) && n <= LIMIT + 8 && !Full(p, n)
    ensures Small(Bump(p, n).pool)
  {
  }

  lemma SmallAdd(p: Pool, capacity: nat, n: nat)
    requires Small(p) && capacity == NewCapacity(p, n) && n <= LIMIT + 8
    ensures Small(AddChunk(p, capacity)) && !Full(AddChunk(p, capacity), n)
  {
  }

  lemma SmallRealloc(p: Pool, ptr: Pointer, o: nat, size: nat, granted: bool)
    requires Small(p) && size <= LIMIT
    ensures Small(Realloc(p, Some(ptr), o, size, granted).pool)
  {
    SmallFits(p, size);
    hide Malloc, Align;
    SmallStep(p, Align(size), granted);
  }

  lemma ClearSound(p: Pool)
    requires Sound(p, [])
    ensures Sound(Clear(p), [])
  {
  }

  lemma Dropped(p: Pool, live: seq<Block>, k: nat)
    requires Sound(p, live) && k < |live|
    ensures Sound(p, live[..k] + live[k + 1..])
  {
    hide Inside, Disjoint;
    var rest := live[..k] + live[k + 1..];
    forall i | 0 <= i < |rest| ensures Inside(p, rest[i]) {
      assert rest[i] == live[if i < k then i else i + 1];
    }
    forall i, j | 0 <= i < j < |rest| ensures Disjoint(rest[i], rest[j]) {
      assert rest[i] == live[if i < k then i else i + 1] && rest[j] == live[if j < k then j else j + 1];
    }
  }

  lemma NoneLive(p: Pool, live: seq<Block>)
    requires Sound(p, live)
    ensures Sound(p, [])
  {
  }

  lemma NothingAsked(p: Pool, granted: bool)
    ensures Malloc(p, 0, granted) == Allocation(p, None)
  {
  }

  lemma NothingLeft(p: Pool, ptr: Pointer, o: nat, granted: bool)
    ensures Realloc(p, Some(ptr), o, 0, granted) == Allocation(p, None)
  {
  }

  lemma SmallReallocFits(p: Pool, b: Block, size: nat)
    requires Small(p) && size <= LIMIT
    ensures FitsRealloc(p, b, size)
  {
    SmallFits(p, size);
  }

  lemma SmallClear(p: Pool)
    requires Small(p)
    ensures Small(Clear(p))
  {
  }

  lemma ModestStep(s: State, op: Operation)
    requires Small(s.pool) && Modest(op)
    ensures Safe(s, op) && (Step(s, op).Some? ==> Small(Step(s, op).value.pool))
  {
    hide Small, Malloc, Realloc, Fits, FitsRealloc, Extends, Refused, Align, Clear;
    match op {
      case DoMalloc(size, granted) =>
        SmallFits(s.pool, size);
        SmallStep(s.pool, size, granted);
      case DoRealloc(k, size, granted) =>
        if k < |s.live| {
          SmallRealloc(s.pool, s.live[k].ptr, s.live[k].size, size, granted);
          SmallReallocFits(s.pool, s.live[k], size);
        }
      case DoClear => SmallClear(s.pool);
    }
  }

  lemma {:induction false} ModestRunSafe(s: State, ops: seq<Operation>)
    requires Small(s.pool) && forall k :: 0 <= k < |ops| ==> Modest(ops[k])
    ensures AlwaysSafe(s, ops)
    decreases |ops|
  {
    hide Small, Step, Safe, Modest;
    if ops != [] {
      assert Modest(ops[0]);
      ModestStep(s, ops[0]);
      if Step(s, ops[0]).Some? { ModestRunSafe(Step(s, ops[0]).value, ops[1..]); }
    }
  }

  /** A caller that stays below the limit need not look at the pool: every run is sound throughout. */
  lemma ModestRunSound(chunkCapacity: nat, buffer: Option<nat>, ops: seq<Operation>)
    requires chunkCapacity <= LIMIT && (buffer.Some? ==> HEADER < buffer.value <= LIMIT)
    requires forall k :: 0 <= k < |ops| ==> Modest(ops[k])
    ensures AlwaysSound(State(NewPool(chunkCapacity, buffer), []), ops)
  {
    hide Modest, AlwaysSound, AlwaysSafe;
    NewAllocatorSound(chunkCapacity, buffer, ops);
    ModestRunSafe(State(NewPool(chunkCapacity, buffer), []), ops);
  }

  // ---------- Requests that wrap around ----------

  lemma LargeAlign()
    ensures Align(SIZE_T - 64) == SIZE_T - 64 && Align(8) == 8 && Align(64) == 64
  {
  }

  /** A request of almost 2^64 bytes wraps around, and the next block overlaps a live one. */
  lemma LargeRequestOverlaps()
    ensures var p := Pool([Chunk(65536, 64)], 65536, false);
      var first := Block(Pointer(0, 0), 64);
      var a := Malloc(p, SIZE_T - 64, true);
      var b := Malloc(a.pool, 8, true);
      && Sound(p, [first]) && a.ptr.Some? && b.ptr == Some(Pointer(0, 0))
      && !Disjoint(first, Block(b.ptr.value, 8))
  {
    hide Align;
    LargeAlign();
    var p := Pool([Chunk(65536, 64)], 65536, false);
    var a := Malloc(p, SIZE_T - 64, true);
    assert a.pool.chunks == [Chunk(65536, 0)];
  }

  /** So does growing a block in place by almost 2^64 bytes: the chunk looks empty again. */
  lemma LargeReallocOverlaps()
    ensures var p := Pool([Chunk(65536, 128)], 65536, false);
      var first, second := Block(Pointer(0, 0), 64), Block(Pointer(0, 64), 64);
      var a := Realloc(p, Some(second.ptr), 64, SIZE_T - 64, true);
      var b := Malloc(a.pool, 8, true);
      && Sound(p, [first, second]) && a.ptr == Some(second.ptr) && !FitsRealloc(p, second, SIZE_T - 64)
      && b.ptr == Some(Pointer(0, 0)) && !Disjoint(first, Block(b.ptr.value, 8))
  {
    hide Align;
    LargeAlign();
    var p := Pool([Chunk(65536, 128)], 65536, false);
    var a := Realloc(p, Some(Pointer(0, 64)), 64, SIZE_T - 64, true);
    assert a.pool.chunks == [Chunk(65536, 0)];
  }
}
