/**
 MemoryPoolAllocator over real chunks of bytes: the methods, for requests of any size, and the copy that Realloc makes.
 */
module AllocatorMethods {
  import opened Bytes
  import opened Wrappers
  import A = Allocator

  /**
   The bytes behind the header of a chunk.  AddChunk asks the base allocator for header and capacity in one sum; where
   that wraps around there is no room behind the header.
   */
  function Backed(capacity: nat): nat { if capacity + A.HEADER < A.SIZE_T then capacity else 0 }

  class ChunkHeader {
    const capacity: nat
    var size: nat
    const data: array<byte>

    constructor (capacity: nat)
      ensures this.capacity == capacity && size == 0 && data.Length == Backed(capacity) && fresh(data)
    {
      this.capacity := capacity;
      size := 0;
      data := new byte[Backed(capacity)];
    }
  }

  class MemoryPoolAllocator {
    const chunkCapacity: nat
    const userBuffer: bool
    /** The list of chunks, chunkHead_ last. */
    var chunks: seq<ChunkHeader>

    ghost function Memory(): set<object>
      reads this
    {
      set c <- chunks :: c.data
    }

    ghost predicate Valid()
      reads this, chunks
    {
      && (forall i, j :: 0 <= i < j < |chunks| ==> chunks[i] != chunks[j] && chunks[i].data != chunks[j].data)
      && (forall i :: 0 <= i < |chunks| ==> chunks[i].data.Length == Backed(chunks[i].capacity))
    }

    function Now(): A.Pool
      reads this, chunks
    {
      var list := seq(|chunks|, i requires 0 <= i < |chunks| reads this, chunks =>
        A.Chunk(chunks[i].capacity, chunks[i].size));
      A.Pool(list, chunkCapacity, userBuffer)
    }

    constructor (chunkCapacity: nat)
      ensures Valid() && Now() == A.NewPool(chunkCapacity, None)
    {
      this.chunkCapacity := chunkCapacity;
      userBuffer := false;
      chunks := [];
    }

    /** The constructor that takes the first chunk from a buffer of the user's. */
    constructor WithBuffer(size: nat, chunkCapacity: nat)
      requires A.HEADER < size < A.SIZE_T
      ensures Valid() && Now() == A.NewPool(chunkCapacity, Some(size))
    {
      this.chunkCapacity := chunkCapacity;
      userBuffer := true;
      var first := new ChunkHeader(size - A.HEADER);
      chunks := [first];
    }

    /** The sum over the list of chunks, in a register of size_t. */
    method Size() returns (total: nat)
      ensures total == A.Wrap(SumSizes(Now().chunks))
    {
      total := 0;
      var i := |chunks|;
      while i > 0
        invariant 0 <= i <= |chunks|
        invariant total == A.Wrap(SumSizes(Now().chunks[i..]))
      {
        i := i - 1;
        assert Now().chunks[i..][1..] == Now().chunks[i + 1..];
        WrapSum(SumSizes(Now().chunks[i + 1..]), chunks[i].size);
        total := A.Wrap(total + chunks[i].size);
      }
      assert Now().chunks[0..] == Now().chunks;
    }

    method Capacity() returns (total: nat)
      ensures total == A.Wrap(SumCapacities(Now().chunks))
    {
      total := 0;
      var i := |chunks|;
      while i > 0
        invariant 0 <= i <= |chunks|
        invariant total == A.Wrap(SumCapacities(Now().chunks[i..]))
      {
        i := i - 1;
        assert Now().chunks[i..][1..] == Now().chunks[i + 1..];
        WrapSum(SumCapacities(Now().chunks[i + 1..]), chunks[i].capacity);
        total := A.Wrap(total + chunks[i].capacity);
      }
      assert Now().chunks[0..] == Now().chunks;
    }

    /** Frees the chunks from the head on, down to the buffer of the user's, which it empties. */
    method Clear()
      requires Valid()
      modifies this, chunks
      ensures Valid() && Now() == A.Clear(old(Now()))
      ensures chunks == if userBuffer && old(chunks) != [] then old(chunks)[..1] else []
      ensures forall c <- chunks :: c.size == 0
    {
      while |chunks| > 0 && !(userBuffer && |chunks| == 1)
        invariant |chunks| <= |old(chunks)| && chunks == old(chunks)[..|chunks|]
        invariant old(chunks) != [] && userBuffer ==> chunks != []
        invariant Valid()
        invariant forall c <- old(chunks) :: c.size == old(c.size)
      {
        chunks := chunks[..|chunks| - 1];
        assert forall i :: 0 <= i < |chunks| ==> Now().chunks[i] == old(Now()).chunks[i];
      }
      if |chunks| > 0 {
        assert chunks[0] == old(chunks)[0];
        chunks[0].size := 0;
        assert Now().chunks == [A.Chunk(chunks[0].capacity, 0)];
      } else {
        assert Now().chunks == [];
      }
    }

    method AddChunk(capacity: nat)
      requires Valid()
      modifies this
      ensures Valid() && Now() == A.AddChunk(old(Now()), capacity)
      ensures |chunks| == |old(chunks)| + 1 && chunks[..|old(chunks)|] == old(chunks)
      ensures fresh(chunks[|old(chunks)|]) && fresh(chunks[|old(chunks)|].data)
    {
      var before := Now();
      var chunk := new ChunkHeader(capacity);
      chunks := chunks + [chunk];
      assert Now().chunks == before.chunks + [A.Chunk(capacity, 0)];
    }

    /** Takes bytes off the head chunk; the sum is one of size_t. */
    method Bump(n: nat) returns (r: A.Pointer)
      requires Valid() && chunks != []
      modifies chunks[|chunks| - 1]
      ensures Valid() && A.Allocation(Now(), Some(r)) == A.Bump(old(Now()), n)
    {
      var before := Now();
      var head := chunks[|chunks| - 1];
      r := A.Pointer(|chunks| - 1, head.size);
      head.size := A.Wrap(head.size + n);
      assert Now().chunks == before.chunks[..|chunks| - 1] + [A.Chunk(head.capacity, head.size)];
    }

    method Malloc(size: nat, granted: bool) returns (r: Option<A.Pointer>)
      requires Valid()
      modifies this, chunks
      ensures Valid() && A.Allocation(Now(), r) == A.Malloc(old(Now()), size, granted)
      ensures |old(chunks)| <= |chunks| && chunks[..|old(chunks)|] == old(chunks)
      ensures forall i :: |old(chunks)| <= i < |chunks| ==> fresh(chunks[i]) && fresh(chunks[i].data)
    {
      hide A.Align, A.Bump;
      if size == 0 { return None; }
      var n := A.Align(size);
      if A.Full(Now(), n) {
        if !granted { return None; }
        AddChunk(if chunkCapacity > n then chunkCapacity else n);
      }
      var p := Bump(n);
      r := Some(p);
    }

    /** The bytes at a pointer. */
    ghost function Bytes(ptr: A.Pointer, n: nat): bytes
      requires ptr.chunk < |chunks| && ptr.offset + n <= chunks[ptr.chunk].data.Length
      reads this, chunks[ptr.chunk].data
    {
      chunks[ptr.chunk].data[ptr.offset..ptr.offset + n]
    }

    /** Both stretches are memory of the pool, and they are apart: memcpy is defined. */
    predicate CopyStays(from: A.Pointer, to: A.Pointer, n: nat)
      reads this, chunks
    {
      || n == 0
      || (from.chunk < |chunks| && to.chunk < |chunks|
          && from.offset + n <= chunks[from.chunk].data.Length && to.offset + n <= chunks[to.chunk].data.Length
          && (from.chunk != to.chunk || from.offset + n <= to.offset))
    }

    /** memcpy from one block to another that does not overlap it. */
    method Copy(from: A.Pointer, to: A.Pointer, n: nat)
      requires Valid() && n > 0 && CopyStays(from, to, n)
      modifies chunks[to.chunk].data
      ensures Valid() && Bytes(to, n) == old(Bytes(from, n))
      ensures var d := chunks[to.chunk].data;
              forall k :: 0 <= k < d.Length && !(to.offset <= k < to.offset + n) ==> d[k] == old(d[k])
    {
      var src, dst := chunks[from.chunk].data, chunks[to.chunk].data;
      var k := 0;
      while k < n
        invariant 0 <= k <= n
        invariant dst[to.offset..to.offset + k] == old(src[from.offset..from.offset + k])
        invariant forall j :: 0 <= j < dst.Length && !(to.offset <= j < to.offset + k) ==> dst[j] == old(dst[j])
      {
        assert src[from.offset + k] == old(src[from.offset + k]);
        dst[to.offset + k] := src[from.offset + k];
        k := k + 1;
        assert dst[to.offset..to.offset + k] == dst[to.offset..to.offset + k - 1] + [dst[to.offset + k - 1]];
        assert old(src[from.offset..from.offset + k])
            == old(src[from.offset..from.offset + k - 1]) + [old(src[from.offset + k - 1])];
      }
    }

    /** No byte of these chunks has changed, but for `n` bytes at a pointer. */
    twostate predicate Untouched(before: seq<ChunkHeader>, r: Option<A.Pointer>, n: nat)
      reads set c <- before :: c.data
    {
      forall i, k :: 0 <= i < |before| && 0 <= k < before[i].data.Length
                     && (r.None? || i != r.value.chunk || k < r.value.offset || k >= r.value.offset + n)
                     ==> before[i].data[k] == old(before[i].data[k])
    }

    /** The first bytes at a pointer now are what the bytes at the other pointer were. */
    twostate predicate Kept(before: seq<ChunkHeader>, from: A.Pointer, to: A.Pointer, n: nat)
      reads this, chunks, set c <- chunks :: c.data
    {
      n == 0
      || (from.chunk < |before| && to.chunk < |chunks|
          && from.offset + n <= before[from.chunk].data.Length && to.offset + n <= chunks[to.chunk].data.Length
          && chunks[to.chunk].data[to.offset..to.offset + n]
             == old(before[from.chunk].data[from.offset..from.offset + n]))
    }

    /** A new block for one that has to move, and the copy, if that stays inside the pool. */
    method Move(ptr: A.Pointer, originalSize: nat, newSize: nat, granted: bool)
      returns (r: Option<A.Pointer>, inside: bool)
      requires Valid() && ptr.chunk < |chunks| && ptr.offset + originalSize <= chunks[ptr.chunk].data.Length
      modifies this, chunks, Memory()
      ensures Valid() && A.Allocation(Now(), r) == A.Malloc(old(Now()), newSize, granted)
      ensures |old(chunks)| <= |chunks| && chunks[..|old(chunks)|] == old(chunks)
      ensures inside == (r.Some? ==> CopyStays(ptr, r.value, originalSize))
      ensures r.Some? && inside ==> Kept(old(chunks), ptr, r.value, originalSize)
      ensures Untouched(old(chunks), r, originalSize)
    {
      hide A.Align, A.Malloc, A.Bump;
      r := Malloc(newSize, granted);
      inside := true;
      if r.Some? {
        inside := CopyStays(ptr, r.value, originalSize);
        if originalSize > 0 && inside {
          Copy(ptr, r.value, originalSize);
        }
      }
    }

    /**
     Realloc: where the block ends up, that its bytes are kept, and that no other byte of an earlier chunk changes but
     those of a new block.  `inside` is whether the copy into a new block stays inside the pool, away from the old
     one; where it does not, the model stops before it.  For a block inside its chunk and a request that fits it does.
     */
    method Realloc(ptr: Option<A.Pointer>, originalSize: nat, newSize: nat, granted: bool)
      returns (r: Option<A.Pointer>, inside: bool)
      requires Valid()
      requires ptr.Some? ==>
                 && ptr.value.chunk < |chunks|
                 && ptr.value.offset + A.Align(originalSize) <= chunks[ptr.value.chunk].data.Length
      modifies this, chunks, Memory()
      ensures Valid() && A.Allocation(Now(), r) == A.Realloc(old(Now()), ptr, originalSize, newSize, granted)
      ensures |old(chunks)| <= |chunks| && chunks[..|old(chunks)|] == old(chunks)
      ensures ptr.Some? && r.Some? && r != ptr ==> inside == CopyStays(ptr.value, r.value, A.Align(originalSize))
      ensures (ptr.Some? && newSize > 0 && A.PoolOk(old(Now()))
               && A.Inside(old(Now()), A.Block(ptr.value, originalSize))
               && A.FitsRealloc(old(Now()), A.Block(ptr.value, originalSize), newSize)) ==> inside
      ensures ptr.Some? && r.Some? && inside ==> Kept(old(chunks), ptr.value, r.value, A.Align(originalSize))
      ensures Untouched(old(chunks), r, A.Align(originalSize))
    {
      hide A.Align, A.Malloc, A.Extends, A.FitsRealloc, A.Bump, A.PoolOk, A.Inside, A.Head, A.WithHead, A.Wrap;
      if ptr.None? {
        r := Malloc(newSize, granted);
        return r, true;
      }
      if newSize == 0 { return None, true; }
      var o, n := A.Align(originalSize), A.Align(newSize);
      if o >= n { return ptr, true; }
      if A.Extends(Now(), ptr.value, o, n) {
        ExtendHead(Now(), ptr.value, o, n);
        var _ := Bump(n - o);
        return ptr, true;
      }
      ghost var before := Now();
      r, inside := Move(ptr.value, o, n, granted);
      if r.Some? && A.PoolOk(before) && A.Inside(before, A.Block(ptr.value, originalSize))
        && A.FitsRealloc(before, A.Block(ptr.value, originalSize), newSize)
      {
        MoveStays(before, ptr.value, originalSize, newSize, granted);
      }
    }
  }

  lemma ExtendHead(p: A.Pool, ptr: A.Pointer, o: nat, n: nat)
    requires A.Extends(p, ptr, o, n)
    ensures p.chunks != [] && o < n
    ensures A.Bump(p, n - o).pool == A.WithHead(p, A.Head(p).(size := A.Wrap(A.Head(p).size + (n - o))))
  {
  }

  /** A fresh block for a request that fits lies inside the memory of its chunk, behind the block that moves. */
  lemma MoveStays(p: A.Pool, from: A.Pointer, originalSize: nat, newSize: nat, granted: bool)
    requires A.PoolOk(p) && A.Inside(p, A.Block(from, originalSize)) && newSize > 0
    requires A.FitsRealloc(p, A.Block(from, originalSize), newSize)
    requires A.Align(originalSize) < A.Align(newSize)
    requires !A.Extends(p, from, A.Align(originalSize), A.Align(newSize))
    requires A.Malloc(p, A.Align(newSize), granted).ptr.Some?
    ensures var a := A.Malloc(p, A.Align(newSize), granted);
            var to, c := a.ptr.value, a.pool.chunks[a.ptr.value.chunk];
            && to.chunk < |a.pool.chunks| && to.offset + A.Align(originalSize) <= c.capacity == Backed(c.capacity)
            && (from.chunk != to.chunk || from.offset + A.Align(originalSize) <= to.offset)
  {
    A.AlignTwice(newSize);
    hide A.Align, A.Extends;
    assert A.ChunkOk(p.chunks[from.chunk]);
    assert A.ChunkOk(A.Head(p));
  }

  lemma WrapSum(a: nat, b: nat)
    ensures A.Wrap(A.Wrap(a) + b) == A.Wrap(b + a)
  {
  }

  function SumSizes(cs: seq<A.Chunk>): nat { if cs == [] then 0 else cs[0].size + SumSizes(cs[1..]) }

  function SumCapacities(cs: seq<A.Chunk>): nat { if cs == [] then 0 else cs[0].capacity + SumCapacities(cs[1..]) }

  /** The sizes never add up to more than the capacities, nor do Size and Capacity, where these fit their registers. */
  lemma {:induction false} SizeWithinCapacity(cs: seq<A.Chunk>)
    requires forall k :: 0 <= k < |cs| ==> A.ChunkOk(cs[k])
    ensures SumSizes(cs) <= SumCapacities(cs)
    ensures SumCapacities(cs) < A.SIZE_T ==> A.Wrap(SumSizes(cs)) <= A.Wrap(SumCapacities(cs))
  {
    if cs != [] {
      assert A.ChunkOk(cs[0]);
      SizeWithinCapacity(cs[1..]);
    }
  }
}
