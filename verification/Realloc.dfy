/**
 `vrealloc` of `mem/vmalloc.c` on the heap: a new block, a copy of the old bytes, and the old block given
 back. The bytes of the blocks are a memory of their own, by address.
 */
module Realloc {
  import opened Basics
  import opened KMath
  import opened HeapSpec
  import V = VmmSpec
  import Heap

  // ---------------------------------------------------------------- the addresses of a block

  /** The first address of a block of this node, where its header is, and the first one behind it. */
  function First(n: Node, b: Blk): nat { n.SectionAt(b.start) }

  function Behind(n: Node, b: Blk): nat { n.SectionAt(b.start) + SECTION_SIZE * b.size }

  /** Blocks that do not overlap have no address in common. */
  lemma RangesApart(nodes: seq<Node>, headers: map<nat, nat>, j: nat, b: Blk, k: nat, c: Blk)
    requires Spread(nodes) && j < |nodes| && k < |nodes| && !Overlaps(b, c)
    requires Holds(nodes[j], headers, b) && Holds(nodes[k], headers, c)
    ensures Behind(nodes[j], b) <= First(nodes[k], c) || Behind(nodes[k], c) <= First(nodes[j], b)
  {
    Layout(nodes[j]);
    Layout(nodes[k]);
    if j != k {
      assert Apart(nodes[j], nodes[k]);
    }
  }

  /** The nodes that were there are there, with as many sections. */
  ghost predicate Kept(nodes: seq<Node>, more: seq<Node>) {
    |nodes| <= |more| &&
    forall i :: 0 <= i < |nodes| ==> more[i].addr == nodes[i].addr && |more[i].used| == |nodes[i].used|
  }

  lemma VmallocKeepsNodes(s: State, total: pos, mem: nat, u: State)
    requires Vmalloc(s, total) == Some((mem, u))
    ensures Kept(s.nodes, u.nodes) && |u.vmm.free| == |s.vmm.free|
  {
    if FirstNode(s.nodes, Needed(total), 0) < |s.nodes| {
      VmallocFits(s, total);
    } else if Needed(total) % UNIT != 0 {
      VmallocAddsOne(s, total);
    } else {
      VmallocAddsTwo(s, total);
    }
  }

  /** A pointer to a live block stays one while other blocks are handed out. */
  lemma PointerKept(s: State, u: State, live: set<Blk>, ptr: nat, k: nat, b: Blk)
    requires Kept(s.nodes, u.nodes) && PointsTo(s, ptr, k, b)
    requires Spread(u.nodes) && LiveHeld(u.nodes, u.headers, live) && b in live
    ensures PointsTo(u, ptr, k, b)
  {
    var j :| 0 <= j < |u.nodes| && Holds(u.nodes[j], u.headers, b);
    assert u.nodes[j].addr == u.nodes[k].addr;
  }

  // ---------------------------------------------------------------- what the copy touches

  /** The bytes that `vrealloc` copies: the size it takes counts the header too. */
  function Copied(b: Blk, newSize: nat): nat {
    if SECTION_SIZE * b.size < newSize then SECTION_SIZE * b.size else newSize
  }

  /**
   The copy stays inside the new block, does not overlap its source, and touches no byte of any
   other live block.
   */
  lemma CopyIsSafe(u: State, live: set<Blk>, j: nat, c: Blk, newPtr: nat, n: nat, k: nat, b: Blk)
    requires Inv(u, live) && c in live && PointsTo(u, newPtr, j, c) && n + SECTION_SIZE <= SECTION_SIZE * c.size
    requires b in live && b != c && k < |u.nodes| && Holds(u.nodes[k], u.headers, b)
    ensures newPtr + n <= Behind(u.nodes[j], c)
    ensures Behind(u.nodes[k], b) <= newPtr - SECTION_SIZE || newPtr + n <= First(u.nodes[k], b)
  {
    RangesApart(u.nodes, u.headers, j, c, k, b);
  }

  /**
   The bytes copied fit the new block exactly if adding the header to the new size does not wrap, or the
   new block is larger than the old one all the same.
   */
  lemma CopyFitsExactly(b: Blk, c: Blk, newSize: nat)
    requires newSize < U64_LIMIT && Needed(Total(newSize)) <= c.size && SECTION_SIZE * b.size < U64_LIMIT - SECTION_SIZE
    ensures Copied(b, newSize) + SECTION_SIZE <= SECTION_SIZE * c.size <==>
            newSize < U64_LIMIT - SECTION_SIZE || b.size < c.size
  {
  }

  // ---------------------------------------------------------------- the bytes

  function ByteAt(bytes: map<nat, Byte>, a: nat): Byte {
    if a in bytes then bytes[a] else Byte(0)
  }

  /** `n` bytes from `src` on have been copied to `dst`, and no other byte has changed. */
  ghost predicate CopiedBytes(before: map<nat, Byte>, after: map<nat, Byte>, dst: nat, src: nat, n: nat) {
    forall a: nat :: ByteAt(after, a) == ByteAt(before, if dst <= a < dst + n then src + (a - dst) else a)
  }

  /** The address lies in block `d`, which lies in node `j`. */
  ghost predicate InBlock(s: State, j: nat, d: Blk, a: nat) {
    j < |s.nodes| && Holds(s.nodes[j], s.headers, d) && First(s.nodes[j], d) <= a < Behind(s.nodes[j], d)
  }

  /** Every live block but `b` has the bytes it had. */
  ghost predicate OthersKept(s: State, live: set<Blk>, b: Blk, before: map<nat, Byte>, after: map<nat, Byte>) {
    forall d, j, a: nat :: d in live && d != b && InBlock(s, j, d, a) ==> ByteAt(after, a) == ByteAt(before, a)
  }

  lemma CopyKeepsOthers(u: State, live: set<Blk>, b: Blk, j: nat, c: Blk, newPtr: nat, n: nat,
                        before: map<nat, Byte>, after: map<nat, Byte>, src: nat)
    requires Inv(u, live) && c in live && PointsTo(u, newPtr, j, c)
    requires n + SECTION_SIZE <= SECTION_SIZE * c.size
    requires CopiedBytes(before, after, newPtr, src, n)
    ensures OthersKept(u, live - {c}, b, before, after)
  {
    forall d, l, a: nat | d in live - {c} && d != b && InBlock(u, l, d, a)
      ensures ByteAt(after, a) == ByteAt(before, a)
    {
      CopyIsSafe(u, live, j, c, newPtr, n, l, d);
    }
  }

  lemma CopyStep(before: map<nat, Byte>, mid: map<nat, Byte>, dst: nat, src: nat, i: nat)
    requires CopiedBytes(before, mid, dst, src, i) && (dst + i < src || src + i < dst)
    ensures CopiedBytes(before, mid[dst + i := ByteAt(mid, src + i)], dst, src, i + 1)
  {
    var after := mid[dst + i := ByteAt(mid, src + i)];
    forall a: nat
      ensures ByteAt(after, a) == ByteAt(before, if dst <= a < dst + i + 1 then src + (a - dst) else a)
    {
      assert a != dst + i ==> ByteAt(after, a) == ByteAt(mid, a);
      assert ByteAt(mid, src + i) == ByteAt(before, src + i);
    }
  }

  class Memory {
    var bytes: map<nat, Byte>

    /** `memcpy`, byte by byte, on ranges that do not overlap. */
    method Copy(dst: nat, src: nat, n: nat)
      requires dst + n <= src || src + n <= dst
      modifies this
      ensures CopiedBytes(old(bytes), bytes, dst, src, n)
    {
      var i := 0;
      while i < n
        invariant 0 <= i <= n && CopiedBytes(old(bytes), bytes, dst, src, i)
      {
        CopyStep(old(bytes), bytes, dst, src, i);
        bytes := bytes[dst + i := ByteAt(bytes, src + i)];
        i := i + 1;
      }
    }
  }

  // ---------------------------------------------------------------- vrealloc

  /** What a call that returns `newPtr` promises, the heap having been `u` between `vmalloc` and `vfree`. */
  ghost predicate Reallocated(live: set<Blk>, b: Blk, ptr: nat, newSize: nat, newPtr: nat, u: State, c: Blk,
                              t: State, before: map<nat, Byte>, after: map<nat, Byte>) {
    && c !in live && newSize + SECTION_SIZE <= SECTION_SIZE * c.size
    && |u.vmm.free| > 0 && Vfree(u, ptr) == Some(t) && Inv(t, live + {c} - {b})
    && CopiedBytes(before, after, newPtr, ptr, Copied(b, newSize))
    && OthersKept(u, live, b, before, after)
  }

  /** The value of the call: the new block is live, the old one is not, and every other block is as it was. */
  lemma VreallocKeeps(s: State, live: set<Blk>, ptr: nat, k: nat, b: Blk, newSize: nat, newPtr: nat, u: State)
    returns (c: Blk, j: nat)
    requires Inv(s, live) && b in live && PointsTo(s, ptr, k, b) && V.Spare(s.vmm) && |s.vmm.free| > 1
    requires newSize < U64_LIMIT - SECTION_SIZE
    requires Vmalloc(s, Total(newSize)) == Some((newPtr, u)) && Ends(s.nodes, Total(newSize))
    ensures Between(u, live, ptr, k, b, newPtr, j, c, newSize) && V.Spare(u.vmm)
    ensures |u.vmm.free| > 1 && Vfree(u, ptr).Some? && Inv(Vfree(u, ptr).value, live + {c} - {b})
  {
    c, j := VmallocKeeps(s, live, Total(newSize), newPtr, u);
    RoomExactly(newSize);
    VmallocKeepsNodes(s, Total(newSize), newPtr, u);
    PointerKept(s, u, live + {c}, ptr, k, b);
    VfreeKeeps(u, live + {c}, k, b);
  }

  /** Between `vmalloc` and `vfree`: both blocks are live, and the new one has room. */
  ghost predicate Between(u: State, live: set<Blk>, ptr: nat, k: nat, b: Blk,
                          newPtr: nat, j: nat, c: Blk, newSize: nat) {
    && Inv(u, live + {c}) && b in live && PointsTo(u, ptr, k, b)
    && c !in live && PointsTo(u, newPtr, j, c) && newSize + SECTION_SIZE <= SECTION_SIZE * c.size
  }

  /** The copy of `vrealloc` from block `b` to block `c`. */
  method CopyBlock(memory: Memory, ptr: nat, newPtr: nat, oldSize: nat, newSize: nat,
                   ghost u: State, ghost live: set<Blk>, ghost k: nat, ghost b: Blk, ghost j: nat, ghost c: Blk)
    requires Between(u, live, ptr, k, b, newPtr, j, c, newSize) && oldSize == SECTION_SIZE * b.size
    modifies memory
    ensures CopiedBytes(old(memory.bytes), memory.bytes, newPtr, ptr, Copied(b, newSize))
    ensures OthersKept(u, live, b, old(memory.bytes), memory.bytes)
  {
    ghost var before := memory.bytes;
    var n := if oldSize < newSize then oldSize else newSize;
    assert newPtr + n <= ptr || ptr + n <= newPtr by {
      CopyIsSafe(u, live + {c}, j, c, newPtr, n, k, b);
    }
    memory.Copy(newPtr, ptr, n);
    CopyKeepsOthers(u, live + {c}, b, j, c, newPtr, n, before, memory.bytes, ptr);
    assert live + {c} - {c} == live;
  }

  /** The size in the header of a block, in bytes. */
  method BlockSize(heap: Heap.KernelHeap, ptr: nat, ghost k: nat, ghost b: Blk) returns (size: nat)
    requires PointsTo(heap.Abs(), ptr, k, b)
    ensures size == SECTION_SIZE * b.size
  {
    size := heap.headers[ptr - SECTION_SIZE] * SECTION_SIZE;
  }

  /** The first half of `vrealloc`: the new block beside the old one. */
  method NewBlock(heap: Heap.KernelHeap, ghost ptr: nat, newSize: nat,
                  ghost live: set<Blk>, ghost k: nat, ghost b: Blk, ghost rounds: nat)
    returns (r: Outcome, ghost j: nat, ghost c: Blk)
    requires heap.Valid() && newSize < U64_LIMIT - SECTION_SIZE && Ready(heap.Abs(), Total(newSize), rounds)
    requires Inv(heap.Abs(), live) && b in live && PointsTo(heap.Abs(), ptr, k, b)
    modifies heap.Repr
    ensures heap.Valid() && forall o :: o in heap.Repr ==> o in old(heap.Repr) || fresh(o)
    ensures Gives(old(heap.Abs()), Total(newSize), r, heap.Abs())
    ensures r.Returned? ==>
              && Between(heap.Abs(), live, ptr, k, b, r.mem, j, c, newSize) && V.Spare(heap.vmm.Abs())
              && |heap.Abs().vmm.free| > 0 && Vfree(heap.Abs(), ptr).Some?
              && Inv(Vfree(heap.Abs(), ptr).value, live + {c} - {b})
  {
    ghost var s := heap.Abs();
    j, c := 0, b;
    r := heap.Vmalloc(newSize, rounds);
    if r.Returned? {
      c, j := VreallocKeeps(s, live, ptr, k, b, newSize, r.mem, heap.Abs());
    }
  }

  /** The `vfree` of `vrealloc`, which does not panic. */
  method FreeOld(heap: Heap.KernelHeap, ptr: nat, ghost u: State, ghost k: nat, ghost b: Blk)
    requires heap.Valid() && heap.Abs() == u && V.Spare(u.vmm) && Spread(u.nodes) && PointsTo(u, ptr, k, b)
    requires |u.vmm.free| > 0 && Vfree(u, ptr).Some?
    modifies heap.Repr
    ensures heap.Valid() && Vfree(u, ptr) == Some(heap.Abs())
  {
    var ok := heap.Vfree(ptr, k, b);
  }

  /** The second half of `vrealloc`: the bytes are copied and the old block is given back. */
  method CopyAndFree(heap: Heap.KernelHeap, memory: Memory, ptr: nat, newPtr: nat, oldSize: nat, newSize: nat,
                     ghost u: State, ghost live: set<Blk>, ghost k: nat, ghost b: Blk, ghost j: nat, ghost c: Blk)
    requires heap.Valid() && memory !in heap.Repr && heap.Abs() == u && V.Spare(u.vmm)
    requires Between(u, live, ptr, k, b, newPtr, j, c, newSize) && oldSize == SECTION_SIZE * b.size
    requires |u.vmm.free| > 0 && Vfree(u, ptr).Some?
    modifies heap.Repr, memory
    ensures heap.Valid() && Vfree(u, ptr) == Some(heap.Abs())
    ensures CopiedBytes(old(memory.bytes), memory.bytes, newPtr, ptr, Copied(b, newSize))
    ensures OthersKept(u, live, b, old(memory.bytes), memory.bytes)
  {
    assert Spread(u.nodes) && PointsTo(u, ptr, k, b);
    CopyBlock(memory, ptr, newPtr, oldSize, newSize, u, live, k, b, j, c);
    FreeOld(heap, ptr, u, k, b);
  }

  /**
   `vrealloc` of a pointer to a live block. It goes as the `vmalloc` in it goes, which leaves the heap `u`;
   if that returns, the new block starts with the old bytes and no other live block has changed.
   */
  method Vrealloc(heap: Heap.KernelHeap, memory: Memory, ptr: nat, newSize: nat,
                  ghost live: set<Blk>, ghost k: nat, ghost b: Blk, ghost rounds: nat)
    returns (r: Outcome, ghost u: State, ghost c: Blk)
    requires heap.Valid() && memory !in heap.Repr
    requires newSize < U64_LIMIT - SECTION_SIZE && Ready(heap.Abs(), Total(newSize), rounds)
    requires Inv(heap.Abs(), live) && b in live && PointsTo(heap.Abs(), ptr, k, b)
    modifies heap.Repr, memory
    ensures Gives(old(heap.Abs()), Total(newSize), r, u)
    ensures r.Returned? ==>
              && heap.Valid()
              && Reallocated(live, b, ptr, newSize, r.mem, u, c, heap.Abs(), old(memory.bytes), memory.bytes)
  {
    var oldSize := BlockSize(heap, ptr, k, b);
    ghost var j;
    r, j, c := NewBlock(heap, ptr, newSize, live, k, b, rounds);
    u := heap.Abs();
    if r.Returned? {
      CopyAndFree(heap, memory, ptr, r.mem, oldSize, newSize, u, live, k, b, j, c);
    }
  }

  /**
   What a growable list relies on: the bytes in use at the start of the old block are at the start of the
   new one, as far as it is asked to reach, and the new block has room for all it was asked for.
   */
  lemma PrefixKept(live: set<Blk>, b: Blk, ptr: nat, newSize: nat, newPtr: nat, u: State, c: Blk,
                   t: State, before: map<nat, Byte>, after: map<nat, Byte>, inUse: nat, i: nat)
    requires Reallocated(live, b, ptr, newSize, newPtr, u, c, t, before, after)
    requires inUse + SECTION_SIZE <= SECTION_SIZE * b.size && i < inUse && i < newSize
    ensures ByteAt(after, newPtr + i) == ByteAt(before, ptr + i)
    ensures newSize + SECTION_SIZE <= SECTION_SIZE * c.size
  {
  }
}
