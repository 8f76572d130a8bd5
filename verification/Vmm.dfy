/**
 The virtual range allocator of `mem/vmm.c`: both lists together. Each method computes the step of
 `VmmSpec` of the same name. The physical frames that the source maps and unmaps along the way are
 not part of this model.
 */
module Vmm {
  import opened VmmSpec
  import FreeList
  import BlockList

  class RangeAllocator {
    const free: FreeList.List
    const blocks: BlockList.List

    ghost var Repr: set<object>

    ghost predicate Valid()
      reads this, Repr
    {
      && {this, free, blocks} <= Repr && free.Repr <= Repr && blocks.Repr <= Repr
      && this !in free.Repr && this !in blocks.Repr && free.Repr !! blocks.Repr
      && free.Valid() && blocks.Valid()
    }

    ghost function Abs(): State
      reads free, blocks
    {
      State(free.free, blocks.blocks)
    }

    /** `vmm_init`. */
    constructor ()
      ensures Valid() && fresh(Repr) && Abs() == Init()
    {
      var freeList := new FreeList.List();
      var blockList := new BlockList.List();
      free, blocks := freeList, blockList;
      Repr := {this} + freeList.Repr + blockList.Repr;
    }

    /**
     `vmm_alloc`; `ok` is false where the source panics for lack of memory. The list of free extents
     is well formed afterwards exactly where `AllocLinks` says so.
     */
    method Alloc(pages: nat) returns (ok: bool, mem: nat)
      requires Valid()
      modifies Repr
      ensures fresh(Repr - old(Repr))
      ensures Valid() <==> AllocLinks(old(Abs()), pages)
      ensures AllocLinks(old(Abs()), pages) ==>
                match VmmSpec.Alloc(old(Abs()), pages)
                case None => !ok && Abs() == old(Abs())
                case Some((start, next)) => ok && mem == start && Abs() == next
      ensures !AllocLinks(old(Abs()), pages) ==> free.tail == old(free.tail) && free.tail.next == free.tail
    {
      var request := Request(pages);
      var cur, k := free.FindFit(request);
      if cur == null {
        ok, mem := false, 0;
      } else {
        ok, mem := true, cur.start;
        free.TakeFrom(cur, k, request);
        assert blocks.Valid() && blocks.blocks == old(blocks.blocks);
        blocks.AddBlock(mem, pages);
        Repr := Repr + blocks.Repr;
      }
    }

    /**
     `vmm_free`; `ok` is false where the source panics because the address is not recorded. Where
     `FreeLinks` does not hold, a node that was in the list no longer fits into any list.
     */
    method Free(mem: nat) returns (ok: bool)
      requires Valid()
      modifies Repr
      ensures Repr == old(Repr)
      ensures FreeLinks(old(Abs()), mem) ==>
                && Valid()
                && match VmmSpec.Free(old(Abs()), mem)
                   case None => !ok && Abs() == old(Abs())
                   case Some(next) => ok && Abs() == next
      ensures !FreeLinks(old(Abs()), mem) ==> FreeList.Bad(old(free.tail))
    {
      ghost var s, k := Abs(), Lookup(blocks.blocks, mem, 0);
      var pages;
      ok, pages := blocks.FindAndRemove(mem);
      assert free.Valid() && free.free == s.free;
      if ok {
        var end := mem + Request(pages);
        assert Extent(mem, end - mem) == Extent(mem, s.blocks[k].Bytes());
        free.GiveBackBlock(mem, end);
        assert blocks.Valid() && blocks.blocks == s.blocks[k := NO_BLOCK];
      }
    }
  }
}
