/**
 The kernel heap of `mem/vmalloc.c`: the node list, the block headers and the range allocator below.
 Each method computes the step of `HeapSpec` of the same name. A panic is an `ok` that is false.
 */
module Heap {
  import opened Basics
  import opened Bitmap
  import opened KMath
  import opened HeapSpec
  import V = VmmSpec
  import Vmm
  import NodeList

  class KernelHeap {
    const vmm: Vmm.RangeAllocator
    const list: NodeList.List
    /** The block headers stored in the data, by address. */
    var headers: map<nat, nat>

    ghost var Repr: set<object>

    ghost predicate Valid()
      reads this, Repr
    {
      && {this, vmm, list} <= Repr
      && vmm.Repr <= Repr && list.Repr <= Repr
      && this !in vmm.Repr && this !in list.Repr && vmm.Repr !! list.Repr
      && vmm.Valid() && list.Valid()
    }

    ghost function Abs(): State
      reads this, vmm.free, vmm.blocks, list
    {
      State(vmm.Abs(), list.contents, headers)
    }

    /** A heap over a range allocator, before `vmalloc_init`. */
    constructor (vmm: Vmm.RangeAllocator)
      requires vmm.Valid()
      ensures this.vmm == vmm && Valid() && fresh(Repr - vmm.Repr)
      ensures Abs() == State(vmm.Abs(), [], map[])
    {
      var nodes := new NodeList.List();
      this.vmm, list, headers := vmm, nodes, map[];
      Repr := {this} + vmm.Repr + nodes.Repr;
    }

    /** The pages of a new node. */
    method Reserve(pages: nat) returns (ok: bool, addr: nat)
      requires Valid() && V.Spare(vmm.Abs())
      modifies Repr
      ensures Valid() && fresh(Repr - old(Repr))
      ensures list.contents == old(list.contents) && headers == old(headers)
      ensures match V.Alloc(old(vmm.Abs()), pages)
              case None => !ok && vmm.Abs() == old(vmm.Abs())
              case Some((start, next)) => ok && addr == start && vmm.Abs() == next
    {
      V.SpareLinks(vmm.Abs());
      ok, addr := vmm.Alloc(pages);
      assert list.Valid() && vmm.Repr !! list.Repr;
      Absorb();
    }

    /** The new node at the end of the list. */
    method AppendNode(addr: nat, sections: nat)
      requires Valid() && sections % 8 == 0
      modifies list.Repr, this`Repr
      ensures Valid() && fresh(Repr - old(Repr))
      ensures Abs() == State(old(vmm.Abs()), old(list.contents) + [Node(addr, seq(sections, _ => false))], old(headers))
    {
      list.Append(addr, sections);
      assert vmm.Valid() && vmm.Repr !! list.Repr;
      Absorb();
    }

    /** `add_block`. */
    method AddBlock(sections: nat) returns (ok: bool)
      requires Valid() && V.Spare(vmm.Abs()) && sections % 8 == 0
      modifies Repr
      ensures Valid() && fresh(Repr - old(Repr))
      ensures match HeapSpec.AddBlock(old(Abs()), sections)
              case None => !ok
              case Some(t) => ok && Abs() == t
    {
      var addr;
      ok, addr := Reserve(PagesFor(sections));
      if ok {
        ghost var reserved := Repr;
        AppendNode(addr, sections);
        assert Repr - old(Repr) <= (Repr - reserved) + (reserved - old(Repr));
      }
    }

    /** Takes over the objects that the parts have come to own. */
    ghost method Absorb()
      requires {this, vmm, list} <= Repr
      requires this !in vmm.Repr && this !in list.Repr && vmm.Repr !! list.Repr
      requires vmm.Valid() && list.Valid()
      modifies this`Repr
      ensures Valid() && Repr == old(Repr) + vmm.Repr + list.Repr
    {
      Repr := Repr + vmm.Repr + list.Repr;
    }

    /** Stores a block's header and marks its sections: the end of a successful `vmalloc`. */
    method HandOutRun(node: NodeList.HeapNode, ghost k: nat, start: nat, need: nat) returns (mem: nat)
      requires Valid() && k < |list.nodes| && node == list.nodes[k] && ShapeOk(list.contents[k])
      requires need > 0 && start + need <= |list.contents[k].used| && Markable(start, need)
      modifies Repr
      ensures Valid() && Repr == old(Repr) && (mem, Abs()) == HandOut(old(Abs()), k, start, need)
    {
      assert NodeList.Is(node, list.contents[k]);
      list.MarkIn(node, k, start, need, true);
      var addr := node.addr + NODE_HEADER + CeilDiv(node.bitmapSize, 8) + start * SECTION_SIZE;
      headers := headers[addr := need];
      mem := addr + SECTION_SIZE;
    }

    /** The end of a round of `vmalloc` in which nothing fits: a node for the request. */
    method Grow(total: pos, ghost rounds: nat) returns (ok: bool)
      requires Valid() && Ready(Abs(), total, rounds)
      requires FirstNode(list.contents, Needed(total), 0) == |list.contents|
      modifies Repr
      ensures Valid() && forall o :: o in Repr ==> o in old(Repr) || fresh(o)
      ensures ok ==> rounds > 0 && Ready(Abs(), total + SECTION_SIZE, rounds - 1)
      ensures ok ==> forall r, u :: Gives(Abs(), total + SECTION_SIZE, r, u) ==> Gives(old(Abs()), total, r, u)
      ensures !ok ==> Gives(old(Abs()), total, Panicked, Abs())
    {
      ghost var s := Abs();
      var numPages := CeilDiv(total, 4032);
      UnitsAreBytes(numPages);
      ok := AddBlock(numPages * UNIT);
      if ok {
        RetryReady(s, total, rounds, Abs());
        GivesRetry(s, total, Abs());
      } else {
        GivesPanic(s, total, Abs());
      }
    }

    /** The scan of `vmalloc` over the nodes there are. */
    method TryNodes(total: pos) returns (r: Outcome)
      requires Valid() && Shaped(list.contents)
      modifies Repr
      ensures Valid() && Repr == old(Repr)
      ensures r.NotYet? <==> FirstNode(old(list.contents), Needed(total), 0) == |old(list.contents)|
      ensures if r.NotYet? then Abs() == old(Abs()) else Gives(old(Abs()), total, r, Abs())
    {
      var need := CeilDiv(total, SECTION_SIZE);
      var node, start, k := list.FindFit(need);
      if node == null {
        return NotYet;
      }
      VmallocFits(Abs(), total);
      if !Markable(start, need) {
        return Hangs;
      }
      var mem := HandOutRun(node, k, start, need);
      return Returned(mem);
    }

    /**
     `vmalloc`, with its recursive retry. It hands out the block of the step, or panics for lack of
     memory, or never returns where `Ends` does not hold.
     */
    method Vmalloc(size: nat, ghost rounds: nat) returns (r: Outcome)
      requires Valid() && size < U64_LIMIT && Total(size) > 0 && Ready(Abs(), Total(size), rounds)
      modifies Repr
      ensures Valid() && forall o :: o in Repr ==> o in old(Repr) || fresh(o)
      ensures Gives(old(Abs()), Total(size), r, Abs())
      decreases rounds, 2
    {
      var total := AddHeader(size);
      r := Serve(total, rounds);
    }

    /** The sum of a size and the block header, in 64 bits. */
    static method AddHeader(size: nat) returns (total: nat)
      requires size < U64_LIMIT
      ensures total == Total(size)
    {
      total := (size + SECTION_SIZE) % U64_LIMIT;
    }

    /** `vmalloc` once the header has been added. */
    method Serve(total: pos, ghost rounds: nat) returns (r: Outcome)
      requires Valid() && Ready(Abs(), total, rounds)
      modifies Repr
      ensures Valid() && forall o :: o in Repr ==> o in old(Repr) || fresh(o)
      ensures Gives(old(Abs()), total, r, Abs())
      decreases rounds, 1
    {
      r := TryNodes(total);
      if r.NotYet? {
        r := Retry(total, rounds);
      }
    }

    /** The rest of a call in which nothing fits: a new node, and the call again for the size with its header. */
    method Retry(total: pos, ghost rounds: nat) returns (r: Outcome)
      requires Valid() && Ready(Abs(), total, rounds)
      requires FirstNode(list.contents, Needed(total), 0) == |list.contents|
      modifies Repr
      ensures Valid() && forall o :: o in Repr ==> o in old(Repr) || fresh(o)
      ensures Gives(old(Abs()), total, r, Abs())
      decreases rounds, 0
    {
      RetryWrapsNot(Abs(), total, rounds);
      var ok := Grow(total, rounds);
      if !ok {
        return Panicked;
      }
      r := Vmalloc(total, rounds - 1);
    }

    /** `release_if_unused`: the assertion in it never fails, and the head stays. */
    method ReleaseIfUnused(prev: NodeList.HeapNode, node: NodeList.HeapNode, ghost k: nat) returns (ok: bool)
      requires Valid() && V.Spare(vmm.Abs()) && k < |list.nodes| && node == list.nodes[k] && node.addr > 0
      requires prev == list.nodes[if k == 0 then 0 else k - 1]
      modifies Repr
      ensures Valid() && Repr == old(Repr)
      ensures match Release(old(Abs()), k)
              case None => !ok
              case Some(t) => ok && Abs() == t
      ensures if k > 0 && true !in old(list.contents)[k].used
              then list.contents == old(list.contents)[..k] + old(list.contents)[k + 1..] && headers == old(headers)
              else ok && Abs() == old(Abs())
    {
      if prev == node {
        return true;
      }
      assert prev.next == node;
      var unused := list.IsUnused(node, k);
      if !unused {
        return true;
      }
      ok := Drop(prev, node, k);
    }

    /** Takes an unused node out of the list and gives its pages back. */
    method Drop(prev: NodeList.HeapNode, node: NodeList.HeapNode, ghost k: nat) returns (ok: bool)
      requires Valid() && V.Spare(vmm.Abs()) && node.addr > 0
      requires 0 < k < |list.nodes| && node == list.nodes[k] && prev == list.nodes[k - 1]
      modifies Repr
      ensures Valid() && Repr == old(Repr) && headers == old(headers)
      ensures list.contents == Without(old(list.contents), k)
      ensures match V.Free(old(vmm.Abs()), old(list.contents)[k].addr)
              case None => !ok
              case Some(v) => ok && vmm.Abs() == v
    {
      ghost var nodes, v := list.contents, vmm.Abs();
      assert NodeList.Is(node, nodes[k]);
      list.Unlink(prev, node, k);
      assert vmm.Valid() && vmm.Abs() == v;
      V.SpareLinks(v);
      ok := vmm.Free(node.addr);
      assert list.Valid() && list.contents == Without(nodes, k);
    }

    /** `vfree` of the pointer to a block. */
    method Vfree(mem: nat, ghost k: nat, ghost b: Blk) returns (ok: bool)
      requires Valid() && V.Spare(vmm.Abs()) && Spread(list.contents) && PointsTo(Abs(), mem, k, b)
      modifies Repr
      ensures Valid() && Repr == old(Repr)
      ensures match HeapSpec.Vfree(old(Abs()), mem)
              case None => !ok
              case Some(t) => ok && Abs() == t
      ensures forall live :: Inv(old(Abs()), live) && b in live && |old(vmm.Abs()).free| > 1 ==>
                ok && Inv(Abs(), live - {b}) && FreedExactly(old(Abs()), live, k, b, Abs())
    {
      ghost var s := Abs();
      var h := mem - SECTION_SIZE;
      var size := headers[h];
      assert h == s.nodes[k].SectionAt(b.start) && size == b.size && ShapeOk(s.nodes[k]);
      var prev, cur, start := Locate(h, k, b);
      ClearRun(cur, k, start, size);
      assert HeapSpec.Vfree(s, mem) == Release(Abs(), k) by {
        VfreeFinds(s, k, b);
      }
      ok := ReleaseIfUnused(prev, cur, k);
      forall live | Inv(s, live) && b in live && |s.vmm.free| > 1
        ensures ok && Inv(Abs(), live - {b}) && FreedExactly(s, live, k, b, Abs())
      {
        VfreeKeeps(s, live, k, b);
        VfreeReleasesExactly(s, live, k, b);
      }
    }

    /** The node that holds the header at `h`, the node before it, and the section of the header. */
    method Locate(h: nat, ghost k: nat, ghost b: Blk)
      returns (prev: NodeList.HeapNode, cur: NodeList.HeapNode, start: nat)
      requires Valid() && Spread(list.contents) && PointsTo(Abs(), h + SECTION_SIZE, k, b)
      ensures cur == list.nodes[k] && prev == list.nodes[if k == 0 then 0 else k - 1] && start == b.start
      ensures cur.addr > 0
    {
      OwnerIsUnique(list.contents, headers, k, b);
      var p, c, j := list.FindOwner(h);
      assert NodeList.Is(c, list.contents[k]);
      prev, cur := p, c;
      start := (h - (cur.addr + NODE_HEADER + CeilDiv(cur.bitmapSize, 8))) / SECTION_SIZE;
    }

    method ClearRun(node: NodeList.HeapNode, ghost k: nat, start: nat, size: nat)
      requires Valid() && k < |list.nodes| && node == list.nodes[k] && ShapeOk(list.contents[k])
      requires size > 0 && start + size <= |list.contents[k].used| && Markable(start, size)
      modifies list.Repr
      ensures Valid() && list.Repr == old(list.Repr) && list.nodes == old(list.nodes)
      ensures Abs() == State(old(vmm.Abs()), MarkNode(old(list.contents), k, start, size, false), old(headers))
    {
      list.MarkIn(node, k, start, size, false);
    }
  }
}
