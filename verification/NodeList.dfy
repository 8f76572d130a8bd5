/** The list of heap nodes of `mem/vmalloc.c`, with their bitmaps; header, bitmap and data are separate objects. */
module NodeList {
  import opened Basics
  import opened KMath
  import opened Bitmap
  import opened HeapSpec

  class HeapNode {
    const addr: nat
    const bitmapSize: nat
    const totalSize: nat
    const mem: array<Byte>
    var next: HeapNode?

    /** The fields that `add_block` fills in, with a zeroed bitmap. */
    constructor (addr: nat, sections: nat)
      requires sections % 8 == 0
      ensures next == null && this.addr == addr && bitmapSize == sections
      ensures totalSize == sections * SECTION_SIZE + CeilDiv(sections, 8)
      ensures fresh(mem) && Shows(mem[..], seq(sections, _ => false))
    {
      var bitmapBytes := CeilDiv(sections, 8);
      this.addr := addr;
      bitmapSize := sections;
      totalSize := sections * SECTION_SIZE + bitmapBytes;
      var bytes := new Byte[bitmapBytes];
      for i := 0 to bitmapBytes
        invariant forall j :: 0 <= j < i ==> bytes[j] == Byte(0)
      {
        bytes[i] := Byte(0);
      }
      mem := bytes;
      next := null;
      new;
      forall i | 0 <= i < sections
        ensures !Bit(mem[..], i)
      {
        ZeroByte(mem[i / 8]);
      }
    }
  }

  /** The object is this node of the model. */
  ghost predicate Is(node: HeapNode, n: Node)
    reads node.mem
  {
    && node.addr == n.addr && node.bitmapSize == |n.used| && node.totalSize == n.TotalSize()
    && Shows(node.mem[..], n.used)
  }

  /** Links that skip node `k` are those of the list without it. */
  lemma SkippedLinks(nodes: seq<HeapNode>, k: nat)
    requires 0 < k < |nodes| && nodes[k - 1].next == if k == |nodes| - 1 then null else nodes[k + 1]
    requires forall i {:trigger nodes[i].next} :: 0 <= i < |nodes| && i != k - 1 ==>
               nodes[i].next == if i == |nodes| - 1 then null else nodes[i + 1]
    ensures var r := Without(nodes, k);
            forall i {:trigger r[i].next} :: 0 <= i < |r| ==> r[i].next == if i == |r| - 1 then null else r[i + 1]
  {
    var r := Without(nodes, k);
    forall i | 0 <= i < |r|
      ensures r[i].next == if i == |r| - 1 then null else r[i + 1]
    {
      assert r[i] == nodes[if i < k then i else i + 1];
    }
  }

  class List {
    var head: HeapNode?
    var tail: HeapNode?
    ghost var nodes: seq<HeapNode>
    ghost var contents: seq<Node>
    ghost var Repr: set<object>

    ghost predicate Linked()
      reads this, nodes
    {
      && (nodes == [] ==> head == null && tail == null)
      && (nodes != [] ==> head == nodes[0] && tail == nodes[|nodes| - 1])
      && (forall i {:trigger nodes[i].next} :: 0 <= i < |nodes| ==>
            nodes[i].next == if i == |nodes| - 1 then null else nodes[i + 1])
    }

    ghost predicate Valid()
      reads this, Repr
    {
      && this in Repr
      && |contents| == |nodes|
      && (forall i :: 0 <= i < |nodes| ==> nodes[i] in Repr && nodes[i].mem in Repr)
      && (forall i, j :: 0 <= i < j < |nodes| ==> nodes[i] != nodes[j] && nodes[i].mem != nodes[j].mem)
      && Linked()
      && (forall i :: 0 <= i < |nodes| ==> Is(nodes[i], contents[i]))
    }

    constructor ()
      ensures Valid() && fresh(Repr) && contents == []
    {
      head, tail, nodes, contents, Repr := null, null, [], [], {this};
    }

    /** Links a new node behind the last one. */
    method LinkLast(node: HeapNode)
      requires Valid() && node.next == null && node !in nodes
      modifies this`head, this`tail, nodes`next
      ensures head == (nodes + [node])[0] && tail == node && node.next == null
      ensures forall i {:trigger nodes[i].next} :: 0 <= i < |nodes| ==> nodes[i].next == (nodes + [node])[i + 1]
    {
      if head == null && tail == null {
        head := node;
        tail := node;
      } else {
        tail.next := node;
        tail := node;
      }
    }

    /** Records the node that has been linked. */
    ghost method Adopt(node: HeapNode, n: Node)
      requires this in Repr && |contents| == |nodes|
      requires forall i :: 0 <= i < |nodes| ==> nodes[i] in Repr && nodes[i].mem in Repr && Is(nodes[i], contents[i])
      requires forall i, j :: 0 <= i < j < |nodes| ==> nodes[i] != nodes[j] && nodes[i].mem != nodes[j].mem
      requires node !in Repr && node.mem !in Repr && Is(node, n)
      requires head == (nodes + [node])[0] && tail == node && node.next == null
      requires forall i {:trigger nodes[i].next} :: 0 <= i < |nodes| ==> nodes[i].next == (nodes + [node])[i + 1]
      modifies this`nodes, this`contents, this`Repr
      ensures Valid() && Repr == old(Repr) + {node, node.mem} && contents == old(contents) + [n]
    {
      nodes, contents := nodes + [node], contents + [n];
      Repr := Repr + {node, node.mem};
    }

    /** The part of `add_block` after the pages have been found. */
    method Append(addr: nat, sections: nat)
      requires Valid() && sections % 8 == 0
      modifies Repr
      ensures Valid() && fresh(Repr - old(Repr))
      ensures contents == old(contents) + [Node(addr, seq(sections, _ => false))]
    {
      var node := new HeapNode(addr, sections);
      LinkLast(node);
      Adopt(node, Node(addr, seq(sections, _ => false)));
    }

    /** The search of `vmalloc`: the first node with a free run, and where the run starts. */
    method FindFit(need: nat) returns (cur: HeapNode?, start: nat, ghost k: nat)
      requires Valid() && need > 0 && forall i :: 0 <= i < |contents| ==> ShapeOk(contents[i])
      ensures k == FirstNode(contents, need, 0)
      ensures cur == if k < |nodes| then nodes[k] else null
      ensures k < |nodes| ==> start == FirstRun(contents[k].used, need, 0)
    {
      cur, start, k := head, 0, 0;
      while cur != null
        invariant 0 <= k <= |nodes| && cur == if k < |nodes| then nodes[k] else null
        invariant forall j :: 0 <= j < k ==> FirstRun(contents[j].used, need, 0) == |contents[j].used|
        decreases |nodes| - k
      {
        assert Is(cur, contents[k]) && ShapeOk(contents[k]);
        var found;
        found, start := Scan(cur.mem, need, contents[k].used);
        if found {
          return;
        }
        cur := cur.next;
        k := k + 1;
      }
    }

    /** `mark_bitmap` on a node of the list. */
    method MarkIn(node: HeapNode, ghost k: nat, start: nat, count: nat, used: bool)
      requires Valid() && k < |nodes| && node == nodes[k] && ShapeOk(contents[k])
      requires count > 0 && start + count <= |contents[k].used| && Markable(start, count)
      modifies Repr
      ensures Valid() && Repr == old(Repr) && nodes == old(nodes)
      ensures contents == MarkNode(old(contents), k, start, count, used)
    {
      assert Is(node, contents[k]);
      Mark(node.mem, start, count, used, contents[k].used);
      contents := MarkNode(contents, k, start, count, used);
    }

    /** The search of `vfree`: the first node whose data range holds the address, and the node before it. */
    method FindOwner(h: nat) returns (prev: HeapNode?, cur: HeapNode?, ghost k: nat)
      requires Valid()
      ensures k == FirstOwner(contents, h, 0)
      ensures cur == if k < |nodes| then nodes[k] else null
      ensures k < |nodes| ==> prev == nodes[if k == 0 then 0 else k - 1]
    {
      prev, cur, k := head, head, 0;
      while cur != null
        invariant 0 <= k <= |nodes| && cur == if k < |nodes| then nodes[k] else null
        invariant nodes != [] ==> prev == nodes[if k == 0 then 0 else k - 1]
        invariant forall j :: 0 <= j < k ==> !Matches(contents[j], h)
        decreases |nodes| - k
      {
        assert Is(cur, contents[k]);
        var bitmapBytes := CeilDiv(cur.bitmapSize, 8);
        var curAddr := cur.addr + NODE_HEADER;
        if curAddr + bitmapBytes <= h <= curAddr + cur.totalSize {
          return;
        }
        if cur != head {
          prev := prev.next;
        }
        cur := cur.next;
        k := k + 1;
      }
    }

    /** The loop of `release_if_unused` over the bitmap. */
    method IsUnused(node: HeapNode, ghost k: nat) returns (unused: bool)
      requires Valid() && k < |nodes| && node == nodes[k]
      ensures unused <==> true !in contents[k].used
    {
      assert Is(node, contents[k]);
      ghost var bits := contents[k].used;
      for i := 0 to node.mem.Length
        invariant forall j :: 0 <= j < 8 * i ==> !bits[j]
      {
        ZeroByte(node.mem[i]);
        if node.mem[i] != Byte(0) {
          ghost var q :| 0 <= q < 8 && QueryBit(node.mem[i], q);
          assert (8 * i + q) / 8 == i && (8 * i + q) % 8 == q;
          assert bits[8 * i + q];
          return false;
        }
        assert forall j :: 8 * i <= j < 8 * i + 8 ==> j / 8 == i && bits[j] == QueryBit(node.mem[i], j % 8);
      }
      return true;
    }

    /** Takes a node that is not the head out of the list. */
    method Unlink(prev: HeapNode, node: HeapNode, ghost k: nat)
      requires Valid() && 0 < k < |nodes| && node == nodes[k] && prev == nodes[k - 1]
      modifies this, prev`next
      ensures Valid() && Repr == old(Repr) && contents == Without(old(contents), k)
    {
      prev.next := node.next;
      if tail == node {
        tail := prev;
      }
      Forget(k);
    }

    /** Records that the links now skip node `k`. */
    ghost method Forget(k: nat)
      requires this in Repr && |contents| == |nodes| && 0 < k < |nodes|
      requires forall i :: 0 <= i < |nodes| ==> nodes[i] in Repr && nodes[i].mem in Repr && Is(nodes[i], contents[i])
      requires forall i, j :: 0 <= i < j < |nodes| ==> nodes[i] != nodes[j] && nodes[i].mem != nodes[j].mem
      requires head == nodes[0] && tail == nodes[if k == |nodes| - 1 then k - 1 else |nodes| - 1]
      requires nodes[k - 1].next == if k == |nodes| - 1 then null else nodes[k + 1]
      requires forall i {:trigger nodes[i].next} :: 0 <= i < |nodes| && i != k - 1 ==>
                 nodes[i].next == if i == |nodes| - 1 then null else nodes[i + 1]
      modifies this`nodes, this`contents
      ensures Valid() && contents == Without(old(contents), k)
    {
      SkippedLinks(nodes, k);
      nodes, contents := Without(nodes, k), Without(contents, k);
    }
  }
}
