/** The list of free extents of `mem/vmm.c`: doubly linked nodes, with the empty ones kept at the tail. */
module FreeList {
  import opened Basics
  import opened KMath
  import opened VmmSpec

  class FreeNode {
    var prev: FreeNode?
    var next: FreeNode?
    var start: nat
    var size: nat

    constructor ()
      ensures prev == null && next == null && start == 0 && size == 0
    {
      prev, next, start, size := null, null, 0, 0;
    }
  }

  /** `next` and `prev` walk these nodes in this order, once each, and are inverse. */
  ghost predicate Chained(nodes: seq<FreeNode>)
    reads nodes`prev, nodes`next
  {
    && Distinct(nodes)
    && (forall i {:trigger nodes[i].prev} :: 0 <= i < |nodes| ==>
          nodes[i].prev == if i == 0 then null else nodes[i - 1])
    && (forall i {:trigger nodes[i].next} :: 0 <= i < |nodes| ==>
          nodes[i].next == if i == |nodes| - 1 then null else nodes[i + 1])
  }

  /** The node is its own successor, or its successor does not lead back to it. */
  ghost predicate Bad(node: FreeNode)
    reads node, node.next
  {
    node.next != null && (node.next == node || node.next.prev != node)
  }

  /** No well-formed list holds such a node. */
  lemma BadIsNotChained(node: FreeNode, order: seq<FreeNode>)
    requires Bad(node) && node in order
    ensures !Chained(order)
  {
  }

  /** The nodes store these extents, in list order. */
  ghost predicate Holds(nodes: seq<FreeNode>, free: seq<Extent>)
    reads nodes`start, nodes`size
  {
    |free| == |nodes| && forall i :: 0 <= i < |nodes| ==> free[i] == Extent(nodes[i].start, nodes[i].size)
  }

  /** `set_up_page_for_free_list`: links a page of empty nodes behind `node`. */
  method SetUpFreePage(node: FreeNode) returns (last: FreeNode, ghost page: seq<FreeNode>)
    modifies node`prev, node`next
    ensures |page| == FREE_SLOTS && page[0] == node && page[|page| - 1] == last
    ensures Chained(page) && fresh(page[1..])
    ensures Holds(page, [Extent(node.start, node.size)] + seq(FREE_SLOTS - 1, _ => NO_EXTENT))
  {
    SlotCounts();
    node.prev := null;
    node.next := null;
    var cur := node;
    page := [node];
    for i := 1 to FloorDiv(PAGE_SIZE, 32)
      invariant |page| == i && page[0] == node && page[i - 1] == cur
      invariant forall j :: 1 <= j < i ==> fresh(page[j])
      invariant Chained(page)
      invariant forall j :: 1 <= j < i ==> page[j].start == 0 && page[j].size == 0
    {
      var before := cur;
      cur.next := new FreeNode();
      cur := cur.next;
      cur.prev := before;
      page := page + [cur];
    }
    last := cur;
    last.next := null;
  }

  /** A further page of empty nodes. */
  method NewPage() returns (first: FreeNode, last: FreeNode)
    ensures fresh(first) && fresh(last) && last != first && last.prev != null && fresh(last.prev)
    ensures first.prev == null && last.prev != last
  {
    first := new FreeNode();
    ghost var page;
    last, page := SetUpFreePage(first);
    assert last == page[1..][FREE_SLOTS - 2] && last.prev == page[1..][FREE_SLOTS - 3];
    assert page[0] != page[FREE_SLOTS - 1] && page[FREE_SLOTS - 2] != page[FREE_SLOTS - 1];
  }

  /** The first half of `vmm_init`: a page of nodes whose head holds the whole window. */
  method NewFreeList() returns (first: FreeNode, last: FreeNode, ghost page: seq<FreeNode>)
    ensures |page| >= 2 && page[0] == first && page[|page| - 1] == last
    ensures Chained(page) && fresh(page) && Holds(page, Init().free)
  {
    first := new FreeNode();
    first.start := WINDOW_START;
    first.size := WINDOW_END - first.start;
    last, page := SetUpFreePage(first);
    assert page == [first] + page[1..];
  }

  /** The sequence with its element `k` moved to the end. */
  ghost function Rotated<T>(s: seq<T>, k: nat): (r: seq<T>)
    requires k < |s|
    ensures |r| == |s| && r[|s| - 1] == s[k]
    ensures forall i :: 0 <= i < k ==> r[i] == s[i]
    ensures forall i :: k <= i < |s| - 1 ==> r[i] == s[i + 1]
  {
    s[..k] + s[k + 1..] + [s[k]]
  }

  /** The links of `nodes` once node `k` has been taken out of the middle and put behind the last one. */
  ghost predicate Relinked(nodes: seq<FreeNode>, k: nat)
    requires k < |nodes| - 1
    reads nodes`prev, nodes`next
  {
    && nodes[k].next == null && nodes[k].prev == nodes[|nodes| - 1]
    && (forall i {:trigger nodes[i].next} :: 0 <= i < |nodes| && i != k ==>
          nodes[i].next == if i == |nodes| - 1 then nodes[k] else if i == k - 1 then nodes[k + 1] else nodes[i + 1])
    && (forall i {:trigger nodes[i].prev} :: 0 <= i < |nodes| && i != k ==>
          nodes[i].prev == if i == 0 || (i == 1 && k == 0) then null
                           else if i == k + 1 then nodes[k - 1] else nodes[i - 1])
  }

  lemma RelinkedIsChained(nodes: seq<FreeNode>, k: nat)
    requires Distinct(nodes) && k < |nodes| - 1 && Relinked(nodes, k)
    ensures Chained(Rotated(nodes, k))
  {
  }

  lemma RotatedHolds(nodes: seq<FreeNode>, k: nat, free: seq<Extent>)
    requires k < |nodes| && Holds(nodes, free) && free[k] == NO_EXTENT
    ensures Holds(Rotated(nodes, k), MoveToTail(free, k))
  {
  }

  /** The sequence with its last element moved to the front. */
  ghost function Fronted<T>(s: seq<T>): (r: seq<T>)
    requires |s| >= 2
    ensures |r| == |s| && r[0] == s[|s| - 1]
    ensures forall i :: 1 <= i < |s| ==> r[i] == s[i - 1]
  {
    [s[|s| - 1]] + s[..|s| - 1]
  }

  /** The links of `nodes` once its last node has been put in front of its first. */
  ghost predicate TailFirst(nodes: seq<FreeNode>)
    requires |nodes| >= 2
    reads nodes`prev, nodes`next
  {
    var n := |nodes| - 1;
    && nodes[n].prev == null && nodes[n].next == nodes[0]
    && (forall i {:trigger nodes[i].next} :: 0 <= i < n ==> nodes[i].next == if i == n - 1 then null else nodes[i + 1])
    && (forall i {:trigger nodes[i].prev} :: 0 <= i < n ==> nodes[i].prev == if i == 0 then nodes[n] else nodes[i - 1])
  }

  lemma TailFirstIsChained(nodes: seq<FreeNode>)
    requires |nodes| >= 2 && Distinct(nodes) && TailFirst(nodes)
    ensures Chained(Fronted(nodes))
  {
  }

  lemma FrontedHolds(nodes: seq<FreeNode>, free: seq<Extent>)
    requires |nodes| >= 2 && Holds(nodes, free)
    ensures Holds(Fronted(nodes), Fronted(free))
  {
  }

  class List {
    var head: FreeNode?
    var tail: FreeNode?
    ghost var nodes: seq<FreeNode>
    ghost var free: seq<Extent>
    ghost var Repr: set<object>

    ghost predicate Valid()
      reads this, Repr
    {
      && this in Repr && (forall i :: 0 <= i < |nodes| ==> nodes[i] in Repr)
      && |nodes| >= 2 && head == nodes[0] && tail == nodes[|nodes| - 1]
      && Chained(nodes) && Holds(nodes, free)
    }

    /** The free list made by `vmm_init`. */
    constructor ()
      ensures Valid() && fresh(Repr) && free == Init().free
    {
      var first, last, page := NewFreeList();
      head, tail, nodes, free := first, last, page, Init().free;
      Repr := {this} + set i | 0 <= i < |page| :: page[i];
    }

    method SetExtent(cur: FreeNode, ghost k: nat, start: nat, size: nat)
      requires Valid() && k < |nodes| && cur == nodes[k]
      modifies this`free, cur`start, cur`size
      ensures Valid() && free == old(free)[k := Extent(start, size)]
    {
      cur.start := start;
      cur.size := size;
      free := free[k := Extent(start, size)];
    }

    /** Records the order that the links now have. */
    ghost method Reorder(order: seq<FreeNode>, held: seq<Extent>)
      requires |order| >= 2 && head == order[0] && tail == order[|order| - 1]
      requires Chained(order) && Holds(order, held)
      requires this in Repr && forall i :: 0 <= i < |order| ==> order[i] in Repr
      modifies this`nodes, this`free
      ensures Valid() && nodes == order && free == held
    {
      nodes, free := order, held;
    }

    /**
     The links of `vmm_list_remove_node`. A node that has a successor becomes the tail; moving
     the tail itself, which the source leaves open, links that node to itself.
     */
    method Relink(node: FreeNode, ghost k: nat)
      requires Valid() && k < |nodes| && nodes[k] == node
      modifies this`head, this`tail, nodes`prev, nodes`next
      ensures tail == node
      ensures k < |nodes| - 1 ==> Relinked(nodes, k) && head == nodes[if k == 0 then 1 else 0]
      ensures k == |nodes| - 1 ==> node.next == node && node.prev == node
    {
      if node.next != null {
        node.next.prev := node.prev;
      }
      if node.prev != null {
        node.prev.next := node.next;
      } else {
        head := node.next;
      }
      node.next := null;
      node.prev := tail;
      tail.next := node;
      tail := node;
    }

    /** `vmm_list_remove_node` of a node that is not the tail, on the list as a sequence. */
    method RemoveNode(node: FreeNode, ghost k: nat)
      requires Valid() && k < |nodes| - 1 && nodes[k] == node
      modifies Repr
      ensures Valid() && Repr == old(Repr)
      ensures free == MoveToTail(old(free), k)
    {
      ghost var was, held := nodes, free[k := NO_EXTENT];
      SetExtent(node, k, 0, 0);
      Relink(node, k);
      RelinkedIsChained(was, k);
      RotatedHolds(was, k, held);
      assert MoveToTail(held, k) == MoveToTail(old(free), k);
      Reorder(Rotated(was, k), MoveToTail(held, k));
    }

    /** The search of `vmm_alloc`: the first node that can hold the request. */
    method FindFit(request: nat) returns (cur: FreeNode?, ghost k: nat)
      requires Valid()
      ensures k == FirstFit(free, request, 0)
      ensures cur == if k < |nodes| then nodes[k] else null
    {
      cur := head;
      k := 0;
      while cur != null && cur.size < request
        invariant 0 <= k <= |nodes| && cur == if k < |nodes| then nodes[k] else null
        invariant forall j :: 0 <= j < k ==> free[j].size < request
        decreases |nodes| - k
      {
        cur := cur.next;
        k := k + 1;
      }
      assert k < |nodes| ==> free[k].size == cur.size;
    }

    /** `vmm_list_remove_node` of the tail: it stays the tail, and its own successor. */
    method RemoveTail()
      requires Valid()
      modifies Repr
      ensures tail == old(tail) && tail.next == tail && Repr == old(Repr)
    {
      ghost var k := |nodes| - 1;
      SetExtent(tail, k, 0, 0);
      Relink(tail, k);
    }

    /** The part of `vmm_alloc` that takes the request from the node found; an exact fit in the tail breaks the list. */
    method TakeFrom(cur: FreeNode, ghost k: nat, request: nat)
      requires Valid() && k < |nodes| && cur == nodes[k] && request <= cur.size
      modifies Repr
      ensures Repr == old(Repr)
      ensures old(k + 1 < |nodes| || cur.size != request) ==> Valid() && free == Take(old(free), k, request)
      ensures !old(k + 1 < |nodes| || cur.size != request) ==> tail == old(tail) && tail.next == tail
    {
      if cur.size != request {
        SetExtent(cur, k, cur.start + request, cur.size - request);
      } else if cur == tail {
        RemoveTail();
      } else {
        RemoveNode(cur, k);
      }
    }

    /** The search of `vmm_free`: the first node that ends or starts at the block. */
    method FindTouching(start: nat, end: nat) returns (cur: FreeNode?, ghost k: nat)
      requires Valid() && start <= end
      ensures k == FirstTouch(free, Extent(start, end - start), 0)
      ensures cur == if k < |nodes| then nodes[k] else null
    {
      cur := head;
      k := 0;
      while cur != null && start != cur.start + cur.size && end != cur.start
        invariant 0 <= k <= |nodes| && cur == if k < |nodes| then nodes[k] else null
        invariant forall j :: 0 <= j < k ==> !Touches(free[j], Extent(start, end - start))
        decreases |nodes| - k
      {
        assert free[k] == Extent(cur.start, cur.size);
        cur := cur.next;
        k := k + 1;
      }
      assert k < |nodes| ==> free[k] == Extent(cur.start, cur.size);
    }

    /** Extends the node found to the right or to the left by the block. */
    method Extend(cur: FreeNode, ghost k: nat, start: nat, end: nat)
      requires Valid() && k < |nodes| && cur == nodes[k] && start <= end
      requires Touches(free[k], Extent(start, end - start))
      modifies this`free, cur`start, cur`size
      ensures Valid() && free == old(free)[k := Grow(old(free)[k], Extent(start, end - start))]
    {
      assert free[k] == Extent(cur.start, cur.size);
      if start == cur.start + cur.size {
        SetExtent(cur, k, cur.start, cur.size + (end - start));
      } else {
        SetExtent(cur, k, cur.start - (end - start), cur.size + (end - start));
      }
    }

    /** Moves the tail node in front of the head. */
    method LinkTailFirst()
      requires Valid()
      modifies this`head, this`tail, nodes`prev, nodes`next
      ensures head == old(tail) && tail == nodes[|nodes| - 2] && TailFirst(nodes)
    {
      var cur := tail;
      tail := tail.prev;
      tail.next := null;
      cur.prev := null;
      cur.next := head;
      head.prev := cur;
      head := cur;
    }

    /** The same, on the list as a sequence. */
    method MoveTailFirst()
      requires Valid()
      modifies this, nodes`prev, nodes`next
      ensures Valid() && Repr == old(Repr)
      ensures free == Fronted(old(free))
    {
      ghost var was := nodes;
      LinkTailFirst();
      assert Chained(Fronted(was)) by { TailFirstIsChained(was); }
      assert Holds(Fronted(was), Fronted(free)) by { FrontedHolds(was, free); }
      Reorder(Fronted(was), Fronted(free));
    }

    /** Stores the block in the tail node and moves that node to the head. */
    method AddAtHead(start: nat, size: nat)
      requires Valid()
      modifies Repr
      ensures Valid() && Repr == old(Repr)
      ensures free == Fronted(old(free)[|old(free)| - 1 := Extent(start, size)])
    {
      SetExtent(tail, |nodes| - 1, start, size);
      MoveTailFirst();
    }

    /**
     The branch of `vmm_free` that adds a page of nodes behind a tail in use: the new page does not
     lead back to the old tail.
     */
    method GrowAtTail(start: nat, size: nat)
      requires Valid()
      modifies Repr
      ensures Bad(old(tail)) && Repr == old(Repr)
    {
      var page, last := NewPage();
      tail.next := page;
      tail := last;
      var cur := tail;
      tail := tail.prev;
      tail.next := null;
      cur.prev := null;
      cur.next := head;
      cur.start := start;
      cur.size := size;
      head.prev := cur;
      head := cur;
    }

    /**
     The re-scan of `vmm_free`: node `k`, which holds this block, is merged into a neighbour if there is
     one. That breaks the list if the node is the tail.
     */
    method MergeAgain(merged: FreeNode, ghost k: nat, start: nat, end: nat)
      requires Valid() && k < |nodes| && merged == nodes[k] && start <= end
      requires free[k] == Extent(start, end - start)
      modifies Repr
      ensures Repr == old(Repr)
      ensures var j := FirstTouch(old(free), old(free)[k], 0);
              if j == |old(free)| then Valid() && free == old(free)
              else if k + 1 < |old(free)|
              then Valid() && free == MoveToTail(old(free)[j := Grow(old(free)[j], old(free)[k])], k)
              else Bad(old(tail))
    {
      var cur, j := FindTouching(start, end);
      if cur != null {
        Extend(cur, j, start, end);
        if merged == tail {
          RemoveTail();
        } else {
          RemoveNode(merged, k);
        }
      }
    }

    /** The second half of `vmm_free`: puts a block back, and keeps the list well formed where `PutLinks` says so. */
    method GiveBackBlock(start: nat, end: nat)
      requires Valid() && start <= end
      modifies Repr
      ensures Repr == old(Repr)
      ensures var b := Extent(start, end - start);
              if PutLinks(old(free), b) then Valid() && free == GiveBack(old(free), b) else Bad(old(tail))
    {
      ghost var was, b := free, Extent(start, end - start);
      var merged, k := FindTouching(start, end);
      if merged == null {
        assert free[|free| - 1] == Extent(tail.start, tail.size);
        if tail.start != 0 && tail.size != 0 {
          GrowAtTail(start, end - start);
          return;
        }
        assert Fronted(free[|free| - 1 := b]) == [b] + free[..|free| - 1];
        AddAtHead(start, end - start);
        return;
      }
      Extend(merged, k, start, end);
      assert free[k] == Extent(merged.start, merged.size) == Grow(was[k], b);
      MergeAgain(merged, k, merged.start, merged.start + merged.size);
    }
  }
}
