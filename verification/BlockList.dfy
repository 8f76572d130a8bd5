/** The list of allocated blocks of `mem/vmm.c`: singly linked slots, added a page at a time and reused. */
module BlockList {
  import opened KMath
  import opened VmmSpec

  class BlockNode {
    var next: BlockNode?
    var start: nat
    var pages: nat

    constructor ()
      ensures next == null && start == 0 && pages == 0
    {
      next, start, pages := null, 0, 0;
    }
  }

  /** `next` walks these slots in this order, once each, and they hold these blocks. */
  ghost predicate Holds(slots: seq<BlockNode>, blocks: seq<Block>)
    reads slots`next, slots`start, slots`pages
  {
    && |blocks| == |slots|
    && (forall i, j :: 0 <= i < j < |slots| ==> slots[i] != slots[j])
    && (forall i {:trigger slots[i].next} :: 0 <= i < |slots| ==>
          slots[i].next == if i == |slots| - 1 then null else slots[i + 1])
    && (forall i :: 0 <= i < |slots| ==> blocks[i] == Block(slots[i].start, slots[i].pages))
  }

  /** `set_up_page_for_alloc_list`: links a fresh page of unused slots. */
  method SetUpBlockPage() returns (first: BlockNode, ghost page: seq<BlockNode>)
    ensures |page| == BLOCK_SLOTS && page[0] == first && fresh(page)
    ensures Holds(page, UnusedPage())
  {
    SlotCounts();
    first := new BlockNode();
    var cur := first;
    page := [first];
    for i := 1 to FloorDiv(PAGE_SIZE, 24)
      invariant |page| == i && page[0] == first && page[i - 1] == cur && fresh(page)
      invariant Holds(page, seq(i, _ => NO_BLOCK))
    {
      cur.next := new BlockNode();
      cur := cur.next;
      page := page + [cur];
    }
    cur.next := null;
  }

  lemma RecordInNewPage(blocks: seq<Block>, b: Block)
    requires FirstUnused(blocks, 0) == |blocks|
    ensures var r := blocks + UnusedPage();
            FirstUnused(r, 0) < |r| && Record(r, b) == Record(blocks, b)
  {
    assert (blocks + UnusedPage())[|blocks|] == NO_BLOCK;
  }

  class List {
    var head: BlockNode?
    ghost var slots: seq<BlockNode>
    ghost var blocks: seq<Block>
    ghost var Repr: set<object>

    ghost predicate Valid()
      reads this, Repr
    {
      && this in Repr && (forall i :: 0 <= i < |slots| ==> slots[i] in Repr)
      && |slots| > 0 && head == slots[0] && Holds(slots, blocks)
    }

    constructor ()
      ensures Valid() && fresh(Repr) && blocks == UnusedPage()
    {
      var first, page := SetUpBlockPage();
      head, slots, blocks := first, page, UnusedPage();
      Repr := {this} + set i | 0 <= i < |page| :: page[i];
    }

    /** The search of `alloc_list_add_node`: the first unused slot, or the last slot if all are in use. */
    method FindUnused() returns (cur: BlockNode, ghost i: nat)
      requires Valid()
      ensures i < |slots| && cur == slots[i]
      ensures var k := FirstUnused(blocks, 0);
              if cur.start == 0 && cur.pages == 0 then i == k else i == |slots| - 1 && k == |slots|
    {
      cur := head;
      i := 0;
      while !(cur.start == 0 && cur.pages == 0) && cur.next != null
        invariant 0 <= i < |slots| && cur == slots[i]
        invariant forall j :: 0 <= j < i ==> blocks[j] != NO_BLOCK
        decreases |slots| - i
      {
        cur := cur.next;
        i := i + 1;
      }
      assert blocks[i] == Block(cur.start, cur.pages);
    }

    /** Links a page of unused slots behind the last slot. */
    method AddPage(last: BlockNode)
      requires Valid() && last == slots[|slots| - 1]
      modifies this, last`next
      ensures Valid() && blocks == old(blocks) + UnusedPage()
      ensures |slots| == |old(slots)| + BLOCK_SLOTS && fresh(Repr - old(Repr))
    {
      var nextPage, page := SetUpBlockPage();
      last.next := nextPage;
      slots, blocks := slots + page, blocks + UnusedPage();
      Repr := Repr + set i | 0 <= i < |page| :: page[i];
    }

    method Fill(cur: BlockNode, ghost i: nat, start: nat, pages: nat)
      requires Valid() && i < |slots| && cur == slots[i]
      modifies this`blocks, cur`start, cur`pages
      ensures Valid() && blocks == old(blocks)[i := Block(start, pages)]
    {
      cur.start := start;
      cur.pages := pages;
      blocks := blocks[i := Block(start, pages)];
    }

    /** `alloc_list_add_node`. */
    method AddBlock(start: nat, pages: nat)
      requires Valid()
      modifies Repr
      ensures Valid() && blocks == Record(old(blocks), Block(start, pages))
      ensures fresh(Repr - old(Repr))
      decreases if FirstUnused(blocks, 0) < |slots| then 0 else 1
    {
      var cur, i := FindUnused();
      if cur.start == 0 && cur.pages == 0 {
        Fill(cur, i, start, pages);
      } else {
        RecordInNewPage(blocks, Block(start, pages));
        AddPage(cur);
        AddBlock(start, pages);
      }
    }

    /** `alloc_list_find_and_remove`; an address that is not recorded is the panic. */
    method FindAndRemove(start: nat) returns (found: bool, pages: nat)
      requires Valid()
      modifies Repr
      ensures var k := Lookup(old(blocks), start, 0);
              && Valid() && Repr == old(Repr)
              && found == (k < |old(blocks)|)
              && (found ==> pages == old(blocks)[k].pages && blocks == old(blocks)[k := NO_BLOCK])
              && (!found ==> blocks == old(blocks))
    {
      var cur := head;
      ghost var i := 0;
      while cur != null
        invariant 0 <= i <= |slots| && cur == if i < |slots| then slots[i] else null
        invariant forall j :: 0 <= j < i ==> blocks[j].start != start
        invariant Valid() && blocks == old(blocks)
        decreases |slots| - i
      {
        if cur.start == start {
          found, pages := true, cur.pages;
          assert blocks[i] == Block(cur.start, cur.pages);
          Fill(cur, i, 0, 0);
          return;
        }
        cur := cur.next;
        i := i + 1;
      }
      found, pages := false, 0;
    }
  }
}
