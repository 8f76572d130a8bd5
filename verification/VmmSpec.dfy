/**
 The virtual range allocator of `mem/vmm.c`, on values: the free list and the list of
 allocated blocks are sequences of slots, in list order, and every operation is a function
 from one state to the next. `Vmm.dfy` proves that the linked-list code computes these steps.
 */
module VmmSpec {
  import opened Basics
  import opened KMath

  const PAGE_SIZE := 4096
  const WINDOW_START := 0xFFFF_F000_0000_0000
  const WINDOW_END := 0xFFFF_FFFF_8000_0000

  /** Slots in a page of free-list nodes (32 bytes each). */
  const FREE_SLOTS := 128
  /** Slots in a page of allocated-list nodes (24 bytes each); `floor_u32_div` rounds down twice. */
  const BLOCK_SLOTS := 169

  lemma SlotCounts()
    ensures FloorDiv(PAGE_SIZE, 32) == FREE_SLOTS
    ensures FloorDiv(PAGE_SIZE, 24) == BLOCK_SLOTS
  {
  }

  /** A free-list slot; a slot of size 0 is an empty one waiting to be reused. */
  datatype Extent = Extent(start: nat, size: nat) {
    ghost predicate Has(a: int) { start <= a < start + size }
  }

  /** The byte count of a number of pages, as a 64-bit product. */
  function Request(pages: nat): nat {
    (pages * PAGE_SIZE) % U64_LIMIT
  }

  /** The product comes out as zero for the multiples of 2^52. */
  lemma RequestIsZero(pages: nat)
    ensures Request(pages) == 0 <==> pages % 0x10_0000_0000_0000 == 0
  {
  }

  /** A slot of the allocated list; the size is in pages. */
  datatype Block = Block(start: nat, pages: nat) {
    function Bytes(): nat { Request(pages) }
    ghost predicate Has(a: int) { start <= a < start + Bytes() }
  }

  const NO_EXTENT := Extent(0, 0)
  const NO_BLOCK := Block(0, 0)

  datatype State = State(free: seq<Extent>, blocks: seq<Block>)

  // ---------------------------------------------------------------- the free list

  /** First slot at or after `from` that can hold the request, or the length of the list. */
  function FirstFit(free: seq<Extent>, request: nat, from: nat): (k: nat)
    requires from <= |free|
    ensures from <= k <= |free|
    ensures forall i :: from <= i < k ==> free[i].size < request
    ensures k < |free| ==> free[k].size >= request
    decreases |free| - from
  {
    if from == |free| || free[from].size >= request then from else FirstFit(free, request, from + 1)
  }

  predicate Touches(e: Extent, b: Extent) {
    b.start == e.start + e.size || b.start + b.size == e.start
  }

  /** First slot at or after `from` that ends where `b` starts or starts where `b` ends. */
  function FirstTouch(free: seq<Extent>, b: Extent, from: nat): (k: nat)
    requires from <= |free|
    ensures from <= k <= |free|
    ensures forall i :: from <= i < k ==> !Touches(free[i], b)
    ensures k < |free| ==> Touches(free[k], b)
    decreases |free| - from
  {
    if from == |free| || Touches(free[from], b) then from else FirstTouch(free, b, from + 1)
  }

  /** Empties slot `k` and moves it to the end of the list (`vmm_list_remove_node`). */
  function MoveToTail(free: seq<Extent>, k: nat): (r: seq<Extent>)
    requires k < |free|
    ensures |r| == |free|
  {
    free[..k] + free[k + 1..] + [NO_EXTENT]
  }

  /** Takes `request` bytes from the front of slot `k`. */
  function Take(free: seq<Extent>, k: nat, request: nat): (r: seq<Extent>)
    requires k < |free| && request <= free[k].size
    ensures |r| == |free|
  {
    if free[k].size == request then MoveToTail(free, k)
    else free[k := Extent(free[k].start + request, free[k].size - request)]
  }

  function Grow(e: Extent, b: Extent): Extent
    requires Touches(e, b)
  {
    if b.start == e.start + e.size then Extent(e.start, e.size + b.size)
    else Extent(e.start - b.size, e.size + b.size)
  }

  /** Puts a block back: one merge and one re-scan, or a new slot at the head. */
  function GiveBack(free: seq<Extent>, b: Extent): (r: seq<Extent>)
    requires |free| > 0
    ensures |r| == |free|
  {
    var k := FirstTouch(free, b, 0);
    if k == |free| then [b] + free[..|free| - 1]
    else
      var merged := Grow(free[k], b);
      var once := free[k := merged];
      var j := FirstTouch(once, merged, 0);
      if j == |once| then once else MoveToTail(once[j := Grow(once[j], merged)], k)
  }

  // ---------------------------------------------------------------- the allocated list

  /** First unused slot at or after `from`. */
  function FirstUnused(blocks: seq<Block>, from: nat): (k: nat)
    requires from <= |blocks|
    ensures from <= k <= |blocks|
    ensures forall i :: from <= i < k ==> blocks[i] != NO_BLOCK
    ensures k < |blocks| ==> blocks[k] == NO_BLOCK
    decreases |blocks| - from
  {
    if from == |blocks| || blocks[from] == NO_BLOCK then from else FirstUnused(blocks, from + 1)
  }

  /** First slot at or after `from` with this start address. */
  function Lookup(blocks: seq<Block>, start: nat, from: nat): (k: nat)
    requires from <= |blocks|
    ensures from <= k <= |blocks|
    ensures forall i :: from <= i < k ==> blocks[i].start != start
    ensures k < |blocks| ==> blocks[k].start == start
    decreases |blocks| - from
  {
    if from == |blocks| || blocks[from].start == start then from else Lookup(blocks, start, from + 1)
  }

  function UnusedPage(): (page: seq<Block>)
    ensures |page| == BLOCK_SLOTS && forall i :: 0 <= i < |page| ==> page[i] == NO_BLOCK
  {
    seq(BLOCK_SLOTS, _ => NO_BLOCK)
  }

  /** The list with a page of unused slots added if no slot is unused. */
  function WithRoom(blocks: seq<Block>): (r: seq<Block>)
    ensures FirstUnused(r, 0) < |r|
  {
    if FirstUnused(blocks, 0) < |blocks| then blocks
    else
      var r := blocks + UnusedPage();
      assert r[|blocks|] == NO_BLOCK;
      r
  }

  /** Records a block in the first unused slot, adding a page of slots when there is none. */
  function Record(blocks: seq<Block>, b: Block): seq<Block> {
    var room := WithRoom(blocks);
    room[FirstUnused(room, 0) := b]
  }

  // ---------------------------------------------------------------- the operations

  function Init(): State {
    State([Extent(WINDOW_START, WINDOW_END - WINDOW_START)] + seq(FREE_SLOTS - 1, _ => NO_EXTENT), UnusedPage())
  }

  /** `vmm_alloc`: the address handed out and the next state; None is the out-of-memory panic. */
  function Alloc(s: State, pages: nat): Option<(nat, State)> {
    var k := FirstFit(s.free, Request(pages), 0);
    if k == |s.free| then None
    else Some((s.free[k].start,
               State(Take(s.free, k, Request(pages)), Record(s.blocks, Block(s.free[k].start, pages)))))
  }

  /** `vmm_free`; None is the panic on an address that is not recorded. */
  function Free(s: State, mem: nat): (t: Option<State>)
    requires |s.free| > 0
    ensures t.Some? ==> |t.value.free| == |s.free|
  {
    var k := Lookup(s.blocks, mem, 0);
    if k == |s.blocks| then None
    else Some(State(GiveBack(s.free, Extent(mem, s.blocks[k].Bytes())), s.blocks[k := NO_BLOCK]))
  }

  // ---------------------------------------------------------------- invariants

  predicate InWindow(start: nat, size: nat) {
    WINDOW_START <= start && start + size <= WINDOW_END
  }

  ghost predicate ExtentOk(e: Extent) {
    e == NO_EXTENT || (e.size > 0 && InWindow(e.start, e.size))
  }

  ghost predicate BlockOk(b: Block) {
    b == NO_BLOCK || (b.Bytes() > 0 && InWindow(b.start, b.Bytes()))
  }

  /** Neither overlapping nor touching. */
  ghost predicate Apart(d: Extent, e: Extent) {
    d.size > 0 && e.size > 0 ==> d.start + d.size < e.start || e.start + e.size < d.start
  }

  ghost predicate Overlap(start1: nat, size1: nat, start2: nat, size2: nat) {
    start1 < start2 + size2 && start2 < start1 + size1 && size1 > 0 && size2 > 0
  }

  /** Used slots come first, empty ones after; used slots are inside the window and apart. */
  ghost predicate FreeInv(free: seq<Extent>) {
    && |free| > 0
    && (forall i :: 0 <= i < |free| ==> ExtentOk(free[i]))
    && (forall i, j :: 0 <= i < j < |free| && free[j].size > 0 ==> free[i].size > 0)
    && (forall i, j :: 0 <= i < j < |free| ==> Apart(free[i], free[j]))
  }

  ghost predicate BlocksInv(blocks: seq<Block>) {
    && (forall i :: 0 <= i < |blocks| ==> BlockOk(blocks[i]))
    && (forall i, j :: 0 <= i < j < |blocks| ==>
          !Overlap(blocks[i].start, blocks[i].Bytes(), blocks[j].start, blocks[j].Bytes()))
  }

  ghost predicate FreeAt(free: seq<Extent>, a: int) {
    exists i :: 0 <= i < |free| && free[i].Has(a)
  }

  ghost predicate BlockAt(blocks: seq<Block>, a: int) {
    exists i :: 0 <= i < |blocks| && blocks[i].Has(a)
  }

  /** Every address of the window is in exactly one of the two lists, and no other address is. */
  ghost predicate Partition(s: State) {
    forall a: int {:trigger FreeAt(s.free, a)} {:trigger BlockAt(s.blocks, a)} ::
      && (FreeAt(s.free, a) ==> !BlockAt(s.blocks, a))
      && (WINDOW_START <= a < WINDOW_END <==> FreeAt(s.free, a) || BlockAt(s.blocks, a))
  }

  ghost predicate Inv(s: State) {
    FreeInv(s.free) && BlocksInv(s.blocks) && Partition(s)
  }

  /** An empty slot is left at the end of the free list. */
  predicate Spare(s: State) {
    |s.free| > 0 && s.free[|s.free| - 1] == NO_EXTENT
  }

  // ---------------------------------------------------------------- when the links survive

  /** The request is not an exact fit in the last node, whose removal would link it to itself. */
  predicate AllocLinks(s: State, pages: nat) {
    var k := FirstFit(s.free, Request(pages), 0);
    k + 1 == |s.free| ==> s.free[k].size != Request(pages)
  }

  /** There is an empty last node for a block without neighbours; with two, the node removed is not the last. */
  predicate PutLinks(free: seq<Extent>, b: Extent)
    requires |free| > 0
  {
    var k := FirstTouch(free, b, 0);
    if k == |free| then free[k - 1].start == 0 || free[k - 1].size == 0
    else k + 1 == |free| ==> FirstTouch(free[k := Grow(free[k], b)], Grow(free[k], b), 0) == |free|
  }

  predicate FreeLinks(s: State, mem: nat)
    requires |s.free| > 0
  {
    var k := Lookup(s.blocks, mem, 0);
    k < |s.blocks| ==> PutLinks(s.free, Extent(mem, s.blocks[k].Bytes()))
  }

  /** With an empty last node every call keeps the links. */
  lemma SpareLinks(s: State)
    requires |s.free| > 1 && Spare(s)
    ensures forall pages :: AllocLinks(s, pages)
    ensures forall mem :: mem != 0 ==> FreeLinks(s, mem)
  {
  }

  /** The start addresses of the allocated blocks. */
  function Live(blocks: seq<Block>): set<nat> {
    set i | 0 <= i < |blocks| && blocks[i] != NO_BLOCK :: blocks[i].start
  }

  // ---------------------------------------------------------------- lemmas: the free list

  /** The free-list invariant without what it says about the extent in slot `k`. */
  ghost predicate FreeInvBut(free: seq<Extent>, k: nat) {
    && |free| > 0
    && (forall i :: 0 <= i < |free| && i != k ==> ExtentOk(free[i]))
    && (forall i, j :: 0 <= i < j < |free| && free[j].size > 0 ==> free[i].size > 0)
    && (forall i, j :: 0 <= i < j < |free| && i != k && j != k ==> Apart(free[i], free[j]))
  }

  lemma MoveToTailKeeps(free: seq<Extent>, k: nat)
    requires FreeInvBut(free, k) && k < |free|
    ensures var r := MoveToTail(free, k);
            && |r| == |free| && FreeInv(r)
            && forall a: int :: FreeAt(r, a) <==> exists i :: 0 <= i < |free| && i != k && free[i].Has(a)
  {
    var r := MoveToTail(free, k);
    forall i | 0 <= i < |free| - 1
      ensures r[i] == free[if i < k then i else i + 1]
    {
    }
    assert r[|free| - 1] == NO_EXTENT;
    forall a: int
      ensures FreeAt(r, a) <==> exists i :: 0 <= i < |free| && i != k && free[i].Has(a)
    {
      if i :| 0 <= i < |free| && i != k && free[i].Has(a) {
        assert r[if i < k then i else i - 1].Has(a);
      }
    }
  }

  lemma TakeKeeps(free: seq<Extent>, k: nat, request: nat)
    requires FreeInv(free) && k < |free|
    requires 0 < request <= free[k].size
    ensures var r := Take(free, k, request);
            && |r| == |free| && FreeInv(r)
            && forall a: int :: FreeAt(r, a) <==> FreeAt(free, a) && !Extent(free[k].start, request).Has(a)
  {
    var r := Take(free, k, request);
    if free[k].size == request {
      MoveToTailKeeps(free, k);
    } else {
      forall a: int
        ensures FreeAt(r, a) <==> FreeAt(free, a) && !Extent(free[k].start, request).Has(a)
      {
        if i :| 0 <= i < |free| && free[i].Has(a) && !Extent(free[k].start, request).Has(a) {
          assert r[i].Has(a);
        }
        if i :| 0 <= i < |free| && r[i].Has(a) {
          assert free[i].Has(a);
        }
      }
    }
  }

  /** What `vmm_free` may assume of the block it puts back. */
  ghost predicate Returnable(free: seq<Extent>, b: Extent) {
    && FreeInv(free) && b.size > 0 && InWindow(b.start, b.size)
    && forall i :: 0 <= i < |free| ==> !Overlap(free[i].start, free[i].size, b.start, b.size)
  }

  ghost predicate GivesBack(free: seq<Extent>, b: Extent, r: seq<Extent>) {
    && |r| == |free| && FreeInv(r)
    && forall a: int :: FreeAt(r, a) <==> FreeAt(free, a) || b.Has(a)
  }

  lemma GiveBackAtHead(free: seq<Extent>, b: Extent)
    requires Returnable(free, b) && FirstTouch(free, b, 0) == |free| && free[|free| - 1] == NO_EXTENT
    ensures GivesBack(free, b, [b] + free[..|free| - 1])
  {
    var r := [b] + free[..|free| - 1];
    forall a: int
      ensures FreeAt(r, a) <==> FreeAt(free, a) || b.Has(a)
    {
      assert r[0] == b;
      if i :| 0 <= i < |free| && free[i].Has(a) {
        assert r[i + 1].Has(a);
      }
    }
  }

  /** A merged extent that touches no other slot is apart from all of them. */
  lemma OnceMerged(free: seq<Extent>, b: Extent, k: nat, i: nat)
    requires Returnable(free, b) && k < |free| && i < |free| && i != k && Touches(free[k], b)
    requires !Touches(free[i], Grow(free[k], b))
    ensures Apart(free[i], Grow(free[k], b)) && Apart(Grow(free[k], b), free[i])
  {
    assert !Overlap(free[i].start, free[i].size, b.start, b.size);
    assert if i < k then Apart(free[i], free[k]) else Apart(free[k], free[i]);
  }

  lemma GiveBackOnce(free: seq<Extent>, b: Extent, k: nat)
    requires Returnable(free, b) && k < |free| && Touches(free[k], b)
    requires forall i :: 0 <= i < |free| && i != k ==> !Touches(free[i], Grow(free[k], b))
    ensures GivesBack(free, b, free[k := Grow(free[k], b)])
  {
    var merged := Grow(free[k], b);
    var r := free[k := merged];
    forall i | 0 <= i < |free| && i != k
      ensures Apart(free[i], merged) && Apart(merged, free[i])
    {
      OnceMerged(free, b, k, i);
    }
    assert FreeInv(r);
    forall a: int
      ensures FreeAt(r, a) <==> FreeAt(free, a) || b.Has(a)
    {
      assert merged.Has(a) <==> free[k].Has(a) || b.Has(a);
      if i :| 0 <= i < |free| && free[i].Has(a) {
        assert r[i].Has(a);
      }
      if b.Has(a) {
        assert r[k].Has(a);
      }
      if i :| 0 <= i < |free| && r[i].Has(a) && i != k {
        assert free[i].Has(a);
      }
    }
  }

  /** The three pieces of a double merge fill one extent, and every other extent is apart from it. */
  lemma TwiceMerged(free: seq<Extent>, b: Extent, k: nat, j: nat)
    requires Returnable(free, b) && k < |free| && j < |free| && Touches(free[k], b)
    requires var once := free[k := Grow(free[k], b)]; Touches(once[j], once[k])
    ensures j != k
    ensures var merged := Grow(free[k], b);
            var x := Grow(free[j], merged);
            && ExtentOk(x) && x.size > 0
            && (forall a: int :: x.Has(a) <==> free[j].Has(a) || free[k].Has(a) || b.Has(a))
            && (forall i :: 0 <= i < |free| && i != j && i != k ==> Apart(free[i], x) && Apart(x, free[i]))
  {
    var merged := Grow(free[k], b);
    var once := free[k := merged];
    assert free[k].size > 0 && merged.size > 0 && j != k && once[j] == free[j];
    assert free[j].size > 0;
    var x := Grow(free[j], merged);
    assert Apart(free[j], free[k]) || Apart(free[k], free[j]);
    forall i | 0 <= i < |free| && i != j && i != k
      ensures Apart(free[i], x) && Apart(x, free[i])
    {
      assert !Overlap(free[i].start, free[i].size, b.start, b.size);
      assert Apart(free[i], free[j]) || Apart(free[j], free[i]);
      assert Apart(free[i], free[k]) || Apart(free[k], free[i]);
    }
  }

  lemma GiveBackTwice(free: seq<Extent>, b: Extent, k: nat, j: nat)
    requires Returnable(free, b) && k < |free| && j < |free| && Touches(free[k], b)
    requires var once := free[k := Grow(free[k], b)]; Touches(once[j], once[k])
    ensures var merged := Grow(free[k], b);
            var once := free[k := merged];
            GivesBack(free, b, MoveToTail(once[j := Grow(once[j], merged)], k))
  {
    var merged := Grow(free[k], b);
    var once := free[k := merged];
    TwiceMerged(free, b, k, j);
    var x := Grow(free[j], merged);
    var twice := once[j := x];
    assert FreeInvBut(twice, k);
    MoveToTailKeeps(twice, k);
    var r := MoveToTail(twice, k);
    forall a: int
      ensures FreeAt(r, a) <==> FreeAt(free, a) || b.Has(a)
    {
      assert twice[j] == x;
      if i :| 0 <= i < |free| && free[i].Has(a) && i != k && i != j {
        assert twice[i].Has(a);
      }
      if i :| 0 <= i < |free| && i != k && twice[i].Has(a) && i != j {
        assert free[i].Has(a);
      }
    }
  }

  /**
   One merge and one re-scan are enough: whichever neighbours exist and in whatever list
   order, the result is again apart, and holds exactly the old addresses and the block's.
   */
  lemma GiveBackKeeps(free: seq<Extent>, b: Extent)
    requires Returnable(free, b) && PutLinks(free, b)
    ensures GivesBack(free, b, GiveBack(free, b))
  {
    var k := FirstTouch(free, b, 0);
    if k == |free| {
      assert ExtentOk(free[k - 1]);
      GiveBackAtHead(free, b);
    } else {
      var once := free[k := Grow(free[k], b)];
      var j := FirstTouch(once, Grow(free[k], b), 0);
      if j == |once| {
        assert forall i :: 0 <= i < |free| && i != k ==> free[i] == once[i];
        GiveBackOnce(free, b, k);
      } else {
        GiveBackTwice(free, b, k, j);
      }
    }
  }

  // ---------------------------------------------------------------- lemmas: the allocated list

  /** Extents without a common address do not overlap. */
  lemma NothingShared(d: Extent, e: Extent)
    requires forall a: int :: d.Has(a) ==> !e.Has(a)
    ensures !Overlap(d.start, d.size, e.start, e.size)
  {
    var a := if d.start < e.start then e.start else d.start;
    assert Overlap(d.start, d.size, e.start, e.size) ==> d.Has(a) && e.Has(a);
  }

  /** The slots after a block has been recorded: the old ones, unused ones, and the block in one that was unused. */
  lemma RecordSlots(blocks: seq<Block>, b: Block) returns (k: nat)
    ensures var r := Record(blocks, b);
            && k < |r| && r[k] == b && |blocks| <= |r| && (k < |blocks| ==> blocks[k] == NO_BLOCK)
            && forall i :: 0 <= i < |r| && i != k ==> r[i] == if i < |blocks| then blocks[i] else NO_BLOCK
  {
    k := FirstUnused(WithRoom(blocks), 0);
  }

  lemma RecordLive(blocks: seq<Block>, b: Block)
    requires b != NO_BLOCK
    ensures Live(Record(blocks, b)) == Live(blocks) + {b.start}
  {
    var k := RecordSlots(blocks, b);
    var r := Record(blocks, b);
    forall x | x in Live(blocks)
      ensures x in Live(r)
    {
      var i :| 0 <= i < |blocks| && blocks[i] != NO_BLOCK && blocks[i].start == x;
      assert r[i] == blocks[i];
    }
  }

  lemma RecordAddresses(blocks: seq<Block>, b: Block, a: int)
    ensures BlockAt(Record(blocks, b), a) <==> BlockAt(blocks, a) || b.Has(a)
  {
    var k := RecordSlots(blocks, b);
    var r := Record(blocks, b);
    if i :| 0 <= i < |blocks| && blocks[i].Has(a) {
      assert r[i].Has(a);
    }
    if i :| 0 <= i < |r| && r[i].Has(a) && i != k {
      assert blocks[i].Has(a);
    }
  }

  lemma RecordApart(blocks: seq<Block>, b: Block, i: nat)
    requires i < |blocks| && forall a: int :: b.Has(a) ==> !BlockAt(blocks, a)
    ensures !Overlap(blocks[i].start, blocks[i].Bytes(), b.start, b.Bytes())
  {
    var d, e := Extent(blocks[i].start, blocks[i].Bytes()), Extent(b.start, b.Bytes());
    forall a: int | d.Has(a)
      ensures !e.Has(a)
    {
      assert blocks[i].Has(a) && BlockAt(blocks, a);
      assert e.Has(a) <==> b.Has(a);
    }
    NothingShared(d, e);
  }

  lemma RecordBlocks(blocks: seq<Block>, b: Block)
    requires BlocksInv(blocks) && b.Bytes() > 0 && InWindow(b.start, b.Bytes())
    requires forall i :: 0 <= i < |blocks| ==> !Overlap(blocks[i].start, blocks[i].Bytes(), b.start, b.Bytes())
    ensures BlocksInv(Record(blocks, b))
  {
    var k := RecordSlots(blocks, b);
  }

  lemma RecordKeeps(blocks: seq<Block>, b: Block)
    requires BlocksInv(blocks) && b.Bytes() > 0 && InWindow(b.start, b.Bytes())
    requires forall a: int :: b.Has(a) ==> !BlockAt(blocks, a)
    ensures var r := Record(blocks, b);
            && BlocksInv(r)
            && Live(r) == Live(blocks) + {b.start}
            && forall a: int :: BlockAt(r, a) <==> BlockAt(blocks, a) || b.Has(a)
  {
    forall i | 0 <= i < |blocks|
      ensures !Overlap(blocks[i].start, blocks[i].Bytes(), b.start, b.Bytes())
    {
      RecordApart(blocks, b, i);
    }
    RecordBlocks(blocks, b);
    RecordLive(blocks, b);
    forall a: int
      ensures BlockAt(Record(blocks, b), a) <==> BlockAt(blocks, a) || b.Has(a)
    {
      RecordAddresses(blocks, b, a);
    }
  }

  /** Blocks that do not overlap start at different addresses. */
  lemma StartsDiffer(blocks: seq<Block>, i: nat, k: nat)
    requires BlocksInv(blocks) && i < |blocks| && k < |blocks| && i != k
    requires blocks[i] != NO_BLOCK && blocks[k] != NO_BLOCK
    ensures blocks[i].start != blocks[k].start
    ensures forall a: int :: blocks[i].Has(a) ==> !blocks[k].Has(a)
  {
    assert BlockOk(blocks[i]) && BlockOk(blocks[k]);
    var first, second := if i < k then i else k, if i < k then k else i;
    assert !Overlap(blocks[first].start, blocks[first].Bytes(), blocks[second].start, blocks[second].Bytes());
  }

  lemma ForgetAddresses(blocks: seq<Block>, k: nat, a: int)
    requires BlocksInv(blocks) && k < |blocks| && blocks[k] != NO_BLOCK
    ensures BlockAt(blocks[k := NO_BLOCK], a) <==> BlockAt(blocks, a) && !blocks[k].Has(a)
  {
    var r := blocks[k := NO_BLOCK];
    if i :| 0 <= i < |blocks| && blocks[i].Has(a) && !blocks[k].Has(a) {
      assert r[i].Has(a);
    }
    if i :| 0 <= i < |r| && r[i].Has(a) {
      assert blocks[i].Has(a);
      StartsDiffer(blocks, i, k);
    }
  }

  lemma ForgetLive(blocks: seq<Block>, k: nat)
    requires BlocksInv(blocks) && k < |blocks| && blocks[k] != NO_BLOCK
    ensures Live(blocks[k := NO_BLOCK]) == Live(blocks) - {blocks[k].start}
  {
    var r := blocks[k := NO_BLOCK];
    forall x | x in Live(r)
      ensures x in Live(blocks) && x != blocks[k].start
    {
      var i :| 0 <= i < |r| && r[i] != NO_BLOCK && r[i].start == x;
      StartsDiffer(blocks, i, k);
    }
    forall x | x in Live(blocks) && x != blocks[k].start
      ensures x in Live(r)
    {
      var i :| 0 <= i < |blocks| && blocks[i] != NO_BLOCK && blocks[i].start == x;
      assert r[i] == blocks[i];
    }
  }

  lemma ForgetKeeps(blocks: seq<Block>, k: nat)
    requires BlocksInv(blocks) && k < |blocks| && blocks[k] != NO_BLOCK
    ensures var r := blocks[k := NO_BLOCK];
            && BlocksInv(r)
            && Live(r) == Live(blocks) - {blocks[k].start}
            && forall a: int :: BlockAt(r, a) <==> BlockAt(blocks, a) && !blocks[k].Has(a)
  {
    ForgetLive(blocks, k);
    forall a: int
      ensures BlockAt(blocks[k := NO_BLOCK], a) <==> BlockAt(blocks, a) && !blocks[k].Has(a)
    {
      ForgetAddresses(blocks, k, a);
    }
  }

  // ---------------------------------------------------------------- theorems: one step

  /** Requests whose 64-bit byte count is not zero. */
  predicate Sound(pages: nat) {
    Request(pages) > 0
  }

  lemma InitInv()
    ensures Inv(Init()) && Spare(Init()) && Live(Init().blocks) == {}
  {
    var s := Init();
    assert s.free[0] == Extent(WINDOW_START, WINDOW_END - WINDOW_START);
    assert forall i :: 1 <= i < |s.free| ==> s.free[i] == NO_EXTENT;
    forall a: int
      ensures WINDOW_START <= a < WINDOW_END <==> FreeAt(s.free, a)
    {
      if WINDOW_START <= a < WINDOW_END {
        assert s.free[0].Has(a);
      }
    }
  }

  lemma AllocSound(s: State, pages: nat)
    requires Inv(s) && Alloc(s, pages).Some? && Sound(pages)
    ensures var (mem, t) := Alloc(s, pages).value;
            && Inv(t) && |t.free| == |s.free|
            && mem !in Live(s.blocks) && Live(t.blocks) == Live(s.blocks) + {mem}
            && (forall a: int :: Block(mem, pages).Has(a) ==> FreeAt(s.free, a))
            && (forall a: int :: BlockAt(t.blocks, a) <==> BlockAt(s.blocks, a) || Block(mem, pages).Has(a))
  {
    var (mem, t) := Alloc(s, pages).value;
    var request := Request(pages);
    var k := FirstFit(s.free, request, 0);
    var b := Block(mem, pages);
    TakeKeeps(s.free, k, request);
    forall a: int | b.Has(a)
      ensures FreeAt(s.free, a)
    {
      assert s.free[k].Has(a);
    }
    RecordKeeps(s.blocks, b);
    assert b.Has(mem);
    forall i | 0 <= i < |s.blocks| && s.blocks[i] != NO_BLOCK
      ensures s.blocks[i].start != mem
    {
      assert s.blocks[i].Has(s.blocks[i].start);
    }
  }

  // ---------------------------------------------------------------- theorems: requests for nothing

  ghost predicate NoOverlap(blocks: seq<Block>) {
    forall i, j :: 0 <= i < j < |blocks| ==>
      !Overlap(blocks[i].start, blocks[i].Bytes(), blocks[j].start, blocks[j].Bytes())
  }

  /** The invariant without what it says about blocks of no bytes. */
  ghost predicate Loose(s: State) {
    FreeInv(s.free) && NoOverlap(s.blocks) && Partition(s)
  }

  /** A byte count of zero takes nothing: the free extents stay as they are, up to the order of empty slots. */
  lemma ZeroRequestTakesNothing(s: State, pages: nat)
    requires FreeInv(s.free) && Request(pages) == 0
    ensures Alloc(s, pages).Some? && Alloc(s, pages).value.0 == s.free[0].start
    ensures Alloc(s, pages).value.1.free == s.free
  {
    assert FirstFit(s.free, 0, 0) == 0;
    if s.free[0].size == 0 {
      assert forall i :: 0 <= i < |s.free| ==> s.free[i] == NO_EXTENT;
      assert MoveToTail(s.free, 0) == s.free;
    }
  }

  lemma RecordNoOverlap(blocks: seq<Block>, b: Block)
    requires NoOverlap(blocks) && forall a: int :: b.Has(a) ==> !BlockAt(blocks, a)
    ensures NoOverlap(Record(blocks, b))
  {
    var k := RecordSlots(blocks, b);
    forall i | 0 <= i < |blocks|
      ensures !Overlap(blocks[i].start, blocks[i].Bytes(), b.start, b.Bytes())
    {
      RecordApart(blocks, b, i);
    }
  }

  /**
   First fit, in list order: every extent before the one whose start is handed out is too small. That
   extent loses its front, or leaves the list if nothing of it is left; the others keep their order.
   */
  lemma AllocFirstFit(s: State, pages: nat)
    requires Alloc(s, pages).Some?
    ensures var (mem, t) := Alloc(s, pages).value;
            var bytes := (pages * PAGE_SIZE) % U64_LIMIT;
            exists k :: && 0 <= k < |s.free| && s.free[k].start == mem && s.free[k].size >= bytes
                        && (forall j :: 0 <= j < k ==> s.free[j].size < bytes)
                        && (s.free[k].size > bytes ==>
                              t.free == s.free[..k] + [Extent(mem + bytes, s.free[k].size - bytes)] + s.free[k + 1..])
                        && (s.free[k].size == bytes ==> t.free == s.free[..k] + s.free[k + 1..] + [NO_EXTENT])
  {
    var k := FirstFit(s.free, Request(pages), 0);
    var t := Alloc(s, pages).value.1;
    var rest := Extent(s.free[k].start + Request(pages), s.free[k].size - Request(pages));
    assert s.free[k].size > Request(pages) ==> t.free == s.free[..k] + [rest] + s.free[k + 1..];
    assert s.free[k].size == Request(pages) ==> t.free == s.free[..k] + s.free[k + 1..] + [NO_EXTENT];
  }

  /** The addresses taken from the free extents are those of the block handed out. */
  lemma AllocTakes(s: State, pages: nat)
    requires FreeInv(s.free) && Alloc(s, pages).Some?
    ensures var (mem, t) := Alloc(s, pages).value;
            && FreeInv(t.free)
            && forall a: int :: (Block(mem, pages).Has(a) ==> FreeAt(s.free, a)) &&
                                (FreeAt(t.free, a) <==> FreeAt(s.free, a) && !Block(mem, pages).Has(a))
  {
    var (mem, t) := Alloc(s, pages).value;
    var request := Request(pages);
    if request == 0 {
      ZeroRequestTakesNothing(s, pages);
    } else {
      var k := FirstFit(s.free, request, 0);
      TakeKeeps(s.free, k, request);
      forall a: int
        ensures Block(mem, pages).Has(a) <==> Extent(s.free[k].start, request).Has(a)
        ensures Block(mem, pages).Has(a) ==> FreeAt(s.free, a)
      {
        assert Block(mem, pages).Has(a) ==> s.free[k].Has(a);
      }
    }
  }

  /** Every allocation, of no bytes too, keeps the lists a partition into maximal gaps and blocks without overlap. */
  lemma AllocKeepsPartition(s: State, pages: nat)
    requires Loose(s) && Alloc(s, pages).Some?
    ensures Loose(Alloc(s, pages).value.1)
  {
    var (mem, t) := Alloc(s, pages).value;
    var b := Block(mem, pages);
    AllocTakes(s, pages);
    RecordNoOverlap(s.blocks, b);
    forall a: int
      ensures BlockAt(t.blocks, a) <==> BlockAt(s.blocks, a) || b.Has(a)
    {
      RecordAddresses(s.blocks, b, a);
    }
  }

  /** The address handed out stays free exactly when the byte count is zero and anything is free at all. */
  lemma AddressStaysFree(s: State, pages: nat)
    requires Loose(s) && Alloc(s, pages).Some?
    ensures var (mem, t) := Alloc(s, pages).value;
            FreeAt(t.free, mem) <==> Request(pages) == 0 && s.free[0] != NO_EXTENT
  {
    var (mem, t) := Alloc(s, pages).value;
    AllocTakes(s, pages);
    if Sound(pages) {
      assert Block(mem, pages).Has(mem);
    } else {
      ZeroRequestTakesNothing(s, pages);
      assert s.free[0] != NO_EXTENT ==> s.free[0].Has(mem);
      assert s.free[0] == NO_EXTENT ==> forall i :: 0 <= i < |s.free| ==> s.free[i] == NO_EXTENT;
    }
  }

  /** A request that fits the first extent is given the address of the call before it exactly when that took nothing. */
  lemma SameAddressTwice(s: State, pages: nat, more: nat)
    requires Loose(s) && Alloc(s, pages).Some? && Alloc(Alloc(s, pages).value.1, more).Some?
    requires 0 < Request(more) <= s.free[0].size
    ensures var (mem, t) := Alloc(s, pages).value;
            Alloc(t, more).value.0 == mem <==> pages % 0x10_0000_0000_0000 == 0
  {
    RequestIsZero(pages);
    var (mem, t) := Alloc(s, pages).value;
    if Sound(pages) {
      AddressStaysFree(s, pages);
      AllocTakes(s, pages);
      AllocTakes(t, more);
      assert Block(Alloc(t, more).value.0, more).Has(Alloc(t, more).value.0);
    } else {
      ZeroRequestTakesNothing(s, pages);
      assert FirstFit(s.free, Request(more), 0) == 0;
    }
  }

  /** A block of no bytes with the same start is recorded in an earlier slot. */
  predicate Shadowed(blocks: seq<Block>, i: nat)
    requires i < |blocks|
  {
    exists j :: 0 <= j < i && blocks[j].start == blocks[i].start && blocks[j].Bytes() == 0
  }

  /** A free takes the block in slot `i` back exactly if no block of no bytes was recorded before it for its address. */
  lemma FreeTakesExactly(s: State, i: nat)
    requires Loose(s) && i < |s.blocks| && s.blocks[i].Bytes() > 0
    ensures var b := s.blocks[i];
            Free(s, b.start) == Some(State(GiveBack(s.free, Extent(b.start, b.Bytes())), s.blocks[i := NO_BLOCK])) <==>
            !Shadowed(s.blocks, i)
  {
    var b, k := s.blocks[i], Lookup(s.blocks, s.blocks[i].start, 0);
    assert k <= i;
    if k < i {
      assert !Overlap(s.blocks[k].start, s.blocks[k].Bytes(), b.start, b.Bytes());
      assert Shadowed(s.blocks, i);
      assert s.blocks[k := NO_BLOCK][i] != s.blocks[i := NO_BLOCK][i];
    }
  }

  /** An allocation leaves the spare slot there. */
  lemma AllocKeepsSpare(s: State, pages: nat)
    requires Spare(s) && Sound(pages) && Alloc(s, pages).Some?
    ensures Spare(Alloc(s, pages).value.1)
  {
  }

  /** An allocation records its block beside the others. */
  lemma AllocRecords(s: State, pages: nat, b: Block)
    requires Alloc(s, pages).Some? && b != NO_BLOCK && b in s.blocks
    ensures var (mem, t) := Alloc(s, pages).value; b in t.blocks && Block(mem, pages) in t.blocks
  {
    var (mem, t) := Alloc(s, pages).value;
    var room := WithRoom(s.blocks);
    var k := FirstUnused(room, 0);
    assert t.blocks[k] == Block(mem, pages);
    var i :| 0 <= i < |s.blocks| && s.blocks[i] == b;
    assert t.blocks[i] == b;
  }

  /** Freeing one block leaves the others recorded. */
  lemma FreeForgetsOne(s: State, mem: nat, b: Block)
    requires |s.free| > 0 && Free(s, mem).Some? && b in s.blocks && b.start != mem
    ensures b in Free(s, mem).value.blocks
  {
    var i :| 0 <= i < |s.blocks| && s.blocks[i] == b;
    assert Free(s, mem).value.blocks[i] == b;
  }

  /** Two recorded blocks do not overlap. */
  lemma BlocksApart(s: State, b: Block, c: Block)
    requires Inv(s) && b in s.blocks && c in s.blocks && b.start != c.start && b != NO_BLOCK && c != NO_BLOCK
    ensures b.start + b.Bytes() <= c.start || c.start + c.Bytes() <= b.start
  {
    var i :| 0 <= i < |s.blocks| && s.blocks[i] == b;
    var j :| 0 <= j < |s.blocks| && s.blocks[j] == c;
    assert i < j ==> !Overlap(b.start, b.Bytes(), c.start, c.Bytes());
    assert j < i ==> !Overlap(c.start, c.Bytes(), b.start, b.Bytes());
  }

  /** A run of addresses inside the window that no allocated block meets. */
  ghost predicate Gap(s: State, start: int, size: nat) {
    && WINDOW_START <= start && start + size <= WINDOW_END
    && forall a: int :: start <= a < start + size ==> !BlockAt(s.blocks, a)
  }

  lemma ExtentIsMaximal(free: seq<Extent>, k: nat)
    requires FreeInv(free) && k < |free| && free[k].size > 0
    ensures !FreeAt(free, free[k].start - 1) && !FreeAt(free, free[k].start + free[k].size)
  {
    forall j | 0 <= j < |free|
      ensures !free[j].Has(free[k].start - 1) && !free[j].Has(free[k].start + free[k].size)
    {
      assert j < k ==> Apart(free[j], free[k]);
      assert j > k ==> Apart(free[k], free[j]);
    }
  }

  /** The free list holds maximal gaps: a gap lies inside one free extent. */
  lemma GapInsideExtent(s: State, start: int, size: nat) returns (k: nat)
    requires Inv(s) && Gap(s, start, size) && size > 0
    ensures k < |s.free| && s.free[k].start <= start && start + size <= s.free[k].start + s.free[k].size
  {
    assert FreeAt(s.free, start);
    k :| 0 <= k < |s.free| && s.free[k].Has(start);
    var end := s.free[k].start + s.free[k].size;
    ExtentIsMaximal(s.free, k);
    assert end < start + size ==> BlockAt(s.blocks, end);
  }

  /** The out-of-memory panic is reached exactly when no gap is large enough. */
  lemma AllocFailsExactly(s: State, pages: nat)
    requires Inv(s) && Sound(pages)
    ensures Alloc(s, pages).None? <==> forall start: int :: !Gap(s, start, Request(pages))
  {
    var request := Request(pages);
    var k := FirstFit(s.free, request, 0);
    if k < |s.free| {
      forall a: int | s.free[k].start <= a < s.free[k].start + request
        ensures !BlockAt(s.blocks, a)
      {
        assert s.free[k].Has(a);
        assert FreeAt(s.free, a);
      }
      assert Gap(s, s.free[k].start, request);
    }
    if start: int :| Gap(s, start, request) {
      var i := GapInsideExtent(s, start, request);
    }
  }

  /** Freeing a live block puts back exactly its addresses; an unknown address is the panic. */
  lemma FreeKeeps(s: State, mem: nat)
    requires Inv(s) && FreeLinks(s, mem) && mem != 0
    ensures Free(s, mem).Some? <==> mem in Live(s.blocks)
    ensures mem in Live(s.blocks) ==>
              var t := Free(s, mem).value;
              && Inv(t) && |t.free| == |s.free| && Live(t.blocks) == Live(s.blocks) - {mem}
              && var k := Lookup(s.blocks, mem, 0);
                 forall a: int :: FreeAt(t.free, a) <==> FreeAt(s.free, a) || s.blocks[k].Has(a)
  {
    var k := Lookup(s.blocks, mem, 0);
    if k < |s.blocks| {
      var b := Extent(mem, s.blocks[k].Bytes());
      forall i | 0 <= i < |s.free|
        ensures !Overlap(s.free[i].start, s.free[i].size, b.start, b.size)
      {
        forall a: int | s.free[i].Has(a)
          ensures !b.Has(a)
        {
          assert FreeAt(s.free, a);
          assert b.Has(a) <==> s.blocks[k].Has(a);
        }
        NothingShared(s.free[i], b);
      }
      GiveBackKeeps(s.free, b);
      ForgetKeeps(s.blocks, k);
      var t := Free(s, mem).value;
      forall a: int
        ensures FreeAt(t.free, a) <==> FreeAt(s.free, a) || s.blocks[k].Has(a)
      {
        assert b.Has(a) <==> s.blocks[k].Has(a);
      }
      forall a: int | s.blocks[k].Has(a)
        ensures BlockAt(s.blocks, a)
      {
      }
    }
  }

  /** With no live block the free list is the one `vmm_init` made: a single extent, the whole window. */
  lemma NoBlockLeft(s: State)
    requires Inv(s) && Live(s.blocks) == {}
    ensures s.free[0] == Extent(WINDOW_START, WINDOW_END - WINDOW_START)
    ensures forall i :: 1 <= i < |s.free| ==> s.free[i] == NO_EXTENT
  {
    assert forall i :: 0 <= i < |s.blocks| && s.blocks[i] != NO_BLOCK ==> s.blocks[i].start in Live(s.blocks);
    assert Gap(s, WINDOW_START, WINDOW_END - WINDOW_START);
    var k := GapInsideExtent(s, WINDOW_START, WINDOW_END - WINDOW_START);
    assert s.free[k] == Extent(WINDOW_START, WINDOW_END - WINDOW_START);
    forall i | 0 <= i < |s.free| && i != k
      ensures s.free[i] == NO_EXTENT
    {
      assert if i < k then Apart(s.free[i], s.free[k]) else Apart(s.free[k], s.free[i]);
    }
  }

  // ---------------------------------------------------------------- how many slots are in use

  function End(e: Extent): nat { e.start + e.size }

  /** The ends of the first `n` extents. */
  function Ends(free: seq<Extent>, n: nat): set<nat>
    requires n <= |free|
  {
    if n == 0 then {} else Ends(free, n - 1) + {End(free[n - 1])}
  }

  /** A free extent ends at the end of the window or at the start of a live block. */
  lemma EndIsLive(s: State, k: nat)
    requires Inv(s) && k < |s.free| && s.free[k].size > 0
    ensures End(s.free[k]) == WINDOW_END || End(s.free[k]) in Live(s.blocks)
  {
    var end := End(s.free[k]);
    ExtentIsMaximal(s.free, k);
    assert s.free[k].Has(end - 1) && FreeAt(s.free, end - 1);
    if end < WINDOW_END {
      assert BlockAt(s.blocks, end);
      var i :| 0 <= i < |s.blocks| && s.blocks[i].Has(end);
      assert !s.blocks[i].Has(end - 1);
    }
  }

  lemma {:induction false} EndsHold(free: seq<Extent>, n: nat, e: nat)
    requires n <= |free| && e in Ends(free, n)
    ensures exists i :: 0 <= i < n && End(free[i]) == e
  {
    if e != End(free[n - 1]) {
      EndsHold(free, n - 1, e);
    }
  }

  lemma {:induction false} EndsLack(free: seq<Extent>, n: nat, e: nat)
    requires n <= |free| && forall i :: 0 <= i < n ==> End(free[i]) != e
    ensures e !in Ends(free, n)
  {
    if n > 0 {
      EndsLack(free, n - 1, e);
    }
  }

  lemma {:induction false} EndsDiffer(free: seq<Extent>, n: nat)
    requires FreeInv(free) && n <= |free| && forall i :: 0 <= i < n ==> free[i].size > 0
    ensures |Ends(free, n)| == n
  {
    if n > 0 {
      EndsDiffer(free, n - 1);
      forall i | 0 <= i < n - 1
        ensures End(free[i]) != End(free[n - 1])
      {
        assert Apart(free[i], free[n - 1]);
      }
      EndsLack(free, n - 1, End(free[n - 1]));
    }
  }

  /** With fewer live blocks than slots less one, the last slot is empty. */
  lemma SpareByCount(s: State)
    requires Inv(s) && |Live(s.blocks)| + 1 < |s.free|
    ensures Spare(s)
  {
    var n := |s.free|;
    if s.free[n - 1].size > 0 {
      EndsDiffer(s.free, n);
      forall e | e in Ends(s.free, n)
        ensures e in Live(s.blocks) + {WINDOW_END}
      {
        EndsHold(s.free, n, e);
        var i :| 0 <= i < n && End(s.free[i]) == e;
        EndIsLive(s, i);
      }
      SubsetSize(Ends(s.free, n), Live(s.blocks) + {WINDOW_END});
    }
  }

  // ---------------------------------------------------------------- theorems: runs

  datatype Op = AllocOp(pages: nat) | FreeOp(mem: nat)

  /** A request that is not zero and has a gap, or a free of a live block; and the list survives it. */
  ghost predicate Legal(s: State, op: Op) {
    && |s.free| > 0
    && match op
       case AllocOp(pages) => Sound(pages) && Alloc(s, pages).Some? && AllocLinks(s, pages)
       case FreeOp(mem) => mem in Live(s.blocks) && FreeLinks(s, mem)
  }

  function Step(s: State, op: Op): State
    requires |s.free| > 0
  {
    match op
    case AllocOp(pages) => if Alloc(s, pages).Some? then Alloc(s, pages).value.1 else s
    case FreeOp(mem) => if Free(s, mem).Some? then Free(s, mem).value else s
  }

  /** `t` is reached from `s` by these operations, each legal where it is applied. */
  ghost predicate Reaches(s: State, ops: seq<Op>, t: State)
    decreases |ops|
  {
    if ops == [] then s == t else Legal(s, ops[0]) && Reaches(Step(s, ops[0]), ops[1..], t)
  }

  lemma StepKeeps(s: State, op: Op)
    requires Inv(s) && Legal(s, op)
    ensures Inv(Step(s, op)) && |Step(s, op).free| == |s.free|
  {
    match op {
      case AllocOp(pages) => AllocSound(s, pages);
      case FreeOp(mem) => FreeKeeps(s, mem);
    }
  }

  /** Every run keeps the partition into allocated blocks and maximal gaps. */
  lemma {:induction false} RunKeeps(s: State, ops: seq<Op>, t: State)
    requires Inv(s) && Reaches(s, ops, t)
    ensures Inv(t) && |t.free| == |s.free|
    decreases |ops|
  {
    if ops != [] {
      StepKeeps(s, ops[0]);
      RunKeeps(Step(s, ops[0]), ops[1..], t);
    }
  }

  /** Calls as their caller sees them: few live blocks, a sound request that does not panic, a free of a live block. */
  ghost predicate Proper(s: State, op: Op) {
    && |Live(s.blocks)| <= FREE_SLOTS - 2
    && match op
       case AllocOp(pages) => Sound(pages) && Alloc(s, pages).Some?
       case FreeOp(mem) => mem in Live(s.blocks)
  }

  ghost predicate ReachesProperly(s: State, ops: seq<Op>, t: State)
    requires |s.free| > 0
    decreases |ops|
  {
    if ops == [] then s == t
    else Proper(s, ops[0]) && |Step(s, ops[0]).free| > 0 && ReachesProperly(Step(s, ops[0]), ops[1..], t)
  }

  lemma ProperIsLegal(s: State, op: Op)
    requires Inv(s) && |s.free| == FREE_SLOTS && Proper(s, op)
    ensures Legal(s, op)
  {
    SpareByCount(s);
    SpareLinks(s);
    if op.FreeOp? {
      var i :| 0 <= i < |s.blocks| && s.blocks[i] != NO_BLOCK && s.blocks[i].start == op.mem;
      assert BlockOk(s.blocks[i]);
    }
  }

  /** Every run from `vmm_init` that never has more than 126 live blocks before a call keeps lists and links. */
  lemma {:induction false} ProperRuns(s: State, ops: seq<Op>, t: State)
    requires Inv(s) && |s.free| == FREE_SLOTS && ReachesProperly(s, ops, t)
    ensures Reaches(s, ops, t) && Inv(t) && |t.free| == FREE_SLOTS
    decreases |ops|
  {
    if ops != [] {
      ProperIsLegal(s, ops[0]);
      StepKeeps(s, ops[0]);
      ProperRuns(Step(s, ops[0]), ops[1..], t);
    }
  }

  lemma ReachableInv(ops: seq<Op>, s: State)
    requires |Init().free| > 0 && ReachesProperly(Init(), ops, s)
    ensures Inv(s) && |s.free| == FREE_SLOTS
  {
    InitInv();
    ProperRuns(Init(), ops, s);
  }

  // ---------------------------------------------------------------- theorems: freeing everything

  /** Frees these addresses in this order; None if one of them panics. */
  function FreeAll(s: State, order: seq<nat>): Option<State>
    requires |s.free| > 0
    decreases |order|
  {
    if order == [] then Some(s)
    else
      match Free(s, order[0])
      case None => None
      case Some(t) => FreeAll(t, order[1..])
  }

  /** The addresses can be freed, in any order, exactly if they are live and no address comes twice. */
  lemma {:induction false} FreeAllExactly(s: State, order: seq<nat>)
    requires Inv(s) && |Live(s.blocks)| + 1 < |s.free| && 0 !in order
    ensures FreeAll(s, order).Some? <==> Distinct(order) && forall m :: m in order ==> m in Live(s.blocks)
    ensures FreeAll(s, order).Some? ==>
              var t := FreeAll(s, order).value;
              Inv(t) && |t.free| == |s.free| && Live(t.blocks) == Live(s.blocks) - set m | m in order
    decreases |order|
  {
    if order != [] {
      var mem, rest := order[0], order[1..];
      SpareByCount(s);
      SpareLinks(s);
      FreeKeeps(s, mem);
      assert forall m :: m in order <==> m == mem || m in rest;
      assert Distinct(order) <==> Distinct(rest) && mem !in rest;
      if mem in Live(s.blocks) {
        var t := Free(s, mem).value;
        FreeAllExactly(t, rest);
      }
    }
  }

  /** Freeing the live blocks, in any order, ends with the free list `vmm_init` made. */
  lemma FreeAllRestores(s: State, order: seq<nat>)
    requires Inv(s) && |Live(s.blocks)| + 1 < |s.free| && 0 !in order
    requires Distinct(order) && Live(s.blocks) == set m | m in order
    ensures FreeAll(s, order).Some?
    ensures var t := FreeAll(s, order).value;
            && Live(t.blocks) == {} && |t.free| > 0 && t.free[0] == Extent(WINDOW_START, WINDOW_END - WINDOW_START)
            && forall i :: 1 <= i < |t.free| ==> t.free[i] == NO_EXTENT
  {
    FreeAllExactly(s, order);
    NoBlockLeft(FreeAll(s, order).value);
  }
}
