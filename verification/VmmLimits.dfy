/**
 Runs of the range allocator of `mem/vmm.c` that reach its limits: a list of free extents with no empty
 slot left, calls that then spoil its links, and a free that takes the wrong block.
 */
module VmmLimits {
  import opened Basics
  import opened VmmSpec

  // ---------------------------------------------------------------- the states of the run

  /** Page number `i` of the window. */
  function PageAt(i: nat): nat { WINDOW_START + PAGE_SIZE * i }

  /** What is left behind the first `n` pages. */
  function Behind(n: nat): Extent
    requires PageAt(n) < WINDOW_END
  {
    Extent(PageAt(n), WINDOW_END - PageAt(n))
  }

  function Slot(n: nat, m: nat, i: nat): Extent
    requires PageAt(n) < WINDOW_END
  {
    if i < m then Extent(PageAt(2 * (m - 1 - i)), PAGE_SIZE) else if i == m then Behind(n) else NO_EXTENT
  }

  /** The free list after `n` one-page allocations and frees of the first `m` pages with an even number. */
  function Checkered(n: nat, m: nat): (free: seq<Extent>)
    requires PageAt(n) < WINDOW_END
    ensures |free| == FREE_SLOTS && forall i :: 0 <= i < FREE_SLOTS ==> free[i] == Slot(n, m, i)
  {
    seq(FREE_SLOTS, i requires 0 <= i => Slot(n, m, i))
  }

  ghost predicate OnePageEach(blocks: seq<Block>) {
    forall i :: 0 <= i < |blocks| ==> blocks[i] == NO_BLOCK || blocks[i].pages == 1
  }

  /** Page `i` is live if it has been allocated and not freed. */
  ghost predicate LivePages(live: set<nat>, n: nat, m: nat) {
    |live| == n - m && forall i: nat :: PageAt(i) in live <==> i < n && !(i % 2 == 0 && i < 2 * m)
  }

  /** The state after these calls. */
  ghost predicate After(s: State, n: nat, m: nat) {
    && 2 * m <= n && PageAt(n) < WINDOW_END && m < FREE_SLOTS
    && Inv(s) && s.free == Checkered(n, m) && OnePageEach(s.blocks) && LivePages(Live(s.blocks), n, m)
  }

  lemma PagesDiffer(i: nat, j: nat)
    ensures PageAt(i) == PageAt(j) <==> i == j
  {
  }

  lemma LiveFreed(live: set<nat>, n: nat, m: nat)
    requires LivePages(live, n, m) && 2 * m < n
    ensures LivePages(live - {PageAt(2 * m)}, n, m + 1)
  {
    assert PageAt(2 * m) in live;
    forall i: nat
      ensures PageAt(i) in live - {PageAt(2 * m)} <==> i < n && !(i % 2 == 0 && i < 2 * (m + 1))
    {
      PagesDiffer(i, 2 * m);
      assert PageAt(i) in live <==> i < n && !(i % 2 == 0 && i < 2 * m);
    }
  }

  // ---------------------------------------------------------------- the steps of the run

  lemma {:induction false} ReachesThen(s: State, ops: seq<Op>, t: State, op: Op)
    requires Reaches(s, ops, t) && Legal(t, op)
    ensures Reaches(s, ops + [op], Step(t, op))
    decreases |ops|
  {
    if ops == [] {
      assert ([] + [op])[1..] == [];
    } else {
      assert (ops + [op])[0] == ops[0] && (ops + [op])[1..] == ops[1..] + [op];
      ReachesThen(Step(s, ops[0]), ops[1..], t, op);
    }
  }

  /** One page is taken from the front of what is left. */
  lemma TakePage(n: nat)
    requires PageAt(n + 1) < WINDOW_END
    ensures FirstFit(Checkered(n, 0), PAGE_SIZE, 0) == 0 && PAGE_SIZE < Checkered(n, 0)[0].size
    ensures Take(Checkered(n, 0), 0, PAGE_SIZE) == Checkered(n + 1, 0)
  {
    var free := Checkered(n, 0);
    assert free[0] == Behind(n);
    assert Checkered(n + 1, 0)[0] == Behind(n + 1);
    assert forall i :: 1 <= i < FREE_SLOTS ==> free[i] == NO_EXTENT == Checkered(n + 1, 0)[i];
  }

  lemma AllocatePage(s: State, n: nat)
    requires After(s, n, 0) && PageAt(n + 1) < WINDOW_END
    ensures Legal(s, AllocOp(1)) && After(Step(s, AllocOp(1)), n + 1, 0)
  {
    TakePage(n);
    assert Request(1) == PAGE_SIZE && Alloc(s, 1).Some?;
    var (mem, t) := Alloc(s, 1).value;
    assert mem == PageAt(n) && t.free == Checkered(n + 1, 0);
    assert OnePageEach(t.blocks) by { var k := RecordSlots(s.blocks, Block(mem, 1)); }
    AllocSound(s, 1);
  }

  /** The next page with an even number has no free neighbour and is not adjacent to an empty slot. */
  lemma NoNeighbour(n: nat, m: nat, page: nat)
    requires PageAt(n) < WINDOW_END && m < FREE_SLOTS && page + 1 < n
    requires page % 2 == 0 ==> page >= 2 * m
    requires page % 2 == 1 ==> page > 2 * m
    ensures FirstTouch(Checkered(n, m), Extent(PageAt(page), PAGE_SIZE), 0) == FREE_SLOTS
  {
    var free, b := Checkered(n, m), Extent(PageAt(page), PAGE_SIZE);
    forall i | 0 <= i < FREE_SLOTS
      ensures !Touches(free[i], b)
    {
    }
  }

  /** The page goes into the last slot, which becomes the first. */
  lemma PutPage(n: nat, m: nat)
    requires PageAt(n) < WINDOW_END && m + 1 < FREE_SLOTS && 2 * m + 1 < n
    ensures var b := Extent(PageAt(2 * m), PAGE_SIZE);
            PutLinks(Checkered(n, m), b) && GiveBack(Checkered(n, m), b) == Checkered(n, m + 1)
  {
    var free, b := Checkered(n, m), Extent(PageAt(2 * m), PAGE_SIZE);
    NoNeighbour(n, m, 2 * m);
    assert free[FREE_SLOTS - 1] == NO_EXTENT;
    var r := [b] + free[..FREE_SLOTS - 1];
    forall i | 0 <= i < FREE_SLOTS
      ensures r[i] == Checkered(n, m + 1)[i]
    {
      assert i > 0 ==> r[i] == free[i - 1] == Slot(n, m, i - 1);
    }
  }

  /** A live block found by its address has one page. */
  lemma FoundPage(blocks: seq<Block>, mem: nat)
    requires OnePageEach(blocks) && mem != 0 && mem in Live(blocks)
    ensures var k := Lookup(blocks, mem, 0);
            k < |blocks| && blocks[k] == Block(mem, 1) && blocks[k].Bytes() == PAGE_SIZE
  {
    var i :| 0 <= i < |blocks| && blocks[i] != NO_BLOCK && blocks[i].start == mem;
    var k := Lookup(blocks, mem, 0);
    assert blocks[k].start == mem;
  }

  lemma FreePage(s: State, n: nat, m: nat)
    requires After(s, n, m) && 2 * m + 2 <= n && m + 1 < FREE_SLOTS
    ensures var op := FreeOp(PageAt(2 * m)); Legal(s, op) && After(Step(s, op), n, m + 1)
  {
    var mem := PageAt(2 * m);
    assert mem in Live(s.blocks);
    FoundPage(s.blocks, mem);
    PutPage(n, m);
    FreeKeeps(s, mem);
    LiveFreed(Live(s.blocks), n, m);
  }

  // ---------------------------------------------------------------- the run

  lemma InitCheckered()
    ensures Init().free == Checkered(0, 0)
  {
    assert Checkered(0, 0)[0] == Behind(0) == Init().free[0];
    assert forall i :: 1 <= i < FREE_SLOTS ==> Checkered(0, 0)[i] == NO_EXTENT == Init().free[i];
  }

  lemma {:induction false} AllocatePages(n: nat) returns (ops: seq<Op>, s: State)
    requires PageAt(n) < WINDOW_END
    ensures Reaches(Init(), ops, s) && After(s, n, 0)
  {
    if n == 0 {
      InitInv();
      ops, s := [], Init();
      InitCheckered();
    } else {
      ops, s := AllocatePages(n - 1);
      AllocatePage(s, n - 1);
      ReachesThen(Init(), ops, s, AllocOp(1));
      ops, s := ops + [AllocOp(1)], Step(s, AllocOp(1));
    }
  }

  lemma {:induction false} FreePages(n: nat, m: nat) returns (ops: seq<Op>, s: State)
    requires PageAt(n) < WINDOW_END && 2 * m <= n && m < FREE_SLOTS
    ensures Reaches(Init(), ops, s) && After(s, n, m)
    decreases m
  {
    if m == 0 {
      ops, s := AllocatePages(n);
    } else {
      var k := m - 1;
      ops, s := FreePages(n, k);
      var op := FreeOp(PageAt(2 * k));
      FreePage(s, n, k);
      ReachesThen(Init(), ops, s, op);
      ops, s := ops + [op], Step(s, op);
    }
  }

  /**
   126 live blocks is sharp: a run of legal calls reaches a state with 127 of them in which no slot is
   empty, and in which the largest request that can be served spoils the links.
   */
  lemma LastExtentSpoils() returns (ops: seq<Op>, s: State, pages: nat)
    ensures Reaches(Init(), ops, s) && Inv(s) && |Live(s.blocks)| == FREE_SLOTS - 1 && !Spare(s)
    ensures Sound(pages) && Alloc(s, pages).Some? && !AllocLinks(s, pages)
  {
    ops, s := FreePages(254, 127);
    pages := LastFit(254);
  }

  /** With every slot in use, the request for the whole last extent fits nowhere else. */
  lemma LastFit(n: nat) returns (pages: nat)
    requires PageAt(n + 1) < WINDOW_END
    ensures var free := Checkered(n, FREE_SLOTS - 1);
            Request(pages) == free[FREE_SLOTS - 1].size > 0 && FirstFit(free, Request(pages), 0) == FREE_SLOTS - 1
  {
    var free := Checkered(n, FREE_SLOTS - 1);
    pages := (WINDOW_END - WINDOW_START) / PAGE_SIZE - n;
    assert Request(pages) == Behind(n).size;
    assert free[FREE_SLOTS - 1] == Behind(n);
    assert forall i :: 0 <= i < FREE_SLOTS - 1 ==> free[i].size == PAGE_SIZE;
  }

  /** Three pages more, and the free of one without free neighbours spoils the links. */
  lemma LonePageSpoils() returns (ops: seq<Op>, s: State, mem: nat)
    ensures Reaches(Init(), ops, s) && Inv(s) && mem in Live(s.blocks) && !FreeLinks(s, mem)
  {
    ops, s := FreePages(257, 127);
    mem := PageAt(255);
    assert mem in Live(s.blocks);
    FoundPage(s.blocks, mem);
    NoNeighbour(257, 127, 255);
    assert s.free[FREE_SLOTS - 1] == Behind(257);
  }

  // ---------------------------------------------------------------- requests for nothing

  /** No pages and then one page are both given the first address. */
  lemma TwiceTheFirst() returns (t: State, u: State)
    ensures Alloc(Init(), 0) == Some((WINDOW_START, t)) && Alloc(t, 1) == Some((WINDOW_START, u))
    ensures u.free == Checkered(1, 0) && |u.blocks| == BLOCK_SLOTS
    ensures u.blocks[0] == Block(WINDOW_START, 0) && u.blocks[1] == Block(WINDOW_START, 1)
  {
    InitInv();
    ZeroRequestTakesNothing(Init(), 0);
    t := Alloc(Init(), 0).value.1;
    assert FirstUnused(Init().blocks, 0) == 0;
    assert t.blocks == UnusedPage()[0 := Block(WINDOW_START, 0)];
    assert FirstUnused(t.blocks, 0) == 1;
    InitCheckered();
    TakePage(0);
    assert Request(1) == PAGE_SIZE && Alloc(t, 1).Some?;
    u := Alloc(t, 1).value.1;
  }

  /** The free of that address takes the block of no bytes: the page stays recorded, and the free list is spoilt. */
  lemma WrongBlockFreed() returns (t: State, u: State, v: State)
    ensures Alloc(Init(), 0) == Some((WINDOW_START, t)) && Alloc(t, 1) == Some((WINDOW_START, u))
    ensures |u.free| > 0 && Free(u, WINDOW_START) == Some(v)
    ensures Block(WINDOW_START, 1) in v.blocks && !FreeInv(v.free)
  {
    t, u := TwiceTheFirst();
    assert Lookup(u.blocks, WINDOW_START, 0) == 0;
    var b := Extent(WINDOW_START, 0);
    forall i | 0 <= i < |u.free|
      ensures !Touches(u.free[i], b)
    {
    }
    v := Free(u, WINDOW_START).value;
    assert v.blocks[1] == Block(WINDOW_START, 1) && v.free[0] == b && !ExtentOk(b);
  }
}
