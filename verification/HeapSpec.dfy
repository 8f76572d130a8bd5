/**
 The bitmap heap of `mem/vmalloc.c`, on values, on top of the range allocator of `VmmSpec`. A node is
 one range of pages whose sections of 8 bytes are handed out; a block is a run of sections whose first
 one holds the block's header, the number of its sections.
 */
module HeapSpec {
  import opened Basics
  import opened KMath
  import opened Bitmap
  import V = VmmSpec

  const SECTION_SIZE := 8
  const NODE_HEADER := 24
  /** Sections per page asked for: 63 bytes of bitmap and 4032 bytes of data. */
  const UNIT := 504

  /** A heap node: its address and, for each section, whether it is used. */
  datatype Node = Node(addr: nat, used: seq<bool>) {
    function BitmapBytes(): nat { CeilDiv(|used|, 8) }

    function TotalSize(): nat { |used| * SECTION_SIZE + BitmapBytes() }

    /** The address of the first section. */
    function Data(): nat { addr + NODE_HEADER + BitmapBytes() }

    function SectionAt(i: nat): nat { Data() + i * SECTION_SIZE }
  }

  /** The pages that `add_block` asks for. */
  function PagesFor(sections: nat): nat {
    CeilDiv(sections * SECTION_SIZE + CeilDiv(sections, 8), V.PAGE_SIZE)
  }

  /** The range allocator, the nodes in list order, and the header last stored at each address. */
  datatype State = State(vmm: V.State, nodes: seq<Node>, headers: map<nat, nat>)

  // ---------------------------------------------------------------- the operations

  /** `add_block`: a new node at the end of the list; None if the range allocator is out of memory. */
  function AddBlock(s: State, sections: nat): Option<State> {
    match V.Alloc(s.vmm, PagesFor(sections))
    case None => None
    case Some((addr, vmm)) => Some(State(vmm, s.nodes + [Node(addr, seq(sections, _ => false))], s.headers))
  }

  /** First node at or after `from` with a free run, or the number of nodes. */
  function FirstNode(nodes: seq<Node>, need: nat, from: nat): (k: nat)
    requires from <= |nodes|
    ensures from <= k <= |nodes|
    ensures forall j :: from <= j < k ==> FirstRun(nodes[j].used, need, 0) == |nodes[j].used|
    ensures k < |nodes| ==> FirstRun(nodes[k].used, need, 0) < |nodes[k].used|
    decreases |nodes| - from
  {
    if from == |nodes| || FirstRun(nodes[from].used, need, 0) < |nodes[from].used| then from
    else FirstNode(nodes, need, from + 1)
  }

  /** The nodes with one range of node `k` marked. */
  function MarkNode(nodes: seq<Node>, k: nat, start: nat, count: nat, used: bool): (r: seq<Node>)
    requires k < |nodes| && start + count <= |nodes[k].used|
    ensures |r| == |nodes|
    ensures forall j :: 0 <= j < |nodes| ==> r[j].addr == nodes[j].addr && |r[j].used| == |nodes[j].used|
  {
    nodes[k := Node(nodes[k].addr, Marked(nodes[k].used, start, count, used))]
  }

  /** Hands out `need` sections of node `k`, from section `start` on. */
  function Take(s: State, k: nat, start: nat, need: nat): State
    requires k < |s.nodes| && start + need <= |s.nodes[k].used|
  {
    State(s.vmm, MarkNode(s.nodes, k, start, need, true), s.headers[s.nodes[k].SectionAt(start) := need])
  }

  type pos = n: nat | 0 < n witness 1

  /** The bytes asked for and the block header, summed in 64 bits. */
  function Total(size: nat): nat
    requires size < U64_LIMIT
  {
    if size < U64_LIMIT - SECTION_SIZE then size + SECTION_SIZE else size - (U64_LIMIT - SECTION_SIZE)
  }

  /** Sections for that many bytes. */
  function Needed(total: nat): (need: nat)
    ensures total > 0 ==> need > 0
  {
    CeilDiv(total, SECTION_SIZE)
  }

  /** Sections of the node added when nothing fits. */
  function Grown(total: nat): nat {
    CeilDiv(total, 4032) * UNIT
  }

  // ---------------------------------------------------------------- sizes

  /** The node added for a request has room for it, rounded up to whole units. */
  lemma GrownFits(total: pos)
    ensures Needed(total) <= Grown(total) < Needed(total) + UNIT && Grown(total) % UNIT == 0
    ensures Needed(total + SECTION_SIZE) == Needed(total) + 1
    ensures Grown(total) == Needed(total) <==> Needed(total) % UNIT == 0
  {
  }

  /** How often `vmalloc` adds a node for this many sections. */
  function Retries(nodes: seq<Node>, need: nat): nat {
    if FirstNode(nodes, need, 0) < |nodes| then 0 else if need % UNIT == 0 then 2 else 1
  }

  lemma LongerRun(used: seq<bool>, need: nat)
    requires FirstRun(used, need, 0) == |used|
    ensures FirstRun(used, need + 1, 0) == |used|
  {
    var k := FirstRun(used, need + 1, 0);
    assert k < |used| ==> FreeRun(used, k, need);
  }

  lemma FreshRun(sections: nat, need: nat)
    requires need > 0
    ensures var k := FirstRun(seq(sections, _ => false), need, 0);
            if need <= sections then k == 0 && sections > 0 else k == sections
  {
    var used := seq(sections, _ => false);
    assert need <= sections <==> FreeRun(used, 0, need);
  }

  /** The run of sections that `vmalloc` marks: its start and its length. */
  datatype Run = Run(start: nat, count: nat)

  function RunFor(nodes: seq<Node>, need: nat): Run {
    var k := FirstNode(nodes, need, 0);
    if k < |nodes| then Run(FirstRun(nodes[k].used, need, 0), need) else Run(0, need + Retries(nodes, need))
  }

  lemma UnitsAreBytes(n: nat)
    ensures (n * UNIT) % 8 == 0
  {
    assert n * UNIT == 8 * (63 * n);
  }

  lemma NextUnit(need: nat)
    ensures need % UNIT == 0 ==> (need + 1) % UNIT == 1
  {
  }

  /** Where nothing fits, no longer run fits but in a node that has been added. */
  lemma AddedNode(nodes: seq<Node>, addr: nat, need: nat, sections: nat)
    requires FirstNode(nodes, need, 0) == |nodes| && 0 < need <= sections
    ensures var more := nodes + [Node(addr, seq(sections, _ => false))];
            && FirstNode(more, need + 1, 0) == (if need < sections then |nodes| else |more|)
            && (need < sections ==> FirstRun(more[|nodes|].used, need + 1, 0) == 0)
  {
    var more := nodes + [Node(addr, seq(sections, _ => false))];
    forall j | 0 <= j < |nodes|
      ensures FirstRun(more[j].used, need + 1, 0) == |more[j].used|
    {
      LongerRun(nodes[j].used, need);
    }
    assert more[|nodes|].used == seq(sections, _ => false);
    FreshRun(sections, need + 1);
  }

  /** After a node has been added, the larger request of the retry needs one node less and marks the same run. */
  lemma RetryShrinks(nodes: seq<Node>, addr: nat, total: pos)
    requires FirstNode(nodes, Needed(total), 0) == |nodes|
    ensures var more, need := nodes + [Node(addr, seq(Grown(total), _ => false))], Needed(total);
            && Needed(total + SECTION_SIZE) == need + 1
            && FirstNode(more, need + 1, 0) == (if need % UNIT == 0 then |more| else |nodes|)
            && Retries(more, need + 1) == Retries(nodes, need) - 1
            && RunFor(more, need + 1) == RunFor(nodes, need)
  {
    GrownFits(total);
    AddedNode(nodes, addr, Needed(total), Grown(total));
    NextUnit(Needed(total));
  }

  /**
   `vmalloc`, once the header has been added to the size: the address handed out; None if the range
   allocator is out of memory.
   */
  function Vmalloc(s: State, total: pos): Option<(nat, State)>
    decreases Retries(s.nodes, Needed(total))
  {
    var need := Needed(total);
    var k := FirstNode(s.nodes, need, 0);
    if k < |s.nodes| then
      var start := FirstRun(s.nodes[k].used, need, 0);
      Some((s.nodes[k].SectionAt(start) + SECTION_SIZE, Take(s, k, start, need)))
    else
      match AddBlock(s, Grown(total))
      case None => None
      case Some(t) =>
        RetryShrinks(s.nodes, t.nodes[|s.nodes|].addr, total);
        Vmalloc(t, total + SECTION_SIZE)
  }

  /** The node's data range, with the inclusive upper end that `vfree` tests. */
  predicate Matches(n: Node, h: nat) {
    n.Data() <= h <= n.addr + NODE_HEADER + n.TotalSize()
  }

  /** First node at or after `from` whose data range holds the address. */
  function FirstOwner(nodes: seq<Node>, h: nat, from: nat): (k: nat)
    requires from <= |nodes|
    ensures from <= k <= |nodes|
    ensures forall j :: from <= j < k ==> !Matches(nodes[j], h)
    ensures k < |nodes| ==> Matches(nodes[k], h)
    decreases |nodes| - from
  {
    if from == |nodes| || Matches(nodes[from], h) then from else FirstOwner(nodes, h, from + 1)
  }

  /** `release_if_unused`: an unused node other than the head goes back to the range allocator. */
  function Release(s: State, k: nat): Option<State>
    requires k < |s.nodes| && |s.vmm.free| > 0
  {
    if k == 0 || true in s.nodes[k].used then Some(s)
    else
      match V.Free(s.vmm, s.nodes[k].addr)
      case None => None
      case Some(vmm) => Some(State(vmm, Without(s.nodes, k), s.headers))
  }

  /** `vfree`; None is its panics, the range allocator's, and an address no block header was ever stored before. */
  function Vfree(s: State, mem: nat): Option<State>
    requires |s.vmm.free| > 0
  {
    var h := mem - SECTION_SIZE;
    if h < 0 || h !in s.headers then None
    else
      var size, k := s.headers[h], FirstOwner(s.nodes, h, 0);
      if k == |s.nodes| then None
      else
        var n := s.nodes[k];
        var start := (h - n.Data()) / SECTION_SIZE;
        if start + size > |n.used| then None
        else Release(State(s.vmm, MarkNode(s.nodes, k, start, size, false), s.headers), k)
  }

  // ---------------------------------------------------------------- the invariant

  /** A block in use: the address of its node, its first section and the number of its sections. */
  datatype Blk = Blk(node: nat, start: nat, size: nat)

  /** Whole units, and a byte count that 64 bits can hold. */
  ghost predicate ShapeOk(n: Node) {
    |n.used| > 0 && |n.used| % UNIT == 0 && PagesFor(|n.used|) * V.PAGE_SIZE < U64_LIMIT
  }

  /** The data ranges, with their inclusive upper ends, do not meet. */
  ghost predicate Apart(m: Node, n: Node) {
    m.addr + NODE_HEADER + m.TotalSize() < n.Data() || n.addr + NODE_HEADER + n.TotalSize() < m.Data()
  }

  ghost predicate Spread(nodes: seq<Node>) {
    && (forall k :: 0 <= k < |nodes| ==> nodes[k].addr > 0 && ShapeOk(nodes[k]))
    && (forall j, k :: 0 <= j < |nodes| && 0 <= k < |nodes| && j != k ==>
          nodes[j].addr != nodes[k].addr && Apart(nodes[j], nodes[k]))
  }

  /** The node holds the block, which `mark_bitmap` can mark, and the block's header says its size. */
  ghost predicate Holds(n: Node, headers: map<nat, nat>, b: Blk) {
    && n.addr == b.node && b.size > 0 && Markable(b.start, b.size) && b.start + b.size <= |n.used|
    && n.SectionAt(b.start) in headers && headers[n.SectionAt(b.start)] == b.size
  }

  ghost predicate Overlaps(b: Blk, c: Blk) {
    b.node == c.node && b.start < c.start + c.size && c.start < b.start + b.size
  }

  ghost predicate Covered(live: set<Blk>, node: nat, i: nat) {
    exists b :: b in live && b.node == node && b.start <= i < b.start + b.size
  }

  /** Every live block lies in a node and matches its header. */
  ghost predicate LiveHeld(nodes: seq<Node>, headers: map<nat, nat>, live: set<Blk>) {
    forall b :: b in live ==> exists k :: 0 <= k < |nodes| && Holds(nodes[k], headers, b)
  }

  ghost predicate LiveApart(live: set<Blk>) {
    forall b, c :: b in live && c in live && b != c ==> !Overlaps(b, c)
  }

  /** The bits set are exactly the union of the live blocks. */
  ghost predicate BitsExact(nodes: seq<Node>, live: set<Blk>) {
    forall k, i :: 0 <= k < |nodes| && 0 <= i < |nodes[k].used| ==>
      (nodes[k].used[i] <==> Covered(live, nodes[k].addr, i))
  }

  ghost predicate HeapInv(nodes: seq<Node>, headers: map<nat, nat>, live: set<Blk>) {
    |nodes| > 0 && Spread(nodes) && LiveHeld(nodes, headers, live) && LiveApart(live) && BitsExact(nodes, live)
  }

  function BlockOf(n: Node): V.Block {
    V.Block(n.addr, PagesFor(|n.used|))
  }

  /** Every node is a block of the range allocator. */
  ghost predicate Backed(vmm: V.State, nodes: seq<Node>) {
    V.Inv(vmm) && forall k :: 0 <= k < |nodes| ==> BlockOf(nodes[k]) in vmm.blocks
  }

  ghost predicate Inv(s: State, live: set<Blk>) {
    Backed(s.vmm, s.nodes) && HeapInv(s.nodes, s.headers, live)
  }

  // ---------------------------------------------------------------- layout

  /** The bitmap and the data, counted without the node header, fill at most the node's pages. */
  lemma Layout(n: Node)
    requires |n.used| > 0 && |n.used| % UNIT == 0
    ensures n.BitmapBytes() * 8 == |n.used| && n.BitmapBytes() >= 63
    ensures n.TotalSize() <= PagesFor(|n.used|) * V.PAGE_SIZE && PagesFor(|n.used|) > 0
    ensures n.Data() + |n.used| * SECTION_SIZE == n.addr + NODE_HEADER + n.TotalSize()
  {
    var q := |n.used| / UNIT;
    assert |n.used| == UNIT * q;
    assert n.BitmapBytes() == 63 * q;
  }

  /** With its header, a node of `k` units fits in its pages exactly when k modulo 4096 is at least 24. */
  lemma NodeFitsExactly(k: nat)
    requires k > 0
    ensures var n := Node(0, seq(k * UNIT, _ => false));
            NODE_HEADER + n.TotalSize() <= PagesFor(k * UNIT) * V.PAGE_SIZE <==> k % 4096 >= 24
  {
    var n := Node(0, seq(k * UNIT, _ => false));
    assert |n.used| == k * UNIT;
    Layout(n);
    assert n.TotalSize() == 4095 * k;
    var q, r := k / 4096, k % 4096;
    var pages := PagesFor(k * UNIT);
    assert 4095 * k <= pages * 4096 < 4095 * k + 4096;
    assert 4095 * k == 4096 * (k - q) - r;
    assert pages == k - q;
  }

  /** The node that `vmalloc_init` adds does not fit in its page. */
  lemma FirstNodeOverruns()
    ensures NODE_HEADER + Node(0, seq(UNIT, _ => false)).TotalSize() > PagesFor(UNIT) * V.PAGE_SIZE
  {
    NodeFitsExactly(1);
  }

  /** Without its header, a node lies inside the block it was given. */
  lemma InsideBlock(n: Node)
    requires ShapeOk(n)
    ensures 63 <= n.BitmapBytes() && 0 < n.TotalSize() <= BlockOf(n).Bytes()
  {
    Layout(n);
  }

  /** Two nodes in different blocks of the range allocator have data ranges that do not meet. */
  lemma BlocksSpread(vmm: V.State, m: Node, n: Node)
    requires V.Inv(vmm) && BlockOf(m) in vmm.blocks && BlockOf(n) in vmm.blocks && m.addr != n.addr
    requires ShapeOk(m) && ShapeOk(n)
    ensures Apart(m, n) && Apart(n, m)
  {
    InsideBlock(m);
    InsideBlock(n);
    V.BlocksApart(vmm, BlockOf(m), BlockOf(n));
  }

  /** The address of a block's header lies in the data range of its own node and of no other. */
  lemma OwnerIsUnique(nodes: seq<Node>, headers: map<nat, nat>, k: nat, b: Blk)
    requires Spread(nodes) && k < |nodes| && Holds(nodes[k], headers, b)
    ensures var h := nodes[k].SectionAt(b.start);
            && (forall j :: 0 <= j < |nodes| ==> (Matches(nodes[j], h) <==> j == k))
            && FirstOwner(nodes, h, 0) == k
            && (h - nodes[k].Data()) / SECTION_SIZE == b.start
  {
    var h := nodes[k].SectionAt(b.start);
    Layout(nodes[k]);
    assert Matches(nodes[k], h);
    forall j | 0 <= j < |nodes| && j != k
      ensures !Matches(nodes[j], h)
    {
      assert Apart(nodes[j], nodes[k]);
    }
  }

  // ---------------------------------------------------------------- handing out

  lemma HeaderKept(nodes: seq<Node>, headers: map<nat, nat>, j: nat, b: Blk, k: nat, start: nat)
    requires Spread(nodes) && j < |nodes| && k < |nodes| && Holds(nodes[j], headers, b)
    requires start < |nodes[k].used| && (j == k ==> b.start != start)
    ensures nodes[j].SectionAt(b.start) != nodes[k].SectionAt(start)
  {
    Layout(nodes[j]);
    Layout(nodes[k]);
    assert j != k ==> Apart(nodes[j], nodes[k]);
  }

  /** A live block does not overlap a free run. */
  lemma FreeRunApart(nodes: seq<Node>, live: set<Blk>, k: nat, start: nat, need: nat, b: Blk)
    requires BitsExact(nodes, live) && k < |nodes| && FreeRun(nodes[k].used, start, need) && b in live && b.size > 0
    ensures need > 0 ==> !Overlaps(b, Blk(nodes[k].addr, start, need))
  {
    var i := if b.start < start then start else b.start;
    if b.node == nodes[k].addr && i < start + need {
      assert !nodes[k].used[i];
      assert !Covered(live, b.node, i);
    }
  }

  lemma MarkKeepsSpread(nodes: seq<Node>, k: nat, start: nat, count: nat, used: bool)
    requires Spread(nodes) && k < |nodes| && start + count <= |nodes[k].used|
    ensures Spread(MarkNode(nodes, k, start, count, used))
  {
  }

  lemma MarkKeepsBacked(vmm: V.State, nodes: seq<Node>, k: nat, start: nat, count: nat, used: bool)
    requires Backed(vmm, nodes) && k < |nodes| && start + count <= |nodes[k].used|
    ensures Backed(vmm, MarkNode(nodes, k, start, count, used))
  {
    var r := MarkNode(nodes, k, start, count, used);
    forall j | 0 <= j < |r|
      ensures BlockOf(r[j]) in vmm.blocks
    {
      assert BlockOf(r[j]) == BlockOf(nodes[j]);
    }
  }

  /** Marking a range sets exactly the bits of one more block. */
  lemma MarkCovers(nodes: seq<Node>, live: set<Blk>, k: nat, b: Blk)
    requires BitsExact(nodes, live) && Spread(nodes)
    requires k < |nodes| && b.node == nodes[k].addr && b.start + b.size <= |nodes[k].used|
    ensures BitsExact(MarkNode(nodes, k, b.start, b.size, true), live + {b})
  {
    var more, live' := MarkNode(nodes, k, b.start, b.size, true), live + {b};
    forall j, i | 0 <= j < |more| && 0 <= i < |more[j].used|
      ensures more[j].used[i] <==> Covered(live', more[j].addr, i)
    {
      assert nodes[j].used[i] <==> Covered(live, nodes[j].addr, i);
      if Covered(live, nodes[j].addr, i) {
        var c :| c in live && c.node == nodes[j].addr && c.start <= i < c.start + c.size;
        assert c in live';
      }
      if j == k && b.start <= i < b.start + b.size {
        assert b in live';
      }
    }
  }

  /** A free run is no live block's, so every live block keeps its node and its header. */
  lemma HandOutHeld(nodes: seq<Node>, headers: map<nat, nat>, live: set<Blk>, k: nat, b: Blk)
    requires HeapInv(nodes, headers, live) && k < |nodes| && b.node == nodes[k].addr && b.size > 0
    requires FreeRun(nodes[k].used, b.start, b.size) && Markable(b.start, b.size)
    ensures LiveHeld(MarkNode(nodes, k, b.start, b.size, true),
                     headers[nodes[k].SectionAt(b.start) := b.size], live + {b})
  {
    var more, headers' := MarkNode(nodes, k, b.start, b.size, true), headers[nodes[k].SectionAt(b.start) := b.size];
    forall c | c in live
      ensures exists j :: 0 <= j < |more| && Holds(more[j], headers', c)
    {
      var j :| 0 <= j < |nodes| && Holds(nodes[j], headers, c);
      FreeRunApart(nodes, live, k, b.start, b.size, c);
      HeaderKept(nodes, headers, j, c, k, b.start);
      assert Holds(more[j], headers', c);
    }
    assert Holds(more[k], headers', b);
  }

  /** Handing out a free run adds one live block and touches no other. */
  lemma HandOutKeeps(nodes: seq<Node>, headers: map<nat, nat>, live: set<Blk>, k: nat, b: Blk)
    requires HeapInv(nodes, headers, live) && k < |nodes| && b.node == nodes[k].addr && b.size > 0
    requires FreeRun(nodes[k].used, b.start, b.size) && Markable(b.start, b.size)
    ensures b !in live
    ensures HeapInv(MarkNode(nodes, k, b.start, b.size, true),
                    headers[nodes[k].SectionAt(b.start) := b.size], live + {b})
  {
    forall c | c in live
      ensures !Overlaps(c, b) && !Overlaps(b, c)
    {
      FreeRunApart(nodes, live, k, b.start, b.size, c);
    }
    assert Overlaps(b, b) && LiveApart(live + {b});
    HandOutHeld(nodes, headers, live, k, b);
    MarkKeepsSpread(nodes, k, b.start, b.size, true);
    MarkCovers(nodes, live, k, b);
  }

  // ---------------------------------------------------------------- taking back

  /** Clearing a block's range clears exactly the bits of that block. */
  lemma UnmarkCovers(nodes: seq<Node>, live: set<Blk>, k: nat, b: Blk)
    requires BitsExact(nodes, live) && LiveApart(live) && Spread(nodes) && b in live
    requires k < |nodes| && b.node == nodes[k].addr && b.start + b.size <= |nodes[k].used|
    ensures BitsExact(MarkNode(nodes, k, b.start, b.size, false), live - {b})
  {
    var less, live' := MarkNode(nodes, k, b.start, b.size, false), live - {b};
    forall j, i | 0 <= j < |less| && 0 <= i < |less[j].used|
      ensures less[j].used[i] <==> Covered(live', less[j].addr, i)
    {
      assert nodes[j].used[i] <==> Covered(live, nodes[j].addr, i);
      if Covered(live, nodes[j].addr, i) {
        var c :| c in live && c.node == nodes[j].addr && c.start <= i < c.start + c.size;
        assert c != b ==> c in live' && !Overlaps(c, b);
      }
      assert forall c :: c in live' && c.node == less[j].addr && c.start <= i < c.start + c.size ==> !Overlaps(c, b);
    }
  }

  /** Clearing a live block's range removes that block and touches no other. */
  lemma TakeBackKeeps(nodes: seq<Node>, headers: map<nat, nat>, live: set<Blk>, k: nat, b: Blk)
    requires HeapInv(nodes, headers, live) && k < |nodes| && b in live && Holds(nodes[k], headers, b)
    ensures HeapInv(MarkNode(nodes, k, b.start, b.size, false), headers, live - {b})
  {
    var less := MarkNode(nodes, k, b.start, b.size, false);
    UnmarkCovers(nodes, live, k, b);
    MarkKeepsSpread(nodes, k, b.start, b.size, false);
    forall c | c in live - {b}
      ensures exists j :: 0 <= j < |less| && Holds(less[j], headers, c)
    {
      var j :| 0 <= j < |nodes| && Holds(nodes[j], headers, c);
      assert Holds(less[j], headers, c);
    }
  }

  /** A node with no bit set holds no live block. */
  lemma UnusedNode(nodes: seq<Node>, headers: map<nat, nat>, live: set<Blk>, k: nat)
    requires HeapInv(nodes, headers, live) && k < |nodes| && true !in nodes[k].used
    ensures forall b :: b in live ==> b.node != nodes[k].addr
  {
    forall b | b in live
      ensures b.node != nodes[k].addr
    {
      var j :| 0 <= j < |nodes| && Holds(nodes[j], headers, b);
      assert nodes[j].used[b.start] by {
        assert Covered(live, b.node, b.start);
      }
    }
  }

  lemma DropSpread(nodes: seq<Node>, k: nat)
    requires Spread(nodes) && k < |nodes|
    ensures Spread(Without(nodes, k))
  {
  }

  /** A node without live blocks can go. */
  lemma DropKeeps(nodes: seq<Node>, headers: map<nat, nat>, live: set<Blk>, k: nat)
    requires HeapInv(nodes, headers, live) && 0 < k < |nodes| && true !in nodes[k].used
    ensures HeapInv(Without(nodes, k), headers, live)
  {
    var r := Without(nodes, k);
    DropSpread(nodes, k);
    UnusedNode(nodes, headers, live, k);
    forall b | b in live
      ensures exists j :: 0 <= j < |r| && Holds(r[j], headers, b)
    {
      var j :| 0 <= j < |nodes| && Holds(nodes[j], headers, b);
      assert Holds(r[if j < k then j else j - 1], headers, b);
    }
  }

  /** The range allocator takes a node's pages back, and the other nodes stay backed. */
  lemma DropBacked(vmm: V.State, nodes: seq<Node>, k: nat)
    requires Backed(vmm, nodes) && Spread(nodes) && V.Spare(vmm) && |vmm.free| > 1 && k < |nodes|
    ensures V.Free(vmm, nodes[k].addr).Some? && Backed(V.Free(vmm, nodes[k].addr).value, Without(nodes, k))
  {
    var n := nodes[k];
    Layout(n);
    var i :| 0 <= i < |vmm.blocks| && vmm.blocks[i] == BlockOf(n);
    assert V.BlockOk(vmm.blocks[i]);
    assert n.addr in V.Live(vmm.blocks);
    V.SpareLinks(vmm);
    V.FreeKeeps(vmm, n.addr);
    var r := Without(nodes, k);
    forall j | 0 <= j < |r|
      ensures BlockOf(r[j]) in V.Free(vmm, n.addr).value.blocks
    {
      V.FreeForgetsOne(vmm, n.addr, BlockOf(r[j]));
    }
  }

  /** Releasing an unused node cannot fail and loses no live block; the head stays. */
  lemma ReleaseKeeps(s: State, live: set<Blk>, k: nat)
    requires Inv(s, live) && k < |s.nodes| && V.Spare(s.vmm) && |s.vmm.free| > 1
    ensures Release(s, k).Some? && Inv(Release(s, k).value, live) && Release(s, k).value.nodes[0] == s.nodes[0]
  {
    if k > 0 && true !in s.nodes[k].used {
      DropBacked(s.vmm, s.nodes, k);
      DropKeeps(s.nodes, s.headers, live, k);
    }
  }

  /** The pointer that `vmalloc` returned for a block of this node. */
  function Pointer(n: Node, start: nat): nat { n.SectionAt(start) + SECTION_SIZE }

  /**
   In bytes: a node has a header of 24, one bit a section, and then its sections of 8; a block's data
   starts behind its first section. The pages are as few as hold the bits and the sections.
   */
  lemma PointerIs(n: Node, start: nat)
    requires ShapeOk(n)
    ensures Pointer(n, start) == n.addr + 24 + |n.used| / 8 + 8 * start + 8
    ensures 4096 * (PagesFor(|n.used|) - 1) < 8 * |n.used| + |n.used| / 8 <= 4096 * PagesFor(|n.used|)
  {
    Layout(n);
  }

  lemma VfreeAt(s: State, h: nat, k: nat, start: nat, size: nat)
    requires |s.vmm.free| > 0 && h in s.headers && s.headers[h] == size
    requires FirstOwner(s.nodes, h, 0) == k < |s.nodes| && s.nodes[k].Data() <= h
    requires (h - s.nodes[k].Data()) / SECTION_SIZE == start && start + size <= |s.nodes[k].used|
    ensures Vfree(s, h + SECTION_SIZE) ==
            Release(State(s.vmm, MarkNode(s.nodes, k, start, size, false), s.headers), k)
  {
  }

  /** For a live block `vfree` clears the block's own range in the block's own node. */
  lemma VfreeFinds(s: State, k: nat, b: Blk)
    requires Spread(s.nodes) && k < |s.nodes| && Holds(s.nodes[k], s.headers, b) && |s.vmm.free| > 0
    ensures Vfree(s, Pointer(s.nodes[k], b.start)) ==
            Release(State(s.vmm, MarkNode(s.nodes, k, b.start, b.size, false), s.headers), k)
  {
    var h := s.nodes[k].SectionAt(b.start);
    assert FirstOwner(s.nodes, h, 0) == k && (h - s.nodes[k].Data()) / SECTION_SIZE == b.start by {
      OwnerIsUnique(s.nodes, s.headers, k, b);
    }
    VfreeAt(s, h, k, b.start, b.size);
  }

  /** Freeing a live block reaches no panic, and removes that block and no other. */
  lemma VfreeKeeps(s: State, live: set<Blk>, k: nat, b: Blk)
    requires Inv(s, live) && V.Spare(s.vmm) && |s.vmm.free| > 1
    requires k < |s.nodes| && b in live && Holds(s.nodes[k], s.headers, b)
    ensures var r := Vfree(s, Pointer(s.nodes[k], b.start)); r.Some? && Inv(r.value, live - {b})
  {
    VfreeFinds(s, k, b);
    var t := State(s.vmm, MarkNode(s.nodes, k, b.start, b.size, false), s.headers);
    assert Inv(t, live - {b}) by {
      TakeBackKeeps(s.nodes, s.headers, live, k, b);
      MarkKeepsBacked(s.vmm, s.nodes, k, b.start, b.size, false);
    }
    ReleaseKeeps(t, live - {b}, k);
  }

  // ---------------------------------------------------------------- when a node is given back

  /** A node's bits are all clear exactly when no live block is in it. */
  lemma UnusedExactly(nodes: seq<Node>, headers: map<nat, nat>, live: set<Blk>, k: nat)
    requires HeapInv(nodes, headers, live) && k < |nodes|
    ensures true !in nodes[k].used <==> forall c :: c in live ==> c.node != nodes[k].addr
  {
    if true !in nodes[k].used {
      UnusedNode(nodes, headers, live, k);
    } else {
      var i :| 0 <= i < |nodes[k].used| && nodes[k].used[i];
      assert Covered(live, nodes[k].addr, i);
    }
  }

  /** The block recorded first for a node's address is the node's. */
  lemma NodeRecorded(vmm: V.State, n: Node)
    requires V.Inv(vmm) && BlockOf(n) in vmm.blocks && n.addr > 0 && ShapeOk(n)
    ensures var first := V.Lookup(vmm.blocks, n.addr, 0); first < |vmm.blocks| && vmm.blocks[first] == BlockOf(n)
    ensures n.addr in V.Live(vmm.blocks)
  {
    Layout(n);
    var i :| 0 <= i < |vmm.blocks| && vmm.blocks[i] == BlockOf(n);
    assert V.BlockOk(vmm.blocks[i]);
    var first := V.Lookup(vmm.blocks, n.addr, 0);
    assert V.BlockOk(vmm.blocks[first]);
    var found, own := vmm.blocks[first].Bytes(), vmm.blocks[i].Bytes();
    assert first < i ==> !V.Overlap(n.addr, found, n.addr, own);
  }

  lemma NodeBytes(n: Node)
    requires ShapeOk(n)
    ensures forall a: int :: BlockOf(n).Has(a) <==> n.addr <= a < n.addr + PagesFor(|n.used|) * V.PAGE_SIZE
  {
  }

  /** Giving a node back makes its pages free, all of them and no others. */
  lemma PagesReturned(vmm: V.State, n: Node)
    requires V.Inv(vmm) && BlockOf(n) in vmm.blocks && n.addr > 0 && ShapeOk(n) && V.Spare(vmm) && |vmm.free| > 1
    ensures V.Free(vmm, n.addr).Some?
    ensures var after := V.Free(vmm, n.addr).value;
            && V.Live(after.blocks) == V.Live(vmm.blocks) - {n.addr}
            && forall a: int :: V.FreeAt(after.free, a) <==>
                 V.FreeAt(vmm.free, a) || n.addr <= a < n.addr + PagesFor(|n.used|) * V.PAGE_SIZE
  {
    NodeRecorded(vmm, n);
    V.SpareLinks(vmm);
    V.FreeKeeps(vmm, n.addr);
    NodeBytes(n);
  }

  /** The node is not the head, and `b` is the only live block in it. */
  ghost predicate LastIn(live: set<Blk>, k: nat, b: Blk) {
    k > 0 && forall c :: c in live - {b} ==> c.node != b.node
  }

  lemma FreedNode(nodes: seq<Node>, headers: map<nat, nat>, live: set<Blk>, k: nat, b: Blk)
    requires HeapInv(nodes, headers, live) && k < |nodes| && b in live && Holds(nodes[k], headers, b)
    ensures var used := Marked(nodes[k].used, b.start, b.size, false);
            LastIn(live, k, b) <==> k > 0 && true !in used
  {
    TakeBackKeeps(nodes, headers, live, k, b);
    UnusedExactly(MarkNode(nodes, k, b.start, b.size, false), headers, live - {b}, k);
  }

  /**
   From `s` to `t` the block has been freed, and its node given back exactly when it was not the head and
   no other live block was in it. Then its pages are free again. Otherwise the range allocator is left
   alone, and the block's bits are cleared.
   */
  ghost predicate FreedExactly(s: State, live: set<Blk>, k: nat, b: Blk, t: State)
    requires k < |s.nodes|
  {
    var n, last := s.nodes[k], LastIn(live, k, b);
    && t.headers == s.headers
    && ((forall j :: 0 <= j < |t.nodes| ==> t.nodes[j].addr != n.addr) <==> last)
    && (last ==>
          && t.nodes == s.nodes[..k] + s.nodes[k + 1..]
          && V.Live(t.vmm.blocks) == V.Live(s.vmm.blocks) - {n.addr}
          && forall a: int :: V.FreeAt(t.vmm.free, a) <==>
               V.FreeAt(s.vmm.free, a) || n.addr <= a < n.addr + PagesFor(|n.used|) * V.PAGE_SIZE)
    && (!last ==>
          && t.vmm == s.vmm && |t.nodes| == |s.nodes| && t.nodes[k].addr == n.addr && |t.nodes[k].used| == |n.used|
          && (forall i :: 0 <= i < |n.used| ==>
                t.nodes[k].used[i] == (n.used[i] && !(b.start <= i < b.start + b.size)))
          && forall j :: 0 <= j < |s.nodes| && j != k ==> t.nodes[j] == s.nodes[j])
  }

  /** `vfree` gives back the node of the block exactly when it should. */
  lemma VfreeReleasesExactly(s: State, live: set<Blk>, k: nat, b: Blk)
    requires Inv(s, live) && V.Spare(s.vmm) && |s.vmm.free| > 1
    requires k < |s.nodes| && b in live && Holds(s.nodes[k], s.headers, b)
    ensures var r := Vfree(s, Pointer(s.nodes[k], b.start)); r.Some? && FreedExactly(s, live, k, b, r.value)
  {
    VfreeFinds(s, k, b);
    FreedNode(s.nodes, s.headers, live, k, b);
    var marked := State(s.vmm, MarkNode(s.nodes, k, b.start, b.size, false), s.headers);
    if LastIn(live, k, b) {
      MarkKeepsSpread(s.nodes, k, b.start, b.size, false);
      MarkKeepsBacked(s.vmm, s.nodes, k, b.start, b.size, false);
      PagesReturned(s.vmm, marked.nodes[k]);
    }
  }

  // ---------------------------------------------------------------- growing

  /** The most units whose pages 64 bits can count in bytes. */
  const MAX_UNITS := 4504699407499279

  /** The byte counts for the node that a request may add do not wrap in 64 bits. */
  predicate Fits64(total: pos) {
    total <= 4032 * MAX_UNITS
  }

  lemma UnitPages(n: nat)
    ensures PagesFor(n * UNIT) == CeilDiv(4095 * n, V.PAGE_SIZE)
  {
    assert CeilDiv(n * UNIT, 8) == 63 * n;
  }

  /** That is where the byte count starts to wrap. */
  lemma FitsExactly(total: pos)
    ensures Fits64(total) <==> PagesFor(Grown(total)) * V.PAGE_SIZE < U64_LIMIT
  {
    var n := CeilDiv(total, 4032);
    UnitPages(n);
    assert Fits64(total) <==> n <= MAX_UNITS;
  }

  lemma GrownSound(total: pos)
    requires Fits64(total)
    ensures 0 < Grown(total) && Grown(total) % UNIT == 0 && PagesFor(Grown(total)) * V.PAGE_SIZE < U64_LIMIT
    ensures V.Sound(PagesFor(Grown(total)))
  {
    GrownFits(total);
    FitsExactly(total);
    var pages := PagesFor(Grown(total));
    assert 0 < pages * V.PAGE_SIZE;
  }

  /** A new node beside the old ones changes nothing for the live blocks. */
  lemma AppendKeeps(nodes: seq<Node>, headers: map<nat, nat>, live: set<Blk>, n: Node)
    requires HeapInv(nodes, headers, live) && n.addr > 0 && ShapeOk(n) && true !in n.used
    requires forall j :: 0 <= j < |nodes| ==> nodes[j].addr != n.addr && Apart(nodes[j], n) && Apart(n, nodes[j])
    ensures HeapInv(nodes + [n], headers, live)
  {
    var more := nodes + [n];
    forall b | b in live
      ensures b.node != n.addr && exists j :: 0 <= j < |more| && Holds(more[j], headers, b)
    {
      var j :| 0 <= j < |nodes| && Holds(nodes[j], headers, b);
      assert Holds(more[j], headers, b);
    }
  }

  /** Adding a node keeps every live block and brings a range of its own. */
  lemma AddKeeps(s: State, live: set<Blk>, sections: nat)
    requires Inv(s, live) && AddBlock(s, sections).Some?
    requires 0 < sections && sections % UNIT == 0 && PagesFor(sections) * V.PAGE_SIZE < U64_LIMIT
    requires V.Sound(PagesFor(sections))
    ensures Inv(AddBlock(s, sections).value, live)
    ensures V.Spare(s.vmm) ==> V.Spare(AddBlock(s, sections).value.vmm)
  {
    var t := AddBlock(s, sections).value;
    var n := t.nodes[|s.nodes|];
    V.AllocSound(s.vmm, PagesFor(sections));
    forall j | 0 <= j < |s.nodes|
      ensures BlockOf(s.nodes[j]) in t.vmm.blocks && BlockOf(n) in t.vmm.blocks && s.nodes[j].addr != n.addr
    {
      Layout(s.nodes[j]);
      V.AllocRecords(s.vmm, PagesFor(sections), BlockOf(s.nodes[j]));
      var i :| 0 <= i < |s.vmm.blocks| && s.vmm.blocks[i] == BlockOf(s.nodes[j]);
      assert s.nodes[j].addr in V.Live(s.vmm.blocks);
    }
    Layout(s.nodes[0]);
    V.AllocRecords(s.vmm, PagesFor(sections), BlockOf(s.nodes[0]));
    assert V.BlockOk(BlockOf(n));
    if V.Spare(s.vmm) {
      V.AllocKeepsSpare(s.vmm, PagesFor(sections));
    }
    forall j | 0 <= j < |s.nodes|
      ensures Apart(s.nodes[j], n) && Apart(n, s.nodes[j])
    {
      BlocksSpread(t.vmm, s.nodes[j], n);
    }
    AppendKeeps(s.nodes, s.headers, live, n);
  }

  // ---------------------------------------------------------------- vmalloc

  /** The block that `mem` points to lies in node `k` and has the size its header says. */
  ghost predicate PointsTo(s: State, mem: nat, k: nat, b: Blk) {
    k < |s.nodes| && mem == Pointer(s.nodes[k], b.start) && Holds(s.nodes[k], s.headers, b)
  }

  /** The result of handing out sections of node `k`: the pointer and the new state. */
  function HandOut(s: State, k: nat, start: nat, need: nat): (nat, State)
    requires k < |s.nodes| && start + need <= |s.nodes[k].used|
  {
    (Pointer(s.nodes[k], start), Take(s, k, start, need))
  }

  /** If some node fits, `vmalloc` is plain first fit. */
  lemma VmallocFits(s: State, total: pos)
    requires FirstNode(s.nodes, Needed(total), 0) < |s.nodes|
    ensures var need := Needed(total);
            var k := FirstNode(s.nodes, need, 0);
            Vmalloc(s, total) == Some(HandOut(s, k, FirstRun(s.nodes[k].used, need, 0), need))
  {
  }

  /**
   If some node fits, the block lies where no earlier section of its node, and no section of an earlier
   node, starts a free run that is long enough; nothing else changes.
   */
  lemma VmallocFirstFit(s: State, total: pos, mem: nat, u: State) returns (k: nat, start: nat)
    requires FirstNode(s.nodes, Needed(total), 0) < |s.nodes| && Vmalloc(s, total) == Some((mem, u))
    ensures k < |s.nodes| && mem == Pointer(s.nodes[k], start) && FreeRun(s.nodes[k].used, start, Needed(total))
    ensures forall i :: 0 <= i < start ==> !FreeRun(s.nodes[k].used, i, Needed(total))
    ensures forall j, i: nat :: 0 <= j < k ==> !FreeRun(s.nodes[j].used, i, Needed(total))
    ensures u.vmm == s.vmm && |u.nodes| == |s.nodes|
    ensures forall j :: 0 <= j < |s.nodes| && j != k ==> u.nodes[j] == s.nodes[j]
    ensures forall i :: 0 <= i < |s.nodes[k].used| ==>
              u.nodes[k].used[i] == (s.nodes[k].used[i] || start <= i < start + Needed(total))
  {
    k := FirstNode(s.nodes, Needed(total), 0);
    start := FirstRun(s.nodes[k].used, Needed(total), 0);
    VmallocFits(s, total);
  }

  // ---------------------------------------------------------------- when vmalloc ends

  /** `mark_bitmap` ends on the run that `vmalloc` marks. */
  predicate Ends(nodes: seq<Node>, total: pos) {
    var run := RunFor(nodes, Needed(total));
    run.count > 0 && Markable(run.start, run.count)
  }

  lemma MarkableFromZero(count: nat)
    requires count > 0
    ensures Markable(0, count) <==> count <= 0x8_0000_0000
  {
  }

  lemma NeededBound(total: pos)
    ensures Needed(total) <= 0x7_FFFF_FFFF <==> total <= 0x40_0000_0000 - 8
  {
  }

  /** A request that needs a new node ends exactly up to 2^38 - 8 bytes with its header. */
  lemma EndsByTotal(nodes: seq<Node>, total: pos)
    requires FirstNode(nodes, Needed(total), 0) == |nodes|
    ensures Ends(nodes, total) <==> total <= 0x40_0000_0000 - 8
  {
    var need := Needed(total);
    NeededBound(total);
    MarkableFromZero(need + Retries(nodes, need));
    assert 0x7_FFFF_FFFF % UNIT == 31;
  }

  /** So it ends exactly up to 2^38 - 16 bytes, or from 2^64 - 7 bytes on, where adding the header wraps. */
  lemma EndsExactly(nodes: seq<Node>, size: nat)
    requires size < U64_LIMIT && Total(size) > 0 && FirstNode(nodes, Needed(Total(size)), 0) == |nodes|
    ensures Ends(nodes, Total(size)) <==> size <= 0x40_0000_0000 - 16 || size > U64_LIMIT - SECTION_SIZE
  {
    EndsByTotal(nodes, Total(size));
  }

  /** The sections reserved hold the bytes asked for and the header exactly if adding the header does not wrap. */
  lemma RoomExactly(size: nat)
    requires size < U64_LIMIT
    ensures size + SECTION_SIZE <= SECTION_SIZE * Needed(Total(size)) <==> size < U64_LIMIT - SECTION_SIZE
  {
  }

  /** A request that ends and needs a new node is far from wrapping. */
  lemma EndsFits(nodes: seq<Node>, total: pos)
    requires FirstNode(nodes, Needed(total), 0) == |nodes| && Ends(nodes, total)
    ensures Fits64(total) && Fits64(total + SECTION_SIZE)
  {
    EndsByTotal(nodes, total);
  }

  /** A request that fits a node ends exactly if its run lies in one byte of the bitmap or ends by section 2^35. */
  lemma EndsInNode(nodes: seq<Node>, total: pos)
    requires FirstNode(nodes, Needed(total), 0) < |nodes|
    ensures var need := Needed(total);
            var start := FirstRun(nodes[FirstNode(nodes, need, 0)].used, need, 0);
            Ends(nodes, total) <==> start % 8 + need <= 8 || start + need <= 0x8_0000_0000
  {
  }

  /** A retry that fits finds the start of the node just added. */
  lemma RetryFits(s: State, total: pos, t: State)
    requires FirstNode(s.nodes, Needed(total), 0) == |s.nodes| && AddBlock(s, Grown(total)) == Some(t)
    requires Needed(total) % UNIT != 0
    ensures |t.nodes| == |s.nodes| + 1 && Needed(total) + 1 <= |t.nodes[|s.nodes|].used|
    ensures Vmalloc(t, total + SECTION_SIZE) == Some(HandOut(t, |s.nodes|, 0, Needed(total) + 1))
  {
    GrownFits(total);
    RetryShrinks(s.nodes, t.nodes[|s.nodes|].addr, total);
    FreshRun(Grown(total), Needed(total) + 1);
    VmallocFits(t, total + SECTION_SIZE);
  }

  /** If nothing fits and the sections needed are not whole units, one node is added and the block starts it. */
  lemma VmallocAddsOne(s: State, total: pos)
    requires FirstNode(s.nodes, Needed(total), 0) == |s.nodes| && Needed(total) % UNIT != 0
    ensures match AddBlock(s, Grown(total))
            case None => Vmalloc(s, total) == None
            case Some(t) => && |t.nodes| == |s.nodes| + 1
                            && Needed(total) + 1 <= |t.nodes[|s.nodes|].used| == Grown(total)
                            && Vmalloc(s, total) == Some(HandOut(t, |s.nodes|, 0, Needed(total) + 1))
  {
    if AddBlock(s, Grown(total)).Some? {
      RetryFits(s, total, AddBlock(s, Grown(total)).value);
    }
  }

  /** If nothing fits and the sections needed are whole units, two nodes are added and the block starts the second. */
  lemma VmallocAddsTwo(s: State, total: pos)
    requires FirstNode(s.nodes, Needed(total), 0) == |s.nodes| && Needed(total) % UNIT == 0
    ensures match AddBlock(s, Grown(total))
            case None => Vmalloc(s, total) == None
            case Some(t) =>
              match AddBlock(t, Grown(total + SECTION_SIZE))
              case None => Vmalloc(s, total) == None
              case Some(u) => && |u.nodes| == |s.nodes| + 2
                              && Needed(total) + 2 <= |u.nodes[|s.nodes| + 1].used| == Grown(total + SECTION_SIZE)
                              && Vmalloc(s, total) == Some(HandOut(u, |s.nodes| + 1, 0, Needed(total) + 2))
  {
    if AddBlock(s, Grown(total)).Some? {
      var t := AddBlock(s, Grown(total)).value;
      NextUnit(Needed(total));
      RetryShrinks(s.nodes, t.nodes[|s.nodes|].addr, total);
      VmallocAddsOne(t, total + SECTION_SIZE);
    }
  }

  lemma HandOutInv(s: State, live: set<Blk>, k: nat, b: Blk)
    requires Inv(s, live) && k < |s.nodes| && b.node == s.nodes[k].addr && b.size > 0
    requires FreeRun(s.nodes[k].used, b.start, b.size) && Markable(b.start, b.size)
    ensures var (mem, t) := HandOut(s, k, b.start, b.size);
            b !in live && Inv(t, live + {b}) && PointsTo(t, mem, k, b) && t.vmm == s.vmm && |t.nodes| == |s.nodes|
  {
    HandOutKeeps(s.nodes, s.headers, live, k, b);
    MarkKeepsBacked(s.vmm, s.nodes, k, b.start, b.size, true);
  }

  /** Handing out the start of the last node, which is unused. */
  lemma HandOutFresh(s: State, live: set<Blk>, count: nat) returns (b: Blk)
    requires Inv(s, live) && true !in s.nodes[|s.nodes| - 1].used
    requires 0 < count <= |s.nodes[|s.nodes| - 1].used| && Markable(0, count)
    ensures var (mem, t) := HandOut(s, |s.nodes| - 1, 0, count);
            && b !in live && Inv(t, live + {b}) && PointsTo(t, mem, |s.nodes| - 1, b) && b.size == count
            && t.vmm == s.vmm && |t.nodes| == |s.nodes|
  {
    var k := |s.nodes| - 1;
    b := Blk(s.nodes[k].addr, 0, count);
    assert FreeRun(s.nodes[k].used, 0, count);
    HandOutInv(s, live, k, b);
  }

  /** A node added for a request: the last one, unused, and the live blocks are as they were. */
  lemma GrownKeeps(s: State, live: set<Blk>, total: pos, t: State)
    requires Inv(s, live) && Fits64(total) && AddBlock(s, Grown(total)) == Some(t)
    ensures Inv(t, live) && (V.Spare(s.vmm) ==> V.Spare(t.vmm)) && |t.nodes| == |s.nodes| + 1
    ensures |t.nodes[|s.nodes|].used| == Grown(total) && true !in t.nodes[|s.nodes|].used
  {
    GrownSound(total);
    AddKeeps(s, live, Grown(total));
  }

  /** A block of `count` sections has been handed out at `mem`, in state `u`, after `added` nodes were added to `s`. */
  ghost predicate HandedOut(s: State, live: set<Blk>, count: nat, added: nat, mem: nat, u: State, b: Blk, k: nat) {
    && b !in live && Inv(u, live + {b}) && PointsTo(u, mem, k, b)
    && (V.Spare(s.vmm) ==> V.Spare(u.vmm))
    && b.size == count && |u.nodes| == |s.nodes| + added
  }

  /** A node added for a request, handed out from its start. */
  lemma GrowOnceKeeps(s: State, live: set<Blk>, total: pos, t: State, count: nat) returns (b: Blk)
    requires Inv(s, live) && Fits64(total) && AddBlock(s, Grown(total)) == Some(t)
    requires 0 < count <= Grown(total) && Markable(0, count)
    ensures |t.nodes| == |s.nodes| + 1 && |t.nodes[|s.nodes|].used| == Grown(total)
    ensures var (mem, u) := HandOut(t, |s.nodes|, 0, count); HandedOut(s, live, count, 1, mem, u, b, |s.nodes|)
  {
    GrownKeeps(s, live, total, t);
    b := HandOutFresh(t, live, count);
  }

  /** Two nodes added for a request, the second handed out from its start. */
  lemma GrowTwiceKeeps(s: State, live: set<Blk>, total: pos, t: State, more: pos, w: State, count: nat) returns (b: Blk)
    requires Inv(s, live) && Fits64(total) && Fits64(more)
    requires AddBlock(s, Grown(total)) == Some(t) && AddBlock(t, Grown(more)) == Some(w)
    requires 0 < count <= Grown(more) && Markable(0, count)
    ensures |w.nodes| == |s.nodes| + 2 && |w.nodes[|s.nodes| + 1].used| == Grown(more)
    ensures var (mem, u) := HandOut(w, |s.nodes| + 1, 0, count); HandedOut(s, live, count, 2, mem, u, b, |s.nodes| + 1)
  {
    GrownKeeps(s, live, total, t);
    b := GrowOnceKeeps(t, live, more, w, count);
  }

  /** Every node has whole units, as `add_block` is only ever asked for. */
  ghost predicate Shaped(nodes: seq<Node>) {
    forall i :: 0 <= i < |nodes| ==> ShapeOk(nodes[i])
  }

  /** What `vmalloc` needs of the heap, and how many nodes it will add. */
  ghost predicate Ready(s: State, total: pos, rounds: nat) {
    && V.Spare(s.vmm) && Shaped(s.nodes)
    && rounds == Retries(s.nodes, Needed(total)) && (rounds > 0 ==> Fits64(total + SECTION_SIZE * rounds))
  }

  lemma AddedNodeOk(s: State, total: pos, t: State)
    requires V.Spare(s.vmm) && Shaped(s.nodes) && Fits64(total) && AddBlock(s, Grown(total)) == Some(t)
    ensures V.Spare(t.vmm) && Shaped(t.nodes)
  {
    GrownSound(total);
    V.AllocKeepsSpare(s.vmm, PagesFor(Grown(total)));
    assert |t.nodes[|s.nodes|].used| == Grown(total);
  }

  /** A round in which nothing fits leaves the heap ready for the retry. */
  lemma RetryReady(s: State, total: pos, rounds: nat, t: State)
    requires Ready(s, total, rounds) && FirstNode(s.nodes, Needed(total), 0) == |s.nodes|
    requires AddBlock(s, Grown(total)) == Some(t)
    ensures rounds > 0 && Ready(t, total + SECTION_SIZE, rounds - 1)
  {
    assert V.Spare(t.vmm) && Shaped(t.nodes) by {
      AddedNodeOk(s, total, t);
    }
    RetryShrinks(s.nodes, t.nodes[|s.nodes|].addr, total);
  }

  /** A retry adds the header to a sum that does not wrap. */
  lemma RetryWrapsNot(s: State, total: pos, rounds: nat)
    requires Ready(s, total, rounds) && FirstNode(s.nodes, Needed(total), 0) == |s.nodes|
    ensures total < U64_LIMIT - SECTION_SIZE
  {
  }

  /** How a call of `vmalloc` goes: nothing fits yet, a block, a panic, or a loop in `mark_bitmap` that never stops. */
  datatype Outcome = NotYet | Returned(mem: nat) | Panicked | Hangs

  /** The outcome of a call, and the state after it if it returns. */
  ghost predicate Gives(s: State, total: pos, r: Outcome, t: State) {
    match Vmalloc(s, total)
    case None => r == Panicked
    case Some((mem, u)) => if Ends(s.nodes, total) then r == Returned(mem) && t == u else r == Hangs
  }

  lemma GivesPanic(s: State, total: pos, t: State)
    requires FirstNode(s.nodes, Needed(total), 0) == |s.nodes| && AddBlock(s, Grown(total)) == None
    ensures Gives(s, total, Panicked, t)
  {
  }

  /** The retry is the rest of the call. */
  lemma GivesRetry(s: State, total: pos, t: State)
    requires FirstNode(s.nodes, Needed(total), 0) == |s.nodes| && AddBlock(s, Grown(total)) == Some(t)
    ensures forall r, u :: Gives(t, total + SECTION_SIZE, r, u) ==> Gives(s, total, r, u)
  {
    assert Ends(t.nodes, total + SECTION_SIZE) == Ends(s.nodes, total) by {
      RetryShrinks(s.nodes, t.nodes[|s.nodes|].addr, total);
    }
    assert Vmalloc(s, total) == Vmalloc(t, total + SECTION_SIZE);
  }

  /** What a call of `vmalloc` promises of the block it hands out, in state `u`, at `mem`. */
  ghost predicate HandsOut(s: State, live: set<Blk>, total: pos, mem: nat, u: State, b: Blk, k: nat) {
    var added := Retries(s.nodes, Needed(total));
    HandedOut(s, live, Needed(total) + added, added, mem, u, b, k)
  }

  lemma VmallocKeepsNone(s: State, live: set<Blk>, total: pos, mem: nat, u: State) returns (b: Blk, k: nat)
    requires Inv(s, live) && Vmalloc(s, total) == Some((mem, u)) && Ends(s.nodes, total)
    requires FirstNode(s.nodes, Needed(total), 0) < |s.nodes|
    ensures HandsOut(s, live, total, mem, u, b, k)
  {
    var need := Needed(total);
    k := FirstNode(s.nodes, need, 0);
    b := Blk(s.nodes[k].addr, FirstRun(s.nodes[k].used, need, 0), need);
    VmallocFits(s, total);
    HandOutInv(s, live, k, b);
  }

  lemma VmallocKeepsOne(s: State, live: set<Blk>, total: pos, mem: nat, u: State) returns (b: Blk, k: nat)
    requires Inv(s, live) && Vmalloc(s, total) == Some((mem, u)) && Ends(s.nodes, total) && Fits64(total)
    requires FirstNode(s.nodes, Needed(total), 0) == |s.nodes| && Needed(total) % UNIT != 0
    ensures HandsOut(s, live, total, mem, u, b, k)
  {
    VmallocAddsOne(s, total);
    k := |s.nodes|;
    b := GrowOnceKeeps(s, live, total, AddBlock(s, Grown(total)).value, Needed(total) + 1);
  }

  lemma VmallocKeepsTwo(s: State, live: set<Blk>, total: pos, mem: nat, u: State) returns (b: Blk, k: nat)
    requires Inv(s, live) && Vmalloc(s, total) == Some((mem, u)) && Ends(s.nodes, total)
    requires Fits64(total) && Fits64(total + SECTION_SIZE)
    requires FirstNode(s.nodes, Needed(total), 0) == |s.nodes| && Needed(total) % UNIT == 0
    ensures HandsOut(s, live, total, mem, u, b, k)
  {
    VmallocAddsTwo(s, total);
    var t := AddBlock(s, Grown(total)).value;
    k := |s.nodes| + 1;
    var more := total + SECTION_SIZE;
    b := GrowTwiceKeeps(s, live, total, t, more, AddBlock(t, Grown(more)).value, Needed(total) + 2);
  }

  /**
   `vmalloc` adds no node if one fits, else one node, or two when the sections needed are a multiple
   of 504, and reserves one section more for each node it adds; the block overlaps no live block.
   */
  lemma VmallocKeeps(s: State, live: set<Blk>, total: pos, mem: nat, u: State) returns (b: Blk, k: nat)
    requires Inv(s, live) && Vmalloc(s, total) == Some((mem, u))
    requires Ends(s.nodes, total)
    ensures HandsOut(s, live, total, mem, u, b, k)
  {
    if FirstNode(s.nodes, Needed(total), 0) < |s.nodes| {
      b, k := VmallocKeepsNone(s, live, total, mem, u);
    } else if Needed(total) % UNIT != 0 {
      EndsFits(s.nodes, total);
      b, k := VmallocKeepsOne(s, live, total, mem, u);
    } else {
      EndsFits(s.nodes, total);
      b, k := VmallocKeepsTwo(s, live, total, mem, u);
    }
  }

  /** Freeing the block just handed out by first fit gives every node its old bits back, then releases if unused. */
  lemma VfreeUndoes(s: State, live: set<Blk>, total: pos, mem: nat, u: State)
    requires Inv(s, live) && Vmalloc(s, total) == Some((mem, u)) && Ends(s.nodes, total)
    requires FirstNode(s.nodes, Needed(total), 0) < |s.nodes|
    ensures Vfree(u, mem) == Release(State(s.vmm, s.nodes, u.headers), FirstNode(s.nodes, Needed(total), 0))
  {
    var k := FirstNode(s.nodes, Needed(total), 0);
    var n := s.nodes[k];
    var b := Blk(n.addr, FirstRun(n.used, Needed(total), 0), Needed(total));
    VmallocFits(s, total);
    HandOutInv(s, live, k, b);
    VfreeFinds(u, k, b);
    assert Marked(Marked(n.used, b.start, b.size, true), b.start, b.size, false) == n.used;
    assert MarkNode(u.nodes, k, b.start, b.size, false) == s.nodes;
  }

  // ---------------------------------------------------------------- runs

  /** `vmalloc_init`, on a fresh range allocator: one unused node and no live block. */
  lemma InitHeap()
    ensures var r := AddBlock(State(V.Init(), [], map[]), UNIT); r.Some? && Inv(r.value, {}) && V.Spare(r.value.vmm)
  {
    V.InitInv();
    assert PagesFor(UNIT) == 1;
    assert V.Init().free[0].size >= V.Request(1);
    V.AllocSound(V.Init(), 1);
    var s := AddBlock(State(V.Init(), [], map[]), UNIT).value;
    var i := V.FirstUnused(V.WithRoom(V.Init().blocks), 0);
    assert s.vmm.blocks[i] == BlockOf(s.nodes[0]);
    assert V.BlockOk(s.vmm.blocks[i]);
    V.AllocKeepsSpare(V.Init(), 1);
  }

  /** The range left free by `vmalloc_init`. */
  lemma NewHeapExtent(s: State)
    requires AddBlock(State(V.Init(), [], map[]), UNIT) == Some(s)
    ensures |s.vmm.free| > 0 && s.vmm.free[0].size == V.WINDOW_END - V.WINDOW_START - V.PAGE_SIZE
  {
    assert PagesFor(UNIT) == 1;
    assert V.FirstFit(V.Init().free, V.Request(1), 0) == 0;
  }

  /** On a new heap a run longer than the first node goes into a node of its own, if the window has room for that. */
  lemma NewHeapGrows(s: State, total: pos)
    requires AddBlock(State(V.Init(), [], map[]), UNIT) == Some(s) && UNIT < Needed(total)
    requires V.Request(PagesFor(Grown(total))) <= V.WINDOW_END - V.WINDOW_START - V.PAGE_SIZE
    ensures |s.nodes| == 1 && s.nodes[0].used == seq(UNIT, _ => false)
    ensures FirstNode(s.nodes, Needed(total), 0) == 1 && AddBlock(s, Grown(total)).Some?
  {
    assert s.nodes[0].used == seq(UNIT, _ => false);
    FreshRun(UNIT, Needed(total));
    NewHeapExtent(s);
  }

  lemma HugeSizes(total: pos)
    requires total == 0x40_0000_0000 - 7
    ensures Needed(total) == 0x8_0000_0000 && Needed(total) % UNIT != 0
    ensures V.Request(PagesFor(Grown(total))) <= V.WINDOW_END - V.WINDOW_START - V.PAGE_SIZE
  {
    assert Grown(total) == 68174085 * UNIT;
  }

  /** The request that fails first: on a new heap, one byte more than 2^38 - 16 is never handed out. */
  lemma HugeRequestHangs(s: State, size: nat)
    requires AddBlock(State(V.Init(), [], map[]), UNIT) == Some(s) && size == 0x40_0000_0000 - 15
    ensures Vmalloc(s, Total(size)).Some? && !Ends(s.nodes, Total(size))
  {
    var total: pos := Total(size);
    HugeSizes(total);
    NewHeapGrows(s, total);
    EndsExactly(s.nodes, size);
    VmallocAddsOne(s, total);
  }

  /** On a new heap 2^64 - 1 bytes are handed out at once, as a block of one section, which only holds its header. */
  lemma WrappedRequestReturns(s: State, size: nat)
    requires AddBlock(State(V.Init(), [], map[]), UNIT) == Some(s) && size == U64_LIMIT - 1
    ensures Total(size) == 7 && Ends(s.nodes, Total(size)) && UNIT <= |s.nodes[0].used|
    ensures Vmalloc(s, Total(size)) == Some(HandOut(s, 0, 0, 1))
  {
    assert s.nodes[0].used == seq(UNIT, _ => false);
    FreshRun(UNIT, 1);
    VmallocFits(s, 7);
  }

  // A short request that never returns: its run starts at section 2^35 of a node.

  /** The sections up to `n` are used, and at least nine free ones follow. */
  ghost predicate UsedUpTo(used: seq<bool>, n: nat) {
    n + 9 <= |used| && (forall i :: 0 <= i < n ==> used[i]) && forall i :: n <= i < |used| ==> !used[i]
  }

  /** The largest request that ends takes the first 2^35 sections of a new node. */
  lemma TakeLargest(s: State, total: pos) returns (mem: nat, u: State)
    requires AddBlock(State(V.Init(), [], map[]), UNIT) == Some(s) && total == 0x40_0000_0000 - 8
    ensures Vmalloc(s, total) == Some((mem, u)) && Ends(s.nodes, total)
    ensures |u.nodes| == 2 && u.nodes[0].used == seq(UNIT, _ => false)
    ensures UsedUpTo(u.nodes[1].used, 0x8_0000_0000)
  {
    assert Needed(total) == 0x7_FFFF_FFFF && Grown(total) == 68174085 * UNIT;
    assert Needed(total) % UNIT == 31;
    NewHeapGrows(s, total);
    EndsByTotal(s.nodes, total);
    VmallocAddsOne(s, total);
    var t := AddBlock(s, Grown(total)).value;
    var handed := HandOut(t, 1, 0, 0x8_0000_0000);
    mem, u := handed.0, handed.1;
  }

  /** 4024 bytes fill the first node. */
  lemma FillFirst(s: State, total: pos) returns (mem: nat, u: State)
    requires total == 4032 && |s.nodes| == 2 && s.nodes[0].used == seq(UNIT, _ => false)
    ensures Vmalloc(s, total) == Some((mem, u)) && Ends(s.nodes, total)
    ensures |u.nodes| == 2 && u.nodes[1] == s.nodes[1] && |u.nodes[0].used| == UNIT
    ensures forall i :: 0 <= i < UNIT ==> u.nodes[0].used[i]
  {
    assert Needed(total) == UNIT;
    FreshRun(UNIT, UNIT);
    VmallocFits(s, total);
    EndsInNode(s.nodes, total);
    var handed := HandOut(s, 0, 0, UNIT);
    mem, u := handed.0, handed.1;
  }

  lemma FirstRunAfter(used: seq<bool>, need: nat, start: nat)
    requires 0 < need && FreeRun(used, start, need) && forall i :: 0 <= i < start ==> used[i]
    ensures FirstRun(used, need, 0) == start
  {
    forall i | 0 <= i < start
      ensures !FreeRun(used, i, need)
    {
      assert used[i];
    }
  }

  lemma NoRun(used: seq<bool>, need: nat)
    requires 0 < need && forall i :: 0 <= i < |used| ==> used[i]
    ensures FirstRun(used, need, 0) == |used|
  {
    forall i | 0 <= i < |used|
      ensures !FreeRun(used, i, need)
    {
      assert used[i];
    }
  }

  /** With the first node full, nine sections are found at section 2^35 of the second. */
  lemma RunBeyond(u: State, total: pos)
    requires total == 65 && |u.nodes| == 2 && forall i :: 0 <= i < |u.nodes[0].used| ==> u.nodes[0].used[i]
    requires UsedUpTo(u.nodes[1].used, 0x8_0000_0000)
    ensures Vmalloc(u, total).Some? && !Ends(u.nodes, total)
  {
    assert Needed(total) == 9;
    assert FirstNode(u.nodes, 9, 0) == 1 && FirstRun(u.nodes[1].used, 9, 0) == 0x8_0000_0000 by {
      NoRun(u.nodes[0].used, 9);
      FirstRunAfter(u.nodes[1].used, 9, 0x8_0000_0000);
    }
    VmallocFits(u, total);
    EndsInNode(u.nodes, total);
  }

  /** After 2^38 - 16 and 4024 bytes on a new heap, 57 bytes find memory and never return. */
  lemma SmallRequestHangs(s: State, a: pos, b: pos, c: pos) returns (large: nat, t: State, filling: nat, u: State)
    requires AddBlock(State(V.Init(), [], map[]), UNIT) == Some(s)
    requires a == 0x40_0000_0000 - 8 && b == 4032 && c == 65
    ensures a == Total(0x40_0000_0000 - 16) && b == Total(4024) && c == Total(57)
    ensures Ends(s.nodes, a) && Vmalloc(s, a) == Some((large, t))
    ensures Ends(t.nodes, b) && Vmalloc(t, b) == Some((filling, u))
    ensures Vmalloc(u, c).Some? && !Ends(u.nodes, c)
  {
    large, t := TakeLargest(s, a);
    filling, u := FillFirst(t, b);
    RunBeyond(u, c);
  }

  datatype Config = Config(heap: State, live: set<Blk>)

  datatype Call = VmallocCall(size: nat) | VfreeCall

  /**
   One call of `vmalloc` that ends, or of `vfree`, on the pointer `mem` to the block `b` in node `k`; the
   range allocator has fewer live blocks than slots less one, as `V.SpareByCount` asks.
   */
  ghost predicate Step(c: Config, call: Call, mem: nat, k: nat, b: Blk, d: Config) {
    && |V.Live(c.heap.vmm.blocks)| + 1 < |c.heap.vmm.free|
    && match call
       case VmallocCall(size) =>
         && size < U64_LIMIT && Total(size) > 0
         && Ends(c.heap.nodes, Total(size)) && Vmalloc(c.heap, Total(size)) == Some((mem, d.heap))
         && PointsTo(d.heap, mem, k, b) && d.live == c.live + {b}
       case VfreeCall =>
         b in c.live && PointsTo(c.heap, mem, k, b) && Vfree(c.heap, mem) == Some(d.heap) && d.live == c.live - {b}
  }

  ghost predicate Next(c: Config, d: Config) {
    exists call, mem, k, b :: Step(c, call, mem, k, b, d)
  }

  /** A pointer points to one block only. */
  lemma PointsToOne(s: State, mem: nat, k: nat, b: Blk, j: nat, c: Blk)
    requires Spread(s.nodes) && PointsTo(s, mem, k, b) && PointsTo(s, mem, j, c)
    ensures b == c && j == k
  {
    OwnerIsUnique(s.nodes, s.headers, k, b);
    OwnerIsUnique(s.nodes, s.headers, j, c);
  }

  lemma NextKeeps(c: Config, d: Config)
    requires Inv(c.heap, c.live) && Next(c, d)
    ensures Inv(d.heap, d.live)
  {
    var call, mem, k, b :| Step(c, call, mem, k, b, d);
    match call {
      case VmallocCall(size) =>
        var b', k' := VmallocKeeps(c.heap, c.live, Total(size), mem, d.heap);
        PointsToOne(d.heap, mem, k, b, k', b');
      case VfreeCall =>
        V.SpareByCount(c.heap.vmm);
        VfreeKeeps(c.heap, c.live, k, b);
    }
  }

  ghost predicate NextAt(run: seq<Config>, j: nat) {
    j + 1 < |run| && Next(run[j], run[j + 1])
  }

  /** In every run, the bits set are the live blocks, which are disjoint, inside their nodes and match their headers. */
  lemma {:induction false} RunKeeps(run: seq<Config>, i: nat)
    requires i < |run| && Inv(run[0].heap, run[0].live)
    requires forall j :: 0 <= j < |run| - 1 ==> NextAt(run, j)
    ensures Inv(run[i].heap, run[i].live)
  {
    if i > 0 {
      RunKeeps(run, i - 1);
      assert NextAt(run, i - 1);
      NextKeeps(run[i - 1], run[i]);
    }
  }
}
