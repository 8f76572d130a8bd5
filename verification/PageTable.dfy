/**
 The four-level page tables of `mem/page.c`, on values. Tables live in physical frames of 512
 entries; a path of table indices leads from the root (the PML4) to a table, and new tables are
 taken zeroed from a stack of free frames. The specification is a flat map from pages to frames.
 */
module PageTable {
  import opened Basics
  import opened PageBits

  type Table = map<Index, Entry>

  function AsIndex(n: nat): Index
    requires n < 512
  {
    Index(n as bv9)
  }

  function AllIndices(): set<Index> {
    set n | 0 <= n < 512 :: AsIndex(n)
  }

  lemma AllIndicesComplete()
    ensures forall i: Index :: i in AllIndices()
  {
    forall i: Index
      ensures i in AllIndices()
    {
      assert 0 <= i.bits as nat < 512 && AsIndex(i.bits as nat) == i;
    }
  }

  /** A zeroed page, as `kcalloc_page` returns it. */
  function Zeroed(): (t: Table)
    ensures forall i: Index :: i in t && t[i] == EMPTY
  {
    AllIndicesComplete();
    map i | i in AllIndices() :: EMPTY
  }

  /** The tables in use, by frame; the stack of free frames; the frame of the PML4. */
  datatype Memory = Memory(tables: map<Frame, Table>, pool: seq<Frame>, root: Frame)

  function TableOf(m: Memory, t: Frame): Table {
    if t in m.tables then m.tables[t] else Zeroed()
  }

  function EntryAt(m: Memory, t: Frame, i: Index): Entry {
    if i in TableOf(m, t) then TableOf(m, t)[i] else EMPTY
  }

  function SetEntry(m: Memory, t: Frame, i: Index, e: Entry): Memory {
    Memory(m.tables[t := TableOf(m, t)[i := e]], m.pool, m.root)
  }

  function Child(m: Memory, t: Frame, i: Index): Option<Frame> {
    if EntryAt(m, t, i).present then Some(EntryAt(m, t, i).frame) else None
  }

  /** The table at the end of a path of present entries. */
  function TableAt(m: Memory, path: seq<Index>): Option<Frame> {
    if path == [] then Some(m.root)
    else
      match TableAt(m, path[..|path| - 1])
      case None => None
      case Some(t) => Child(m, t, path[|path| - 1])
  }

  function Path(p: Page): seq<Index> { [p.pml4, p.pdpt, p.pdt] }

  /** The frame that the tables give a page. */
  function Walk(m: Memory, p: Page): Option<Frame> {
    match TableAt(m, Path(p))
    case None => None
    case Some(t) => Child(m, t, p.pt)
  }

  // ---------------------------------------------------------------- the operations

  /** The table behind entry `i` of `t`, made from a zeroed free frame if it is absent; None if no frame is free. */
  function Descend(m: Memory, t: Frame, i: Index, kernel: bool): Option<(Memory, Frame)> {
    var e := EntryAt(m, t, i);
    if e.present then Some((m, e.frame))
    else if m.pool == [] then None
    else
      var f := m.pool[0];
      var zeroed := Memory(m.tables[f := Zeroed()], m.pool[1..], m.root);
      Some((SetEntry(zeroed, t, i, Linked(EntryAt(zeroed, t, i), f, kernel)), f))
  }

  /** `page_map` from the directory table down. */
  function MapInTable(m: Memory, pdt: Frame, p: Page, frame: Frame, kernel: bool): Option<Memory> {
    match Descend(m, pdt, p.pdt, kernel)
    case None => None
    case Some((m', pt)) => Some(SetEntry(m', pt, p.pt, Linked(EntryAt(m', pt, p.pt), frame, kernel)))
  }

  /** `page_map` from the pointer table down. */
  function MapInDirectory(m: Memory, pdpt: Frame, p: Page, frame: Frame, kernel: bool): Option<Memory> {
    match Descend(m, pdpt, p.pdpt, kernel)
    case None => None
    case Some((m', pdt)) => MapInTable(m', pdt, p, frame, kernel)
  }

  /** `page_map`; None is the panic of `pmm_alloc_low` when no frame is free. */
  function Map(m: Memory, p: Page, frame: Frame, kernel: bool): Option<Memory> {
    match Descend(m, m.root, p.pml4, kernel)
    case None => None
    case Some((m', pdpt)) => MapInDirectory(m', pdpt, p, frame, kernel)
  }

  /** Some entry of the table other than `i` is present. */
  ghost predicate OtherPresent(m: Memory, t: Frame, i: Index) {
    exists j: Index :: j != i && EntryAt(m, t, j).present
  }

  /** The tables that `page_unmap` gives back to the free frames, last one given back first. */
  ghost function Reclaimed(m: Memory, p: Page, pdpt: Frame, pdt: Frame, pt: Frame): seq<Frame> {
    var pdptUsed, pdtUsed := OtherPresent(m, pdpt, p.pdpt), OtherPresent(m, pdt, p.pdt);
    var ptUsed := OtherPresent(m, pt, p.pt);
    (if !ptUsed then [pt] else []) + (if !pdtUsed && !ptUsed then [pdt] else []) +
    (if !pdptUsed && !pdtUsed && !ptUsed then [pdpt] else [])
  }

  /** `page_unmap`. */
  ghost function Unmap(m: Memory, p: Page): Memory {
    match TableAt(m, [p.pml4])
    case None => m
    case Some(pdpt) =>
      match TableAt(m, [p.pml4, p.pdpt])
      case None => m
      case Some(pdt) =>
        match TableAt(m, Path(p))
        case None => m
        case Some(pt) =>
          var m1 := Memory(m.tables, Reclaimed(m, p, pdpt, pdt, pt) + m.pool, m.root);
          if EntryAt(m, pt, p.pt).present then SetEntry(m1, pt, p.pt, EMPTY) else m1
  }

  // ---------------------------------------------------------------- the tree

  /** Every table reached is in memory, is reached by one path only, and is not a free frame. */
  ghost predicate Tree(m: Memory) {
    && (forall p | |p| <= 3 && TableAt(m, p).Some? :: TableAt(m, p).value in m.tables && TableAt(m, p).value !in m.pool)
    && (forall p, q | |p| <= 3 && |q| <= 3 && TableAt(m, p).Some? && TableAt(m, p) == TableAt(m, q) :: p == q)
    && (forall i, j :: 0 <= i < j < |m.pool| ==> m.pool[i] != m.pool[j])
  }

  lemma TableAtExtend(m: Memory, p: seq<Index>, i: Index)
    ensures TableAt(m, p + [i]) == match TableAt(m, p) case None => None case Some(t) => Child(m, t, i)
  {
    assert (p + [i])[..|p|] == p;
  }

  /** What the entries lead to once entry `i` of `t` has been given a new table. */
  lemma DescendChild(m: Memory, t: Frame, i: Index, kernel: bool, u: Frame, j: Index)
    requires Child(m, t, i).None? && m.pool != [] && t != m.pool[0]
    ensures var m' := Descend(m, t, i, kernel).value.0;
            Child(m', u, j) == if u == m.pool[0] then None
                               else if u == t && j == i then Some(m.pool[0]) else Child(m, u, j)
  {
    var m' := Descend(m, t, i, kernel).value.0;
    assert TableOf(m', m.pool[0]) == Zeroed();
    assert j in Zeroed();
    assert EntryAt(m', t, i).present && EntryAt(m', t, i).frame == m.pool[0];
    assert j != i ==> EntryAt(m', t, j) == EntryAt(m, t, j);
  }

  /** Creating a table at `p + [i]` leaves every other path as it was. */
  lemma {:induction false} DescendPaths(m: Memory, p: seq<Index>, i: Index, kernel: bool, q: seq<Index>)
    requires Tree(m) && |p| <= 2 && |q| <= 3 && TableAt(m, p).Some?
    requires Child(m, TableAt(m, p).value, i).None? && m.pool != []
    ensures var m' := Descend(m, TableAt(m, p).value, i, kernel).value.0;
            TableAt(m', q) == if q == p + [i] then Some(m.pool[0]) else TableAt(m, q)
    decreases |q|
  {
    var t, f := TableAt(m, p).value, m.pool[0];
    var m' := Descend(m, t, i, kernel).value.0;
    TableAtExtend(m, p, i);
    if q != [] {
      var front, j := q[..|q| - 1], q[|q| - 1];
      assert q == front + [j];
      TableAtExtend(m, front, j);
      TableAtExtend(m', front, j);
      DescendPaths(m, p, i, kernel, front);
      if front == p + [i] {
        DescendChild(m, t, i, kernel, f, j);
        assert TableAt(m, front).None?;
      } else if TableAt(m, front).Some? {
        var u := TableAt(m, front).value;
        DescendChild(m, t, i, kernel, u, j);
        assert u != f;
        assert u == t <==> front == p;
      }
    }
  }

  /** A newly linked table maps nothing, and no page changes its translation. */
  lemma DescendWalk(m: Memory, p: seq<Index>, i: Index, kernel: bool, x: Page)
    requires Tree(m) && |p| <= 2 && TableAt(m, p).Some?
    requires Child(m, TableAt(m, p).value, i).None? && m.pool != []
    ensures var m' := Descend(m, TableAt(m, p).value, i, kernel).value.0;
            Walk(m', x) == Walk(m, x)
  {
    var t, f := TableAt(m, p).value, m.pool[0];
    DescendPaths(m, p, i, kernel, Path(x));
    TableAtExtend(m, p, i);
    if Path(x) == p + [i] {
      DescendChild(m, t, i, kernel, f, x.pt);
    } else if TableAt(m, Path(x)).Some? {
      DescendChild(m, t, i, kernel, TableAt(m, Path(x)).value, x.pt);
    }
  }

  ghost predicate SameWalks(m: Memory, n: Memory) {
    forall x :: Walk(n, x) == Walk(m, x)
  }

  /** Following or creating the table at `p + [i]` keeps the tree and every translation. */
  lemma DescendKeeps(m: Memory, p: seq<Index>, i: Index, kernel: bool)
    requires Tree(m) && |p| <= 2 && TableAt(m, p).Some?
    requires Descend(m, TableAt(m, p).value, i, kernel).Some?
    ensures var (m', u) := Descend(m, TableAt(m, p).value, i, kernel).value;
            Tree(m') && m'.root == m.root && TableAt(m', p + [i]) == Some(u) && SameWalks(m, m')
  {
    var t := TableAt(m, p).value;
    TableAtExtend(m, p, i);
    if Child(m, t, i).None? {
      var f := m.pool[0];
      var m' := Descend(m, t, i, kernel).value.0;
      forall q: seq<Index> | |q| <= 3
        ensures TableAt(m', q) == if q == p + [i] then Some(f) else TableAt(m, q)
      {
        DescendPaths(m, p, i, kernel, q);
      }
      assert m'.pool == m.pool[1..] && f !in m.pool[1..];
      assert forall u :: u in m.tables || u == f ==> u in m'.tables;
      forall x
        ensures Walk(m', x) == Walk(m, x)
      {
        DescendWalk(m, p, i, kernel, x);
      }
    }
  }

  lemma DescendFromRoot(m: Memory, i: Index, kernel: bool)
    requires Tree(m) && Descend(m, m.root, i, kernel).Some?
    ensures var (m', u) := Descend(m, m.root, i, kernel).value;
            Tree(m') && TableAt(m', [i]) == Some(u) && SameWalks(m, m')
  {
    var top: seq<Index> := [];
    assert top + [i] == [i];
    DescendKeeps(m, top, i, kernel);
  }

  // ---------------------------------------------------------------- the leaf entry

  lemma SetEntryChild(m: Memory, t: Frame, i: Index, e: Entry, u: Frame, j: Index)
    ensures Child(SetEntry(m, t, i, e), u, j) ==
            if u == t && j == i then (if e.present then Some(e.frame) else None) else Child(m, u, j)
  {
    assert TableOf(SetEntry(m, t, i, e), t) == TableOf(m, t)[i := e];
  }

  /** Writing an entry of a leaf table changes no path. */
  lemma {:induction false} SetLeafPaths(m: Memory, p: Page, e: Entry, q: seq<Index>)
    requires Tree(m) && TableAt(m, Path(p)).Some? && |q| <= 3
    ensures TableAt(SetEntry(m, TableAt(m, Path(p)).value, p.pt, e), q) == TableAt(m, q)
    decreases |q|
  {
    var t := TableAt(m, Path(p)).value;
    if q != [] {
      var front, j := q[..|q| - 1], q[|q| - 1];
      SetLeafPaths(m, p, e, front);
      if TableAt(m, front).Some? {
        SetEntryChild(m, t, p.pt, e, TableAt(m, front).value, j);
      }
    }
  }

  /** Writing a page's leaf entry keeps the tree and changes that page's translation only. */
  lemma SetLeafKeeps(m: Memory, p: Page, e: Entry)
    requires Tree(m) && TableAt(m, Path(p)).Some?
    ensures var m' := SetEntry(m, TableAt(m, Path(p)).value, p.pt, e);
            && Tree(m')
            && forall x :: Walk(m', x) == if x == p then (if e.present then Some(e.frame) else None) else Walk(m, x)
  {
    var t := TableAt(m, Path(p)).value;
    var m' := SetEntry(m, t, p.pt, e);
    forall q: seq<Index> | |q| <= 3
      ensures TableAt(m', q) == TableAt(m, q)
    {
      SetLeafPaths(m, p, e, q);
    }
    forall x
      ensures Walk(m', x) == if x == p then (if e.present then Some(e.frame) else None) else Walk(m, x)
    {
      if TableAt(m, Path(x)).Some? {
        var u := TableAt(m, Path(x)).value;
        SetEntryChild(m, t, p.pt, e, u, x.pt);
        SamePath(x, p);
      }
    }
  }

  lemma SamePath(x: Page, p: Page)
    ensures Path(x) == Path(p) && x.pt == p.pt <==> x == p
  {
    if Path(x) == Path(p) {
      assert Path(x)[0] == Path(p)[0] && Path(x)[1] == Path(p)[1] && Path(x)[2] == Path(p)[2];
    }
  }

  // ---------------------------------------------------------------- theorems: map and unmap

  /** `m'` is a tree that gives the page this frame and every other page what `m` gives it. */
  ghost predicate Maps(m: Memory, m': Memory, p: Page, frame: Frame) {
    Tree(m') && forall x :: Walk(m', x) == if x == p then Some(frame) else Walk(m, x)
  }

  /** Tables made on the way change no translation. */
  lemma MapsLater(m: Memory, n: Memory, m': Memory, p: Page, frame: Frame)
    requires SameWalks(m, n) && Maps(n, m', p, frame)
    ensures Maps(m, m', p, frame)
  {
  }

  lemma MapInTableKeeps(m: Memory, pdt: Frame, p: Page, frame: Frame, kernel: bool)
    requires Tree(m) && TableAt(m, [p.pml4, p.pdpt]) == Some(pdt) && MapInTable(m, pdt, p, frame, kernel).Some?
    ensures Maps(m, MapInTable(m, pdt, p, frame, kernel).value, p, frame)
  {
    var (n, pt) := Descend(m, pdt, p.pdt, kernel).value;
    DescendKeeps(m, [p.pml4, p.pdpt], p.pdt, kernel);
    assert [p.pml4, p.pdpt] + [p.pdt] == Path(p);
    SetLeafKeeps(n, p, Linked(EntryAt(n, pt, p.pt), frame, kernel));
  }

  lemma MapInDirectoryKeeps(m: Memory, pdpt: Frame, p: Page, frame: Frame, kernel: bool)
    requires Tree(m) && TableAt(m, [p.pml4]) == Some(pdpt) && MapInDirectory(m, pdpt, p, frame, kernel).Some?
    ensures Maps(m, MapInDirectory(m, pdpt, p, frame, kernel).value, p, frame)
  {
    var (n, pdt) := Descend(m, pdpt, p.pdpt, kernel).value;
    var m' := MapInTable(n, pdt, p, frame, kernel).value;
    assert Tree(n) && SameWalks(m, n) && TableAt(n, [p.pml4, p.pdpt]) == Some(pdt) by {
      assert [p.pml4] + [p.pdpt] == [p.pml4, p.pdpt];
      DescendKeeps(m, [p.pml4], p.pdpt, kernel);
    }
    assert Maps(n, m', p, frame) by { MapInTableKeeps(n, pdt, p, frame, kernel); }
    assert Maps(m, m', p, frame) by { MapsLater(m, n, m', p, frame); }
  }

  /** Mapping a page keeps the tree, gives the page its frame and leaves every other page alone. */
  lemma MapKeeps(m: Memory, p: Page, frame: Frame, kernel: bool)
    requires Tree(m) && Map(m, p, frame, kernel).Some?
    ensures Maps(m, Map(m, p, frame, kernel).value, p, frame)
  {
    var (n, pdpt) := Descend(m, m.root, p.pml4, kernel).value;
    var m' := MapInDirectory(n, pdpt, p, frame, kernel).value;
    DescendFromRoot(m, p.pml4, kernel);
    assert Maps(n, m', p, frame) by { MapInDirectoryKeeps(n, pdpt, p, frame, kernel); }
    assert Maps(m, m', p, frame) by { MapsLater(m, n, m', p, frame); }
  }

  /** The tables that are absent on the way to the page. */
  function Missing(m: Memory, p: Page): nat {
    if TableAt(m, [p.pml4]).None? then 3
    else if TableAt(m, [p.pml4, p.pdpt]).None? then 2
    else if TableAt(m, Path(p)).None? then 1 else 0
  }

  lemma Prefixes(p: Page)
    ensures Path(p)[..1] == [p.pml4] && Path(p)[..2] == [p.pml4, p.pdpt] && Path(p)[..3] == Path(p)
    ensures forall k :: 0 <= k <= 2 ==> Path(p)[..k] + [Path(p)[k]] == Path(p)[..k + 1]
  {
  }

  /** Below an absent table every table is absent. */
  lemma AbsentBelow(m: Memory, p: Page, k: nat)
    requires k <= 2 && TableAt(m, Path(p)[..k]).None?
    ensures TableAt(m, Path(p)[..k + 1]).None?
  {
    Prefixes(p);
    TableAtExtend(m, Path(p)[..k], Path(p)[k]);
  }

  /** The number of absent tables, from the depth that is reached. */
  lemma MissingAt(m: Memory, p: Page, k: nat)
    requires k <= 3 && TableAt(m, Path(p)[..k]).Some? && (k < 3 ==> TableAt(m, Path(p)[..k + 1]).None?)
    ensures Missing(m, p) == 3 - k
  {
    Prefixes(p);
    if k == 3 {
      PrefixesReached(m, p);
    } else if k == 2 {
      TableAtExtend(m, [p.pml4], p.pdpt);
      assert [p.pml4] + [p.pdpt] == [p.pml4, p.pdpt];
    }
  }

  /** One table is absent less once the first absent one has been created. */
  lemma DescendMissing(m: Memory, p: Page, kernel: bool, k: nat)
    requires Tree(m) && k <= 2 && TableAt(m, Path(p)[..k]).Some?
    requires Descend(m, TableAt(m, Path(p)[..k]).value, Path(p)[k], kernel).Some?
    ensures var m' := Descend(m, TableAt(m, Path(p)[..k]).value, Path(p)[k], kernel).value.0;
            Missing(m, p) - |m.pool| == Missing(m', p) - |m'.pool|
  {
    var q, i := Path(p)[..k], Path(p)[k];
    var t := TableAt(m, q).value;
    Prefixes(p);
    TableAtExtend(m, q, i);
    if Child(m, t, i).None? {
      var m' := Descend(m, t, i, kernel).value.0;
      DescendPaths(m, q, i, kernel, Path(p)[..k + 1]);
      if k < 2 {
        AbsentBelow(m, p, k + 1);
        DescendPaths(m, q, i, kernel, Path(p)[..k + 2]);
      }
      MissingAt(m, p, k);
      MissingAt(m', p, k + 1);
    }
  }

  /** One level of `page_map`: it fails only if no frame is free for an absent table. */
  lemma DescendLevel(m: Memory, p: Page, kernel: bool, k: nat)
    requires Tree(m) && k <= 2 && TableAt(m, Path(p)[..k]).Some?
    ensures match Descend(m, TableAt(m, Path(p)[..k]).value, Path(p)[k], kernel)
            case None => |m.pool| < Missing(m, p)
            case Some((m', u)) => && Tree(m') && TableAt(m', Path(p)[..k + 1]) == Some(u)
                                  && Missing(m, p) - |m.pool| == Missing(m', p) - |m'.pool|
  {
    var q, i := Path(p)[..k], Path(p)[k];
    assert q + [i] == Path(p)[..k + 1];
    if Descend(m, TableAt(m, q).value, i, kernel).Some? {
      DescendKeeps(m, q, i, kernel);
      DescendMissing(m, p, kernel, k);
    } else {
      TableAtExtend(m, q, i);
      MissingAt(m, p, k);
    }
  }

  lemma MapInTableFails(m: Memory, pdt: Frame, p: Page, frame: Frame, kernel: bool)
    requires Tree(m) && TableAt(m, [p.pml4, p.pdpt]) == Some(pdt)
    ensures MapInTable(m, pdt, p, frame, kernel).None? <==> |m.pool| < Missing(m, p)
  {
    assert Path(p)[..2] == [p.pml4, p.pdpt] && Path(p)[..3] == Path(p);
    DescendLevel(m, p, kernel, 2);
    if Descend(m, pdt, p.pdt, kernel).Some? {
      PrefixesReached(Descend(m, pdt, p.pdt, kernel).value.0, p);
    }
  }

  lemma MapInDirectoryFails(m: Memory, pdpt: Frame, p: Page, frame: Frame, kernel: bool)
    requires Tree(m) && TableAt(m, [p.pml4]) == Some(pdpt)
    ensures MapInDirectory(m, pdpt, p, frame, kernel).None? <==> |m.pool| < Missing(m, p)
  {
    assert Path(p)[..1] == [p.pml4] && Path(p)[..2] == [p.pml4, p.pdpt];
    DescendLevel(m, p, kernel, 1);
    if Descend(m, pdpt, p.pdpt, kernel).Some? {
      var (n, pdt) := Descend(m, pdpt, p.pdpt, kernel).value;
      MapInTableFails(n, pdt, p, frame, kernel);
    }
  }

  /** The panic for lack of frames is reached exactly when fewer frames are free than tables are absent. */
  lemma MapFailsExactly(m: Memory, p: Page, frame: Frame, kernel: bool)
    requires Tree(m)
    ensures Map(m, p, frame, kernel).None? <==> |m.pool| < Missing(m, p)
  {
    assert Path(p)[..0] == [] && Path(p)[..1] == [p.pml4];
    DescendLevel(m, p, kernel, 0);
    if Descend(m, m.root, p.pml4, kernel).Some? {
      var (n, pdpt) := Descend(m, m.root, p.pml4, kernel).value;
      MapInDirectoryFails(n, pdpt, p, frame, kernel);
    }
  }

  /** The page's leaf table is reached and holds no other present entry, so `page_unmap` gives it back. */
  ghost predicate GivesBackLeaf(m: Memory, p: Page) {
    TableAt(m, Path(p)).Some? && !OtherPresent(m, TableAt(m, Path(p)).value, p.pt)
  }

  /** In terms of pages: the leaf table is there, and no other page under it is mapped. */
  lemma GivesBackLeafByPages(m: Memory, p: Page)
    ensures GivesBackLeaf(m, p) <==>
            TableAt(m, Path(p)).Some? && forall x :: Path(x) == Path(p) && x != p ==> Walk(m, x).None?
  {
    if TableAt(m, Path(p)).Some? {
      var pt := TableAt(m, Path(p)).value;
      forall j: Index | j != p.pt
        ensures EntryAt(m, pt, j).present <==> Walk(m, p.(pt := j)).Some?
      {
        assert Path(p.(pt := j)) == Path(p);
      }
      if forall x :: Path(x) == Path(p) && x != p ==> Walk(m, x).None? {
        forall j: Index | j != p.pt
          ensures !EntryAt(m, pt, j).present
        {
          assert Path(p.(pt := j)) == Path(p) && p.(pt := j) != p;
        }
      } else {
        var x :| Path(x) == Path(p) && x != p && Walk(m, x).Some?;
        assert x == p.(pt := x.pt) by { SamePath(x, p.(pt := x.pt)); }
      }
    }
  }

  lemma {:induction false} PoolIrrelevant(m: Memory, pool: seq<Frame>, q: seq<Index>)
    ensures TableAt(Memory(m.tables, pool, m.root), q) == TableAt(m, q)
    decreases |q|
  {
    if q != [] {
      PoolIrrelevant(m, pool, q[..|q| - 1]);
    }
  }

  lemma WalkIgnoresPool(m: Memory, pool: seq<Frame>)
    ensures forall x :: Walk(Memory(m.tables, pool, m.root), x) == Walk(m, x)
  {
    forall x
      ensures Walk(Memory(m.tables, pool, m.root), x) == Walk(m, x)
    {
      PoolIrrelevant(m, pool, Path(x));
    }
  }

  lemma PrefixesReached(m: Memory, p: Page)
    requires TableAt(m, Path(p)).Some?
    ensures TableAt(m, [p.pml4]).Some? && TableAt(m, [p.pml4, p.pdpt]).Some?
  {
    assert Path(p)[..2] == [p.pml4, p.pdpt];
    assert [p.pml4, p.pdpt][..1] == [p.pml4];
  }

  /** Unmapping a page removes its translation and no other, whatever tables it gives back. */
  lemma UnmapWalk(m: Memory, p: Page)
    requires Tree(m)
    ensures forall x :: Walk(Unmap(m, p), x) == if x == p then None else Walk(m, x)
  {
    var m' := Unmap(m, p);
    if TableAt(m, Path(p)).Some? {
      PrefixesReached(m, p);
      var pt := TableAt(m, Path(p)).value;
      SetLeafKeeps(m, p, EMPTY);
      var m1 := if EntryAt(m, pt, p.pt).present then SetEntry(m, pt, p.pt, EMPTY) else m;
      assert m' == Memory(m1.tables, m'.pool, m1.root);
      WalkIgnoresPool(m1, m'.pool);
    }
  }

  /** Unmapping keeps the tree exactly when the leaf table stays in use: a table given back stays linked. */
  lemma UnmapKeepsExactly(m: Memory, p: Page)
    requires Tree(m)
    ensures Tree(Unmap(m, p)) <==> !GivesBackLeaf(m, p)
    ensures GivesBackLeaf(m, p) ==> Unmap(m, p).pool != [] && TableAt(Unmap(m, p), Path(p)) == Some(Unmap(m, p).pool[0])
  {
    var m' := Unmap(m, p);
    if TableAt(m, Path(p)).Some? {
      PrefixesReached(m, p);
      var pt := TableAt(m, Path(p)).value;
      SetLeafKeeps(m, p, EMPTY);
      if GivesBackLeaf(m, p) {
        assert m'.pool[0] == pt;
        SetLeafPaths(m, p, EMPTY, Path(p));
        PoolIrrelevant(SetEntry(m, pt, p.pt, EMPTY), m'.pool, Path(p));
        PoolIrrelevant(m, m'.pool, Path(p));
        assert TableAt(m', Path(p)) == Some(pt);
      } else {
        assert m'.pool == m.pool;
      }
    }
  }

  // ---------------------------------------------------------------- theorems: runs

  datatype Op = MapOp(page: Page, frame: Frame, kernel: bool) | UnmapOp(page: Page)

  /** The operation does not run out of frames and does not give back a leaf table. */
  ghost predicate Legal(m: Memory, op: Op) {
    match op
    case MapOp(page, frame, kernel) => Map(m, page, frame, kernel).Some?
    case UnmapOp(page) => !GivesBackLeaf(m, page)
  }

  ghost function Step(m: Memory, op: Op): Memory
    requires Legal(m, op)
  {
    match op
    case MapOp(page, frame, kernel) => Map(m, page, frame, kernel).value
    case UnmapOp(page) => Unmap(m, page)
  }

  ghost predicate Reaches(m: Memory, ops: seq<Op>, n: Memory)
    decreases |ops|
  {
    if ops == [] then m == n else Legal(m, ops[0]) && Reaches(Step(m, ops[0]), ops[1..], n)
  }

  /** The flat map after the operations: the last writer of a page wins. */
  function Flat(flat: map<Page, Frame>, ops: seq<Op>): map<Page, Frame>
    decreases |ops|
  {
    if ops == [] then flat else Flat(FlatStep(flat, ops[0]), ops[1..])
  }

  ghost predicate Refines(m: Memory, flat: map<Page, Frame>) {
    forall p :: Walk(m, p) == if p in flat then Some(flat[p]) else None
  }

  datatype Physical = Unmapped | At(address: bv64)

  /** The address `offset` bytes into a frame. */
  function Within(frame: Option<Frame>, offset: bv64): Physical {
    match frame
    case None => Unmapped
    case Some(f) => At(f.address + offset)
  }

  /** `page_virt_to_phys_addr`, with the unmapped result spelled out. */
  function Translate(m: Memory, virt: bv64): Physical {
    Within(Walk(m, PageOf(virt)), Offset(virt))
  }

  function FlatStep(flat: map<Page, Frame>, op: Op): map<Page, Frame> {
    match op
    case MapOp(page, frame, _) => flat[page := frame]
    case UnmapOp(page) => flat - {page}
  }

  lemma MapRefines(m: Memory, flat: map<Page, Frame>, page: Page, frame: Frame, n: Memory)
    requires Refines(m, flat) && Maps(m, n, page, frame)
    ensures Refines(n, flat[page := frame])
  {
  }

  lemma StepRefines(m: Memory, flat: map<Page, Frame>, op: Op)
    requires Tree(m) && Refines(m, flat) && Legal(m, op)
    ensures Tree(Step(m, op)) && Refines(Step(m, op), FlatStep(flat, op))
  {
    match op {
      case MapOp(page, frame, kernel) =>
        MapKeeps(m, page, frame, kernel);
        MapRefines(m, flat, page, frame, Step(m, op));
      case UnmapOp(page) =>
        UnmapRefines(m, flat, page);
    }
  }

  lemma UnmapRefines(m: Memory, flat: map<Page, Frame>, page: Page)
    requires Tree(m) && Refines(m, flat) && !GivesBackLeaf(m, page)
    ensures Tree(Unmap(m, page)) && Refines(Unmap(m, page), flat - {page})
  {
    UnmapWalk(m, page);
    UnmapKeepsExactly(m, page);
  }

  /** Every run keeps the tables a tree whose walk is the flat map. */
  lemma {:induction false} RunRefines(m: Memory, flat: map<Page, Frame>, ops: seq<Op>, n: Memory)
    requires Tree(m) && Refines(m, flat) && Reaches(m, ops, n)
    ensures Tree(n) && Refines(n, Flat(flat, ops))
    decreases |ops|
  {
    if ops != [] {
      StepRefines(m, flat, ops[0]);
      RunRefines(Step(m, ops[0]), FlatStep(flat, ops[0]), ops[1..], n);
    }
  }

  /** A zeroed PML4 and any free frames beside it: a tree that maps nothing. */
  lemma {:induction false} FreshRoot(root: Frame, pool: seq<Frame>)
    requires root !in pool && forall i, j :: 0 <= i < j < |pool| ==> pool[i] != pool[j]
    ensures var m := Memory(map[root := Zeroed()], pool, root); Tree(m) && Refines(m, map[])
  {
    var m := Memory(map[root := Zeroed()], pool, root);
    forall q: seq<Index> | q != []
      ensures TableAt(m, q).None?
    {
      NothingBelow(m, q);
    }
  }

  lemma {:induction false} NothingBelow(m: Memory, q: seq<Index>)
    requires m.tables == map[m.root := Zeroed()] && q != []
    ensures TableAt(m, q).None?
    decreases |q|
  {
    var front, j := q[..|q| - 1], q[|q| - 1];
    if front != [] {
      NothingBelow(m, front);
    } else {
      assert j in Zeroed();
    }
  }

  /** With three free frames, any page can be mapped below a zeroed PML4. */
  lemma FreshMaps(root: Frame, pool: seq<Frame>, p: Page, frame: Frame, kernel: bool)
    requires root !in pool && forall i, j :: 0 <= i < j < |pool| ==> pool[i] != pool[j]
    requires |pool| >= 3
    ensures Map(Memory(map[root := Zeroed()], pool, root), p, frame, kernel).Some?
  {
    var m := Memory(map[root := Zeroed()], pool, root);
    FreshRoot(root, pool);
    MapFailsExactly(m, p, frame, kernel);
  }

  /**
   The only page mapped cannot be unmapped safely: the tables are then no tree any more, its leaf
   table being both linked and the next free frame.
   */
  lemma OnlyPageUnmaps(m: Memory, p: Page, frame: Frame, kernel: bool, n: Memory)
    requires Tree(m) && Refines(m, map[]) && Map(m, p, frame, kernel) == Some(n)
    ensures !Tree(Unmap(n, p))
  {
    MapKeeps(m, p, frame, kernel);
    assert Walk(n, p) == Some(frame);
    assert forall x :: x != p ==> Walk(m, x).None? && Walk(n, x).None?;
    GivesBackLeafByPages(n, p);
    UnmapKeepsExactly(n, p);
  }

  // ---------------------------------------------------------------- the tables given back

  /** Everything reached through the first `k` indices of a page is on the way to that page. */
  ghost predicate Lone(m: Memory, p: Page, k: nat)
    requires k <= 3
  {
    && (forall q | k <= |q| <= 3 && q[..k] == Path(p)[..k] && TableAt(m, q).Some? :: q == Path(p)[..|q|])
    && (forall x :: Path(x) == Path(p) && x != p ==> Walk(m, x).None?)
  }

  lemma {:induction false} OtherPath(m: Memory, q: seq<Index>, i: Index)
    requires TableAt(m, q).Some? && OtherPresent(m, TableAt(m, q).value, i)
    ensures exists r :: |r| == |q| + 1 && r[..|q|] == q && r[|q|] != i && TableAt(m, r).Some?
  {
    var j: Index :| j != i && EntryAt(m, TableAt(m, q).value, j).present;
    TableAtExtend(m, q, j);
    assert (q + [j])[..|q|] == q && (q + [j])[|q|] == j;
  }

  lemma {:induction false} NoOtherPath(m: Memory, q: seq<Index>, i: Index, r: seq<Index>)
    requires TableAt(m, q).Some? && !OtherPresent(m, TableAt(m, q).value, i)
    requires |r| == |q| + 1 && r[..|q|] == q && TableAt(m, r).Some?
    ensures r[|q|] == i
  {
    TableAtExtend(m, q, r[|q|]);
    assert r == q + [r[|q|]];
  }

  lemma {:induction false} PrefixReached(m: Memory, q: seq<Index>, k: nat)
    requires k <= |q| && TableAt(m, q).Some?
    ensures TableAt(m, q[..k]).Some?
    decreases |q|
  {
    if k == |q| {
      assert q[..k] == q;
    } else {
      PrefixReached(m, q[..|q| - 1], k);
      assert q[..|q| - 1][..k] == q[..k];
    }
  }

  lemma LoneGoesDown(m: Memory, p: Page, k: nat)
    requires k < 3 && TableAt(m, Path(p)[..k]).Some? && Lone(m, p, k)
    ensures Lone(m, p, k + 1) && !OtherPresent(m, TableAt(m, Path(p)[..k]).value, Path(p)[k])
  {
    if OtherPresent(m, TableAt(m, Path(p)[..k]).value, Path(p)[k]) {
      OtherPath(m, Path(p)[..k], Path(p)[k]);
    }
    forall r | k + 1 <= |r| <= 3 && r[..k + 1] == Path(p)[..k + 1] && TableAt(m, r).Some?
      ensures r == Path(p)[..|r|]
    {
      assert r[..k] == r[..k + 1][..k];
    }
  }

  lemma LoneGoesUp(m: Memory, p: Page, k: nat)
    requires k < 3 && TableAt(m, Path(p)[..k]).Some?
    requires Lone(m, p, k + 1) && !OtherPresent(m, TableAt(m, Path(p)[..k]).value, Path(p)[k])
    ensures Lone(m, p, k)
  {
    forall r | k <= |r| <= 3 && r[..k] == Path(p)[..k] && TableAt(m, r).Some?
      ensures r == Path(p)[..|r|]
    {
      if |r| > k {
        PrefixReached(m, r, k + 1);
        assert r[..k + 1][..k] == Path(p)[..k];
        NoOtherPath(m, Path(p)[..k], Path(p)[k], r[..k + 1]);
        assert r[..k + 1] == Path(p)[..k + 1];
      } else {
        assert r[..k] == r;
      }
    }
  }

  lemma LoneAbove(m: Memory, p: Page, k: nat)
    requires k < 3 && TableAt(m, Path(p)[..k]).Some?
    ensures Lone(m, p, k) <==> Lone(m, p, k + 1) && !OtherPresent(m, TableAt(m, Path(p)[..k]).value, Path(p)[k])
  {
    if Lone(m, p, k) {
      LoneGoesDown(m, p, k);
    } else if Lone(m, p, k + 1) && !OtherPresent(m, TableAt(m, Path(p)[..k]).value, Path(p)[k]) {
      LoneGoesUp(m, p, k);
    }
  }

  /** How many of a page's three tables unmapping it gives back. */
  ghost function GivenBack(m: Memory, p: Page): int { |Unmap(m, p).pool| - |m.pool| }

  lemma UnmapPool(m: Memory, p: Page, pdpt: Frame, pdt: Frame, pt: Frame)
    requires TableAt(m, [p.pml4]) == Some(pdpt) && TableAt(m, [p.pml4, p.pdpt]) == Some(pdt)
    requires TableAt(m, Path(p)) == Some(pt)
    ensures Unmap(m, p).pool == Reclaimed(m, p, pdpt, pdt, pt) + m.pool
  {
  }

  lemma ReclaimedDeepest(m: Memory, p: Page, pdpt: Frame, pdt: Frame, pt: Frame)
    ensures var given := Reclaimed(m, p, pdpt, pdt, pt);
            && |given| <= 3 && given == [pt, pdt, pdpt][..|given|]
            && (1 <= |given| <==> !OtherPresent(m, pt, p.pt))
            && (2 <= |given| <==> !OtherPresent(m, pt, p.pt) && !OtherPresent(m, pdt, p.pdt))
            && (3 <= |given| <==>
                  !OtherPresent(m, pt, p.pt) && !OtherPresent(m, pdt, p.pdt) && !OtherPresent(m, pdpt, p.pdpt))
  {
  }

  lemma LoneByTables(m: Memory, p: Page, pdpt: Frame, pdt: Frame, pt: Frame)
    requires TableAt(m, [p.pml4]) == Some(pdpt) && TableAt(m, [p.pml4, p.pdpt]) == Some(pdt)
    requires TableAt(m, Path(p)) == Some(pt)
    ensures Lone(m, p, 3) <==> !OtherPresent(m, pt, p.pt)
    ensures Lone(m, p, 2) <==> !OtherPresent(m, pt, p.pt) && !OtherPresent(m, pdt, p.pdt)
    ensures Lone(m, p, 1) <==>
            !OtherPresent(m, pt, p.pt) && !OtherPresent(m, pdt, p.pdt) && !OtherPresent(m, pdpt, p.pdpt)
  {
    Prefixes(p);
    assert Lone(m, p, 3) <==> !OtherPresent(m, pt, p.pt) by { GivesBackLeafByPages(m, p); }
    LoneAbove(m, p, 2);
    LoneAbove(m, p, 1);
  }

  /**
   Unmapping gives back the deepest tables of the page, its leaf table first: each of them exactly when
   everything reached through it is on the way to the page.
   */
  lemma GivesBackExactly(m: Memory, p: Page)
    requires TableAt(m, Path(p)).Some?
    ensures 0 <= GivenBack(m, p) <= 3 && Unmap(m, p).pool[GivenBack(m, p)..] == m.pool
    ensures forall j :: 0 <= j < GivenBack(m, p) ==> TableAt(m, Path(p)[..3 - j]) == Some(Unmap(m, p).pool[j])
    ensures forall k :: 1 <= k <= 3 ==> (4 - k <= GivenBack(m, p) <==> Lone(m, p, k))
  {
    PrefixesReached(m, p);
    var pdpt, pdt := TableAt(m, [p.pml4]).value, TableAt(m, [p.pml4, p.pdpt]).value;
    var pt := TableAt(m, Path(p)).value;
    var given := Reclaimed(m, p, pdpt, pdt, pt);
    UnmapPool(m, p, pdpt, pdt, pt);
    ReclaimedDeepest(m, p, pdpt, pdt, pt);
    LoneByTables(m, p, pdpt, pdt, pt);
    forall j | 0 <= j < |given|
      ensures TableAt(m, Path(p)[..3 - j]) == Some(given[j])
    {
      Prefixes(p);
    }
    forall k | 1 <= k <= 3
      ensures 4 - k <= |given| <==> Lone(m, p, k)
    {
      assert k == 1 || k == 2 || k == 3;
    }
  }

  lemma LoneUnique(m: Memory, p: Page, k: nat, x: Page)
    requires k <= 3 && Lone(m, p, k) && Walk(m, x).Some? && Path(x)[..k] == Path(p)[..k]
    ensures x == p
  {
    assert Path(x)[..3] == Path(x) && Path(p)[..3] == Path(p);
  }

  /** A mapped page that shares a table which is given back is the page that is unmapped. */
  lemma GivenBackUnused(m: Memory, p: Page, x: Page, j: nat, l: nat)
    requires Tree(m) && TableAt(m, Path(p)).Some? && j < GivenBack(m, p)
    requires Walk(m, x).Some? && l <= 3
    ensures TableAt(m, Path(x)[..l]) == Some(Unmap(m, p).pool[j]) ==> x == p
  {
    GivesBackExactly(m, p);
    if TableAt(m, Path(x)[..l]) == Some(Unmap(m, p).pool[j]) {
      assert Path(x)[..l] == Path(p)[..3 - j];
      assert l == |Path(x)[..l]| == |Path(p)[..3 - j]| == 3 - j;
      LoneUnique(m, p, 3 - j, x);
    }
  }

  // ---------------------------------------------------------------- runs on addresses

  /** The calls, with the addresses the kernel passes. */
  datatype Call = MapCall(virt: bv64, phys: bv64, kernel: bool) | UnmapCall(virt: bv64)

  function OpOf(call: Call): Op {
    match call
    case MapCall(virt, phys, kernel) => MapOp(PageOf(virt), FrameOf(phys), kernel)
    case UnmapCall(virt) => UnmapOp(PageOf(virt))
  }

  function Ops(calls: seq<Call>): (ops: seq<Op>)
    ensures |ops| == |calls|
  {
    if calls == [] then [] else [OpOf(calls[0])] + Ops(calls[1..])
  }

  /** The flat map from page numbers to frame numbers after the calls: the last writer of a page wins. */
  function FlatNumbers(flat: map<nat, nat>, calls: seq<Call>): map<nat, nat>
    decreases |calls|
  {
    if calls == [] then flat else FlatNumbers(FlatCall(flat, calls[0]), calls[1..])
  }

  function FlatCall(flat: map<nat, nat>, call: Call): map<nat, nat> {
    match call
    case MapCall(virt, phys, _) => flat[PageNumber(virt) := FrameNumber(phys)]
    case UnmapCall(virt) => flat - {PageNumber(virt)}
  }

  ghost predicate Numbered(frame: Frame, number: nat) {
    FrameOf(frame.address) == frame && FrameNumber(frame.address) == number
  }

  lemma WholeFrames(n: nat, frames: nat)
    requires n == 0x1000 * frames && frames < 0x100_0000_0000
    ensures n / 0x1000 % 0x100_0000_0000 == frames
  {
  }

  lemma FrameNumbered(phys: bv64)
    ensures Numbered(FrameOf(phys), FrameNumber(phys))
  {
    FrameTwice(phys);
    FrameBegins(phys);
    WholeFrames(FrameOf(phys).address as nat, FrameNumber(phys));
  }

  /** At this address the map by numbers and the map by table indices say the same. */
  ghost predicate Agree(numbers: map<nat, nat>, pages: map<Page, Frame>, virt: bv64) {
    && (PageNumber(virt) in numbers <==> PageOf(virt) in pages)
    && (PageNumber(virt) in numbers ==> Numbered(pages[PageOf(virt)], numbers[PageNumber(virt)]))
  }

  lemma CallAgrees(numbers: map<nat, nat>, pages: map<Page, Frame>, call: Call, virt: bv64)
    requires Agree(numbers, pages, virt)
    ensures Agree(FlatCall(numbers, call), FlatStep(pages, OpOf(call)), virt)
  {
    IndicesArePage(virt, call.virt);
    if call.MapCall? {
      FrameNumbered(call.phys);
    }
  }

  lemma {:induction false} CallsAgree(numbers: map<nat, nat>, pages: map<Page, Frame>, calls: seq<Call>, virt: bv64)
    requires Agree(numbers, pages, virt)
    ensures Agree(FlatNumbers(numbers, calls), Flat(pages, Ops(calls)), virt)
    decreases |calls|
  {
    if calls != [] {
      CallAgrees(numbers, pages, calls[0], virt);
      assert Ops(calls)[0] == OpOf(calls[0]) && Ops(calls)[1..] == Ops(calls[1..]);
      CallsAgree(FlatCall(numbers, calls[0]), FlatStep(pages, OpOf(calls[0])), calls[1..], virt);
    }
  }

  lemma PlacedAt(frame: Frame, number: nat, virt: bv64, w: bv64)
    requires Numbered(frame, number) && w == frame.address + Offset(virt)
    ensures w as nat == 0x1000 * number + virt as nat % 0x1000
  {
    OffsetAdds(w, frame.address, virt);
  }

  lemma TranslatesAt(m: Memory, virt: bv64, frame: Frame, number: nat)
    requires Walk(m, PageOf(virt)) == Some(frame) && Numbered(frame, number)
    ensures Translate(m, virt).At?
    ensures Translate(m, virt).address as nat == 0x1000 * number + virt as nat % 0x1000
  {
    PlacedAt(frame, number, virt, Translate(m, virt).address);
  }

  /**
   From a zeroed PML4, after any run, an address translates to the frame last mapped at its page number
   plus its remainder by the page size, and to nothing if that page was never mapped or was unmapped since.
   */
  lemma RunTranslates(root: Frame, pool: seq<Frame>, calls: seq<Call>, n: Memory, virt: bv64)
    requires root !in pool && forall i, j :: 0 <= i < j < |pool| ==> pool[i] != pool[j]
    requires Reaches(Memory(map[root := Zeroed()], pool, root), Ops(calls), n)
    ensures var flat := FlatNumbers(map[], calls);
            match Translate(n, virt)
            case Unmapped => PageNumber(virt) !in flat
            case At(a) => PageNumber(virt) in flat && a as nat == 0x1000 * flat[PageNumber(virt)] + virt as nat % 0x1000
  {
    FreshRoot(root, pool);
    RunRefines(Memory(map[root := Zeroed()], pool, root), map[], Ops(calls), n);
    CallsAgree(map[], map[], calls, virt);
    var flat, number := FlatNumbers(map[], calls), PageNumber(virt);
    if number in flat {
      TranslatesAt(n, virt, Flat(map[], Ops(calls))[PageOf(virt)], flat[number]);
    }
  }

  /** No call from the `i`th on is about this page. */
  ghost predicate Untouched(calls: seq<Call>, i: nat, number: nat) {
    forall j :: i <= j < |calls| ==> PageNumber(calls[j].virt) != number
  }

  lemma {:induction false} UntouchedKeeps(flat: map<nat, nat>, calls: seq<Call>, number: nat)
    requires Untouched(calls, 0, number)
    ensures number in FlatNumbers(flat, calls) <==> number in flat
    ensures number in flat ==> FlatNumbers(flat, calls)[number] == flat[number]
    decreases |calls|
  {
    if calls != [] {
      assert PageNumber(calls[0].virt) != number;
      assert forall j :: 0 <= j < |calls[1..]| ==> calls[1..][j] == calls[j + 1];
      UntouchedKeeps(FlatCall(flat, calls[0]), calls[1..], number);
    }
  }

  lemma {:induction false} LastCallWins(flat: map<nat, nat>, calls: seq<Call>, i: nat)
    requires i < |calls| && Untouched(calls, i + 1, PageNumber(calls[i].virt))
    ensures var number, after := PageNumber(calls[i].virt), FlatNumbers(flat, calls);
            match calls[i]
            case MapCall(_, phys, _) => number in after && after[number] == FrameNumber(phys)
            case UnmapCall(_) => number !in after
    decreases |calls|
  {
    assert forall j :: 0 <= j < |calls[1..]| ==> calls[1..][j] == calls[j + 1];
    if i == 0 {
      UntouchedKeeps(FlatCall(flat, calls[0]), calls[1..], PageNumber(calls[0].virt));
    } else {
      LastCallWins(FlatCall(flat, calls[0]), calls[1..], i - 1);
    }
  }

  lemma AlignedNumber(n: nat)
    requires n % 0x1000 == 0 && n < 0x10_0000_0000_0000
    ensures 0x1000 * (n / 0x1000 % 0x100_0000_0000) == n
  {
  }

  /**
   The last call about the page of an address decides. If it mapped a page-aligned frame below 2^52, the
   address translates to the frame's address plus its own remainder by the page size; if it unmapped, to nothing.
   */
  lemma {:induction false} LastCallTranslates(root: Frame, pool: seq<Frame>, calls: seq<Call>, n: Memory,
                                              i: nat, virt: bv64)
    requires root !in pool && forall i, j :: 0 <= i < j < |pool| ==> pool[i] != pool[j]
    requires Reaches(Memory(map[root := Zeroed()], pool, root), Ops(calls), n)
    requires i < |calls| && PageNumber(calls[i].virt) == PageNumber(virt) && Untouched(calls, i + 1, PageNumber(virt))
    ensures match calls[i]
            case UnmapCall(_) => Translate(n, virt).Unmapped?
            case MapCall(_, phys, _) =>
              phys as nat % 0x1000 == 0 && phys as nat < 0x10_0000_0000_0000 ==>
                Translate(n, virt).At? && Translate(n, virt).address as nat == phys as nat + virt as nat % 0x1000
  {
    RunTranslates(root, pool, calls, n, virt);
    LastCallWins(map[], calls, i);
    if calls[i].MapCall? && calls[i].phys as nat % 0x1000 == 0 && calls[i].phys as nat < 0x10_0000_0000_0000 {
      AlignedNumber(calls[i].phys as nat);
    }
  }
}
