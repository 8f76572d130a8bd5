/**
 Who may use a page that `mem/page.c` has mapped. The processor lets user mode through a page only if the
 user bit is set in all four entries on the way to it (AMD64 Architecture Programmer's Manual, volume 2,
 "Page-Protection Checks"); `page_map` sets the bit only in the entries that it fills itself.
 */
module PageAccess {
  import opened Basics
  import opened PageBits
  import opened PageTable

  // The four indices of a page, and its first one, two and three (`Path`).

  function Steps(p: Page): seq<Index> { [p.pml4, p.pdpt, p.pdt, p.pt] }

  function One(p: Page): seq<Index> { [p.pml4] }

  function Two(p: Page): seq<Index> { [p.pml4, p.pdpt] }

  lemma {:induction false} LastSplits(q: seq<Index>)
    requires |q| > 0
    ensures q == q[..|q| - 1] + [q[|q| - 1]]
  {
  }

  lemma StepsSplit(p: Page)
    ensures Steps(p) == Path(p) + [p.pt] && Steps(p)[..3] == Path(p)
  {
  }

  /** The entry that the last of the indices selects, once the others have led to its table. */
  function EntryOn(m: Memory, q: seq<Index>): Entry
    requires |q| > 0
  {
    match TableAt(m, q[..|q| - 1])
    case None => EMPTY
    case Some(t) => EntryAt(m, t, q[|q| - 1])
  }

  predicate OpenAt(m: Memory, q: seq<Index>)
    requires |q| > 0
  {
    EntryOn(m, q).present && EntryOn(m, q).user
  }

  /** User mode can use the page: every entry on the way is present and has the user bit. */
  ghost predicate UserOpen(m: Memory, p: Page) {
    OpenAt(m, One(p)) && OpenAt(m, Two(p)) && OpenAt(m, Path(p)) && OpenAt(m, Steps(p))
  }

  /** An entry as `page_map` fills it. */
  ghost predicate Filled(e: Entry, kernel: bool) {
    e.present && e.writable && e.user == !kernel
  }

  /** The entry is kept if it was present, and filled if it was absent. */
  ghost predicate FilledIfAbsent(m: Memory, n: Memory, q: seq<Index>, kernel: bool)
    requires |q| > 0
  {
    if EntryOn(m, q).present then EntryOn(n, q) == EntryOn(m, q) else Filled(EntryOn(n, q), kernel)
  }

  /** Only the entry at `at` has changed, and only if it was absent. */
  ghost predicate FillsAbsent(m: Memory, n: Memory, at: seq<Index>, kernel: bool)
    requires |at| > 0
  {
    (forall q | 1 <= |q| <= 4 && q != at :: EntryOn(n, q) == EntryOn(m, q)) && FilledIfAbsent(m, n, at, kernel)
  }

  lemma DescendEntry(m: Memory, t: Frame, i: Index, kernel: bool, u: Frame, j: Index)
    requires Child(m, t, i).None? && m.pool != [] && t != m.pool[0]
    ensures var m' := Descend(m, t, i, kernel).value.0;
            && (u == m.pool[0] ==> EntryAt(m', u, j) == EMPTY)
            && (u == t && j == i ==> Filled(EntryAt(m', u, j), kernel))
            && (u != m.pool[0] && !(u == t && j == i) ==> EntryAt(m', u, j) == EntryAt(m, u, j))
  {
    var m' := Descend(m, t, i, kernel).value.0;
    assert TableOf(m', m.pool[0]) == Zeroed();
    assert j in Zeroed();
    assert j != i ==> EntryAt(m', t, j) == EntryAt(m, t, j);
  }

  lemma {:induction false} DescendEntryOn(m: Memory, p: seq<Index>, i: Index, kernel: bool, q: seq<Index>)
    requires Tree(m) && |p| <= 2 && 1 <= |q| <= 4 && TableAt(m, p).Some?
    requires Child(m, TableAt(m, p).value, i).None? && m.pool != []
    ensures var m' := Descend(m, TableAt(m, p).value, i, kernel).value.0;
            if q == p + [i] then Filled(EntryOn(m', q), kernel) else EntryOn(m', q) == EntryOn(m, q)
  {
    var t, front, j := TableAt(m, p).value, q[..|q| - 1], q[|q| - 1];
    DescendPaths(m, p, i, kernel, front);
    TableAtExtend(m, p, i);
    LastSplits(q);
    if front == p + [i] {
      DescendEntry(m, t, i, kernel, m.pool[0], j);
    } else if TableAt(m, front).Some? {
      DescendEntry(m, t, i, kernel, TableAt(m, front).value, j);
    }
  }

  /** Following or creating the table at `p + [i]` fills its entry if that was absent. */
  lemma {:induction false} DescendFills(m: Memory, p: seq<Index>, i: Index, kernel: bool)
    requires Tree(m) && |p| <= 2 && TableAt(m, p).Some?
    requires Descend(m, TableAt(m, p).value, i, kernel).Some?
    ensures FillsAbsent(m, Descend(m, TableAt(m, p).value, i, kernel).value.0, p + [i], kernel)
  {
    assert (p + [i])[..|p|] == p;
    if Child(m, TableAt(m, p).value, i).None? {
      var m' := Descend(m, TableAt(m, p).value, i, kernel).value.0;
      forall q: seq<Index> | 1 <= |q| <= 4
        ensures if q == p + [i] then Filled(EntryOn(m', q), kernel) else EntryOn(m', q) == EntryOn(m, q)
      {
        DescendEntryOn(m, p, i, kernel, q);
      }
    }
  }

  lemma SetEntryAt(m: Memory, t: Frame, i: Index, e: Entry, u: Frame, j: Index)
    ensures EntryAt(SetEntry(m, t, i, e), u, j) == if u == t && j == i then e else EntryAt(m, u, j)
  {
    assert TableOf(SetEntry(m, t, i, e), t) == TableOf(m, t)[i := e];
  }

  lemma {:induction false} LeafLeaves(m: Memory, p: Page, e: Entry, q: seq<Index>)
    requires Tree(m) && TableAt(m, Path(p)).Some? && 1 <= |q| <= 4 && q != Steps(p)
    ensures EntryOn(SetEntry(m, TableAt(m, Path(p)).value, p.pt, e), q) == EntryOn(m, q)
  {
    var pt, front, j := TableAt(m, Path(p)).value, q[..|q| - 1], q[|q| - 1];
    SetLeafPaths(m, p, e, front);
    if TableAt(m, front).Some? {
      SetEntryAt(m, pt, p.pt, e, TableAt(m, front).value, j);
      LastSplits(q);
      StepsSplit(p);
    }
  }

  lemma LeafSet(m: Memory, p: Page, e: Entry)
    requires Tree(m) && TableAt(m, Path(p)).Some?
    ensures EntryOn(SetEntry(m, TableAt(m, Path(p)).value, p.pt, e), Steps(p)) == e
  {
    var pt := TableAt(m, Path(p)).value;
    SetLeafPaths(m, p, e, Path(p));
    SetEntryAt(m, pt, p.pt, e, pt, p.pt);
    StepsSplit(p);
  }

  /** The entries that lead to the page's tables are kept if they were present, and filled if absent. */
  ghost predicate WayFilled(m: Memory, n: Memory, p: Page, kernel: bool) {
    && FilledIfAbsent(m, n, One(p), kernel)
    && FilledIfAbsent(m, n, Two(p), kernel)
    && FilledIfAbsent(m, n, Path(p), kernel)
  }

  /**
   What `page_map` does to the entries: it fills the page's own, and those on the way that were absent;
   it changes no other.
   */
  ghost predicate MapFills(m: Memory, n: Memory, p: Page, frame: Frame, kernel: bool) {
    && (forall q | 1 <= |q| <= 4 && q != One(p) && q != Two(p) && q != Path(p) && q != Steps(p) ::
          EntryOn(n, q) == EntryOn(m, q))
    && WayFilled(m, n, p, kernel)
    && Filled(EntryOn(n, Steps(p)), kernel) && EntryOn(n, Steps(p)).frame == frame
  }

  lemma {:induction false} FilledBetween(m: Memory, a: Memory, b: Memory, n: Memory, q: seq<Index>, kernel: bool)
    requires |q| > 0 && EntryOn(a, q) == EntryOn(m, q) && EntryOn(n, q) == EntryOn(b, q)
    requires FilledIfAbsent(a, b, q, kernel)
    ensures FilledIfAbsent(m, n, q, kernel)
  {
  }

  /** Three changes, each of one absent entry. */
  lemma {:induction false} ThreeChanges(m: Memory, a: Memory, b: Memory, c: Memory, kernel: bool,
                                        x: seq<Index>, y: seq<Index>, z: seq<Index>)
    requires |x| == 1 && |y| == 2 && |z| == 3
    requires FillsAbsent(m, a, x, kernel) && FillsAbsent(a, b, y, kernel) && FillsAbsent(b, c, z, kernel)
    ensures forall q | 1 <= |q| <= 4 && q != x && q != y && q != z :: EntryOn(c, q) == EntryOn(m, q)
    ensures FilledIfAbsent(m, c, x, kernel) && FilledIfAbsent(m, c, y, kernel) && FilledIfAbsent(m, c, z, kernel)
  {
    FilledBetween(m, m, a, c, x, kernel);
    FilledBetween(m, a, b, c, y, kernel);
    FilledBetween(m, b, c, c, z, kernel);
  }

  /** The leaf entry is filled whether it was present or not. */
  lemma LeafFills(m: Memory, p: Page, frame: Frame, kernel: bool, n: Memory)
    requires Tree(m) && TableAt(m, Path(p)).Some?
    requires var pt := TableAt(m, Path(p)).value;
             n == SetEntry(m, pt, p.pt, Linked(EntryAt(m, pt, p.pt), frame, kernel))
    ensures forall q | 1 <= |q| <= 4 && q != Steps(p) :: EntryOn(n, q) == EntryOn(m, q)
    ensures Filled(EntryOn(n, Steps(p)), kernel) && EntryOn(n, Steps(p)).frame == frame
  {
    var pt := TableAt(m, Path(p)).value;
    var e := Linked(EntryAt(m, pt, p.pt), frame, kernel);
    LeafSet(m, p, e);
    forall q: seq<Index> | 1 <= |q| <= 4 && q != Steps(p)
      ensures EntryOn(n, q) == EntryOn(m, q)
    {
      LeafLeaves(m, p, e, q);
    }
  }

  lemma RootFills(m: Memory, p: Page, kernel: bool)
    requires Tree(m) && Descend(m, m.root, p.pml4, kernel).Some?
    ensures FillsAbsent(m, Descend(m, m.root, p.pml4, kernel).value.0, One(p), kernel)
  {
    var top: seq<Index> := [];
    assert top + [p.pml4] == One(p);
    DescendFills(m, top, p.pml4, kernel);
  }

  /** The tables made on the way to the page. */
  lemma WayFills(m: Memory, p: Page, frame: Frame, kernel: bool) returns (c: Memory)
    requires Tree(m) && Map(m, p, frame, kernel).Some?
    ensures Tree(c) && TableAt(c, Path(p)).Some?
    ensures var pt := TableAt(c, Path(p)).value;
            Map(m, p, frame, kernel) == Some(SetEntry(c, pt, p.pt, Linked(EntryAt(c, pt, p.pt), frame, kernel)))
    ensures WayFilled(m, c, p, kernel)
    ensures forall q | 1 <= |q| <= 4 && q != One(p) && q != Two(p) && q != Path(p) :: EntryOn(c, q) == EntryOn(m, q)
  {
    var (a, pdpt) := Descend(m, m.root, p.pml4, kernel).value;
    DescendFromRoot(m, p.pml4, kernel);
    RootFills(m, p, kernel);
    var (b, pdt) := Descend(a, pdpt, p.pdpt, kernel).value;
    assert One(p) + [p.pdpt] == Two(p) && Two(p) + [p.pdt] == Path(p);
    DescendKeeps(a, One(p), p.pdpt, kernel);
    DescendFills(a, One(p), p.pdpt, kernel);
    c := Descend(b, pdt, p.pdt, kernel).value.0;
    DescendKeeps(b, Two(p), p.pdt, kernel);
    DescendFills(b, Two(p), p.pdt, kernel);
    ThreeChanges(m, a, b, c, kernel, One(p), Two(p), Path(p));
  }

  lemma MapFillsEntries(m: Memory, p: Page, frame: Frame, kernel: bool)
    requires Tree(m) && Map(m, p, frame, kernel).Some?
    ensures MapFills(m, Map(m, p, frame, kernel).value, p, frame, kernel)
  {
    var c := WayFills(m, p, frame, kernel);
    var n := Map(m, p, frame, kernel).value;
    LeafFills(c, p, frame, kernel, n);
    FilledBetween(m, m, c, n, One(p), kernel);
    FilledBetween(m, m, c, n, Two(p), kernel);
    FilledBetween(m, m, c, n, Path(p), kernel);
  }

  // ---------------------------------------------------------------- theorems

  predicate NotShutAt(m: Memory, q: seq<Index>)
    requires |q| > 0
  {
    EntryOn(m, q).present ==> EntryOn(m, q).user
  }

  /** Every table already there on the way to the page was linked with the user bit. */
  ghost predicate WayOpen(m: Memory, p: Page) {
    NotShutAt(m, One(p)) && NotShutAt(m, Two(p)) && NotShutAt(m, Path(p))
  }

  lemma {:induction false} OpenStep(m: Memory, n: Memory, q: seq<Index>)
    requires |q| > 0 && FilledIfAbsent(m, n, q, false)
    ensures OpenAt(n, q) <==> NotShutAt(m, q)
  {
  }

  lemma OpenExactly(m: Memory, n: Memory, p: Page, frame: Frame, kernel: bool)
    requires MapFills(m, n, p, frame, kernel)
    ensures UserOpen(n, p) <==> !kernel && WayOpen(m, p)
  {
    if !kernel {
      OpenStep(m, n, One(p));
      OpenStep(m, n, Two(p));
      OpenStep(m, n, Path(p));
    }
  }

  /** A present entry is reached through present entries. */
  lemma PresentAbove(m: Memory, p: Page)
    requires EntryOn(m, Steps(p)).present
    ensures EntryOn(m, One(p)).present && EntryOn(m, Two(p)).present && EntryOn(m, Path(p)).present
  {
    assert Steps(p)[..3] == Path(p) && Path(p)[..2] == Two(p) && Two(p)[..1] == One(p);
    PrefixesReached(m, p);
  }

  lemma StepsInjective(x: Page, p: Page)
    ensures Steps(x) == Steps(p) <==> x == p
  {
    if Steps(x) == Steps(p) {
      assert Steps(x)[0] == Steps(p)[0] && Steps(x)[1] == Steps(p)[1];
      assert Steps(x)[2] == Steps(p)[2] && Steps(x)[3] == Steps(p)[3];
    }
  }

  /** An entry that was present is changed only if it is the page's own. */
  lemma {:induction false} PresentKept(m: Memory, n: Memory, p: Page, frame: Frame, kernel: bool, q: seq<Index>)
    requires MapFills(m, n, p, frame, kernel) && 1 <= |q| <= 4 && q != Steps(p) && EntryOn(m, q).present
    ensures EntryOn(n, q) == EntryOn(m, q)
  {
  }

  lemma OthersStay(m: Memory, n: Memory, p: Page, frame: Frame, kernel: bool, x: Page)
    requires MapFills(m, n, p, frame, kernel) && x != p
    ensures UserOpen(n, x) <==> UserOpen(m, x)
  {
    StepsInjective(x, p);
    assert EntryOn(n, Steps(x)) == EntryOn(m, Steps(x));
    if EntryOn(m, Steps(x)).present {
      PresentAbove(m, x);
      PresentKept(m, n, p, frame, kernel, One(x));
      PresentKept(m, n, p, frame, kernel, Two(x));
      PresentKept(m, n, p, frame, kernel, Path(x));
    }
  }

  /**
   A page mapped for user mode can be used from user mode exactly if every table that was already there
   on the way to it was linked with the user bit; one mapped for the kernel never can. Every other page
   stays as usable as it was.
   */
  lemma MapOpensExactly(m: Memory, p: Page, frame: Frame, kernel: bool, n: Memory)
    requires Tree(m) && Map(m, p, frame, kernel) == Some(n)
    ensures UserOpen(n, p) <==> !kernel && WayOpen(m, p)
    ensures forall x :: x != p ==> (UserOpen(n, x) <==> UserOpen(m, x))
  {
    MapFillsEntries(m, p, frame, kernel);
    OpenExactly(m, n, p, frame, kernel);
    forall x | x != p
      ensures UserOpen(n, x) <==> UserOpen(m, x)
    {
      OthersStay(m, n, p, frame, kernel, x);
    }
  }

  /** A page mapped for user mode below a table that was made for a kernel page cannot be used from user mode. */
  lemma ShutBehindKernel(m: Memory, p: Page, f: Frame, a: Memory, x: Page, g: Frame, n: Memory)
    requires Tree(m) && !EntryOn(m, One(p)).present && x.pml4 == p.pml4
    requires Map(m, p, f, true) == Some(a) && Map(a, x, g, false) == Some(n)
    ensures !UserOpen(n, x)
  {
    MapKeeps(m, p, f, true);
    MapFillsEntries(m, p, f, true);
    assert One(x) == One(p) && !NotShutAt(a, One(x));
    MapOpensExactly(a, x, g, false, n);
  }
}
