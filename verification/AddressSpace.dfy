/**
 The code of `mem/page.c` that walks, extends and clears the page tables in place. A table is 512 words
 of 64 bits, read and written with the accessors of `PageBits`; the methods are proved to compute the
 operations of `PageTable` on what the words decode to.
 */
module AddressSpace {
  import opened Basics
  import opened PageBits
  import opened PageTable

  // ---------------------------------------------------------------- words and what they decode to

  datatype Word = Word(bits: bv64)

  type Words = map<Index, Word>

  /** A page of zeros. */
  function ZeroWords(): (w: Words)
    ensures forall i: Index :: i in w && w[i] == Word(0)
  {
    AllIndicesComplete();
    map i | i in AllIndices() :: Word(0)
  }

  function Decoded(w: Words): Table {
    map i | i in w :: Decode(w[i].bits)
  }

  function Read(words: map<Frame, Words>): map<Frame, Table> {
    map t | t in words :: Decoded(words[t])
  }

  lemma ZerosDecode()
    ensures Decoded(ZeroWords()) == Zeroed()
  {
    ZeroDecodes();
  }

  lemma StoreDecodes(w: Words, i: Index, word: bv64)
    ensures Decoded(w[i := Word(word)]) == Decoded(w)[i := Decode(word)]
  {
  }

  lemma ReadStore(words: map<Frame, Words>, t: Frame, w: Words)
    ensures Read(words[t := w]) == Read(words)[t := Decoded(w)]
  {
  }

  lemma SetEntryTwice(m: Memory, t: Frame, i: Index, d: Entry, e: Entry)
    ensures SetEntry(SetEntry(m, t, i, d), t, i, e) == SetEntry(m, t, i, e)
    ensures EntryAt(SetEntry(m, t, i, d), t, i) == d
  {
    var n := SetEntry(m, t, i, d);
    assert TableOf(n, t) == TableOf(m, t)[i := d];
    assert TableOf(n, t)[i := e] == TableOf(m, t)[i := e];
    assert n.tables[t := TableOf(n, t)[i := e]] == m.tables[t := TableOf(m, t)[i := e]];
  }

  /** Frames have page-aligned addresses of 52 bits. */
  ghost predicate Aligned(frames: seq<Frame>) {
    forall i :: 0 <= i < |frames| ==> FrameOf(frames[i].address) == frames[i]
  }

  lemma AlignedThree(a: Frame, b: Frame, c: Frame)
    requires FrameOf(a.address) == a && FrameOf(b.address) == b && FrameOf(c.address) == c
    ensures Aligned([a, b, c])
  {
  }

  /** The address in a word is that of a frame. */
  lemma AddressAligned(word: bv64)
    ensures FrameOf(GetAddress(word)) == Frame(GetAddress(word)) == FrameOf(word)
  {
  }

  /** The address at the offset of `virt` into a frame. */
  method Place(frame: Frame, virt: bv64) returns (phys: Physical)
    requires FrameOf(frame.address) == frame
    ensures phys == Within(Some(frame), Offset(virt))
    ensures phys.At? && phys.address as nat == frame.address as nat + virt as nat % 0x1000
  {
    phys := At(frame.address + Offset(virt));
    Placed(frame, virt, phys.address);
  }

  class Tables {
    const root: Frame
    var words: map<Frame, Words>
    /** The free frames of `pmm_low`, next one first. */
    var pool: seq<Frame>

    ghost function Abs(): Memory
      reads this
    {
      Memory(Read(words), pool, root)
    }

    constructor (root: Frame, pool: seq<Frame>)
      ensures Abs() == Memory(map[root := Zeroed()], pool, root)
    {
      this.root, this.pool, this.words := root, pool, map[root := ZeroWords()];
      new;
      ZerosDecode();
    }

    function Load(t: Frame, i: Index): (word: bv64)
      reads this
      ensures Decode(word) == EntryAt(Abs(), t, i)
    {
      ZeroDecodes();
      assert i in Zeroed();
      if t in words && i in words[t] then words[t][i].bits else 0
    }

    method Store(t: Frame, i: Index, word: bv64)
      modifies this`words
      ensures Load(t, i) == word && Abs() == SetEntry(old(Abs()), t, i, Decode(word))
    {
      ZerosDecode();
      var table := if t in words then words[t] else ZeroWords();
      StoreDecodes(table, i, word);
      ReadStore(words, t, table[i := Word(word)]);
      words := words[t := table[i := Word(word)]];
    }

    /** Stores over a word of a table that is otherwise that of `m`. */
    method Overwrite(t: Frame, i: Index, word: bv64, ghost m: Memory, ghost d: Entry)
      requires Abs() == SetEntry(m, t, i, d)
      modifies this`words
      ensures Load(t, i) == word && Abs() == SetEntry(m, t, i, Decode(word))
    {
      SetEntryTwice(m, t, i, d, Decode(word));
      Store(t, i, word);
    }

    /** The accessor calls of `page_map` on one entry: address, present, writable, and for kernel or user. */
    method LinkWord(t: Frame, i: Index, a: bv64, kernel: bool)
      modifies this`words
      ensures Abs() == SetEntry(old(Abs()), t, i, Decode(LinkBits(old(Load(t, i)), a, kernel)))
    {
      ghost var m := Abs();
      Store(t, i, SetAddress(Load(t, i), a));
      Overwrite(t, i, SetFlag(Load(t, i), PRESENT), m, Decode(Load(t, i)));
      Overwrite(t, i, SetFlag(Load(t, i), WRITABLE), m, Decode(Load(t, i)));
      if kernel {
        Overwrite(t, i, UnsetFlag(Load(t, i), USER), m, Decode(Load(t, i)));
      } else {
        Overwrite(t, i, SetFlag(Load(t, i), USER), m, Decode(Load(t, i)));
      }
    }

    /** The same, in terms of what the entry holds. */
    method Link(t: Frame, i: Index, a: bv64, kernel: bool)
      modifies this`words
      ensures Abs() == SetEntry(old(Abs()), t, i, Linked(EntryAt(old(Abs()), t, i), FrameOf(a), kernel))
    {
      LinkDecodes(Load(t, i), a, kernel);
      LinkWord(t, i, a, kernel);
    }

    /** Whether an entry is present, and the table it leads to. */
    method Follow(t: Frame, i: Index) returns (present: bool, table: Frame)
      ensures present == EntryAt(Abs(), t, i).present && table == EntryAt(Abs(), t, i).frame
      ensures FrameOf(table.address) == table
    {
      var word := Load(t, i);
      AddressAligned(word);
      present, table := HasFlag(word, PRESENT), Frame(GetAddress(word));
    }

    /** The walk of `page_virt_to_phys_addr`. */
    method Lookup(p: Page) returns (found: bool, frame: Frame)
      ensures Walk(Abs(), p) == if found then Some(frame) else None
      ensures FrameOf(frame.address) == frame
    {
      Levels(Abs(), p);
      found, frame := Follow(root, p.pml4);
      if !found { return; }
      found, frame := Follow(frame, p.pdpt);
      if !found { return; }
      found, frame := Follow(frame, p.pdt);
      if !found { return; }
      found, frame := Follow(frame, p.pt);
    }

    /** `page_virt_to_phys_addr`. */
    method VirtToPhys(virt: bv64) returns (phys: Physical)
      ensures phys == Translate(Abs(), virt)
      ensures phys.Unmapped? <==> Walk(Abs(), PageOf(virt)).None?
      ensures phys.At? ==>
                phys.address as nat == Walk(Abs(), PageOf(virt)).value.address as nat + virt as nat % 0x1000
    {
      var found, frame := Lookup(PageOf(virt));
      if !found {
        return Unmapped;
      }
      phys := Place(frame, virt);
    }

    /** One level of `page_map`; `ok` is false where `pmm_alloc_low` panics. */
    method EnsureTable(t: Frame, i: Index, kernel: bool) returns (ok: bool, table: Frame)
      requires Aligned(pool)
      modifies this`words, this`pool
      ensures Aligned(pool)
      ensures match Descend(old(Abs()), t, i, kernel)
              case None => !ok
              case Some((m, u)) => ok && table == u && Abs() == m
    {
      ok, table := Follow(t, i);
      if ok {
        return;
      }
      if pool == [] {
        return false, table;
      }
      table, pool := pool[0], pool[1..];
      ZerosDecode();
      ReadStore(words, table, ZeroWords());
      words := words[table := ZeroWords()];
      Link(t, i, table.address, kernel);
      return true, table;
    }

    /** `page_map`. */
    method MapPage(virt: bv64, phys: bv64, kernel: bool) returns (ok: bool)
      requires Aligned(pool)
      modifies this`words, this`pool
      ensures Aligned(pool)
      ensures match Map(old(Abs()), PageOf(virt), FrameOf(phys), kernel)
              case None => !ok
              case Some(m) => ok && Abs() == m
    {
      var p := PageOf(virt);
      var pdpt, pdt, pt;
      ok, pdpt := EnsureTable(root, p.pml4, kernel);
      if !ok { return; }
      ok, pdt := EnsureTable(pdpt, p.pdpt, kernel);
      if !ok { return; }
      ok, pt := EnsureTable(pdt, p.pdt, kernel);
      if !ok { return; }
      Link(pt, p.pt, phys, kernel);
    }

    /** What the scan does with one entry of one table. */
    method ScanStep(t: Frame, i: Index, n: nat, before: bool) returns (used: bool)
      requires n < 512 && before == PresentBelow(Abs(), t, i, n)
      ensures used == PresentBelow(Abs(), t, i, n + 1)
    {
      var present, table := Follow(t, AsIndex(n));
      used := before;
      if present && AsIndex(n) != i {
        used := true;
      }
    }

    /** The scan of `page_unmap` over all 512 entries of the three tables. */
    method ScanUsed(p: Page, pdpt: Frame, pdt: Frame, pt: Frame) returns (pdptUsed: bool, pdtUsed: bool, ptUsed: bool)
      ensures pdptUsed == OtherPresent(Abs(), pdpt, p.pdpt)
      ensures pdtUsed == OtherPresent(Abs(), pdt, p.pdt)
      ensures ptUsed == OtherPresent(Abs(), pt, p.pt)
    {
      pdptUsed, pdtUsed, ptUsed := false, false, false;
      ghost var m := Abs();
      for n := 0 to 512
        invariant pdptUsed == PresentBelow(m, pdpt, p.pdpt, n)
        invariant pdtUsed == PresentBelow(m, pdt, p.pdt, n)
        invariant ptUsed == PresentBelow(m, pt, p.pt, n)
      {
        pdptUsed := ScanStep(pdpt, p.pdpt, n, pdptUsed);
        pdtUsed := ScanStep(pdt, p.pdt, n, pdtUsed);
        ptUsed := ScanStep(pt, p.pt, n, ptUsed);
      }
      ScanComplete(Abs(), pdpt, p.pdpt);
      ScanComplete(Abs(), pdt, p.pdt);
      ScanComplete(Abs(), pt, p.pt);
    }

    /** Gives the tables of a page back, those of them that no other entry uses. */
    method Reclaim(p: Page, pdpt: Frame, pdt: Frame, pt: Frame)
      requires Aligned([pdpt, pdt, pt]) && Aligned(pool)
      modifies this`pool
      ensures Aligned(pool) && pool == Reclaimed(old(Abs()), p, pdpt, pdt, pt) + old(pool)
    {
      var pdptUsed, pdtUsed, ptUsed := ScanUsed(p, pdpt, pdt, pt);
      assert FrameOf([pdpt, pdt, pt][0].address) == pdpt && FrameOf([pdpt, pdt, pt][1].address) == pdt;
      assert FrameOf([pdpt, pdt, pt][2].address) == pt;
      if !pdptUsed && !pdtUsed && !ptUsed {
        GiveBack(pdpt);
      }
      if !pdtUsed && !ptUsed {
        GiveBack(pdt);
      }
      if !ptUsed {
        GiveBack(pt);
      }
    }

    /** `kfree_page`. */
    method GiveBack(frame: Frame)
      requires FrameOf(frame.address) == frame && Aligned(pool)
      modifies this`pool
      ensures Aligned(pool) && pool == [frame] + old(pool)
    {
      pool := [frame] + pool;
    }

    /** `page_unmap`. */
    method UnmapPage(virt: bv64)
      requires Aligned(pool)
      modifies this`words, this`pool
      ensures Aligned(pool) && Abs() == Unmap(old(Abs()), PageOf(virt))
    {
      Clear(PageOf(virt));
    }

    method ClearEntry(t: Frame, i: Index)
      modifies this`words
      ensures Abs() == SetEntry(old(Abs()), t, i, EMPTY)
    {
      ZeroDecodes();
      Store(t, i, 0);
    }

    method Clear(p: Page)
      requires Aligned(pool)
      modifies this`words, this`pool
      ensures Aligned(pool) && Abs() == Unmap(old(Abs()), p)
    {
      Levels(Abs(), p);
      var present, pdpt := Follow(root, p.pml4);
      if !present { return; }
      var pdt, pt;
      present, pdt := Follow(pdpt, p.pdpt);
      if !present { return; }
      present, pt := Follow(pdt, p.pdt);
      if !present { return; }
      AlignedThree(pdpt, pdt, pt);
      Reclaim(p, pdpt, pdt, pt);
      var frame;
      present, frame := Follow(pt, p.pt);
      if present {
        ClearEntry(pt, p.pt);
      }
    }
  }

  /** The paths of a page, one entry at a time. */
  lemma Levels(m: Memory, p: Page)
    ensures TableAt(m, [p.pml4]) == Child(m, m.root, p.pml4)
    ensures TableAt(m, [p.pml4, p.pdpt]) ==
            match TableAt(m, [p.pml4]) case None => None case Some(t) => Child(m, t, p.pdpt)
    ensures TableAt(m, Path(p)) ==
            match TableAt(m, [p.pml4, p.pdpt]) case None => None case Some(t) => Child(m, t, p.pdt)
  {
    TableAtExtend(m, [], p.pml4);
    TableAtExtend(m, [p.pml4], p.pdpt);
    TableAtExtend(m, [p.pml4, p.pdpt], p.pdt);
    assert [] + [p.pml4] == [p.pml4] && [p.pml4] + [p.pdpt] == [p.pml4, p.pdpt];
    assert [p.pml4, p.pdpt] + [p.pdt] == Path(p);
  }

  /** Some entry other than `i` among the first `n` is present. */
  ghost predicate PresentBelow(m: Memory, t: Frame, i: Index, n: nat)
    requires n <= 512
  {
    n > 0 && (PresentBelow(m, t, i, n - 1) || (AsIndex(n - 1) != i && EntryAt(m, t, AsIndex(n - 1)).present))
  }

  lemma {:induction false} PresentBelowAt(m: Memory, t: Frame, i: Index, n: nat, k: nat)
    requires k < n <= 512 && AsIndex(k) != i && EntryAt(m, t, AsIndex(k)).present
    ensures PresentBelow(m, t, i, n)
  {
    if k < n - 1 {
      PresentBelowAt(m, t, i, n - 1, k);
    }
  }

  lemma {:induction false} PresentBelowSome(m: Memory, t: Frame, i: Index, n: nat)
    requires n <= 512 && PresentBelow(m, t, i, n)
    ensures OtherPresent(m, t, i)
  {
    if PresentBelow(m, t, i, n - 1) {
      PresentBelowSome(m, t, i, n - 1);
    }
  }

  /** The 512 numbers are all the indices. */
  lemma ScanComplete(m: Memory, t: Frame, i: Index)
    ensures OtherPresent(m, t, i) <==> PresentBelow(m, t, i, 512)
  {
    if OtherPresent(m, t, i) {
      var j: Index :| j != i && EntryAt(m, t, j).present;
      AllIndicesComplete();
      assert j in AllIndices();
      var k :| 0 <= k < 512 && AsIndex(k) == j;
      PresentBelowAt(m, t, i, 512, k);
    }
    if PresentBelow(m, t, i, 512) {
      PresentBelowSome(m, t, i, 512);
    }
  }
}
