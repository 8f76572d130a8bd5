/**
 The bit layout behind `mem/page.c`: the accessors on 64-bit table entries and the split of a
 virtual address into table indices, related to the records that `PageTable` works with.
 */
module PageBits {

  // ---------------------------------------------------------------- entries

  /** Bits 12 to 51 of an entry: the address of a frame. */
  const ADDRESS: bv64 := 0xF_FFFF_FFFF_F000
  const PRESENT: bv64 := 0x1
  const WRITABLE: bv64 := 0x2
  const USER: bv64 := 0x4
  /** The bits outside the address and the three flags. */
  const REST: bv64 := 0xFFF0_0000_0000_0FF8

  function SetFlag(e: bv64, flag: bv64): bv64 { e | flag }

  function UnsetFlag(e: bv64, flag: bv64): bv64 { e & !flag }

  predicate HasFlag(e: bv64, flag: bv64) { e & flag == flag }

  function GetAddress(e: bv64): bv64 { e & ADDRESS }

  function SetAddress(e: bv64, a: bv64): bv64 { (e & !ADDRESS) | (a & ADDRESS) }

  /** The address of a page-aligned physical frame. */
  datatype Frame = Frame(address: bv64)

  function FrameOf(a: bv64): Frame { Frame(GetAddress(a)) }

  /** What an entry holds: the three flags the kernel uses, the frame's address, and the bits it never touches. */
  datatype Entry = Entry(present: bool, writable: bool, user: bool, frame: Frame, rest: bv64)

  const EMPTY := Entry(false, false, false, Frame(0), 0)

  function Decode(e: bv64): Entry {
    Entry(HasFlag(e, PRESENT), HasFlag(e, WRITABLE), HasFlag(e, USER), FrameOf(e), e & REST)
  }

  // What one accessor does to one field, over bare 64-bit words.

  lemma AddressSet(e: bv64, a: bv64)
    ensures SetAddress(e, a) & ADDRESS == a & ADDRESS
  {
  }

  lemma AddressKeepsPresent(e: bv64, a: bv64)
    ensures SetAddress(e, a) & PRESENT == e & PRESENT
  {
  }

  lemma AddressKeepsWritable(e: bv64, a: bv64)
    ensures SetAddress(e, a) & WRITABLE == e & WRITABLE
  {
  }

  lemma AddressKeepsUser(e: bv64, a: bv64)
    ensures SetAddress(e, a) & USER == e & USER
  {
  }

  lemma AddressKeepsRest(e: bv64, a: bv64)
    ensures SetAddress(e, a) & REST == e & REST
  {
  }

  /** A mask that shares no bit with the flag reads the same before and after. */
  lemma FlagKeeps(e: bv64, flag: bv64, mask: bv64)
    requires flag & mask == 0
    ensures (e | flag) & mask == e & mask && (e & !flag) & mask == e & mask
  {
  }

  lemma FlagSet(e: bv64, flag: bv64)
    ensures (e | flag) & flag == flag && (e & !flag) & flag == 0
  {
  }

  /** The masks of the fields share no bit. */
  lemma MasksApart()
    ensures PRESENT & WRITABLE == 0 && PRESENT & USER == 0 && PRESENT & ADDRESS == 0 && PRESENT & REST == 0
    ensures WRITABLE & PRESENT == 0 && WRITABLE & USER == 0 && WRITABLE & ADDRESS == 0 && WRITABLE & REST == 0
    ensures USER & PRESENT == 0 && USER & WRITABLE == 0 && USER & ADDRESS == 0 && USER & REST == 0
  {
  }

  /** Words whose fields agree are decoded alike. */
  lemma SameFields(e: bv64, f: bv64)
    requires e & PRESENT == f & PRESENT && e & WRITABLE == f & WRITABLE && e & USER == f & USER
    requires e & REST == f & REST
    ensures Decode(e) == Decode(f).(frame := FrameOf(e))
  {
  }

  /** Setting the address changes the frame and nothing else. */
  lemma SetAddressDecodes(e: bv64, a: bv64)
    ensures Decode(SetAddress(e, a)) == Decode(e).(frame := FrameOf(a))
  {
    var f := SetAddress(e, a);
    AddressKeepsPresent(e, a);
    AddressKeepsWritable(e, a);
    AddressKeepsUser(e, a);
    AddressKeepsRest(e, a);
    AddressSet(e, a);
    SameFields(f, e);
  }

  /** Setting or unsetting a flag changes that flag and nothing else. */
  lemma SetPresentDecodes(e: bv64)
    ensures Decode(SetFlag(e, PRESENT)) == Decode(e).(present := true)
  {
    MasksApart();
    FlagSet(e, PRESENT);
    FlagKeeps(e, PRESENT, WRITABLE);
    FlagKeeps(e, PRESENT, USER);
    FlagKeeps(e, PRESENT, ADDRESS);
    FlagKeeps(e, PRESENT, REST);
  }

  lemma SetWritableDecodes(e: bv64)
    ensures Decode(SetFlag(e, WRITABLE)) == Decode(e).(writable := true)
  {
    MasksApart();
    FlagSet(e, WRITABLE);
    FlagKeeps(e, WRITABLE, PRESENT);
    FlagKeeps(e, WRITABLE, USER);
    FlagKeeps(e, WRITABLE, ADDRESS);
    FlagKeeps(e, WRITABLE, REST);
  }

  lemma SetUserDecodes(e: bv64)
    ensures Decode(SetFlag(e, USER)) == Decode(e).(user := true)
  {
    MasksApart();
    FlagSet(e, USER);
    FlagKeeps(e, USER, PRESENT);
    FlagKeeps(e, USER, WRITABLE);
    FlagKeeps(e, USER, ADDRESS);
    FlagKeeps(e, USER, REST);
  }

  lemma UserCleared(e: bv64, f: bv64)
    requires f == e & !USER
    ensures f & PRESENT == e & PRESENT && f & WRITABLE == e & WRITABLE && f & USER == 0
    ensures f & ADDRESS == e & ADDRESS && f & REST == e & REST
  {
    MasksApart();
    FlagSet(e, USER);
    FlagKeeps(e, USER, PRESENT);
    FlagKeeps(e, USER, WRITABLE);
    FlagKeeps(e, USER, ADDRESS);
    FlagKeeps(e, USER, REST);
  }

  lemma ClearedDecodes(e: bv64, f: bv64)
    requires f & PRESENT == e & PRESENT && f & WRITABLE == e & WRITABLE && f & USER == 0
    requires f & ADDRESS == e & ADDRESS && f & REST == e & REST
    ensures Decode(f) == Decode(e).(user := false)
  {
  }

  lemma UnsetUserDecodes(e: bv64)
    ensures Decode(UnsetFlag(e, USER)) == Decode(e).(user := false)
  {
    var f := UnsetFlag(e, USER);
    UserCleared(e, f);
    ClearedDecodes(e, f);
  }

  /** A word of zeros holds nothing. */
  lemma ZeroDecodes()
    ensures Decode(0) == EMPTY
  {
  }

  /** An entry made present and writable, for this frame and for the kernel or the user. */
  function Linked(e: Entry, frame: Frame, kernel: bool): Entry {
    Entry(true, true, !kernel, frame, e.rest)
  }

  /** The accessor calls with which `page_map` fills an entry. */
  function LinkBits(e: bv64, a: bv64, kernel: bool): bv64 {
    var linked := SetFlag(SetFlag(SetAddress(e, a), PRESENT), WRITABLE);
    if kernel then UnsetFlag(linked, USER) else SetFlag(linked, USER)
  }

  /** In bits: present and writable, user unless for the kernel, the frame's address, and all else as it was. */
  lemma LinkSets(e: bv64, a: bv64, kernel: bool)
    ensures LinkBits(e, a, kernel) & 0x7 == if kernel then 0x3 else 0x7
    ensures LinkBits(e, a, kernel) & 0xF_FFFF_FFFF_F000 == a & 0xF_FFFF_FFFF_F000
    ensures LinkBits(e, a, kernel) & 0xFFF0_0000_0000_0FF8 == e & 0xFFF0_0000_0000_0FF8
  {
  }

  lemma LinkDecodes(e: bv64, a: bv64, kernel: bool)
    ensures Decode(LinkBits(e, a, kernel)) == Linked(Decode(e), FrameOf(a), kernel)
  {
    var e1 := SetAddress(e, a);
    var e2 := SetFlag(e1, PRESENT);
    var e3 := SetFlag(e2, WRITABLE);
    SetAddressDecodes(e, a);
    SetPresentDecodes(e1);
    SetWritableDecodes(e2);
    SetUserDecodes(e3);
    UnsetUserDecodes(e3);
  }

  /** The record keeps every bit of the entry. */
  lemma DecodeInjective(e: bv64, f: bv64)
    requires Decode(e) == Decode(f)
    ensures e == f
  {
    assert e & PRESENT == f & PRESENT && e & WRITABLE == f & WRITABLE && e & USER == f & USER;
  }

  // ---------------------------------------------------------------- virtual addresses

  /** An index into a table of 512 entries. */
  datatype Index = Index(bits: bv9)

  /** The page of a virtual address, as the four table indices that lead to it. */
  datatype Page = Page(pml4: Index, pdpt: Index, pdt: Index, pt: Index)

  function PageOf(virt: bv64): Page {
    Page(Index(((virt >> 39) & 0x1FF) as bv9), Index(((virt >> 30) & 0x1FF) as bv9),
         Index(((virt >> 21) & 0x1FF) as bv9), Index(((virt >> 12) & 0x1FF) as bv9))
  }

  function Offset(virt: bv64): bv64 { virt & 0xFFF }

  // ---------------------------------------------------------------- words as numbers

  /** The number of the page an address lies in; the walk does not look at the 16 bits above it. */
  function PageNumber(virt: bv64): nat { virt as nat / 0x1000 % 0x10_0000_0000 }

  /** The number of the frame an address lies in; an entry has no room for the 12 bits above it. */
  function FrameNumber(phys: bv64): nat { phys as nat / 0x1000 % 0x100_0000_0000 }

  lemma VirtualParts(v: bv64)
    ensures var p := PageOf(v);
            v == (((v >> 48) as bv16 as bv64) << 48) | ((p.pml4.bits as bv64) << 39) | ((p.pdpt.bits as bv64) << 30)
                 | ((p.pdt.bits as bv64) << 21) | ((p.pt.bits as bv64) << 12) | (Offset(v) as bv12 as bv64)
  {
  }

  lemma VirtualWord(v: bv64, top: bv16, a: bv9, b: bv9, c: bv9, d: bv9, low: bv12)
    requires v == ((top as bv64) << 48) | ((a as bv64) << 39) | ((b as bv64) << 30)
                  | ((c as bv64) << 21) | ((d as bv64) << 12) | (low as bv64)
    ensures v as nat == 0x1_0000_0000_0000 * (top as nat) + 0x80_0000_0000 * (a as nat) + 0x4000_0000 * (b as nat)
                        + 0x20_0000 * (c as nat) + 0x1000 * (d as nat) + low as nat
  {
  }

  lemma WordSplits(n: nat, top: nat, middle: nat, low: nat)
    requires n == 0x1_0000_0000_0000 * top + 0x1000 * middle + low && middle < 0x10_0000_0000 && low < 0x1000
    ensures n % 0x1000 == low && n / 0x1000 % 0x10_0000_0000 == middle
  {
    assert n == 0x1000 * (0x10_0000_0000 * top + middle) + low;
    assert n / 0x1000 == 0x10_0000_0000 * top + middle;
  }

  lemma VirtualSplits(v: bv64, top: bv16, a: bv9, b: bv9, c: bv9, d: bv9, low: bv12)
    requires v == ((top as bv64) << 48) | ((a as bv64) << 39) | ((b as bv64) << 30)
                  | ((c as bv64) << 21) | ((d as bv64) << 12) | (low as bv64)
    ensures v as nat % 0x1000 == low as nat
    ensures PageNumber(v) == 0x800_0000 * (a as nat) + 0x4_0000 * (b as nat) + 0x200 * (c as nat) + d as nat
  {
    VirtualWord(v, top, a, b, c, d, low);
    WordSplits(v as nat, top as nat,
               0x800_0000 * (a as nat) + 0x4_0000 * (b as nat) + 0x200 * (c as nat) + d as nat, low as nat);
  }

  lemma NarrowOffset(v: bv64)
    ensures Offset(v) as nat == (Offset(v) as bv12) as nat
  {
  }

  function Digit(i: Index): nat { i.bits as nat }

  /** The number with these digits in base 512. */
  function Digits(p: Page): nat {
    0x800_0000 * Digit(p.pml4) + 0x4_0000 * Digit(p.pdpt) + 0x200 * Digit(p.pdt) + Digit(p.pt)
  }

  /** The four indices are the digits of the page number in base 512, and the offset is the rest. */
  lemma AddressDigits(virt: bv64)
    ensures var p := PageOf(virt);
            PageNumber(virt) ==
            0x800_0000 * Digit(p.pml4) + 0x4_0000 * Digit(p.pdpt) + 0x200 * Digit(p.pdt) + Digit(p.pt)
    ensures Offset(virt) as nat == virt as nat % 0x1000
  {
    VirtualParts(virt);
    VirtualSplits(virt, (virt >> 48) as bv16, PageOf(virt).pml4.bits, PageOf(virt).pdpt.bits,
                  PageOf(virt).pdt.bits, PageOf(virt).pt.bits, Offset(virt) as bv12);
    NarrowOffset(virt);
  }

  lemma PageDigits(virt: bv64, p: Page)
    requires p == PageOf(virt)
    ensures PageNumber(virt) == Digits(p)
  {
    AddressDigits(virt);
  }

  lemma BitsInjective(a: bv9, b: bv9)
    requires a as nat == b as nat
    ensures a == b
  {
  }

  lemma DigitInjective(i: Index, j: Index)
    requires Digit(i) == Digit(j)
    ensures i == j
  {
    BitsInjective(i.bits, j.bits);
  }

  lemma DigitsAgree(a: nat, b: nat, c: nat, d: nat, e: nat, f: nat, g: nat, h: nat)
    requires a < 512 && b < 512 && c < 512 && d < 512 && e < 512 && f < 512 && g < 512 && h < 512
    requires 0x800_0000 * a + 0x4_0000 * b + 0x200 * c + d == 0x800_0000 * e + 0x4_0000 * f + 0x200 * g + h
    ensures a == e && b == f && c == g && d == h
  {
  }

  ghost predicate SameDigits(p: Page, q: Page) {
    && Digit(p.pml4) == Digit(q.pml4) && Digit(p.pdpt) == Digit(q.pdpt)
    && Digit(p.pdt) == Digit(q.pdt) && Digit(p.pt) == Digit(q.pt)
  }

  lemma SameNumber(p: Page, q: Page)
    requires Digits(p) == Digits(q)
    ensures SameDigits(p, q)
  {
    DigitsAgree(Digit(p.pml4), Digit(p.pdpt), Digit(p.pdt), Digit(p.pt),
                Digit(q.pml4), Digit(q.pdpt), Digit(q.pdt), Digit(q.pt));
  }

  lemma SameDigitsSamePage(p: Page, q: Page)
    requires SameDigits(p, q)
    ensures p == q
  {
    DigitInjective(p.pml4, q.pml4);
    DigitInjective(p.pdpt, q.pdpt);
    DigitInjective(p.pdt, q.pdt);
    DigitInjective(p.pt, q.pt);
  }

  lemma DigitsInjective(p: Page, q: Page)
    ensures Digits(p) == Digits(q) <==> p == q
  {
    if Digits(p) == Digits(q) {
      SameNumber(p, q);
      SameDigitsSamePage(p, q);
    }
  }

  lemma NumbersArePages(v: bv64, p: Page, w: bv64, q: Page)
    requires PageNumber(v) == Digits(p) && PageNumber(w) == Digits(q)
    ensures p == q <==> PageNumber(v) == PageNumber(w)
  {
    DigitsInjective(p, q);
  }

  /** Two addresses have the same indices exactly when they have the same page number. */
  lemma IndicesArePage(v: bv64, w: bv64)
    ensures PageOf(v) == PageOf(w) <==> PageNumber(v) == PageNumber(w)
  {
    PageDigits(v, PageOf(v));
    PageDigits(w, PageOf(w));
    NumbersArePages(v, PageOf(v), w, PageOf(w));
  }

  function FrameBits(a: bv64): bv40 { ((a >> 12) & 0xFF_FFFF_FFFF) as bv40 }

  lemma FrameParts(a: bv64)
    ensures a == (((a >> 52) as bv12 as bv64) << 52) | ((FrameBits(a) as bv64) << 12) | (Offset(a) as bv12 as bv64)
  {
  }

  lemma FrameWord(a: bv64, top: bv12, frame: bv40, low: bv12)
    requires a == ((top as bv64) << 52) | ((frame as bv64) << 12) | (low as bv64)
    ensures a as nat == 0x10_0000_0000_0000 * (top as nat) + 0x1000 * (frame as nat) + low as nat
  {
  }

  lemma FrameSplits(n: nat, top: nat, frame: nat, low: nat)
    requires n == 0x10_0000_0000_0000 * top + 0x1000 * frame + low && frame < 0x100_0000_0000 && low < 0x1000
    ensures n / 0x1000 % 0x100_0000_0000 == frame
  {
    assert n == 0x1000 * (0x100_0000_0000 * top + frame) + low;
    assert n / 0x1000 == 0x100_0000_0000 * top + frame;
  }

  lemma FrameWordSplits(a: bv64, top: bv12, frame: bv40, low: bv12)
    requires a == ((top as bv64) << 52) | ((frame as bv64) << 12) | (low as bv64)
    ensures FrameNumber(a) == frame as nat
  {
    FrameWord(a, top, frame, low);
    FrameSplits(a as nat, top as nat, frame as nat, low as nat);
  }

  lemma FrameShifts(w: bv64, frame: bv40)
    requires w == (frame as bv64) << 12
    ensures w as nat == 0x1000 * (frame as nat)
  {
  }

  lemma AddressShifts(a: bv64)
    ensures GetAddress(a) == (FrameBits(a) as bv64) << 12
  {
  }

  lemma FrameBitsNumber(a: bv64)
    ensures FrameNumber(a) == FrameBits(a) as nat
  {
    FrameParts(a);
    FrameWordSplits(a, (a >> 52) as bv12, FrameBits(a), Offset(a) as bv12);
  }

  lemma FrameTwice(a: bv64)
    ensures FrameOf(FrameOf(a).address) == FrameOf(a)
  {
  }

  /** The frame of an address begins where its frame number says. */
  lemma FrameBegins(a: bv64)
    ensures FrameOf(a).address as nat == 0x1000 * FrameNumber(a)
  {
    FrameBitsNumber(a);
    AddressShifts(a);
    FrameShifts(GetAddress(a), FrameBits(a));
  }

  lemma MaskedSum(w: bv64, a: bv64, virt: bv64)
    requires w == (a & 0xF_FFFF_FFFF_F000) + (virt & 0xFFF)
    ensures w as nat == 0x1000 * (((a >> 12) & 0xFF_FFFF_FFFF) as bv40 as nat) + ((virt & 0xFFF) as bv12) as nat
  {
  }

  lemma SumIsMasked(w: bv64, a: bv64, virt: bv64)
    requires w == FrameOf(a).address + Offset(virt)
    ensures w == (a & 0xF_FFFF_FFFF_F000) + (virt & 0xFFF)
  {
  }

  lemma SumNumber(w: bv64, a: bv64, virt: bv64)
    requires w == FrameOf(a).address + Offset(virt)
    ensures w as nat == 0x1000 * (FrameBits(a) as nat) + (Offset(virt) as bv12) as nat
  {
    SumIsMasked(w, a, virt);
    MaskedSum(w, a, virt);
  }

  lemma OffsetNumber(virt: bv64)
    ensures (Offset(virt) as bv12) as nat == virt as nat % 0x1000
  {
    AddressDigits(virt);
    NarrowOffset(virt);
  }

  /** An offset added to a frame does not carry into it and does not wrap. */
  lemma OffsetAdds(w: bv64, a: bv64, virt: bv64)
    requires w == FrameOf(a).address + Offset(virt)
    ensures w as nat == 0x1000 * FrameNumber(a) + virt as nat % 0x1000
  {
    FrameBitsNumber(a);
    SumNumber(w, a, virt);
    OffsetNumber(virt);
  }

  /** The address at a virtual address's offset into a frame, as a number. */
  lemma Placed(frame: Frame, virt: bv64, w: bv64)
    requires FrameOf(frame.address) == frame && w == frame.address + Offset(virt)
    ensures w as nat == frame.address as nat + virt as nat % 0x1000
  {
    OffsetAdds(w, frame.address, virt);
    FrameBegins(frame.address);
  }

  /** A page-aligned address below 2^52 is its own frame. */
  lemma AlignedIsFrame(a: bv64)
    requires a % 0x1000 == 0 && a < 0x10_0000_0000_0000
    ensures FrameOf(a).address == a
  {
  }
}
