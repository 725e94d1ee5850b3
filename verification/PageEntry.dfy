// Page table entries, frame addresses and the fields of a virtual address, as 64-bit words.
module PageEntry {
  const ADDRESS_MASK: bv64 := 0x000F_FFFF_FFFF_F000
  const PAGE_PRESENT: bv64 := 0x1
  const PAGE_WRITABLE: bv64 := 0x2
  const PTE_HUGE: bv64 := 0x80
  const PAGE_LARGE: bv64 := 0x20_0000

  datatype Entry = Entry(bits: bv64)

  datatype Frame = Frame(base: bv64)

  const ZERO: Entry := Entry(0)
  const NULL: Frame := Frame(0)

  predicate Present(e: Entry) {
    e.bits & PAGE_PRESENT != 0
  }

  // Bit 7: the bit that ends a walk at a 1 GB or a 2 MB page.
  predicate Huge(e: Entry) {
    e.bits & PTE_HUGE != 0
  }

  // Bit 21: the bit that unmap_page tests.
  predicate Large(e: Entry) {
    e.bits & PAGE_LARGE != 0
  }

  function Addr(e: Entry): Frame {
    Frame(e.bits & ADDRESS_MASK)
  }

  // The pointer that the clone takes out of an entry: bits 52-63 stay in it.
  function Pointer(e: Entry): Frame {
    Frame(e.bits & 0xFFFF_FFFF_FFFF_F000)
  }

  // A page-aligned address that fits the address field of an entry.
  predicate IsFrame(f: Frame) {
    f.base & ADDRESS_MASK == f.base
  }

  function LinkTo(f: Frame): Entry {
    Entry(f.base | PAGE_PRESENT | PAGE_WRITABLE)
  }

  // The frame that an allocated address leads to once it is in an entry: its low 12 bits are lost.
  function TableOf(n: Frame): Frame {
    Addr(LinkTo(n))
  }

  function Relink(f: Frame, e: Entry): Entry {
    Entry(f.base | (e.bits & 0xFFF))
  }

  function Leaf(p: bv64, flags: bv64): Entry {
    Entry(p | flags)
  }

  function Slot(v: bv64, level: nat): bv64
    requires 1 <= level <= 4
  {
    if level == 4 then (v >> 39) & 0x1FF
    else if level == 3 then (v >> 30) & 0x1FF
    else if level == 2 then (v >> 21) & 0x1FF
    else (v >> 12) & 0x1FF
  }

  function Index(v: bv64, level: nat): (i: nat)
    requires 1 <= level <= 4
    ensures i < 512
  {
    Slot(v, level) as nat
  }

  // Bits 12-47 agree. Bits 48-63 take no part in a walk.
  predicate SamePage(v: bv64, w: bv64) {
    (v ^ w) & 0x0000_FFFF_FFFF_F000 == 0
  }

  function SmallPage(f: Frame, v: bv64): bv64 {
    f.base | Offset(v)
  }

  function MegaPage(f: Frame, v: bv64): bv64 {
    (f.base & 0xFFFF_FFFF_FFE0_0000) | (v & 0x1F_FFFF)
  }

  function GigaPage(f: Frame, v: bv64): bv64 {
    GigaBits(f.base, v)
  }

  function GigaBits(a: bv64, v: bv64): bv64 {
    GigaRegion(a) | (v & 0x3FFF_FFFF)
  }

  // The start of the 1 GB region of an address.
  function GigaRegion(a: bv64): bv64 {
    a & 0xFFFF_FFFF_C000_0000
  }

  lemma RegionOfBits(a: bv64, v: bv64)
    ensures GigaRegion(GigaBits(a, v)) == GigaRegion(a)
  {
  }

  lemma SameRegionBits(a: bv64, b: bv64, v: bv64)
    ensures GigaBits(a, v) == GigaBits(b, v) <==> GigaRegion(a) == GigaRegion(b)
  {
    hide GigaRegion;
    RegionOfBits(a, v);
    RegionOfBits(b, v);
  }

  function Offset(v: bv64): bv64 {
    v & 0xFFF
  }

  // The address in the page at p that corresponds to w.
  function At(p: bv64, w: bv64): bv64 {
    p + Offset(w)
  }

  // The present bit is given, p is the address of a frame, and the flags add no address bit to it.
  predicate PlainMapping(p: bv64, flags: bv64) {
    flags & PAGE_PRESENT != 0 && IsFrame(Frame(p)) && flags & ADDRESS_MASK & !p == 0
  }

  // Bits 0-11, which hold the rights and the kind of an entry.
  function Flags(e: Entry): bv64 {
    e.bits & 0xFFF
  }

  // ----- the fields of the entries that the code builds

  lemma ZeroEntry()
    ensures !Present(ZERO) && !Large(ZERO)
  {
  }

  lemma LinkFields(f: Frame)
    requires IsFrame(f)
    ensures Present(LinkTo(f)) && !Huge(LinkTo(f)) && Addr(LinkTo(f)) == f
  {
  }

  lemma LinkPresent(n: Frame)
    ensures Present(LinkTo(n))
  {
  }

  lemma TableIsFrame(n: Frame)
    ensures IsFrame(TableOf(n))
  {
  }

  lemma RelinkPresent(f: Frame, e: Entry)
    requires IsFrame(f)
    ensures Present(Relink(f, e)) == Present(e)
  {
  }

  lemma RelinkHuge(f: Frame, e: Entry)
    requires IsFrame(f)
    ensures Huge(Relink(f, e)) == Huge(e)
  {
  }

  lemma RelinkAddr(f: Frame, e: Entry)
    requires IsFrame(f)
    ensures Addr(Relink(f, e)) == f
  {
  }

  // The clone's new entry points to the new table and keeps the flags.
  lemma RelinkFields(f: Frame, e: Entry)
    requires IsFrame(f)
    ensures Present(Relink(f, e)) == Present(e)
    ensures Huge(Relink(f, e)) == Huge(e)
    ensures Addr(Relink(f, e)) == f
  {
    hide Present, Huge, Addr, Relink, IsFrame;
    RelinkPresent(f, e);
    RelinkHuge(f, e);
    RelinkAddr(f, e);
  }

  // A rewritten entry keeps its flags, and its pointer is clean.
  lemma RelinkFlags(f: Frame, e: Entry)
    requires IsFrame(f)
    ensures Flags(Relink(f, e)) == Flags(e) && IsFrame(Pointer(Relink(f, e)))
  {
    RelinkBits(f.base, e.bits);
  }

  lemma RelinkBits(a: bv64, b: bv64)
    requires a & 0x000F_FFFF_FFFF_F000 == a
    ensures (a | (b & 0xFFF)) & 0xFFF == b & 0xFFF
    ensures (a | (b & 0xFFF)) & 0xFFFF_FFFF_FFFF_F000 == a
  {
  }

  lemma PointerIsAddr(e: Entry)
    requires IsFrame(Pointer(e))
    ensures Pointer(e) == Addr(e)
  {
    var x := e.bits;
    assert (x & 0xFFFF_FFFF_FFFF_F000) & 0x000F_FFFF_FFFF_F000 == x & 0x000F_FFFF_FFFF_F000;
  }

  // ----- the fields of a virtual address

  lemma IndexInjective(v: bv64, w: bv64, level: nat)
    requires 1 <= level <= 4
    requires Index(v, level) == Index(w, level)
    ensures Slot(v, level) == Slot(w, level)
  {
    hide Slot;
    assert (Slot(v, level) as nat) as bv64 == (Slot(w, level) as nat) as bv64;
  }

  lemma SlotsOfDifference(v: bv64, w: bv64)
    ensures (v >> 39) & 0x1FF == (w >> 39) & 0x1FF <==> (v ^ w) & 0xFF80_0000_0000 == 0
    ensures (v >> 30) & 0x1FF == (w >> 30) & 0x1FF <==> (v ^ w) & 0x7F_C000_0000 == 0
    ensures (v >> 21) & 0x1FF == (w >> 21) & 0x1FF <==> (v ^ w) & 0x3FE0_0000 == 0
    ensures (v >> 12) & 0x1FF == (w >> 12) & 0x1FF <==> (v ^ w) & 0x1F_F000 == 0
  {
  }

  lemma MaskSplits(d: bv64)
    ensures d & 0x0000_FFFF_FFFF_F000 == 0 <==>
            d & 0xFF80_0000_0000 == 0 && d & 0x7F_C000_0000 == 0 && d & 0x3FE0_0000 == 0 && d & 0x1F_F000 == 0
  {
  }

  lemma SamePageSlots(v: bv64, w: bv64)
    ensures SamePage(v, w) <==>
            Slot(v, 4) == Slot(w, 4) && Slot(v, 3) == Slot(w, 3) &&
            Slot(v, 2) == Slot(w, 2) && Slot(v, 1) == Slot(w, 1)
  {
    SlotsOfDifference(v, w);
    MaskSplits(v ^ w);
  }

  lemma SamePageIffIndices(v: bv64, w: bv64)
    ensures SamePage(v, w) <==>
            Index(v, 4) == Index(w, 4) && Index(v, 3) == Index(w, 3) &&
            Index(v, 2) == Index(w, 2) && Index(v, 1) == Index(w, 1)
  {
    hide Slot;
    SamePageSlots(v, w);
    forall k | 1 <= k <= 4 && Index(v, k) == Index(w, k)
      ensures Slot(v, k) == Slot(w, k)
    {
      IndexInjective(v, w, k);
    }
  }

  lemma PageStart(v: bv64) returns (w: bv64)
    ensures SamePage(v, w) && Offset(w) == 0
  {
    w := v & 0xFFFF_FFFF_FFFF_F000;
  }

  // ----- the leaf entry of map_4kb_page

  lemma PlainMappingTarget(p: bv64, flags: bv64, w: bv64)
    requires PlainMapping(p, flags)
    ensures Present(Leaf(p, flags)) && SmallPage(Addr(Leaf(p, flags)), w) == At(p, w)
  {
    hide SmallPage, Offset, Present, Leaf, Addr, PlainMapping;
    LeafPresent(p, flags);
    LeafAddr(p, flags);
    SmallPageAdds(p, flags, w);
  }

  lemma TargetIsPlain(p: bv64, flags: bv64, w: bv64)
    requires Present(Leaf(p, flags)) && SmallPage(Addr(Leaf(p, flags)), w) == At(p, w) && Offset(w) == 0
    ensures PlainMapping(p, flags)
  {
    hide Present, IsFrame;
    SmallPageStart(Addr(Leaf(p, flags)), p, w);
    AddrOfPlain(p, flags);
    FlagsOfPlain(p, flags);
    PresentOfPlain(p, flags);
  }

  lemma LeafPresent(p: bv64, flags: bv64)
    requires PlainMapping(p, flags)
    ensures Present(Leaf(p, flags))
  {
  }

  lemma LeafAddr(p: bv64, flags: bv64)
    requires PlainMapping(p, flags)
    ensures Addr(Leaf(p, flags)) == Frame(p)
  {
    LeafMask(p, flags);
  }

  lemma LeafMask(p: bv64, flags: bv64)
    requires p & ADDRESS_MASK == p && flags & ADDRESS_MASK & !p == 0
    ensures (p | flags) & ADDRESS_MASK == p
  {
    OrMask(p, flags);
    OrAbsorbs(p, flags & ADDRESS_MASK);
  }

  lemma OrMask(x: bv64, y: bv64)
    ensures (x | y) & ADDRESS_MASK == (x & ADDRESS_MASK) | (y & ADDRESS_MASK)
  {
  }

  lemma OrAbsorbs(p: bv64, g: bv64)
    requires g & !p == 0
    ensures p | g == p
  {
  }

  lemma SmallPageAdds(p: bv64, flags: bv64, w: bv64)
    requires PlainMapping(p, flags)
    ensures SmallPage(Frame(p), w) == p + Offset(w)
  {
    OrAdds(p, w);
  }

  lemma OrAdds(p: bv64, w: bv64)
    requires p & 0x000F_FFFF_FFFF_F000 == p
    ensures p | (w & 0xFFF) == p + (w & 0xFFF)
  {
  }

  lemma SmallPageStart(f: Frame, p: bv64, w: bv64)
    requires SmallPage(f, w) == p + Offset(w) && Offset(w) == 0
    ensures f.base == p
  {
    hide Offset;
  }

  lemma AddrOfPlain(p: bv64, flags: bv64)
    requires Addr(Leaf(p, flags)) == Frame(p)
    ensures IsFrame(Frame(p))
  {
    MaskTwice(p | flags);
  }

  lemma MaskTwice(x: bv64)
    ensures (x & 0x000F_FFFF_FFFF_F000) & 0x000F_FFFF_FFFF_F000 == x & 0x000F_FFFF_FFFF_F000
  {
  }

  lemma FlagsOfPlain(p: bv64, flags: bv64)
    requires Addr(Leaf(p, flags)) == Frame(p)
    ensures flags & ADDRESS_MASK & !p == 0
  {
    FlagsInMask(p, flags);
  }

  lemma FlagsInMask(p: bv64, flags: bv64)
    ensures flags & 0x000F_FFFF_FFFF_F000 & !((p | flags) & 0x000F_FFFF_FFFF_F000) == 0
  {
  }

  lemma PresentOfPlain(p: bv64, flags: bv64)
    requires Present(Leaf(p, flags)) && Addr(Leaf(p, flags)) == Frame(p)
    ensures flags & PAGE_PRESENT != 0
  {
    LowBitOfMask(p | flags);
    LowBitOfOr(p, flags);
  }

  lemma LowBitOfMask(x: bv64)
    ensures (x & 0x000F_FFFF_FFFF_F000) & 1 == 0
  {
  }

  lemma LowBitOfOr(p: bv64, flags: bv64)
    ensures (p | flags) & 1 == (p & 1) | (flags & 1)
  {
  }

  // Any two upper indices are those of some address.
  lemma AddressWithIndices(i4: nat, i3: nat) returns (v: bv64)
    requires i4 < 512 && i3 < 512
    ensures Index(v, 4) == i4 && Index(v, 3) == i3
  {
    var a := SmallWord(i4);
    var b := SmallWord(i3);
    v := (a << 39) | (b << 30);
    SlotsOfUpperBits(a, b);
  }

  lemma SmallWord(i: nat) returns (b: bv64)
    requires i < 512
    ensures b < 512 && b as nat == i
  {
    if i == 0 {
      b := 0;
    } else {
      var a := SmallWord(i - 1);
      b := a + 1;
      NextNumber(a);
      BelowTable(b);
    }
  }

  lemma NextNumber(b: bv64)
    requires b < 512
    ensures (b + 1) as nat == b as nat + 1
  {
  }

  lemma BelowTable(b: bv64)
    ensures b < 512 <==> b as nat < 512
  {
  }

  lemma SlotsOfUpperBits(a: bv64, b: bv64)
    requires a < 512 && b < 512
    ensures (((a << 39) | (b << 30)) >> 39) & 0x1FF == a
    ensures (((a << 39) | (b << 30)) >> 30) & 0x1FF == b
  {
  }
}
