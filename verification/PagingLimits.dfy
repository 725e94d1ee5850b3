// Where the page-table code departs from its intent: exact conditions and concrete inputs.
module PagingLimits {
  import opened Wrappers
  import opened PageEntry
  import opened Paging
  import opened Mapping

  const ROOT := Frame(0x1000)
  const PDPT := Frame(0x2000)
  const PD := Frame(0x3000)

  // Three tables for the addresses from 0, with one directory entry.
  function Spine(directory: Entry): Memory {
    map[Cell(ROOT, 0) := LinkTo(PDPT), Cell(PDPT, 0) := LinkTo(PD), Cell(PD, 0) := directory]
  }

  lemma LowIndices()
    ensures Index(0, 4) == Index(0, 3) == Index(0, 2) == Index(0, 1) == 0
    ensures Index(0x1000, 4) == Index(0x1000, 3) == Index(0x1000, 2) == 0 && Index(0x1000, 1) == 1
  {
  }

  lemma SpineDirectory(directory: Entry, m: Memory, v: bv64)
    requires forall c :: c in Spine(directory) ==> c in m && m[c] == Spine(directory)[c]
    requires Index(v, 4) == 0 && Index(v, 3) == 0 && Index(v, 2) == 0
    ensures Load(m, ROOT, 0) == LinkTo(PDPT) && Load(m, PDPT, 0) == LinkTo(PD) && Load(m, PD, 0) == directory
    ensures Walk(m, ROOT, v) == WalkEntry(2, m, directory, v)
    ensures TableAt(m, ROOT, v, 2) == Some(PD)
  {
    hide Index, Present, Huge, Addr, LinkTo;
    assert Cell(ROOT, 0) in Spine(directory) && Cell(PDPT, 0) in Spine(directory) && Cell(PD, 0) in Spine(directory);
    TableConstants();
    LinkFields(PDPT);
    LinkFields(PD);
  }

  lemma TableConstants()
    ensures IsFrame(ROOT) && IsFrame(PDPT) && IsFrame(PD)
  {
  }

  // A page table at 2 MB: unmapping the page at 0 also unmaps the page at 0x1000.
  lemma UnmapLosesNeighbour()
    ensures
      var pt := Frame(0x20_0000);
      var m := Spine(LinkTo(pt))[Cell(pt, 0) := Entry(0x5003)][Cell(pt, 1) := Entry(0x6003)];
      && Walk(m, ROOT, 0x1000) == Some(0x6000)
      && Walk(Unmap(m, ROOT, 0), ROOT, 0x1000) == None
  {
    hide Index;
    var pt := Frame(0x20_0000);
    var d := LinkTo(pt);
    var m := Spine(d)[Cell(pt, 0) := Entry(0x5003)][Cell(pt, 1) := Entry(0x6003)];
    LowIndices();
    SpineDirectory(d, m, 0x1000);
    assert Load(m, pt, 1) == Entry(0x6003);
  }

  // A 2 MB page (bit 7) at an address with bit 21 clear survives its own unmapping.
  lemma UnmapMissesMegaPage()
    ensures
      var m := Spine(Entry(0x40_0083));
      Walk(m, ROOT, 0) == Some(0x40_0000) && Walk(Unmap(m, ROOT, 0), ROOT, 0) == Some(0x40_0000)
  {
    hide Index;
    var d := Entry(0x40_0083);
    var m := Spine(d);
    LowIndices();
    SpineDirectory(d, m, 0);
    SpineDirectory(d, Store(m, Frame(0x40_0000), 0, ZERO), 0);
    assert Addr(d) == Frame(0x40_0000) && !Large(d);
  }

  // Mapping a page that a 2 MB page covers writes into the data of that page and maps nothing.
  lemma MapUnderMegaPage(p: bv64, flags: bv64)
    ensures
      var s := State(Spine(Entry(0x40_0083)), [], map[]);
      var s' := Map4kb(s, ROOT, 0, p, flags);
      Load(s'.m, Frame(0x40_0000), 0) == Leaf(p, flags) && Walk(s'.m, ROOT, 0) == Some(0x40_0000)
  {
    hide Index, Leaf;
    var d := Entry(0x40_0083);
    var m := Spine(d);
    LowIndices();
    SpineDirectory(d, m, 0);
    SpineDirectory(d, Store(m, Frame(0x40_0000), 0, Leaf(p, flags)), 0);
    assert Addr(d) == Frame(0x40_0000);
    TableConstants();
    LinkFields(PDPT);
    LinkFields(PD);
  }

  // A new table is not cleared: what the frame held before becomes part of the address space.
  lemma DirtyTableMaps(p: bv64, flags: bv64)
    ensures
      var n := Frame(0x8000);
      var s := State(Spine(ZERO)[Cell(n, 1) := Entry(0x6003)], [n], map[]);
      && Walk(s.m, ROOT, 0x1000) == None
      && Walk(Map4kb(s, ROOT, 0, p, flags).m, ROOT, 0x1000) == Some(0x6000)
  {
    hide Index, Leaf;
    var n := Frame(0x8000);
    var m := Spine(ZERO)[Cell(n, 1) := Entry(0x6003)];
    var m' := Store(Store(m, PD, 0, LinkTo(n)), n, 0, Leaf(p, flags));
    LowIndices();
    TableConstants();
    LinkFields(PDPT);
    LinkFields(PD);
    SpineDirectory(ZERO, m, 0x1000);
    SpineDirectory(ZERO, m, 0);
    SpineDirectory(LinkTo(n), m', 0x1000);
    assert Addr(LinkTo(n)) == n;
    assert Map4kb(State(m, [n], map[]), ROOT, 0, p, flags).m == m';
    assert Load(m', n, 1) == Entry(0x6003);
  }

  // A table at an address with bit 7 set: the mapped page reads a 2 MB page around the table, wherever it was to go.
  lemma MisalignedTableMaps(p: bv64, flags: bv64)
    ensures
      var s := State(Spine(ZERO), [Frame(0x12_6085)], map[]);
      && Walk(s.m, ROOT, 0x1000) == None
      && Walk(Map4kb(s, ROOT, 0x1000, p, flags).m, ROOT, 0x1000) == Some(0x1000)
  {
    hide Index, Leaf;
    var n, m := Frame(0x12_6085), Spine(ZERO);
    var m' := Store(Store(m, PD, 0, LinkTo(n)), Frame(0x12_6000), 1, Leaf(p, flags));
    assert TableOf(n) == Frame(0x12_6000) && Huge(LinkTo(n)) && Present(LinkTo(n));
    LowIndices();
    TableConstants();
    LinkFields(PDPT);
    LinkFields(PD);
    SpineDirectory(ZERO, m, 0x1000);
    SpineDirectory(LinkTo(n), m', 0x1000);
    assert Map4kb(State(m, [n], map[]), ROOT, 0x1000, p, flags).m == m';
  }

  // The entry that create_or_get_table writes leads to the allocated address exactly when that is a frame.
  lemma LinkExact(f: Frame)
    ensures Addr(LinkTo(f)) == f <==> IsFrame(f)
  {
    if IsFrame(f) {
      LinkFields(f);
    } else {
      MaskTwice(f.base | PAGE_PRESENT | PAGE_WRITABLE);
    }
  }

  // Without memory for a table, map_4kb_page goes on with the table at address 0 and stores the mapping below it.
  lemma MapWithoutMemory(root: Frame, v: bv64, p: bv64, flags: bv64)
    ensures Load(Map4kb(State(map[], [], map[]), root, v, p, flags).m, NULL, Index(v, 1)) == Leaf(p, flags)
  {
    hide Index, Leaf;
    ZeroEntry();
  }
}
