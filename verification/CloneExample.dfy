// Small address spaces that meet the conditions of the laws about cloning.
module CloneExample {
  import opened PageEntry
  import opened Paging
  import opened Mapping
  import opened Cloning
  import opened Isolation
  import opened PagingLimits

  const PT := Frame(0x4000)

  // One page, mapped at 0x1000, and exactly the frames that its clone takes.
  const SPACE: State := State(
    map[Cell(ROOT, 0) := LinkTo(PDPT), Cell(PDPT, 0) := LinkTo(PD), Cell(PD, 0) := LinkTo(PT),
        Cell(PT, 1) := Entry(0x6003)],
    [Frame(0x8000), Frame(0x9000), Frame(0xA000), Frame(0xB000)],
    map[ROOT := Top, PDPT := Child(3, ROOT, 0), PD := Child(2, PDPT, 0), PT := Child(1, PD, 0)])

  lemma Frames()
    ensures IsFrame(ROOT) && IsFrame(PDPT) && IsFrame(PD) && IsFrame(PT)
    ensures forall f :: f in SPACE.pool ==> IsFrame(f)
  {
  }

  lemma LinkPointer(f: Frame)
    requires f.base & 0xFFF == 0
    ensures Pointer(LinkTo(f)) == f
  {
  }

  lemma Links()
    ensures forall f :: f in SPACE.shape || f in SPACE.pool ==> IsFrame(f)
    ensures forall f :: f in SPACE.shape ==> Present(LinkTo(f)) && !Huge(LinkTo(f)) && Addr(LinkTo(f)) == f
    ensures forall f :: f in SPACE.shape ==> Pointer(LinkTo(f)) == f
    ensures !Present(ZERO)
  {
    hide Present, Huge, Addr, Pointer, IsFrame, LinkTo;
    Frames();
    ZeroEntry();
    forall f | f in SPACE.shape
      ensures Present(LinkTo(f)) && !Huge(LinkTo(f)) && Addr(LinkTo(f)) == f && Pointer(LinkTo(f)) == f
    {
      LinkFields(f);
      LinkPointer(f);
    }
  }

  function Content(f: Frame, i: nat): Entry {
    if i == 0 && f == ROOT then LinkTo(PDPT)
    else if i == 0 && f == PDPT then LinkTo(PD)
    else if i == 0 && f == PD then LinkTo(PT)
    else if i == 1 && f == PT then Entry(0x6003)
    else ZERO
  }

  lemma Contents(f: Frame, i: nat)
    ensures Load(SPACE.m, f, i) == Content(f, i)
  {
    hide LinkTo;
    assert ROOT.base != PDPT.base && ROOT.base != PD.base && ROOT.base != PT.base;
  }

  lemma SpaceForest()
    ensures Forest(SPACE.m, SPACE.shape)
  {
    hide Present, Huge, Addr, Pointer, IsFrame, LinkTo, Load;
    Links();
    forall f, i | f in SPACE.shape && 0 <= i < 512
      ensures SlotShaped(SPACE.m, SPACE.shape, f, i)
    {
      Contents(f, i);
    }
  }

  lemma SpaceInv()
    ensures Inv(SPACE) && IsRoot(SPACE.shape, ROOT) && Aligned(SPACE.pool)
  {
    hide Forest, Load, IsFrame, LinkTo, TableOf, Present;
    SpaceForest();
    Frames();
    ZeroEntry();
    forall t | 0 <= t < |SPACE.pool|
      ensures TableOf(SPACE.pool[t]) == SPACE.pool[t] && FreshFrame(SPACE, SPACE.pool[t])
    {
      assert SPACE.pool[t] in SPACE.pool;
      AlignedTable(SPACE.pool[t]);
      forall i | 0 <= i < 512
        ensures !Present(Load(SPACE.m, SPACE.pool[t], i))
      {
        Contents(SPACE.pool[t], i);
      }
    }
  }

  lemma SpaceGigaFree()
    ensures GigaFree(SPACE.m, ROOT)
  {
    hide Present, Huge, Addr, LinkTo, Load, Index;
    Links();
    forall v
      ensures !GigaMapped(SPACE.m, ROOT, v)
    {
      Contents(ROOT, Index(v, 4));
      Contents(PDPT, Index(v, 3));
      assert PDPT in SPACE.shape && PD in SPACE.shape;
      assert !UnderGiga(3, SPACE.m, Load(SPACE.m, PDPT, Index(v, 3)), v);
    }
  }

  lemma {:induction false} NoTables(m: Memory, level: nat, f: Frame, i: nat)
    requires 1 <= level <= 4 && i <= 512 && forall j :: i <= j < 512 ==> Load(m, f, j) == ZERO
    ensures Tables(level, m, f, i) == 0
    decreases 512 - i
  {
    hide Load, Present, Huge;
    if i < 512 {
      ZeroEntry();
      NoTables(m, level, f, i + 1);
    }
  }

  // Three tables below the root, all with clean pointers.
  lemma SpaceTables()
    ensures Tables(4, SPACE.m, ROOT, 0) == 3 && CleanSlots(4, SPACE.m, ROOT, 0)
  {
    hide Present, Huge, Addr, Pointer, IsFrame, LinkTo, Load;
    Links();
    forall f, i: nat
      ensures Load(SPACE.m, f, i) == Content(f, i)
    {
      Contents(f, i);
    }
    NoTables(SPACE.m, 2, PD, 1);
    NoTables(SPACE.m, 3, PDPT, 1);
    NoTables(SPACE.m, 4, ROOT, 1);
    assert Tables(1, SPACE.m, PT, 0) == 0;
    assert Tables(2, SPACE.m, PD, 0) == 1;
    assert Tables(3, SPACE.m, PDPT, 0) == 2;
    assert forall j :: 0 <= j < 512 ==> Clean(1, SPACE.m, Load(SPACE.m, PT, j));
    assert forall j :: 0 <= j < 512 ==> Clean(2, SPACE.m, Load(SPACE.m, PD, j));
    assert forall j :: 0 <= j < 512 ==> Clean(3, SPACE.m, Load(SPACE.m, PDPT, j));
  }

  // The clone completes with the last frame of the pool and maps the page.
  lemma SpaceClones()
    ensures Inv(SPACE) && IsRoot(SPACE.shape, ROOT) && GigaFree(SPACE.m, ROOT)
    ensures
      var r := CloneHigherHalf(SPACE, ROOT);
      && r.status == Cloned && r.s.pool == []
      && (forall v :: Walk(r.s.m, Frame(0x8000), v) == Walk(SPACE.m, ROOT, v))
  {
    hide Inv, CloneHigherHalf, GigaMapped, GoodPool, TablesOutsidePool, CleanSlots, Tables, Walk;
    SpaceInv();
    SpaceGigaFree();
    SpaceTables();
    ForestOutsidePool(SPACE, ROOT);
    CloneCost(SPACE, ROOT);
    forall v
      ensures Walk(CloneHigherHalf(SPACE, ROOT).s.m, Frame(0x8000), v) == Walk(SPACE.m, ROOT, v)
    {
      ClonePreserves(SPACE, ROOT, v);
    }
  }

  // ----- a 1 GB page

  // The entry of the 1 GB page at t.
  function GigaEntry(t: Frame): Entry {
    Entry(t.base | 0x83)
  }

  lemma GigaFlags(t: Frame)
    ensures Present(GigaEntry(t)) && Huge(GigaEntry(t))
  {
  }

  lemma GigaAddr(t: Frame)
    requires IsFrame(t)
    ensures Addr(GigaEntry(t)) == t
  {
  }

  lemma GigaPointer(t: Frame)
    requires IsFrame(t)
    ensures Pointer(GigaEntry(t)) == t
  {
  }

  lemma GigaFields(t: Frame)
    requires IsFrame(t)
    ensures Present(GigaEntry(t)) && Huge(GigaEntry(t)) && Addr(GigaEntry(t)) == t && Pointer(GigaEntry(t)) == t
  {
    hide Present, Huge, Addr, Pointer, IsFrame, GigaEntry;
    GigaFlags(t);
    GigaAddr(t);
    GigaPointer(t);
  }

  // The first 1 GB of addresses are mapped to the 1 GB at t.
  function GigaSpace(t: Frame): State {
    State(
      map[Cell(ROOT, 0) := LinkTo(PDPT), Cell(PDPT, 0) := GigaEntry(t)],
      [Frame(0x8000), Frame(0x9000), Frame(0xA000)],
      map[ROOT := Top, PDPT := Child(3, ROOT, 0)])
  }

  lemma GigaContents(t: Frame, f: Frame, i: nat)
    ensures
      Load(GigaSpace(t).m, f, i) ==
      if i == 0 && f == ROOT then LinkTo(PDPT) else if i == 0 && f == PDPT then GigaEntry(t) else ZERO
  {
    hide LinkTo, GigaEntry;
    assert ROOT.base != PDPT.base;
  }

  lemma GigaPool(t: Frame)
    ensures GoodPool(GigaSpace(t)) && ROOT !in GigaSpace(t).pool && PDPT !in GigaSpace(t).pool
  {
    hide IsFrame, LinkTo, GigaEntry;
    assert IsFrame(Frame(0x8000)) && IsFrame(Frame(0x9000)) && IsFrame(Frame(0xA000)) by {
      Frames();
    }
  }

  // The part of the page that the clone takes for a table holds no entries.
  ghost predicate Apart(t: Frame) {
    IsFrame(t) && t != ROOT && t != PDPT && t !in GigaSpace(t).pool
  }

  lemma GigaTables(t: Frame)
    requires Apart(t)
    ensures
      var s := GigaSpace(t);
      TablesOutsidePool(s, ROOT) && Tables(4, s.m, ROOT, 0) == 2 && CleanSlots(4, s.m, ROOT, 0)
  {
    hide Present, Huge, Addr, Pointer, IsFrame, LinkTo, GigaEntry, Load;
    var s := GigaSpace(t);
    Links();
    GigaFields(t);
    GigaPool(t);
    forall f, i: nat
      ensures Load(s.m, f, i) ==
              if i == 0 && f == ROOT then LinkTo(PDPT) else if i == 0 && f == PDPT then GigaEntry(t) else ZERO
    {
      GigaContents(t, f, i);
    }
    assert PDPT in SPACE.shape;
    NoTables(s.m, 2, t, 0);
    NoTables(s.m, 3, PDPT, 1);
    NoTables(s.m, 4, ROOT, 1);
    assert Tables(3, s.m, PDPT, 0) == 1;
    assert forall j :: 0 <= j < 512 ==> Clean(2, s.m, Load(s.m, t, j));
    assert forall j :: 0 <= j < 512 ==> Clean(3, s.m, Load(s.m, PDPT, j));
    var frames := set c | c in s.pool;
    assert forall j :: 0 <= j < 512 ==> Avoids(2, s.m, Load(s.m, t, j), frames);
    assert forall j :: 0 <= j < 512 ==> Avoids(3, s.m, Load(s.m, PDPT, j), frames);
  }

  lemma GigaPlace(t: Frame, v: bv64)
    requires Apart(t)
    ensures GigaMapped(GigaSpace(t).m, ROOT, v) <==> Index(v, 4) == 0 && Index(v, 3) == 0
    ensures GigaMapped(GigaSpace(t).m, ROOT, v) ==>
              GigaCopy(GigaSpace(t).m, ROOT, v) == 2 && GigaTarget(GigaSpace(t).m, ROOT, v) == t
  {
    hide Present, Huge, Addr, Pointer, IsFrame, LinkTo, GigaEntry, Load, Index, Tables;
    var s := GigaSpace(t);
    Links();
    GigaFields(t);
    assert PDPT in SPACE.shape;
    GigaContents(t, ROOT, Index(v, 4));
    GigaContents(t, PDPT, Index(v, 3));
    GigaContents(t, ROOT, 0);
    GigaContents(t, PDPT, 0);
    if Index(v, 4) == 0 {
      var e := Load(s.m, PDPT, Index(v, 3));
      assert UnderGiga(3, s.m, e, v) <==> Index(v, 3) == 0;
    }
  }

  // The clone completes, and translates every address as the original does exactly when the 1 GB page is the first
  // 1 GB of memory, where the frame lies that the clone takes for it.
  lemma GigaSpaceClones(t: Frame)
    requires Apart(t)
    ensures
      var s := GigaSpace(t);
      var r := CloneHigherHalf(s, ROOT);
      && r.status == Cloned
      && ((forall v :: Walk(r.s.m, Frame(0x8000), v) == Walk(s.m, ROOT, v)) <==> SameGiga(Frame(0xA000), t))
  {
    hide CloneHigherHalf, GigaMapped, GoodPool, TablesOutsidePool, CleanSlots, Tables, Walk, SameGiga, GigaCopy, Apart,
      GigaTarget;
    var s := GigaSpace(t);
    GigaPool(t);
    GigaTables(t);
    CloneCost(s, ROOT);
    CloneExact(s, ROOT);
    forall v
      ensures GigaMapped(s.m, ROOT, v) ==> (CopyNearby(s, ROOT, v) <==> SameGiga(Frame(0xA000), t))
    {
      GigaPlace(t, v);
    }
    assert GigaMapped(s.m, ROOT, 0) by {
      GigaPlace(t, 0);
      LowIndices();
    }
  }

  // Both happen: at 0 the clone translates alike, at 1 GB it does not.
  lemma GigaPages()
    ensures Apart(NULL) && SameGiga(Frame(0xA000), NULL)
    ensures Apart(Frame(0x4000_0000)) && !SameGiga(Frame(0xA000), Frame(0x4000_0000))
  {
  }
}
