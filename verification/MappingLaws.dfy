// What map_4kb_page does to every translation, wherever its tables come from, and when unmap_page undoes it.
module MappingLaws {
  import opened Wrappers
  import opened PageEntry
  import opened Paging
  import opened Mapping
  import opened MappingCases

  // Where a huge page is in the way, no table lies in the data that the code takes for tables; where memory runs out,
  // none lies at address 0.
  ghost predicate MapSafe(s: State, root: Frame, v: bv64) {
    if PageLevel(s.m, root, v) > 1 then DataSafe(s, root, v)
    else |s.pool| >= Missing(s.m, root, v) || NullEmpty(s)
  }

  // The level of the entries whose addresses change their translation: that of the first huge link, or 1, or 0 when
  // nothing changes.
  function ChangeLevel(s: State, root: Frame, v: bv64): (k: nat)
    ensures k <= 3
  {
    if PageLevel(s.m, root, v) > 1 then 0
    else if LinkLevel(s, root, v) > 1 then LinkLevel(s, root, v)
    else if |s.pool| >= Missing(s.m, root, v) then 1
    else 0
  }

  // What an address translates to after the mapping.
  function AfterMap(s: State, root: Frame, v: bv64, p: bv64, flags: bv64, r: Frame, w: bv64): Option<bv64> {
    var k := ChangeLevel(s, root, v);
    if r != root || k == 0 || !SameSlots(v, w, k) then Walk(s.m, r, w)
    else if k == 1 then Target(p, flags, w)
    else Some(HugePage(k, TableOf(HugeLink(s, root, v)), w))
  }

  lemma HugeLinkWalks(s: State, root: Frame, v: bv64, p: bv64, flags: bv64)
    requires Inv(s) && IsRoot(s.shape, root) && MapSafe(s, root, v) && ChangeLevel(s, root, v) > 1
    ensures
      var s' := Map4kb(s, root, v, p, flags);
      && Inv(s') && (forall r :: IsRoot(s.shape, r) ==> IsRoot(s'.shape, r))
      && (forall r, w :: IsRoot(s.shape, r) ==> Walk(s'.m, r, w) == AfterMap(s, root, v, p, flags, r, w))
  {
    hide Inv, IsRoot, Walk, Map4kb, DataSafe, NullEmpty, Unused, Missing, LinkLevel, HugeLink, HugePage, PageLevel,
      CreateOrGet, Reached, TableAt, NoHugeOnWalk, Present, Huge, Load, Index, Addr, SameSlots, KeepsTables;
    NoHugeNoData(s.m, root, v);
    var k := LinkLevel(s, root, v);
    var u, h := HugeDescent(s, root, v, p, flags);
    HugeLinkFacts(s, root, v);
    ReachedFacts(u, root, v, k);
    HugeLinkStep(u, root, v, k);
    HugeLinkSafe(s, root, v, u, h);
    MapUnderHugePage(h, root, v, p, flags);
  }

  lemma ReachedFacts(u: State, root: Frame, v: bv64, k: nat)
    requires 1 <= k <= 4 && Reached(u, root, v, k)
    ensures Inv(u) && IsRoot(u.shape, root) && TableAt(u.m, root, v, k).Some?
  {
  }

  lemma HugeLinkFacts(s: State, root: Frame, v: bv64)
    requires LinkLevel(s, root, v) > 1
    ensures Huge(LinkTo(HugeLink(s, root, v)))
    ensures |s.pool| >= Missing(s.m, root, v) || |s.pool| + 1 == Missing(s.m, root, v)
    ensures |s.pool| < Missing(s.m, root, v) ==> LinkLevel(s, root, v) == 3
  {
    hide Huge, TableAt, LinkTo;
  }

  lemma HugeLinkSafe(s: State, root: Frame, v: bv64, u: State, h: State)
    requires MapSafe(s, root, v) && ChangeLevel(s, root, v) > 1
    requires Unused(s, NULL) ==> Unused(h, NULL)
    requires |h.pool| == |s.pool| - (Missing(s.m, root, v) + 2 - LinkLevel(s, root, v))
    requires h.pool != [] || LinkLevel(s, root, v) == 2 || NULL !in h.shape ==> DataSafe(h, root, v)
    ensures DataSafe(h, root, v)
    ensures h.pool == [] && LinkLevel(s, root, v) == 3 ==> Unused(s, NULL)
  {
    hide Huge, TableAt, LinkTo, DataSafe, Load, Present, Missing;
    HugeLinkFacts(s, root, v);
  }

  lemma PlainWalks(s: State, root: Frame, v: bv64, p: bv64, flags: bv64)
    requires Inv(s) && IsRoot(s.shape, root) && MapSafe(s, root, v) && ChangeLevel(s, root, v) <= 1
    ensures
      var s' := Map4kb(s, root, v, p, flags);
      && Inv(s') && (forall r :: IsRoot(s.shape, r) ==> IsRoot(s'.shape, r))
      && (forall r, w :: IsRoot(s.shape, r) ==> Walk(s'.m, r, w) == AfterMap(s, root, v, p, flags, r, w))
  {
    hide Inv, IsRoot, Walk, Map4kb, DataSafe, NullEmpty, Missing, LinkLevel, HugeLink, HugePage, PageLevel, TableAt,
      NoHugeOnWalk, SameSlots, SamePage, KeepsTables, PlainLinks;
    NoHugeNoData(s.m, root, v);
    PlainLevel(s, root, v);
    if PageLevel(s.m, root, v) > 1 {
      MapUnderHugePage(s, root, v, p, flags);
    } else if |s.pool| < Missing(s.m, root, v) {
      MapWithoutTables(s, root, v, p, flags);
    } else {
      PlainMapKeepsInv(s, root, v, p, flags);
      forall r, w | IsRoot(s.shape, r)
        ensures Walk(Map4kb(s, root, v, p, flags).m, r, w) == AfterMap(s, root, v, p, flags, r, w)
      {
        PlainMapSetsOnePage(s, root, v, p, flags, r, w);
        SamePageIffSameSlots(v, w);
      }
    }
  }

  // The invariant and all roots are kept by every mapping.
  lemma MapKeepsInv(s: State, root: Frame, v: bv64, p: bv64, flags: bv64)
    requires Inv(s) && IsRoot(s.shape, root) && MapSafe(s, root, v)
    ensures Inv(Map4kb(s, root, v, p, flags))
    ensures forall r :: IsRoot(s.shape, r) ==> IsRoot(Map4kb(s, root, v, p, flags).shape, r)
  {
    hide Inv, IsRoot, Walk, Map4kb, MapSafe, ChangeLevel, AfterMap;
    if ChangeLevel(s, root, v) > 1 {
      HugeLinkWalks(s, root, v, p, flags);
    } else {
      PlainWalks(s, root, v, p, flags);
    }
  }

  // What every address of every address space translates to after any mapping.
  lemma MapEffect(s: State, root: Frame, v: bv64, p: bv64, flags: bv64, r: Frame, w: bv64)
    requires Inv(s) && IsRoot(s.shape, root) && MapSafe(s, root, v) && IsRoot(s.shape, r)
    ensures Walk(Map4kb(s, root, v, p, flags).m, r, w) == AfterMap(s, root, v, p, flags, r, w)
  {
    hide Inv, IsRoot, Walk, Map4kb, MapSafe, ChangeLevel, AfterMap;
    if ChangeLevel(s, root, v) > 1 {
      HugeLinkWalks(s, root, v, p, flags);
    } else {
      PlainWalks(s, root, v, p, flags);
    }
  }

  // What decides whether v's page is at p afterwards. start is the start of v's page.
  predicate MapsTo(s: State, root: Frame, v: bv64, p: bv64, flags: bv64, start: bv64) {
    match ChangeLevel(s, root, v)
    case 0 => PageLevel(s.m, root, v) > 1 && Walk(s.m, root, start) == Some(p)
    case 1 => PlainMapping(p, flags)
    case k => HugePage(k, TableOf(HugeLink(s, root, v)), start) == p
  }

  // Every address of v's page translates to p plus its offset exactly when: a huge page on the walk is at p already;
  // or an address taken for a table makes a huge page that happens to be at p; or there is memory, and the present
  // bit is given, p is a frame address and the flags add no address bit to it.
  lemma MapThenTranslate(s: State, root: Frame, v: bv64, p: bv64, flags: bv64, start: bv64)
    requires Inv(s) && IsRoot(s.shape, root) && MapSafe(s, root, v) && SamePage(v, start) && Offset(start) == 0
    ensures (forall w :: SamePage(v, w) ==> Walk(Map4kb(s, root, v, p, flags).m, root, w) == Some(At(p, w)))
       <==> MapsTo(s, root, v, p, flags, start)
  {
    hide Inv, IsRoot, Walk, Map4kb, MapSafe, PageLevel, LinkLevel, HugeLink, HugePage, Missing, SamePage, Offset, At,
      PlainMapping, Target, SameSlots, TableOf;
    var m' := Map4kb(s, root, v, p, flags).m;
    var k := ChangeLevel(s, root, v);
    NoOffset(p, start);
    forall w | SamePage(v, w)
      ensures Walk(m', root, w) == AfterMap(s, root, v, p, flags, root, w)
      ensures k >= 1 ==> SameSlots(v, w, k)
      ensures k >= 2 ==> HugePage(k, TableOf(HugeLink(s, root, v)), w) ==
                         At(HugePage(k, TableOf(HugeLink(s, root, v)), start), w)
      ensures k == 0 && MapsTo(s, root, v, p, flags, start) ==> Walk(s.m, root, w) == Some(At(p, w))
      ensures k == 1 && PlainMapping(p, flags) ==> Target(p, flags, w) == Some(At(p, w))
    {
      MapEffect(s, root, v, p, flags, root, w);
      SamePageIffSameSlots(v, w);
      if k >= 1 {
        SlotsFrom(v, w, k);
      }
      if k >= 2 {
        PagesAdd(k, TableOf(HugeLink(s, root, v)), v, start, w);
      }
      if k == 0 && MapsTo(s, root, v, p, flags, start) {
        HugePageAdds(s.m, root, v, start, w);
      }
      if k == 1 && PlainMapping(p, flags) {
        TargetOfPlain(p, flags, w);
      }
    }
    if Walk(m', root, start) == Some(At(p, start)) {
      if k == 1 {
        PlainOfTarget(p, flags, start);
      }
      if k == 0 && PageLevel(s.m, root, v) == 1 {
        Unmapped(s, root, v, start);
      }
    }
  }

  lemma SlotsFrom(v: bv64, w: bv64, k: nat)
    requires 1 <= k <= 4 && SameSlots(v, w, 1)
    ensures SameSlots(v, w, k)
  {
    hide Index;
  }

  lemma TargetOfPlain(p: bv64, flags: bv64, w: bv64)
    requires PlainMapping(p, flags)
    ensures Target(p, flags, w) == Some(At(p, w))
  {
    hide PlainMapping, Present, Leaf, Addr, SmallPage, At;
    PlainMappingTarget(p, flags, w);
  }

  lemma PlainOfTarget(p: bv64, flags: bv64, w: bv64)
    requires Target(p, flags, w) == Some(At(p, w)) && Offset(w) == 0
    ensures PlainMapping(p, flags)
  {
    hide PlainMapping, Present, Leaf, Addr, SmallPage, At, Offset;
    TargetIsPlain(p, flags, w);
  }

  // Where nothing changes for want of memory, the page was not mapped and is not.
  lemma Unmapped(s: State, root: Frame, v: bv64, w: bv64)
    requires IsRoot(s.shape, root) && ChangeLevel(s, root, v) == 0 && PageLevel(s.m, root, v) == 1 && SamePage(v, w)
    ensures Walk(s.m, root, w) == None
  {
    hide Present, Huge, Addr, Index, Load, Walk, SamePage, LinkLevel, SameSlots;
    NoHugeNoData(s.m, root, v);
    NoTableNoWalk(s.m, root, v);
    SamePageIffSameSlots(v, w);
    SameSlotsSameWalk(s.m, root, v, w);
  }

  // A plain mapping with plain links takes effect exactly when the pool holds a frame for each table that the walk
  // lacks.
  lemma MapMemoryExact(s: State, root: Frame, v: bv64, p: bv64, flags: bv64)
    requires Inv(s) && IsRoot(s.shape, root) && NoHugeOnWalk(s.m, root, v) && NullEmpty(s) && PlainMapping(p, flags)
    requires LinkLevel(s, root, v) == 1
    ensures Walk(Map4kb(s, root, v, p, flags).m, root, v) == Some(At(p, v))
       <==> |s.pool| >= Missing(s.m, root, v)
  {
    hide Walk, Map4kb, Inv, PlainMapping, At, NullEmpty, IsRoot, SamePage, PageLevel, LinkLevel, Missing, SameSlots,
      NoHugeOnWalk, Target;
    NoHugeNoData(s.m, root, v);
    MapEffect(s, root, v, p, flags, root, v);
    SameSlotsSelf(v);
    TargetOfPlain(p, flags, v);
    if |s.pool| < Missing(s.m, root, v) {
      OwnPage(v);
      Unmapped(s, root, v, v);
    }
  }

  lemma OwnPage(v: bv64)
    ensures SamePage(v, v)
  {
  }

  // ----- unmap_page after map_4kb_page

  // What decides whether unmap_page undoes map_4kb_page: it never unmaps a 1 GB page that an address has made, a
  // 2 MB page only if bit 21 of the address is set, and else see UnmapExact.
  ghost predicate Undoable(s: State, root: Frame, v: bv64) {
    match LinkLevel(s, root, v)
    case 3 => false
    case 2 => Large(LinkTo(HugeLink(s, root, v)))
    case _ =>
      || !TakenForLarge(s.m, root, v)
      || forall w :: SameSlots(v, w, 2) && !SamePage(v, w) ==> Walk(s.m, root, w) == None
  }

  ghost predicate Restores(s: State, m': Memory) {
    forall r, w :: IsRoot(s.shape, r) ==> Walk(m', r, w) == Walk(s.m, r, w)
  }

  lemma UndoHugeLink(s: State, root: Frame, v: bv64, p: bv64, flags: bv64)
    requires Inv(s) && IsRoot(s.shape, root) && MapSafe(s, root, v) && Walk(s.m, root, v) == None
    requires LinkLevel(s, root, v) > 1 && PageLevel(s.m, root, v) == 1
    ensures Restores(s, Unmap(Map4kb(s, root, v, p, flags).m, root, v)) <==> Undoable(s, root, v)
  {
    hide Inv, IsRoot, Walk, Map4kb, Unmap, DataSafe, NullEmpty, Unused, Missing, LinkLevel, HugeLink, HugePage,
      PageLevel, CreateOrGet, Reached, TableAt, NoHugeOnWalk, Present, Huge, Load, Index, Addr, SameSlots, KeepsTables,
      Large, TakenForLarge, SamePage, Data;
    NoHugeNoData(s.m, root, v);
    var k := LinkLevel(s, root, v);
    var u, h := HugeDescent(s, root, v, p, flags);
    HugeLinkFacts(s, root, v);
    ReachedFacts(u, root, v, k);
    HugeLinkStep(u, root, v, k);
    HugeLinkSafe(s, root, v, u, h);
    var m' := Map4kb(s, root, v, p, flags).m;
    HiddenTables(h, root, v, p, flags, k, TableOf(u.pool[0]));
    TakenHugeLink(m', root, v, k, LinkTo(u.pool[0]));
    SameSlotsSelf(v);
    forall r, w | IsRoot(s.shape, r)
      ensures Walk(Unmap(m', root, v), r, w) ==
              if r == root && k == 2 && Large(LinkTo(u.pool[0])) && SameSlots(v, w, 2) then None else Walk(m', r, w)
      ensures Walk(m', r, w) ==
              if r == root && SameSlots(v, w, k) then Some(HugePage(k, TableOf(u.pool[0]), w)) else Walk(s.m, r, w)
      ensures SameSlots(v, w, k) ==> Walk(s.m, root, w) == None
    {
      UnmapClears(State(m', [], h.shape), root, v, r, w);
      MapUnderHugePage(h, root, v, p, flags);
      if SameSlots(v, w, k) {
        RegionEmpty(u, root, v, w, k);
      }
    }
  }

  lemma TakenHugeLink(m: Memory, root: Frame, v: bv64, k: nat, e: Entry)
    requires 2 <= k <= 3 && PageLevel(m, root, v) == k && TableAt(m, root, v, k).Some?
    requires Load(m, TableAt(m, root, v, k).value, Index(v, k)) == e
    ensures TakenForLarge(m, root, v) <==> k == 2 && Large(e)
  {
    hide Present, Huge, Addr, Index, Load, Large;
  }

  // The walk of w ends at the missing entry.
  lemma RegionEmpty(u: State, root: Frame, v: bv64, w: bv64, k: nat)
    requires 2 <= k <= 3 && TableAt(u.m, root, v, k).Some? && SameSlots(v, w, k)
    requires !Present(Load(u.m, TableAt(u.m, root, v, k).value, Index(v, k)))
    ensures Walk(u.m, root, w) == None
  {
    hide Present, Huge, Addr, Index, Load, Walk;
    SameSlotsSameTable(u.m, root, v, w, k);
    WalkFromTable(u.m, root, w, k);
  }

  // Unmapping a page that has just been mapped, and was not mapped before, restores every translation of every address
  // space exactly when it is Undoable.
  lemma UnmapUndoesMap(s: State, root: Frame, v: bv64, p: bv64, flags: bv64)
    requires Inv(s) && IsRoot(s.shape, root) && MapSafe(s, root, v) && Walk(s.m, root, v) == None
    ensures Restores(s, Unmap(Map4kb(s, root, v, p, flags).m, root, v)) <==> Undoable(s, root, v)
  {
    hide Inv, IsRoot, Walk, Map4kb, Unmap, DataSafe, NullEmpty, Missing, LinkLevel, HugeLink, PageLevel, NoHugeOnWalk,
      SameSlots, Large, TakenForLarge, SamePage, PlainLinks;
    if PageLevel(s.m, root, v) > 1 {
      HugeIsMapped(s.m, root, v);
      assert false;
    }
    NoHugeNoData(s.m, root, v);
    PlainLevel(s, root, v);
    if LinkLevel(s, root, v) > 1 {
      UndoHugeLink(s, root, v, p, flags);
    } else if |s.pool| >= Missing(s.m, root, v) {
      PlainUnmapUndoesMap(s, root, v, p, flags);
    } else {
      UndoNothing(s, root, v, p, flags);
    }
  }

  // Without memory there is nothing to undo, and nothing is taken away.
  lemma UndoNothing(s: State, root: Frame, v: bv64, p: bv64, flags: bv64)
    requires Inv(s) && IsRoot(s.shape, root) && NoHugeOnWalk(s.m, root, v) && NullEmpty(s)
    requires |s.pool| < Missing(s.m, root, v) && LinkLevel(s, root, v) == 1
    ensures Restores(s, Unmap(Map4kb(s, root, v, p, flags).m, root, v))
    ensures forall w :: SameSlots(v, w, 2) ==> Walk(s.m, root, w) == None
  {
    hide Inv, IsRoot, Walk, Map4kb, Unmap, NullEmpty, Unused, LinkLevel, PageLevel, NoHugeOnWalk, SameSlots, Large,
      Leaf, TakenForLarge, SamePage, Missing;
    var s' := Map4kb(s, root, v, p, flags);
    NothingMissing(s.m, root, v);
    MapWithoutTables(s, root, v, p, flags);
    forall w | SameSlots(v, w, 2)
      ensures Walk(s.m, root, w) == None
    {
      RegionWithoutTable(s.m, root, v, w);
    }
    SameSlotsSelf(v);
    if PageLevel(s'.m, root, v) > 1 {
      HugeIsMapped(s'.m, root, v);
      assert false;
    }
    NoHugeNoData(s'.m, root, v);
    forall r, w | IsRoot(s.shape, r)
      ensures Walk(Unmap(s'.m, root, v), r, w) == Walk(s.m, r, w)
    {
      UnmapClears(s', root, v, r, w);
      SamePageIffSameSlots(v, w);
      if SameSlots(v, w, 1) {
        SlotsFrom(v, w, 2);
      }
    }
  }

  lemma NothingMissing(m: Memory, root: Frame, v: bv64)
    ensures Missing(m, root, v) > 0 <==> TableAt(m, root, v, 1) == None
  {
    hide Load, Present, Huge, Addr, Index;
  }

  // What the mapping has put below the huge page is no table of the state before it.
  lemma HiddenTables(h: State, root: Frame, v: bv64, p: bv64, flags: bv64, k: nat, n: Frame)
    requires 2 <= k <= 3 && Inv(h) && IsRoot(h.shape, root) && DataSafe(h, root, v)
    requires PageLevel(h.m, root, v) == k && Data(h.m, root, v) == {n} && !Present(Load(h.m, n, Index(v, 2)))
    requires h.pool == [] && k == 3 ==> n != NULL
    ensures TableAt(h.m, root, v, k).Some?
    ensures
      var m' := Map4kb(h, root, v, p, flags).m;
      && Unmappable(State(m', [], h.shape), root, v) && PageLevel(m', root, v) == k
      && TableAt(m', root, v, k) == TableAt(h.m, root, v, k)
      && Load(m', TableAt(h.m, root, v, k).value, Index(v, k)) == Load(h.m, TableAt(h.m, root, v, k).value, Index(v, k))
  {
    hide Walk, Load, Present, Huge, Addr, Index, Unused, Inv, Map4kb, SameWalks, Data, PageLevel, IsRoot;
    var m' := Map4kb(h, root, v, p, flags).m;
    MapUnderHugePage(h, root, v, p, flags);
    HiddenInv(h, m');
    HiddenLevel(h, root, v, m');
    HiddenData(h, root, v, p, flags, k, n);
  }

  lemma HiddenInv(h: State, m': Memory)
    requires Inv(h) && KeepsTables(h, m')
    ensures Inv(State(m', [], h.shape))
  {
    hide Load, Forest;
    AgreeingForest(h.m, h.shape, m');
  }

  lemma HiddenLevel(h: State, root: Frame, v: bv64, m': Memory)
    requires Inv(h) && KeepsTables(h, m') && IsRoot(h.shape, root)
    ensures PageLevel(m', root, v) == PageLevel(h.m, root, v)
    ensures PageLevel(h.m, root, v) > 1 ==> TableAt(h.m, root, v, PageLevel(h.m, root, v)).Some?
    ensures forall k :: 1 <= k <= 4 ==> TableAt(m', root, v, k) == TableAt(h.m, root, v, k)
    ensures forall k, j :: 1 <= k <= 4 && TableAt(h.m, root, v, k).Some? ==>
              Load(m', TableAt(h.m, root, v, k).value, j) == Load(h.m, TableAt(h.m, root, v, k).value, j)
  {
    hide Load, Forest, Present, Huge, Addr, Index;
    forall k | 1 <= k <= 4
      ensures TableAt(m', root, v, k) == TableAt(h.m, root, v, k)
      ensures TableAt(h.m, root, v, k).Some? ==> TableAt(h.m, root, v, k).value in h.shape
    {
      AgreeingTables(h.m, h.shape, m', root, v, k);
    }
  }

  // The parts of the huge page that are taken for tables are its first frame and a table put below it.
  lemma HiddenData(h: State, root: Frame, v: bv64, p: bv64, flags: bv64, k: nat, n: Frame)
    requires 2 <= k <= 3 && Inv(h) && IsRoot(h.shape, root) && DataSafe(h, root, v)
    requires PageLevel(h.m, root, v) == k && Data(h.m, root, v) == {n} && !Present(Load(h.m, n, Index(v, 2)))
    requires h.pool == [] && k == 3 ==> n != NULL
    requires KeepsTables(h, Map4kb(h, root, v, p, flags).m)
    ensures forall f :: f in Data(Map4kb(h, root, v, p, flags).m, root, v) ==> f !in h.shape
  {
    hide Load, Present, Huge, Addr, Index, Map4kb, IsRoot, Forest, KeepsTables;
    var m' := Map4kb(h, root, v, p, flags).m;
    HiddenLevel(h, root, v, m');
    if k == 3 {
      HiddenLink(h, root, v, p, flags, n);
    }
  }

  lemma HiddenLink(h: State, root: Frame, v: bv64, p: bv64, flags: bv64, n: Frame)
    requires Inv(h) && PageLevel(h.m, root, v) == 3 && Data(h.m, root, v) == {n} && Unused(h, n)
    requires !Present(Load(h.m, n, Index(v, 2))) && (h.pool == [] ==> n != NULL)
    ensures
      var e := Load(Map4kb(h, root, v, p, flags).m, n, Index(v, 2));
      Present(e) ==> Addr(e) !in h.shape
  {
    hide Load, Present, Huge, Addr, Index, Forest, Leaf;
    var (c, t) := CreateOrGet(h, n, Index(v, 2), 2);
    assert n == Addr(Load(h.m, TableAt(h.m, root, v, 3).value, Index(v, 3))) by {
      assert Addr(Load(h.m, TableAt(h.m, root, v, 3).value, Index(v, 3))) in Data(h.m, root, v);
    }
    assert Map4kb(h, root, v, p, flags) == c.(m := Store(c.m, t, Index(v, 1), Leaf(p, flags)));
    if h.pool != [] {
      FreshNotNull(h);
      assert FreshFrame(h, h.pool[0]);
      LinkIntoData(h, n, Index(v, 2));
      TableIsAddr(h.pool[0]);
    }
  }
}
