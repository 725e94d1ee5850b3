// map_4kb_page where it does not simply map: on huge pages, with addresses that make huge pages, without memory for
// tables, and with tables that are not empty.
module MappingCases {
  import opened Wrappers
  import opened PageEntry
  import opened Paging
  import opened Mapping

  // Only words outside the tables differ.
  lemma OutsideTables(s: State, f: Frame, i: nat, e: Entry)
    requires Inv(s) && Unused(s, f)
    ensures Inv(s.(m := Store(s.m, f, i, e))) && SameWalks(s, s.(m := Store(s.m, f, i, e)))
  {
    hide Load, IsFrame, Walk, Forest, TableOf, Present;
    var m' := Store(s.m, f, i, e);
    AgreeingForest(s.m, s.shape, m');
    forall t | 0 <= t < |s.pool|
      ensures FreshFrame(s.(m := m'), s.pool[t])
    {
      assert FreshFrame(s, s.pool[t]);
    }
  }

  // The tables of s are as they were.
  ghost predicate KeepsTables(s: State, m': Memory) {
    forall f, j :: f in s.shape ==> Load(m', f, j) == Load(s.m, f, j)
  }

  // ----- huge pages

  // v's page is huge, and no part of it that the code takes for a table is one, or is waiting to be one.
  ghost predicate DataSafe(s: State, root: Frame, v: bv64) {
    && PageLevel(s.m, root, v) > 1
    && (forall f :: f in Data(s.m, root, v) ==> Unused(s, f))
    && (PageLevel(s.m, root, v) == 3 && s.pool == [] ==> NULL !in s.shape)
  }

  lemma MapIntoMegaPage(s: State, root: Frame, v: bv64, p: bv64, flags: bv64)
    requires Inv(s) && IsRoot(s.shape, root) && DataSafe(s, root, v) && PageLevel(s.m, root, v) == 2
    ensures
      var s' := Map4kb(s, root, v, p, flags);
      Inv(s') && SameWalks(s, s') && KeepsTables(s, s'.m)
  {
    hide Load, IsFrame, Index, Present, Huge, Addr, Inv, IsRoot, SameWalks, Leaf, TableOf;
    var e := Load(s.m, TableAt(s.m, root, v, 2).value, Index(v, 2));
    assert TableAt(s.m, root, v, 3).Some?;
    assert Map4kb(s, root, v, p, flags) == s.(m := Store(s.m, Addr(e), Index(v, 1), Leaf(p, flags)));
    assert Addr(e) in Data(s.m, root, v);
    OutsideTables(s, Addr(e), Index(v, 1), Leaf(p, flags));
  }

  // The data entry that is taken for a page-directory entry may even be filled with a new table.
  lemma FilledDataKeepsInv(s: State, f: Frame, i: nat, j: nat, e: Entry)
    requires Inv(s) && Unused(s, f) && s.pool != [] && !Present(Load(s.m, f, i))
    ensures
      var (s', t) := CreateOrGet(s, f, i, 2);
      var r := s'.(m := Store(s'.m, t, j, e));
      Inv(r) && SameWalks(s, r) && KeepsTables(s, r.m)
  {
    hide Load, Index, Present, Huge, Addr, IsFrame, LinkTo, Walk, CreateOrGet, TableOf;
    var (s', t) := CreateOrGet(s, f, i, 2);
    LinkIntoData(s, f, i);
    var m' := Store(s'.m, t, j, e);
    AgreeingForest(s.m, s.shape, m');
    forall u | 0 <= u < |s'.pool|
      ensures FreshFrame(s'.(m := m'), s'.pool[u])
    {
      assert s'.pool[u] == s.pool[u + 1] && FreshFrame(s, s.pool[u + 1]);
      assert TableOf(s.pool[0]) != TableOf(s.pool[u + 1]) && TableOf(s.pool[u + 1]) != f;
    }
  }

  lemma LinkIntoData(s: State, f: Frame, i: nat)
    requires Inv(s) && Unused(s, f) && s.pool != [] && !Present(Load(s.m, f, i))
    ensures
      var (s', t) := CreateOrGet(s, f, i, 2);
      && t == TableOf(s.pool[0]) && t !in s.shape && s'.pool == s.pool[1..] && IsFrame(t)
      && s'.shape == s.shape && s'.m == Store(s.m, f, i, LinkTo(s.pool[0]))
  {
    hide Load, Index, Present, Huge, Addr, Forest, IsFrame, LinkTo;
    assert FreshFrame(s, s.pool[0]);
    TableIsFrame(s.pool[0]);
  }

  lemma MapIntoGigaPage(s: State, root: Frame, v: bv64, p: bv64, flags: bv64)
    requires Inv(s) && IsRoot(s.shape, root) && DataSafe(s, root, v) && PageLevel(s.m, root, v) == 3
    ensures
      var s' := Map4kb(s, root, v, p, flags);
      Inv(s') && SameWalks(s, s') && KeepsTables(s, s'.m)
  {
    hide Load, IsFrame, Index, Present, Huge, Addr, Inv, IsRoot, SameWalks, Leaf, TableOf;
    var pd := Addr(Load(s.m, TableAt(s.m, root, v, 3).value, Index(v, 3)));
    var x := Load(s.m, pd, Index(v, 2));
    var leaf := Leaf(p, flags);
    assert pd in Data(s.m, root, v) && (Present(x) ==> Addr(x) in Data(s.m, root, v));
    if Present(x) {
      assert Map4kb(s, root, v, p, flags) == s.(m := Store(s.m, Addr(x), Index(v, 1), leaf));
      OutsideTables(s, Addr(x), Index(v, 1), leaf);
    } else if s.pool == [] {
      assert Map4kb(s, root, v, p, flags) == s.(m := Store(s.m, NULL, Index(v, 1), leaf));
      OutsideTables(s, NULL, Index(v, 1), leaf);
    } else {
      assert s.pool[0] != NULL by {
        FreshNotNull(s);
      }
      FilledDataKeepsInv(s, pd, Index(v, 2), Index(v, 1), leaf);
    }
  }

  lemma FreshNotNull(s: State)
    requires Inv(s) && s.pool != []
    ensures s.pool[0] != NULL
  {
    hide Forest, Load;
    assert FreshFrame(s, s.pool[0]);
  }

  // Mapping a page that a huge page covers changes no translation of any address space.
  lemma MapUnderHugePage(s: State, root: Frame, v: bv64, p: bv64, flags: bv64)
    requires Inv(s) && IsRoot(s.shape, root) && DataSafe(s, root, v)
    ensures
      var s' := Map4kb(s, root, v, p, flags);
      Inv(s') && SameWalks(s, s') && KeepsTables(s, s'.m)
  {
    hide Map4kb, Inv, IsRoot, Data, SameWalks, KeepsTables, Unused;
    if PageLevel(s.m, root, v) == 2 {
      MapIntoMegaPage(s, root, v, p, flags);
    } else {
      MapIntoGigaPage(s, root, v, p, flags);
    }
  }

  // Hence v's page reads p plus its offset exactly when the huge page mapped it there before.
  lemma MapUnderHugeExact(s: State, root: Frame, v: bv64, p: bv64, flags: bv64, start: bv64)
    requires Inv(s) && IsRoot(s.shape, root) && DataSafe(s, root, v) && SamePage(v, start) && Offset(start) == 0
    ensures (forall w :: SamePage(v, w) ==> Walk(Map4kb(s, root, v, p, flags).m, root, w) == Some(At(p, w)))
       <==> Walk(s.m, root, start) == Some(p)
  {
    hide Walk, Map4kb, Inv, Data, SamePage, Offset, At, PageLevel, IsRoot;
    MapUnderHugePage(s, root, v, p, flags);
    forall w | SamePage(v, w)
      ensures Walk(s.m, root, start) == Some(p) ==> Walk(s.m, root, w) == Some(At(p, w))
    {
      HugePageAdds(s.m, root, v, start, w);
    }
    NoOffset(p, start);
  }

  lemma NoOffset(p: bv64, start: bv64)
    requires Offset(start) == 0
    ensures At(p, start) == p
  {
    hide Offset;
  }

  // Inside a page of a huge page, the walk adds the offset.
  lemma HugePageAdds(m: Memory, root: Frame, v: bv64, start: bv64, w: bv64)
    requires PageLevel(m, root, v) > 1 && SamePage(v, start) && SamePage(v, w) && Offset(start) == 0
    ensures Walk(m, root, start).Some? && Walk(m, root, w) == Some(At(Walk(m, root, start).value, w))
  {
    hide Load, Index, Present, Huge, Addr, SamePage, Offset, At, HugePage, SameSlots, Walk, WalkEntry;
    var k := PageLevel(m, root, v);
    var e := Load(m, TableAt(m, root, v, k).value, Index(v, k));
    SamePageIffSameSlots(v, start);
    SamePageIffSameSlots(v, w);
    SlotsAbove(v, start, k);
    SlotsAbove(v, w, k);
    SameSlotsSameTable(m, root, v, start, k);
    SameSlotsSameTable(m, root, v, w, k);
    WalkFromTable(m, root, start, k);
    WalkFromTable(m, root, w, k);
    HugeWalk(k, m, e, start);
    HugeWalk(k, m, e, w);
    PagesAdd(k, Addr(e), v, start, w);
  }

  lemma SlotsAbove(v: bv64, w: bv64, k: nat)
    requires 1 <= k <= 4 && SameSlots(v, w, 1)
    ensures Index(v, k) == Index(w, k) && forall j :: k < j <= 4 ==> Index(v, j) == Index(w, j)
  {
    hide Index;
  }

  // The k-th level's huge page at f, at address w.
  function HugePage(k: nat, f: Frame, w: bv64): bv64 {
    if k == 2 then MegaPage(f, w) else GigaPage(f, w)
  }

  lemma HugeWalk(k: nat, m: Memory, e: Entry, w: bv64)
    requires 2 <= k <= 3 && Present(e) && Huge(e)
    ensures WalkEntry(k, m, e, w) == Some(HugePage(k, Addr(e), w))
  {
    hide Present, Huge, Addr, MegaPage, GigaPage;
  }

  lemma PagesAdd(k: nat, f: Frame, v: bv64, start: bv64, w: bv64)
    requires 2 <= k <= 3 && SamePage(v, start) && SamePage(v, w) && Offset(start) == 0
    ensures HugePage(k, f, w) == At(HugePage(k, f, start), w)
  {
    if k == 2 {
      MegaAdds(f.base, v, start, w);
    } else {
      GigaAdds(f.base, v, start, w);
    }
  }

  lemma MegaAdds(b: bv64, v: bv64, x: bv64, w: bv64)
    requires (v ^ x) & 0x0000_FFFF_FFFF_F000 == 0 && (v ^ w) & 0x0000_FFFF_FFFF_F000 == 0 && x & 0xFFF == 0
    ensures (b & 0xFFFF_FFFF_FFE0_0000) | (w & 0x1F_FFFF) ==
            ((b & 0xFFFF_FFFF_FFE0_0000) | (x & 0x1F_FFFF)) + (w & 0xFFF)
  {
    assert w & 0x1F_FFFF == (x & 0x1F_FFFF) | (w & 0xFFF);
    LowBitsAdd((b & 0xFFFF_FFFF_FFE0_0000) | (x & 0x1F_FFFF), w);
  }

  lemma GigaAdds(b: bv64, v: bv64, x: bv64, w: bv64)
    requires (v ^ x) & 0x0000_FFFF_FFFF_F000 == 0 && (v ^ w) & 0x0000_FFFF_FFFF_F000 == 0 && x & 0xFFF == 0
    ensures (b & 0xFFFF_FFFF_C000_0000) | (w & 0x3FFF_FFFF) ==
            ((b & 0xFFFF_FFFF_C000_0000) | (x & 0x3FFF_FFFF)) + (w & 0xFFF)
  {
    assert w & 0x3FFF_FFFF == (x & 0x3FFF_FFFF) | (w & 0xFFF);
    LowBitsAdd((b & 0xFFFF_FFFF_C000_0000) | (x & 0x3FFF_FFFF), w);
  }

  lemma LowBitsAdd(a: bv64, w: bv64)
    requires a & 0xFFF == 0
    ensures a | (w & 0xFFF) == a + (w & 0xFFF)
  {
  }

  // ----- addresses that make huge pages

  // The level of the first entry of the descent that is a huge page, because its address has bit 7 set; 1 if there
  // is none. The entry of the top table never is.
  function LinkLevel(s: State, root: Frame, v: bv64): (k: nat)
    ensures 1 <= k <= 3
  {
    var n := Missing(s.m, root, v);
    if n >= 2 && n - 2 < |s.pool| && Huge(LinkTo(s.pool[n - 2])) then 3
    else if n >= 1 && n - 1 < |s.pool| && Huge(LinkTo(s.pool[n - 1])) then 2
    else 1
  }

  // The address in that entry.
  function HugeLink(s: State, root: Frame, v: bv64): (f: Frame)
    requires LinkLevel(s, root, v) > 1
  {
    s.pool[Missing(s.m, root, v) + 1 - LinkLevel(s, root, v)]
  }

  lemma PlainLevel(s: State, root: Frame, v: bv64)
    ensures PlainLinks(s, root, v) <==> LinkLevel(s, root, v) == 1
  {
    hide Present, Huge, LinkTo, Index, Load, Addr;
    var n := Missing(s.m, root, v);
    forall t | 0 <= t < |s.pool|
      ensures Present(LinkTo(s.pool[t]))
    {
      LinkPresent(s.pool[t]);
    }
  }

  // Linking at level k when the address has bit 7 set: the addresses that go through the entry read a huge page.
  lemma HugeLinkStep(u: State, root: Frame, v: bv64, k: nat)
    requires 2 <= k <= 3 && Reached(u, root, v, k) && u.pool != [] && Huge(LinkTo(u.pool[0]))
    requires !Present(Load(u.m, TableAt(u.m, root, v, k).value, Index(v, k)))
    ensures
      var (h, t) := CreateOrGet(u, TableAt(u.m, root, v, k).value, Index(v, k), k);
      && Inv(h) && h.shape == u.shape && h.pool == u.pool[1..] && t == TableOf(u.pool[0])
      && TableAt(h.m, root, v, k) == TableAt(u.m, root, v, k)
      && Load(h.m, TableAt(h.m, root, v, k).value, Index(v, k)) == LinkTo(u.pool[0])
      && PageLevel(h.m, root, v) == k && Data(h.m, root, v) == {TableOf(u.pool[0])}
      && !Present(Load(h.m, TableOf(u.pool[0]), Index(v, 2)))
      && (h.pool != [] || k == 2 || NULL !in h.shape ==> DataSafe(h, root, v))
      && (forall r, w :: IsRoot(u.shape, r) ==>
            Walk(h.m, r, w) ==
            if r == root && SameSlots(v, w, k) then Some(HugePage(k, TableOf(u.pool[0]), w)) else Walk(u.m, r, w))
  {
    hide Present, Huge, Addr, IsFrame, Index, Load, LinkTo, Walk, SameSlots, HugePage;
    var f, n := TableAt(u.m, root, v, k).value, u.pool[0];
    var (h, t) := CreateOrGet(u, f, Index(v, k), k);
    LinkPresent(n);
    TableAtShaped(u.m, u.shape, root, v, k);
    assert FreshFrame(u, n);
    LinkKeepsForest(u, f, Index(v, k), k);
    LinkKeepsFresh(u, f, Index(v, k), k);
    StoreKeepsTables(u.m, u.shape, root, v, k, f, Index(v, k), LinkTo(n), k);
    forall r, w | IsRoot(u.shape, r)
      ensures Walk(h.m, r, w) ==
              if r == root && SameSlots(v, w, k) then Some(HugePage(k, TableOf(n), w)) else Walk(u.m, r, w)
    {
      StoreEffect(u.m, u.shape, root, v, k, LinkTo(n), r, w);
      HugeWalk(k, u.m, LinkTo(n), w);
    }
    HugeLinkData(u, root, v, k);
  }

  lemma HugeLinkData(u: State, root: Frame, v: bv64, k: nat)
    requires 2 <= k <= 3 && Reached(u, root, v, k) && u.pool != [] && Huge(LinkTo(u.pool[0]))
    requires !Present(Load(u.m, TableAt(u.m, root, v, k).value, Index(v, k)))
    ensures
      var h := CreateOrGet(u, TableAt(u.m, root, v, k).value, Index(v, k), k).0;
      && PageLevel(h.m, root, v) == k && Data(h.m, root, v) == {TableOf(u.pool[0])} && Unused(h, TableOf(u.pool[0]))
      && !Present(Load(h.m, TableOf(u.pool[0]), Index(v, 2)))
  {
    hide Present, Huge, Addr, IsFrame, Index, Load, LinkTo;
    var f, n := TableAt(u.m, root, v, k).value, u.pool[0];
    var h := CreateOrGet(u, f, Index(v, k), k).0;
    LinkPresent(n);
    TableAtShaped(u.m, u.shape, root, v, k);
    assert FreshFrame(u, n);
    StoreKeepsTables(u.m, u.shape, root, v, k, f, Index(v, k), LinkTo(n), k);
    assert Load(h.m, f, Index(v, k)) == LinkTo(n);
    assert Load(h.m, TableOf(n), Index(v, 2)) == Load(u.m, TableOf(n), Index(v, 2));
    if k == 2 {
      StoreKeepsTables(u.m, u.shape, root, v, k, f, Index(v, k), LinkTo(n), 3);
      assert TableAt(h.m, root, v, 3).Some?;
    }
  }

  // The descent up to the first huge link: u is the state before it, h the one after.
  lemma HugeDescent(s: State, root: Frame, v: bv64, p: bv64, flags: bv64) returns (u: State, h: State)
    requires Inv(s) && IsRoot(s.shape, root) && NoHugeOnWalk(s.m, root, v) && LinkLevel(s, root, v) > 1
    ensures
      var k := LinkLevel(s, root, v);
      && Reached(u, root, v, k) && SameWalks(s, u) && u.pool != [] && u.pool[0] == HugeLink(s, root, v)
      && !Present(Load(u.m, TableAt(u.m, root, v, k).value, Index(v, k)))
      && h == CreateOrGet(u, TableAt(u.m, root, v, k).value, Index(v, k), k).0
      && Map4kb(h, root, v, p, flags) == Map4kb(s, root, v, p, flags)
      && |u.pool| == |s.pool| - (Missing(s.m, root, v) + 1 - k)
      && (Unused(s, NULL) ==> Unused(h, NULL) && TableOf(u.pool[0]) != NULL)
  {
    hide Present, Huge, Addr, IsFrame, Index, Load, LinkTo, Leaf, Inv, Walk, Missing, Map4kb, Unused, NoHugeOnWalk,
      SameWalks, CreateOrGet, HugePage, PageLevel, DataSafe;
    var k := LinkLevel(s, root, v);
    LinksAbove(s, root, v);
    DescentReaches(s, root, v, k);
    var f;
    u, f := Descent(s, root, v, k).0, Descent(s, root, v, k).1;
    if Present(Load(u.m, f, Index(v, k))) {
      SomethingBelow(u, root, v, k);
      assert false;
    }
    var t;
    h, t := CreateOrGet(u, f, Index(v, k), k).0, CreateOrGet(u, f, Index(v, k), k).1;
    HugeLinkStep(u, root, v, k);
    LinkPresent(u.pool[0]);
    LinkWrites(u, root, v, k);
    TableIsAddr(u.pool[0]);
    MapResumes(s, root, v, p, flags, k - 1, h);
    HeadNotUnused(s, HugeLink(s, root, v));
  }

  lemma HeadNotUnused(s: State, n: Frame)
    requires n in s.pool
    ensures !Unused(s, TableOf(n))
  {
    hide TableOf;
  }

  // The links above the first huge one.
  lemma LinksAbove(s: State, root: Frame, v: bv64)
    requires LinkLevel(s, root, v) > 1
    ensures
      var n, k := Missing(s.m, root, v), LinkLevel(s, root, v);
      && Made(s.m, root, v, k) == n + 1 - k < |s.pool| && Huge(LinkTo(s.pool[n + 1 - k]))
      && forall t :: 0 <= t < Made(s.m, root, v, k) ==> Descends(n + 1 - t, LinkTo(s.pool[t]))
  {
    hide Present, Huge, LinkTo, Index, Load, Addr;
    var n, k := Missing(s.m, root, v), LinkLevel(s, root, v);
    forall t | 0 <= t < n + 1 - k
      ensures Descends(n + 1 - t, LinkTo(s.pool[t]))
    {
      LinkPresent(s.pool[t]);
    }
  }

  // ----- no memory

  // No table lies at address 0 or will, and the page there has no present word.
  ghost predicate NullEmpty(s: State) {
    Unused(s, NULL) && forall i :: 0 <= i < 512 ==> !Present(Load(s.m, NULL, i))
  }

  lemma NullStays(s: State, i: nat, level: nat)
    requires s.pool == [] && level >= 1 && i < 512 && !Present(Load(s.m, NULL, i))
    ensures CreateOrGet(s, NULL, i, level) == (s, NULL)
  {
    hide Load, Present;
  }

  // The tables there is memory for are made, and the mapping is stored in page 0.
  lemma MapRunsOut(s: State, root: Frame, v: bv64, p: bv64, flags: bv64) returns (c: State)
    requires Inv(s) && IsRoot(s.shape, root) && NoHugeOnWalk(s.m, root, v) && NullEmpty(s)
    requires |s.pool| < Missing(s.m, root, v) && LinkLevel(s, root, v) == 1
    ensures Inv(c) && SameWalks(s, c) && Unused(c, NULL)
    ensures Map4kb(s, root, v, p, flags) == c.(m := Store(c.m, NULL, Index(v, 1), Leaf(p, flags)))
  {
    hide Present, Huge, Addr, IsFrame, Index, Load, LinkTo, Missing, Leaf, Forest, FreshPool, Walk, Unused,
      NoHugeOnWalk, SameWalks, LinkLevel, Descends, TableAt, CreateOrGet;
    DescentStarts(s, root, v);
    PlainLevel(s, root, v);
    var k := Missing(s.m, root, v) + 1 - |s.pool|;
    DescentReaches(s, root, v, k);
    var f;
    c, f := Descent(s, root, v, k).0, Descent(s, root, v, k).1;
    assert c.pool == [] && Missing(c.m, root, v) == k - 1;
    if Present(Load(c.m, f, Index(v, k))) {
      SomethingBelow(c, root, v, k);
      assert false;
    }
    assert CreateOrGet(c, f, Index(v, k), k) == (c, NULL) by {
      NoMemory(c, f, Index(v, k), k);
    }
    forall j | 0 <= j < 512
      ensures !Present(Load(c.m, NULL, j))
    {
      assert Load(c.m, NULL, j) == Load(s.m, NULL, j);
    }
    assert Descent(s, root, v, k - 1) == (c, NULL);
    DescentAtNull(s, root, v, k - 1, c);
    MapDescends(s, root, v, p, flags);
  }

  lemma NoMemory(s: State, f: Frame, i: nat, level: nat)
    requires level >= 1 && s.pool == [] && !Present(Load(s.m, f, i))
    ensures CreateOrGet(s, f, i, level) == (s, NULL)
  {
    hide Load, Present;
  }

  lemma {:induction false} DescentAtNull(s: State, root: Frame, v: bv64, k: nat, c: State)
    requires 1 <= k <= 3 && Descent(s, root, v, k) == (c, NULL) && c.pool == []
    requires forall i :: 0 <= i < 512 ==> !Present(Load(c.m, NULL, i))
    ensures Descent(s, root, v, 1) == (c, NULL)
  {
    hide Load, Present, Index, CreateOrGet;
    if k > 1 {
      NullStays(c, Index(v, k), k);
      DescentAtNull(s, root, v, k - 1, c);
    }
  }

  // Without enough memory no translation changes.
  lemma MapWithoutTables(s: State, root: Frame, v: bv64, p: bv64, flags: bv64)
    requires Inv(s) && IsRoot(s.shape, root) && NoHugeOnWalk(s.m, root, v) && NullEmpty(s)
    requires |s.pool| < Missing(s.m, root, v) && LinkLevel(s, root, v) == 1
    ensures Inv(Map4kb(s, root, v, p, flags)) && SameWalks(s, Map4kb(s, root, v, p, flags))
    ensures Load(Map4kb(s, root, v, p, flags).m, NULL, Index(v, 1)) == Leaf(p, flags)
  {
    hide Index, Load, Leaf, Map4kb, Missing, Inv, SameWalks, NoHugeOnWalk, IsRoot, LinkLevel, Unused;
    var c := MapRunsOut(s, root, v, p, flags);
    OutsideTables(c, NULL, Index(v, 1), Leaf(p, flags));
    SameWalksTrans(s, c, Map4kb(s, root, v, p, flags));
  }
}
