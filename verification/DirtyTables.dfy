// map_4kb_page with page tables that are not cleared: whatever their frames hold becomes part of the address space.
module DirtyTables {
  import opened Wrappers
  import opened PageEntry
  import opened Paging
  import opened Mapping

  // ----- one missing table

  // The walk of v lacks its page table only, and the frame for it may hold anything.
  ghost predicate LacksPageTable(s: State, root: Frame, v: bv64) {
    && Forest(s.m, s.shape) && IsRoot(s.shape, root) && NoHugeOnWalk(s.m, root, v) && Missing(s.m, root, v) == 1
    && s.pool != [] && s.pool[0] != NULL && TableOf(s.pool[0]) !in s.shape && Descends(2, LinkTo(s.pool[0]))
  }

  // The new page table, linked but without the leaf.
  function Linked(s: State, root: Frame, v: bv64): State
    requires TableAt(s.m, root, v, 2).Some? && s.pool != []
  {
    var f, n := TableAt(s.m, root, v, 2).value, s.pool[0];
    State(Store(s.m, f, Index(v, 2), LinkTo(n)), s.pool[1..], s.shape[TableOf(n) := Child(1, f, Index(v, 2))])
  }

  lemma LinkedForest(s: State, root: Frame, v: bv64)
    requires LacksPageTable(s, root, v)
    ensures TableAt(s.m, root, v, 2).Some?
    ensures
      var a := Linked(s, root, v);
      && Forest(a.m, a.shape) && (forall r :: IsRoot(s.shape, r) ==> IsRoot(a.shape, r))
      && TableOf(s.pool[0]) in a.shape && a.shape[TableOf(s.pool[0])].Level() == 1
  {
    hide Present, Huge, Addr, IsFrame, Index, Load, LinkTo;
    var a, f, n := Linked(s, root, v), TableAt(s.m, root, v, 2).value, s.pool[0];
    TableAtShaped(s.m, s.shape, root, v, 2);
    TableIsFrame(n);
    forall g, j | g in a.shape && 0 <= j < 512
      ensures SlotShaped(a.m, a.shape, g, j)
    {
      if g != TableOf(n) {
        assert SlotShaped(s.m, s.shape, g, j);
      }
    }
  }

  lemma MapsIntoLinked(s: State, root: Frame, v: bv64, p: bv64, flags: bv64)
    requires LacksPageTable(s, root, v)
    ensures
      var a := Linked(s, root, v);
      Map4kb(s, root, v, p, flags) == a.(m := Store(a.m, TableOf(s.pool[0]), Index(v, 1), Leaf(p, flags)))
  {
    hide IsFrame, Index, Load, LinkTo, Leaf, Huge, Present, Addr;
    assert TableAt(s.m, root, v, 3).Some?;
    assert NoHugeAt(s.m, root, v, 2);
    TableAtShaped(s.m, s.shape, root, v, 2);
  }

  // In the 2 MB region of v, and nowhere else, the words of the new table are entries now.
  lemma LinkedTables(s: State, root: Frame, v: bv64, r: Frame, w: bv64)
    requires LacksPageTable(s, root, v) && IsRoot(s.shape, r)
    ensures
      var a := Linked(s, root, v);
      if r == root && SameSlots(v, w, 2) then
        TableAt(a.m, r, w, 1) == Some(TableOf(s.pool[0])) && Walk(s.m, r, w) == None
      else Walk(a.m, r, w) == Walk(s.m, r, w)
  {
    hide Present, Huge, Addr, IsFrame, Index, Load, LinkTo, Forest, IsRoot, Walk;
    var f, n := TableAt(s.m, root, v, 2).value, s.pool[0];
    TableAtShaped(s.m, s.shape, root, v, 2);
    ReadersOfSlot(s.m, s.shape, root, v, r, w, 2);
    if r == root && SameSlots(v, w, 2) {
      StoreKeepsTables(s.m, s.shape, r, w, 2, f, Index(v, 2), LinkTo(n), 2);
      RegionWithoutTable(s.m, root, v, w);
    } else {
      StoreKeepsWalk(s.m, s.shape, r, w, 2, f, Index(v, 2), LinkTo(n));
    }
  }

  lemma DirtyWalks(s: State, root: Frame, v: bv64, p: bv64, flags: bv64, r: Frame, w: bv64)
    requires LacksPageTable(s, root, v) && IsRoot(s.shape, r) && !(r == root && SamePage(v, w))
    ensures
      var m' := Map4kb(s, root, v, p, flags).m;
      if r == root && SameSlots(v, w, 2) then
        && Index(w, 1) != Index(v, 1) && Walk(s.m, r, w) == None
        && (Walk(m', r, w) == None <==> !Present(Load(s.m, TableOf(s.pool[0]), Index(w, 1))))
      else Walk(m', r, w) == Walk(s.m, r, w)
  {
    hide Present, Huge, Addr, IsFrame, Index, Load, LinkTo, Leaf, Forest, IsRoot, Walk, SamePage, Map4kb, SmallPage,
      NoHugeOnWalk;
    var a, n := Linked(s, root, v), TableOf(s.pool[0]);
    LinkedForest(s, root, v);
    MapsIntoLinked(s, root, v, p, flags);
    LinkedTables(s, root, v, r, w);
    LinkedTables(s, root, v, root, v);
    SamePageIffSameSlots(v, w);
    ReadersOfSlot(a.m, a.shape, root, v, r, w, 1);
    StoreKeepsWalk(a.m, a.shape, r, w, 1, n, Index(v, 1), Leaf(p, flags));
    if r == root && SameSlots(v, w, 2) {
      WalkFromTable(a.m, r, w, 1);
      TableAtShaped(s.m, s.shape, root, v, 2);
    }
  }

  // Some address of v's 2 MB region has the given lowest index.
  lemma AddressInRegion(v: bv64, i: nat) returns (w: bv64)
    requires i < 512
    ensures SameSlots(v, w, 2) && Index(w, 1) == i
  {
    var b := SmallWord(i);
    w := (v & 0xFFFF_FFFF_FFE0_0FFF) | (b << 12);
    SlotsInRegion(v, b);
  }

  lemma SlotsInRegion(v: bv64, b: bv64)
    requires b < 512
    ensures
      var w := (v & 0xFFFF_FFFF_FFE0_0FFF) | (b << 12);
      && (w >> 12) & 0x1FF == b && (w >> 21) & 0x1FF == (v >> 21) & 0x1FF
      && (w >> 30) & 0x1FF == (v >> 30) & 0x1FF && (w >> 39) & 0x1FF == (v >> 39) & 0x1FF
  {
  }

  // Whatever the new page table holds, and whether or not its address is that of a frame: v's page reads the leaf, or
  // a 2 MB page around the table if the address has bit 7 set.
  lemma AnyPageTable(s: State, root: Frame, v: bv64, p: bv64, flags: bv64, w: bv64)
    requires Forest(s.m, s.shape) && IsRoot(s.shape, root) && NoHugeOnWalk(s.m, root, v) && Missing(s.m, root, v) == 1
    requires s.pool != [] && s.pool[0] != NULL && TableOf(s.pool[0]) !in s.shape && SamePage(v, w)
    ensures Walk(Map4kb(s, root, v, p, flags).m, root, w) ==
            if Huge(LinkTo(s.pool[0])) then Some(MegaPage(TableOf(s.pool[0]), w)) else Target(p, flags, w)
  {
    hide Present, Huge, Addr, IsFrame, Index, Load, LinkTo, Leaf, Forest, IsRoot, Walk, SamePage, Map4kb, SmallPage,
      MegaPage, NoHugeOnWalk, Missing, TableOf;
    var n := s.pool[0];
    LinkPresent(n);
    SamePageIffSameSlots(v, w);
    if Huge(LinkTo(n)) {
      HugePageTable(s, root, v, p, flags);
      StoreEffect(s.m, s.shape, root, v, 2, LinkTo(n), root, w);
      SameSlotsNarrow(v, w);
      TableIsAddr(n);
      assert WalkEntry(2, s.m, LinkTo(n), w) == Some(MegaPage(TableOf(n), w));
    } else {
      PlainPageTable(s, root, v, p, flags, w);
    }
  }

  lemma OneMissing(s: State, root: Frame, v: bv64)
    requires NoHugeOnWalk(s.m, root, v) && Missing(s.m, root, v) == 1
    ensures TableAt(s.m, root, v, 3).Some? && TableAt(s.m, root, v, 2).Some?
    ensures !Present(Load(s.m, TableAt(s.m, root, v, 2).value, Index(v, 2)))
  {
    hide Present, Huge, Addr, Index, Load;
    assert NoHugeAt(s.m, root, v, 2);
  }

  lemma HugePageTable(s: State, root: Frame, v: bv64, p: bv64, flags: bv64)
    requires Forest(s.m, s.shape) && IsRoot(s.shape, root) && NoHugeOnWalk(s.m, root, v) && Missing(s.m, root, v) == 1
    requires s.pool != [] && s.pool[0] != NULL && TableOf(s.pool[0]) !in s.shape && Huge(LinkTo(s.pool[0]))
    ensures TableAt(s.m, root, v, 2).Some?
    ensures forall w ::
              Walk(Map4kb(s, root, v, p, flags).m, root, w) ==
              Walk(Store(s.m, TableAt(s.m, root, v, 2).value, Index(v, 2), LinkTo(s.pool[0])), root, w)
  {
    hide Present, Huge, Addr, IsFrame, Index, Load, LinkTo, Leaf, Forest, IsRoot, Walk, NoHugeOnWalk, Missing;
    OneMissing(s, root, v);
    var f, n := TableAt(s.m, root, v, 2).value, s.pool[0];
    var m := Store(s.m, f, Index(v, 2), LinkTo(n));
    TableAtShaped(s.m, s.shape, root, v, 2);
    StoreKeepsForest(s.m, s.shape, f, Index(v, 2), LinkTo(n));
    assert Map4kb(s, root, v, p, flags).m == Store(m, TableOf(n), Index(v, 1), Leaf(p, flags)) by {
      MapsIntoOne(s, root, v, p, flags);
    }
    AgreeingForest(m, s.shape, Map4kb(s, root, v, p, flags).m);
  }

  lemma MapsIntoOne(s: State, root: Frame, v: bv64, p: bv64, flags: bv64)
    requires NoHugeOnWalk(s.m, root, v) && Missing(s.m, root, v) == 1 && s.pool != [] && s.pool[0] != NULL
    ensures TableAt(s.m, root, v, 2).Some?
    ensures
      var f, n := TableAt(s.m, root, v, 2).value, s.pool[0];
      Map4kb(s, root, v, p, flags).m ==
      Store(Store(s.m, f, Index(v, 2), LinkTo(n)), TableOf(n), Index(v, 1), Leaf(p, flags))
  {
    hide Present, Huge, Addr, Index, Load, LinkTo, Leaf, Missing, NoHugeOnWalk;
    OneMissing(s, root, v);
  }

  lemma PlainPageTable(s: State, root: Frame, v: bv64, p: bv64, flags: bv64, w: bv64)
    requires LacksPageTable(s, root, v) && SamePage(v, w)
    ensures Walk(Map4kb(s, root, v, p, flags).m, root, w) == Target(p, flags, w)
  {
    hide Present, Huge, Addr, IsFrame, Index, Load, LinkTo, Leaf, Forest, IsRoot, Walk, SamePage, Map4kb, SmallPage,
      NoHugeOnWalk, TableOf;
    var a, n := Linked(s, root, v), TableOf(s.pool[0]);
    LinkedForest(s, root, v);
    MapsIntoLinked(s, root, v, p, flags);
    LinkedTables(s, root, v, root, w);
    SamePageIffSameSlots(v, w);
    SameSlotsNarrow(v, w);
    StoreKeepsTables(a.m, a.shape, root, w, 1, n, Index(v, 1), Leaf(p, flags), 1);
    WalkFromTable(Map4kb(s, root, v, p, flags).m, root, w, 1);
  }

  // ----- up to three missing tables

  // The walk of v lacks at least one table. The frames for all but the last are fresh; the last may hold anything.
  ghost predicate LacksTables(s: State, root: Frame, v: bv64) {
    var n := Missing(s.m, root, v);
    && 1 <= n <= |s.pool| && Inv(s.(pool := s.pool[..n - 1])) && IsRoot(s.shape, root) && NoHugeOnWalk(s.m, root, v)
    && PlainLinks(s, root, v) && s.pool[n - 1] != NULL && Unused(s.(pool := s.pool[..n - 1]), TableOf(s.pool[n - 1]))
  }

  // The last frame.
  function LastNewTable(s: State, root: Frame, v: bv64): Frame
    requires 1 <= Missing(s.m, root, v) <= |s.pool|
  {
    TableOf(s.pool[Missing(s.m, root, v) - 1])
  }

  // A longer pool changes nothing in the descent but what is left of it.
  lemma {:induction false} DescentWithMore(s: State, root: Frame, v: bv64, k: nat, more: seq<Frame>)
    requires 1 <= k <= 4 && Inv(s) && IsRoot(s.shape, root) && NoHugeOnWalk(s.m, root, v)
    requires Made(s.m, root, v, k) <= |s.pool|
    requires forall t :: 0 <= t < Made(s.m, root, v, k) ==>
               Descends(Missing(s.m, root, v) + 1 - t, LinkTo(s.pool[t]))
    ensures
      var (c, f) := Descent(s, root, v, k);
      Descent(s.(pool := s.pool + more), root, v, k) == (c.(pool := c.pool + more), f)
    decreases 4 - k
  {
    hide Present, Huge, Addr, Index, Load, LinkTo, CreateOrGet, Missing, Descends, Inv, NoHugeOnWalk, IsRoot, Arrived;
    if k < 4 {
      DescentWithMore(s, root, v, k + 1, more);
      DescentReaches(s, root, v, k + 1);
      var (c, f) := Descent(s, root, v, k + 1);
      RoomLeft(s, root, v, k, c, f);
      CreateOrGetWithMore(c, f, Index(v, k + 1), k + 1, more);
    }
  }

  lemma RoomLeft(s: State, root: Frame, v: bv64, k: nat, c: State, f: Frame)
    requires 1 <= k <= 3 && Arrived(s, root, v, k + 1, c, f) && Made(s.m, root, v, k) <= |s.pool|
    ensures Present(Load(c.m, f, Index(v, k + 1))) || c.pool != []
  {
    hide Present, Huge, Addr, Index, Load, Missing, Inv, SameWalks, KeepsUnused, Reached, TableAt;
    if !Present(Load(c.m, f, Index(v, k + 1))) {
      ReachedAt(c, root, v, k + 1);
      NothingBelow(c.m, root, v, k + 1);
    }
  }

  lemma ReachedAt(u: State, root: Frame, v: bv64, k: nat)
    requires 1 <= k <= 4 && Reached(u, root, v, k)
    ensures TableAt(u.m, root, v, k).Some?
  {
  }

  lemma CreateOrGetWithMore(s: State, f: Frame, i: nat, k: nat, more: seq<Frame>)
    requires k >= 1 && (Present(Load(s.m, f, i)) || s.pool != [])
    ensures
      var (c, t) := CreateOrGet(s, f, i, k);
      var (c', t') := CreateOrGet(s.(pool := s.pool + more), f, i, k);
      (c', t') == (c.(pool := c.pool + more), t)
  {
    hide Present, Load, LinkTo, Descends;
    if s.pool != [] {
      assert (s.pool + more)[1..] == s.pool[1..] + more;
    }
  }

  lemma LacksFacts(s: State, root: Frame, v: bv64)
    requires LacksTables(s, root, v)
    ensures
      var n := Missing(s.m, root, v);
      1 <= n <= |s.pool| &&
      var q := s.(pool := s.pool[..n - 1]);
      && Inv(q) && IsRoot(q.shape, root) && NoHugeOnWalk(q.m, root, v) && Made(q.m, root, v, 2) == n - 1
      && (forall t :: 0 <= t < n - 1 ==> Descends(n + 1 - t, LinkTo(q.pool[t])))
      && s.pool[n - 1] != NULL && Descends(2, LinkTo(s.pool[n - 1])) && Unused(q, TableOf(s.pool[n - 1]))
  {
    hide Inv, NoHugeOnWalk, IsRoot, Descends, Unused, TableAt;
  }

  // The state in which only the last table is missing.
  lemma LastMissing(s: State, root: Frame, v: bv64, p: bv64, flags: bv64) returns (c: State)
    requires LacksTables(s, root, v)
    ensures LacksPageTable(c, root, v) && SameWalks(s, c) && TableOf(c.pool[0]) == LastNewTable(s, root, v)
    ensures Map4kb(c, root, v, p, flags) == Map4kb(s, root, v, p, flags)
    ensures forall j :: Load(c.m, LastNewTable(s, root, v), j) == Load(s.m, LastNewTable(s, root, v), j)
  {
    hide Present, Huge, Addr, Index, Load, LinkTo, CreateOrGet, Missing, Descends, Inv, Walk, TableOf, TableAt,
      SameWalks, NoHugeOnWalk, IsRoot, Unused, Reached, Leaf, Map4kb, Descent, LacksPageTable, LacksTables;
    LacksFacts(s, root, v);
    var n := Missing(s.m, root, v);
    var q := s.(pool := s.pool[..n - 1]);
    DescentReaches(q, root, v, 2);
    DescentWithMore(q, root, v, 2, s.pool[n - 1..]);
    assert s == q.(pool := q.pool + s.pool[n - 1..]);
    var d, f := Descent(q, root, v, 2).0, Descent(q, root, v, 2).1;
    assert d.pool == [];
    c := d.(pool := s.pool[n - 1..]);
    assert d.pool + s.pool[n - 1..] == c.pool;
    assert Descent(s, root, v, 2) == (c, f);
    LastLacks(d, root, v, c);
    MapFromLast(s, root, v, p, flags, c);
    SameWalksAnyPool(q, d, s, c);
    assert c.pool[0] == s.pool[n - 1];
  }

  lemma LastLacks(d: State, root: Frame, v: bv64, c: State)
    requires Reached(d, root, v, 2) && Missing(d.m, root, v) == 1 && c.m == d.m && c.shape == d.shape
    requires c.pool != [] && c.pool[0] != NULL && Unused(d, TableOf(c.pool[0])) && Descends(2, LinkTo(c.pool[0]))
    ensures LacksPageTable(c, root, v)
  {
    hide Present, Huge, Addr, Index, Load, LinkTo, Forest, FreshPool, TableOf;
    assert TableAt(d.m, root, v, 3).Some?;
  }

  lemma MapFromLast(s: State, root: Frame, v: bv64, p: bv64, flags: bv64, c: State)
    requires TableAt(c.m, root, v, 2).Some? && Descent(s, root, v, 2) == (c, TableAt(c.m, root, v, 2).value)
    ensures Map4kb(c, root, v, p, flags) == Map4kb(s, root, v, p, flags)
  {
    hide Present, Huge, Addr, Index, Load, LinkTo, CreateOrGet, Leaf, Map4kb, TableAt;
    DescentFollows(c, root, v, 2);
    MapDescends(s, root, v, p, flags);
    MapDescends(c, root, v, p, flags);
    assert Descent(c, root, v, 1) == Descent(s, root, v, 1);
  }

  lemma SameWalksAnyPool(q: State, d: State, s: State, c: State)
    requires SameWalks(q, d) && s.m == q.m && s.shape == q.shape && c.m == d.m && c.shape == d.shape
    ensures SameWalks(s, c)
  {
    hide Walk, IsRoot;
  }

  // With any number of missing tables, the frames of all but the last fresh, mapping changes no page but v's exactly
  // when no other word of the frame that becomes the page table has the present bit.
  lemma DirtyTableExact(s: State, root: Frame, v: bv64, p: bv64, flags: bv64)
    requires LacksTables(s, root, v)
    ensures (forall r, w :: IsRoot(s.shape, r) && !(r == root && SamePage(v, w)) ==>
               Walk(Map4kb(s, root, v, p, flags).m, r, w) == Walk(s.m, r, w))
       <==> (forall i :: 0 <= i < 512 && i != Index(v, 1) ==> !Present(Load(s.m, LastNewTable(s, root, v), i)))
  {
    hide Present, Index, Load, Walk, SamePage, SameSlots, Map4kb, LacksTables, LacksPageTable, LastNewTable, TableOf,
      IsRoot, Missing;
    var c := LastMissing(s, root, v, p, flags);
    var m' := Map4kb(s, root, v, p, flags).m;
    LacksRoot(s, root, v);
    if forall r, w :: IsRoot(s.shape, r) && !(r == root && SamePage(v, w)) ==> Walk(m', r, w) == Walk(s.m, r, w) {
      forall i | 0 <= i < 512 && i != Index(v, 1)
        ensures !Present(Load(s.m, LastNewTable(s, root, v), i))
      {
        var w := AddressInRegion(v, i);
        SamePageIffIndices(v, w);
        DirtyWalks(c, root, v, p, flags, root, w);
      }
    }
    if forall i :: 0 <= i < 512 && i != Index(v, 1) ==> !Present(Load(s.m, LastNewTable(s, root, v), i)) {
      forall r, w | IsRoot(s.shape, r) && !(r == root && SamePage(v, w))
        ensures Walk(m', r, w) == Walk(s.m, r, w)
      {
        DirtyWalks(c, root, v, p, flags, r, w);
      }
    }
  }

  lemma LacksRoot(s: State, root: Frame, v: bv64)
    requires LacksTables(s, root, v)
    ensures IsRoot(s.shape, root) && 1 <= Missing(s.m, root, v) <= |s.pool|
  {
    hide Inv, NoHugeOnWalk, IsRoot, Descends, Unused, Missing;
  }
}
