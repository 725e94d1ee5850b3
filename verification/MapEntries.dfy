// The words that map_4kb_page writes: a leaf, and a link to each new table.
module MapEntries {
  import opened Wrappers
  import opened PageEntry
  import opened Paging
  import opened Mapping
  import opened MappingCases
  import opened MappingLaws

  // What the entry of v at level j of m is after the descent: the entry that was there if it led to a table, and
  // otherwise the allocated address with the present and the writable bit.
  ghost predicate EntryMade(s: State, root: Frame, v: bv64, m: Memory, j: nat)
    requires 1 <= j <= 4
  {
    var n := Missing(s.m, root, v);
    TableAt(m, root, v, j).Some? &&
    var f := TableAt(m, root, v, j).value;
    if j > n + 1 then TableAt(s.m, root, v, j) == Some(f) && Load(m, f, Index(v, j)) == Load(s.m, f, Index(v, j))
    else n + 1 - j < |s.pool| && IsLink(Load(m, f, Index(v, j)), s.pool[n + 1 - j])
  }

  predicate IsLink(e: Entry, f: Frame) {
    e.bits == f.base | 0x3
  }

  // Slot i of g is the entry of v at a level above k that led to no table.
  ghost predicate Written(s: State, root: Frame, v: bv64, k: nat, m: Memory, g: Frame, i: nat) {
    exists j :: k < j <= 4 && j <= Missing(s.m, root, v) + 1 && Reads(m, root, v, j, g, i)
  }

  ghost predicate OnlyWritten(s: State, root: Frame, v: bv64, k: nat, m: Memory) {
    forall g, i :: Load(m, g, i) == Load(s.m, g, i) || Written(s, root, v, k, m, g, i)
  }

  ghost predicate Linked(s: State, root: Frame, v: bv64, k: nat, m: Memory) {
    && (forall j :: k < j <= 4 ==> EntryMade(s, root, v, m, j))
    && OnlyWritten(s, root, v, k, m)
  }

  lemma LinkIsLink(f: Frame)
    ensures IsLink(LinkTo(f), f)
  {
  }

  lemma LinkGoesOn(s: State, root: Frame, v: bv64, k: nat, c: State, f: Frame)
    requires 1 <= k <= 3 && Arrived(s, root, v, k + 1, c, f) && Linked(s, root, v, k + 1, c.m)
    requires (c, f) == Descent(s, root, v, k + 1)
    requires Made(s.m, root, v, k) <= |s.pool| && NoHugeOnWalk(s.m, root, v)
    ensures Linked(s, root, v, k, CreateOrGet(c, f, Index(v, k + 1), k + 1).0.m)
  {
    hide Present, Huge, Addr, IsFrame, Index, Load, LinkTo, Missing, Descends, Inv, Walk, TableOf, TableAt, NoHugeAt,
      SameWalks, IsRoot, Unused, KeepsUnused, Descent, IsLink, Written, EntryMade;
    var n := Missing(s.m, root, v);
    if Present(Load(c.m, f, Index(v, k + 1))) {
      SomethingBelow(c, root, v, k + 1);
      Untouched(s, root, v, k, c, f);
    } else {
      NothingBelow(c.m, root, v, k + 1);
      ArrivedParts(c, root, v, k + 1);
      FreshNotNull(c);
      assert c.pool[0] == s.pool[n - k];
      NewLink(s, root, v, k, c, f, c.pool[0]);
    }
  }

  lemma ArrivedParts(c: State, root: Frame, v: bv64, k: nat)
    requires 1 <= k <= 4 && Reached(c, root, v, k)
    ensures Inv(c) && Forest(c.m, c.shape) && IsRoot(c.shape, root)
  {
    hide Forest, FreshPool, TableAt, NoHugeAt;
  }

  lemma Untouched(s: State, root: Frame, v: bv64, k: nat, c: State, f: Frame)
    requires 1 <= k <= 3 && Missing(s.m, root, v) < k
    requires (c, f) == Descent(s, root, v, k + 1)
    ensures Linked(s, root, v, k, c.m)
  {
    hide Present, Huge, Addr, IsFrame, Index, Load, LinkTo, Descends;
    ReachedTables(s.m, root, v, k);
    DescentFollows(s, root, v, k + 1);
  }

  // The tables of the walk that are not missing.
  lemma ReachedTables(m: Memory, root: Frame, v: bv64, k: nat)
    requires 1 <= k <= 4 && Missing(m, root, v) < k
    ensures forall j :: k <= j <= 4 ==> TableAt(m, root, v, j).Some?
  {
    hide Present, Huge, Addr, IsFrame, Index, Load, LinkTo, Descends;
  }

  lemma NewLink(s: State, root: Frame, v: bv64, k: nat, c: State, f: Frame, n: Frame)
    requires 1 <= k <= 3 && Linked(s, root, v, k + 1, c.m)
    requires Forest(c.m, c.shape) && IsRoot(c.shape, root) && TableAt(c.m, root, v, k + 1) == Some(f)
    requires k <= Missing(s.m, root, v) && Missing(s.m, root, v) - k < |s.pool|
    requires n == s.pool[Missing(s.m, root, v) - k]
    ensures Linked(s, root, v, k, Store(c.m, f, Index(v, k + 1), LinkTo(n)))
  {
    hide Present, Huge, Addr, IsFrame, Index, Load, LinkTo, Missing, Descends, TableAt, IsRoot, IsLink, Forest;
    var m' := Store(c.m, f, Index(v, k + 1), LinkTo(n));
    TableAtShaped(c.m, c.shape, root, v, k + 1);
    LinkIsLink(n);
    forall j | k < j <= 4
      ensures TableAt(m', root, v, j) == TableAt(c.m, root, v, j)
      ensures EntryMade(s, root, v, m', j)
    {
      StoreKeepsTables(c.m, c.shape, root, v, k + 1, f, Index(v, k + 1), LinkTo(n), j);
      if j > k + 1 {
        assert EntryMade(s, root, v, c.m, j);
        TableAtShaped(c.m, c.shape, root, v, j);
      }
    }
    WrittenBefore(s, root, v, k, c.m, m', f);
  }

  // A store at the entry of v on level k + 1, which was not present, adds that entry to those written.
  lemma WrittenBefore(s: State, root: Frame, v: bv64, k: nat, m: Memory, m': Memory, f: Frame)
    requires k <= 3 && OnlyWritten(s, root, v, k + 1, m) && k <= Missing(s.m, root, v)
    requires forall j :: k < j <= 4 ==> TableAt(m', root, v, j) == TableAt(m, root, v, j)
    requires TableAt(m, root, v, k + 1) == Some(f)
    requires forall g, i :: g != f || i != Index(v, k + 1) ==> Load(m', g, i) == Load(m, g, i)
    ensures OnlyWritten(s, root, v, k, m')
  {
    hide Index, Load, Missing, TableAt;
    forall g, i
      ensures Load(m', g, i) == Load(s.m, g, i) || Written(s, root, v, k, m', g, i)
    {
      if g == f && i == Index(v, k + 1) {
        assert Reads(m', root, v, k + 1, g, i);
      } else if Written(s, root, v, k + 1, m, g, i) {
        var j :| k + 1 < j <= 4 && j <= Missing(s.m, root, v) + 1 && Reads(m, root, v, j, g, i);
        assert Reads(m', root, v, j, g, i);
      } else {
        assert Load(m, g, i) == Load(s.m, g, i);
      }
    }
  }

  lemma {:induction false} DescentLinks(s: State, root: Frame, v: bv64, k: nat)
    requires 1 <= k <= 4 && Mappable(s, root, v)
    ensures Arrived(s, root, v, k, Descent(s, root, v, k).0, Descent(s, root, v, k).1)
    ensures Linked(s, root, v, k, Descent(s, root, v, k).0.m)
    decreases 4 - k
  {
    hide Present, Huge, Index, LinkTo, CreateOrGet, Missing, Descends, Inv, NoHugeAt, IsRoot, Arrived, EntryMade, Load,
      Written;
    DescentReaches(s, root, v, k);
    if k < 4 {
      DescentLinks(s, root, v, k + 1);
      var (c, f) := Descent(s, root, v, k + 1);
      LinkGoesOn(s, root, v, k, c, f);
    }
  }

  // ----- the leaf

  // Bits 0-11 and 52-63: the bits of an entry that are no address bits.
  function Rights(b: bv64): bv64 {
    b & 0xFFF0_0000_0000_0FFF
  }

  // The leaf is the address with the flags. For plain arguments it leads to the address, and every other bit of it is
  // that of the flags.
  predicate IsLeaf(e: Entry, p: bv64, flags: bv64) {
    e.bits == p | flags && (PlainMapping(p, flags) ==> Addr(e) == Frame(p) && Rights(e.bits) == Rights(flags))
  }

  lemma LeafIsLeaf(p: bv64, flags: bv64)
    ensures IsLeaf(Leaf(p, flags), p, flags)
  {
    hide PlainMapping, Addr, Rights;
    if PlainMapping(p, flags) {
      LeafAddr(p, flags);
      LeafRights(p, flags);
    }
  }

  lemma LeafRights(p: bv64, flags: bv64)
    requires PlainMapping(p, flags)
    ensures Rights(Leaf(p, flags).bits) == Rights(flags)
  {
    OrRights(p, flags);
  }

  lemma OrRights(p: bv64, flags: bv64)
    requires p & ADDRESS_MASK == p
    ensures Rights(p | flags) == Rights(flags)
  {
  }

  // Where a mapping takes effect, the entry of v holds the address and the flags it was given.
  ghost predicate LeafHolds(m: Memory, root: Frame, v: bv64, p: bv64, flags: bv64) {
    TableAt(m, root, v, 1).Some? && IsLeaf(Load(m, TableAt(m, root, v, 1).value, Index(v, 1)), p, flags)
  }

  // After a mapping that takes effect the entry of v is the page's address with the flags. Above it, an entry that
  // led to a table is as before, and the others are the allocated addresses with the present and the writable bit.
  // No other word is written.
  lemma MapWrites(s: State, root: Frame, v: bv64, p: bv64, flags: bv64)
    requires Mappable(s, root, v)
    ensures
      var m' := Map4kb(s, root, v, p, flags).m;
      && (forall j :: 2 <= j <= 4 ==> EntryMade(s, root, v, m', j))
      && LeafHolds(m', root, v, p, flags)
      && OnlyWritten(s, root, v, 0, m')
  {
    hide Present, Huge, Index, LinkTo, CreateOrGet, Missing, Descends, NoHugeAt, IsRoot, EntryMade, Load,
      Map4kb, Forest, TableAt, FreshPool, Descent, Leaf, IsLeaf;
    DescentLinks(s, root, v, 1);
    MapDescends(s, root, v, p, flags);
    var (c, f) := Descent(s, root, v, 1);
    LeafIsLeaf(p, flags);
    LeafWritten(s, root, v, c, f, Leaf(p, flags));
  }

  lemma LeafWritten(s: State, root: Frame, v: bv64, c: State, f: Frame, e: Entry)
    requires Linked(s, root, v, 1, c.m)
    requires Forest(c.m, c.shape) && IsRoot(c.shape, root) && TableAt(c.m, root, v, 1) == Some(f)
    ensures
      var m' := Store(c.m, f, Index(v, 1), e);
      && (forall j :: 2 <= j <= 4 ==> EntryMade(s, root, v, m', j))
      && TableAt(m', root, v, 1) == Some(f)
      && OnlyWritten(s, root, v, 0, m')
  {
    hide Present, Huge, Addr, IsFrame, Index, Load, LinkTo, Missing, Descends, TableAt, IsRoot, IsLink, Forest;
    var m' := Store(c.m, f, Index(v, 1), e);
    TableAtShaped(c.m, c.shape, root, v, 1);
    forall j | 1 <= j <= 4
      ensures TableAt(m', root, v, j) == TableAt(c.m, root, v, j)
      ensures j >= 2 ==> EntryMade(s, root, v, m', j)
    {
      StoreKeepsTables(c.m, c.shape, root, v, 1, f, Index(v, 1), e, j);
      if j > 1 {
        assert EntryMade(s, root, v, c.m, j);
        TableAtShaped(c.m, c.shape, root, v, j);
      }
    }
    WrittenBefore(s, root, v, 0, c.m, m', f);
  }

  // The same of every mapping that takes effect.
  lemma MapWritesExact(s: State, root: Frame, v: bv64, p: bv64, flags: bv64)
    requires Inv(s) && IsRoot(s.shape, root) && MapSafe(s, root, v) && ChangeLevel(s, root, v) == 1
    ensures
      var m' := Map4kb(s, root, v, p, flags).m;
      && LeafHolds(m', root, v, p, flags)
      && (forall j :: 2 <= j <= 4 ==> EntryMade(s, root, v, m', j))
      && OnlyWritten(s, root, v, 0, m')
  {
    hide Inv, IsRoot, Map4kb, DataSafe, NullEmpty, Missing, LinkLevel, PageLevel, TableAt, NoHugeOnWalk, Index, Load,
      PlainLinks, LeafHolds, EntryMade, OnlyWritten;
    NoHugeNoData(s.m, root, v);
    PlainLevel(s, root, v);
    MapWrites(s, root, v, p, flags);
  }

  // ----- unmap_page

  // The word that unmap_page writes is 0: all bits of the entry are cleared. No other word changes.
  lemma UnmapWrites(m: Memory, root: Frame, v: bv64)
    ensures
      var m', k := Unmap(m, root, v), ClearedLevel(m, root, v);
      && (k > 0 ==> Load(m', TableAt(m, root, v, k).value, Index(v, k)).bits == 0)
      && (forall g, i :: Load(m', g, i) == Load(m, g, i) || Load(m', g, i).bits == 0)
      && (forall g, i ::
            Load(m', g, i) == Load(m, g, i) || g in Data(m, root, v) || (k > 0 && Reads(m, root, v, k, g, i)))
  {
    hide Index, Load, Addr, Present, Huge, Large, TableAt, PageLevel, Data;
    UnmapStores(m, root, v);
    UnmapZeroWords(m, root, v);
  }

  lemma UnmapZeroWords(m: Memory, root: Frame, v: bv64)
    ensures forall g, i :: Load(Unmap(m, root, v), g, i) == Load(m, g, i) || Load(Unmap(m, root, v), g, i).bits == 0
  {
    hide Index, Load, Addr, Present, Huge, Large;
  }
}
