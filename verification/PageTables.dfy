// The page-table code over a mutable memory. The root register is a parameter.
module PageTables {
  import opened Wrappers
  import opened Numbers
  import opened PageEntry
  import opened Paging
  import opened Mapping
  import opened MappingLaws
  import opened MapEntries
  import opened Cloning
  import opened PageNumbers

  class AddressSpaces {
    var mem: Memory
    var pool: seq<Frame>
    ghost var shape: Shape

    constructor (mem: Memory, pool: seq<Frame>, ghost shape: Shape)
      ensures S() == State(mem, pool, shape)
    {
      this.mem, this.pool, this.shape := mem, pool, shape;
    }

    ghost function S(): State
      reads this
    {
      State(mem, pool, shape)
    }

    // 0 stands for an address that is not mapped.
    method Translate(cr3: bv64, v: bv64) returns (physical: bv64)
      ensures physical == Walk(mem, Pointer(Entry(cr3)), v).GetOr(0)
      ensures Value(physical) == Translation(mem, 4, RoundDown(Value(cr3), 0x1000), Value(v)).GetOr(0)
    {
      hide Value, Translation, RoundDown, Addr, Present, Huge, Load, Index, Pointer, MegaPage, GigaPage, SmallPage;
      ReadsFromRegister(mem, cr3, v);
      var pml4 := Pointer(Entry(cr3));
      var e4 := Load(mem, pml4, Index(v, 4));
      if !Present(e4) {
        return 0;
      }
      var e3 := Load(mem, Addr(e4), Index(v, 3));
      if !Present(e3) {
        return 0;
      }
      if Huge(e3) {
        return GigaPage(Addr(e3), v);
      }
      var e2 := Load(mem, Addr(e3), Index(v, 2));
      if !Present(e2) {
        return 0;
      }
      if Huge(e2) {
        return MegaPage(Addr(e2), v);
      }
      var e1 := Load(mem, Addr(e2), Index(v, 1));
      if !Present(e1) {
        return 0;
      }
      return SmallPage(Addr(e1), v);
    }

    // allocate_memory(PAGE_SIZE) or aligned_alloc(PAGE_SIZE, PAGE_SIZE): NULL when there is none.
    method Allocate() returns (f: Frame)
      modifies this`pool
      ensures f == if old(pool) == [] then NULL else old(pool)[0]
      ensures pool == if f == NULL then old(pool) else old(pool)[1..]
    {
      if pool == [] || pool[0] == NULL {
        return NULL;
      }
      f := pool[0];
      pool := pool[1..];
    }

    method CreateOrGetTable(parent: Frame, i: nat, ghost level: nat) returns (t: Frame)
      requires level >= 1
      modifies this
      ensures (S(), t) == CreateOrGet(old(S()), parent, i, level)
    {
      if !Present(Load(mem, parent, i)) {
        var table := Allocate();
        if table == NULL {
          return NULL;
        }
        mem := Store(mem, parent, i, LinkTo(table));
        if parent in shape && Descends(level, LinkTo(table)) {
          shape := shape[Addr(LinkTo(table)) := Child(level - 1, parent, i)];
        }
      }
      return Addr(Load(mem, parent, i));
    }

    method Map4kbPage(cr3: bv64, v: bv64, p: bv64, flags: bv64)
      modifies this
      ensures S() == Map4kb(old(S()), Pointer(Entry(cr3)), v, p, flags)
      ensures
        var root, s := Pointer(Entry(cr3)), old(S());
        old(Inv(S()) && IsRoot(S().shape, root) && MapSafe(S(), root, v)) ==>
          Inv(S()) && forall w :: Walk(mem, root, w) == AfterMap(s, root, v, p, flags, root, w)
      ensures
        var root, s := Pointer(Entry(cr3)), old(S());
        old(Inv(S()) && IsRoot(S().shape, root) && MapSafe(S(), root, v)) && ChangeLevel(s, root, v) == 1 ==>
          && LeafHolds(mem, root, v, p, flags)
          && (forall j :: 2 <= j <= 4 ==> EntryMade(s, root, v, mem, j))
          && OnlyWritten(s, root, v, 0, mem)
    {
      hide LeafHolds, EntryMade, OnlyWritten, ChangeLevel;
      hide Present, Huge, Addr, Load, Index, Leaf, Inv, IsRoot, MapSafe, AfterMap, Walk, CreateOrGet, Pointer, Descends;
      var pml4 := Pointer(Entry(cr3));
      ghost var s := S();
      var pdpt := CreateOrGetTable(pml4, Index(v, 4), 4);
      var pd := CreateOrGetTable(pdpt, Index(v, 3), 3);
      var pt := CreateOrGetTable(pd, Index(v, 2), 2);
      mem := Store(mem, pt, Index(v, 1), Leaf(p, flags));
      if Inv(s) && IsRoot(s.shape, pml4) && MapSafe(s, pml4, v) {
        MapKeepsInv(s, pml4, v, p, flags);
        forall w
          ensures Walk(mem, pml4, w) == AfterMap(s, pml4, v, p, flags, pml4, w)
        {
          MapEffect(s, pml4, v, p, flags, pml4, w);
        }
        if ChangeLevel(s, pml4, v) == 1 {
          MapWritesExact(s, pml4, v, p, flags);
        }
      }
    }

    method UnmapPage(cr3: bv64, v: bv64)
      modifies this`mem
      ensures mem == Unmap(old(mem), Pointer(Entry(cr3)), v)
      ensures forall f, i :: Load(mem, f, i) == Load(old(mem), f, i) || Load(mem, f, i).bits == 0
      ensures old(Unmappable(S(), Pointer(Entry(cr3)), v)) ==> Inv(S())
      ensures old(Unmappable(S(), Pointer(Entry(cr3)), v)) ==>
                (Walk(mem, Pointer(Entry(cr3)), v) == None <==>
                 old(PageLevel(mem, Pointer(Entry(cr3)), v) == 1 || TakenForLarge(mem, Pointer(Entry(cr3)), v)))
    {
      hide Present, Huge, Large, Addr, Load, Index, Inv, IsRoot, DataApart, Walk, Pointer, PageLevel, TakenForLarge;
      UnmapWrites(mem, Pointer(Entry(cr3)), v);
      if Unmappable(S(), Pointer(Entry(cr3)), v) {
        UnmapKeepsInv(S(), Pointer(Entry(cr3)), v);
        UnmapReaches(S(), Pointer(Entry(cr3)), v);
      }
      var pml4 := Pointer(Entry(cr3));
      var e4 := Load(mem, pml4, Index(v, 4));
      if !Present(e4) {
        return;
      }
      var pdpt := Addr(e4);
      var e3 := Load(mem, pdpt, Index(v, 3));
      if !Present(e3) {
        return;
      }
      var pd := Addr(e3);
      var e2 := Load(mem, pd, Index(v, 2));
      if Large(e2) {
        mem := Store(mem, pd, Index(v, 2), ZERO);
        return;
      }
      if !Present(e2) {
        return;
      }
      mem := Store(mem, Addr(e2), Index(v, 1), ZERO);
    }

    // The loop over the entries of table f, which is a copy of an old table; the loops over the tables below it
    // are the recursive calls.
    method FillTable(level: nat, f: Frame) returns (status: Status)
      requires 1 <= level <= 4
      modifies this
      ensures Progress(S(), status) == Fill(level, old(S()), f, 0)
      decreases level
    {
      hide Load, Copies, Pointer, IsFrame;
      if level == 1 {
        return Cloned;
      }
      var i := 0;
      while i < 512
        invariant i <= 512
        invariant Fill(level, S(), f, i) == Fill(level, old(S()), f, 0)
      {
        var e := Load(mem, f, i);
        if Copies(level, e) {
          ghost var s := S();
          var c := Allocate();
          if c == NULL {
            return OutOfMemory;
          }
          if !IsFrame(Pointer(e)) {
            return Fault;
          }
          mem := CopyTable(mem, Pointer(e), c);
          mem := Store(mem, f, i, Relink(c, e));
          shape := shape[c := Child(level - 1, f, i)];
          assert S() == CopyInto(level, s, f, i);
          status := FillTable(level - 1, c);
          if status != Cloned {
            return;
          }
        }
        i := i + 1;
      }
      return Cloned;
    }

    // NULL when the clone was given up.
    method CloneHigherHalf(original: Frame) returns (root: Frame)
      modifies this
      ensures S() == Cloning.CloneHigherHalf(old(S()), original).s
      ensures root == if Cloning.CloneHigherHalf(old(S()), original).status == Cloned then old(pool)[0] else NULL
      ensures root != NULL && old(GoodPool(S()) && TablesOutsidePool(S(), original)) ==>
                forall v :: !old(GigaMapped(mem, original, v)) ==> Walk(mem, root, v) == old(Walk(mem, original, v))
      ensures root != NULL && old(GoodPool(S()) && TablesOutsidePool(S(), original)) ==>
                forall v, k :: 1 <= k <= 4 ==> EntryKept(old(mem), original, mem, root, v, k)
    {
      hide Load, Index, GoodPool, TablesOutsidePool, GigaMapped, Walk, Fill, CopyTable, EntryKept;
      ghost var s := S();
      root := Allocate();
      if root == NULL {
        return;
      }
      mem := CopyTable(mem, original, root);
      shape := shape[root := Top];
      assert S() == NewRoot(s, original);
      var status := FillTable(4, root);
      if status != Cloned {
        shape := s.shape;
        root := NULL;
        return;
      }
      if GoodPool(s) && TablesOutsidePool(s, original) {
        forall v | !GigaMapped(s.m, original, v)
          ensures Walk(mem, root, v) == Walk(s.m, original, v)
        {
          ClonePreserves(s, original, v);
        }
        forall v, k | 1 <= k <= 4
          ensures EntryKept(s.m, original, mem, root, v, k)
        {
          CloneKeepsEntries(s, original, v, k);
        }
      }
    }
  }
}
