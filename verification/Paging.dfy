// The four-level walk, and the trees of tables that it goes through.
module Paging {
  import opened Wrappers
  import opened PageEntry

  datatype Cell = Cell(frame: Frame, slot: nat)

  // Physical memory, identity mapped, one entry per (frame, slot). A word never written reads 0.
  type Memory = map<Cell, Entry>

  function Load(m: Memory, f: Frame, i: nat): Entry {
    if Cell(f, i) in m then m[Cell(f, i)] else ZERO
  }

  function Store(m: Memory, f: Frame, i: nat, e: Entry): (m': Memory)
    ensures Load(m', f, i) == e
    ensures forall g, j :: g != f || j != i ==> Load(m', g, j) == Load(m, g, j)
  {
    m[Cell(f, i) := e]
  }

  // ----- the walk

  function WalkEntry(level: nat, m: Memory, e: Entry, v: bv64): Option<bv64>
    requires 1 <= level <= 4
    decreases level
  {
    if !Present(e) then None
    else if level == 1 then Some(SmallPage(Addr(e), v))
    else if level == 2 && Huge(e) then Some(MegaPage(Addr(e), v))
    else if level == 3 && Huge(e) then Some(GigaPage(Addr(e), v))
    else WalkEntry(level - 1, m, Load(m, Addr(e), Index(v, level - 1)), v)
  }

  function Walk(m: Memory, root: Frame, v: bv64): Option<bv64> {
    WalkEntry(4, m, Load(m, root, Index(v, 4)), v)
  }

  // An entry of a level-`level` table that the walk follows to another table.
  predicate Descends(level: nat, e: Entry) {
    level >= 2 && Present(e) && !(level <= 3 && Huge(e))
  }

  // The table of level k on the walk of v.
  function TableAt(m: Memory, root: Frame, v: bv64, k: nat): Option<Frame>
    requires 1 <= k <= 4
    decreases 4 - k
  {
    if k == 4 then Some(root)
    else
      match TableAt(m, root, v, k + 1)
      case None => None
      case Some(g) =>
        var e := Load(m, g, Index(v, k + 1));
        if Descends(k + 1, e) then Some(Addr(e)) else None
  }

  // ----- the shape of a set of address spaces

  datatype Place = Top | Child(lvl: nat, parent: Frame, slot: nat) {
    function Level(): nat {
      if Top? then 4 else lvl
    }
  }

  type Shape = map<Frame, Place>

  // Slot i of table f leads to no table, or to one whose only place is that slot.
  ghost predicate SlotShaped(m: Memory, shape: Shape, f: Frame, i: nat)
    requires f in shape
  {
    var e := Load(m, f, i);
    var k := shape[f].Level();
    Descends(k, e) ==> Addr(e) in shape && shape[Addr(e)] == Child(k - 1, f, i)
  }

  ghost predicate Forest(m: Memory, shape: Shape) {
    && (forall f :: f in shape ==> IsFrame(f) && 1 <= shape[f].Level() <= 4)
    && (forall f, i :: f in shape && 0 <= i < 512 ==> SlotShaped(m, shape, f, i))
  }

  ghost predicate IsRoot(shape: Shape, root: Frame) {
    root in shape && shape[root] == Top
  }

  lemma TableAtShaped(m: Memory, shape: Shape, root: Frame, v: bv64, k: nat)
    requires Forest(m, shape) && IsRoot(shape, root) && 1 <= k <= 4
    requires TableAt(m, root, v, k).Some?
    ensures TableAt(m, root, v, k).value in shape
    ensures shape[TableAt(m, root, v, k).value].Level() == k
    decreases 4 - k
  {
    hide Present, Huge, Addr, IsFrame, Index, Load;
    if k < 4 {
      TableAtShaped(m, shape, root, v, k + 1);
      var g := TableAt(m, root, v, k + 1).value;
      assert SlotShaped(m, shape, g, Index(v, k + 1));
    }
  }

  lemma TableAtPlace(m: Memory, shape: Shape, root: Frame, v: bv64, k: nat)
    requires Forest(m, shape) && IsRoot(shape, root) && 1 <= k <= 3
    requires TableAt(m, root, v, k).Some?
    ensures TableAt(m, root, v, k).value in shape
    ensures TableAt(m, root, v, k + 1).Some?
    ensures shape[TableAt(m, root, v, k).value] == Child(k, TableAt(m, root, v, k + 1).value, Index(v, k + 1))
  {
    hide Present, Huge, Addr, IsFrame, Index, Load;
    TableAtShaped(m, shape, root, v, k + 1);
    var g := TableAt(m, root, v, k + 1).value;
    assert SlotShaped(m, shape, g, Index(v, k + 1));
  }

  // A table belongs to one root and is reached along one path of indices.
  lemma {:induction false} UniquePath(m: Memory, shape: Shape, root: Frame, v: bv64, root': Frame, w: bv64, k: nat)
    requires Forest(m, shape) && IsRoot(shape, root) && IsRoot(shape, root') && 1 <= k <= 4
    requires TableAt(m, root, v, k).Some? && TableAt(m, root, v, k) == TableAt(m, root', w, k)
    ensures root == root'
    ensures forall j :: k < j <= 4 ==> Index(v, j) == Index(w, j)
    decreases 4 - k
  {
    hide Present, Huge, Addr, IsFrame, Index, Load, Forest, IsRoot;
    if k < 4 {
      TableAtPlace(m, shape, root, v, k);
      TableAtPlace(m, shape, root', w, k);
      UniquePath(m, shape, root, v, root', w, k + 1);
    }
  }

  lemma WalkFromTable(m: Memory, root: Frame, v: bv64, k: nat)
    requires 1 <= k <= 4 && TableAt(m, root, v, k).Some?
    ensures Walk(m, root, v) == WalkEntry(k, m, Load(m, TableAt(m, root, v, k).value, Index(v, k)), v)
    decreases 4 - k
  {
    hide Present, Huge, Addr, IsFrame, Index, Load;
    if k < 4 {
      WalkFromTable(m, root, v, k + 1);
    }
  }

  // ----- one store

  // The walk of w reads slot i of table f at level k.
  predicate Reads(m: Memory, root: Frame, w: bv64, k: nat, f: Frame, i: nat)
    requires 1 <= k <= 4
  {
    TableAt(m, root, w, k) == Some(f) && Index(w, k) == i
  }

  // A store into a level-k table moves no table of the walks that do not read the stored slot.
  lemma StoreKeepsTables(m: Memory, shape: Shape, root: Frame, w: bv64, k: nat, f: Frame, i: nat, e: Entry, j: nat)
    requires Forest(m, shape) && IsRoot(shape, root) && 1 <= k <= 4 && 1 <= j <= 4
    requires f in shape && shape[f].Level() == k
    requires !Reads(m, root, w, k, f, i) || j >= k
    ensures TableAt(Store(m, f, i, e), root, w, j) == TableAt(m, root, w, j)
    decreases 4 - j
  {
    hide Present, Huge, Addr, IsFrame, Index, Load;
    if j < 4 {
      StoreKeepsTables(m, shape, root, w, k, f, i, e, j + 1);
      if TableAt(m, root, w, j + 1).Some? {
        TableAtShaped(m, shape, root, w, j + 1);
        var g, x := TableAt(m, root, w, j + 1).value, Index(w, j + 1);
        assert j + 1 == k ==> g != f || x != i;
        assert Load(Store(m, f, i, e), g, x) == Load(m, g, x);
      }
    }
  }

  lemma StoreKeepsWalk(m: Memory, shape: Shape, root: Frame, w: bv64, k: nat, f: Frame, i: nat, e: Entry)
    requires Forest(m, shape) && IsRoot(shape, root) && 1 <= k <= 4
    requires f in shape && shape[f].Level() == k
    requires !Reads(m, root, w, k, f, i)
    ensures Walk(Store(m, f, i, e), root, w) == Walk(m, root, w)
  {
    hide Present, Huge, Addr, IsFrame, Index, Load, Forest, IsRoot;
    var m' := Store(m, f, i, e);
    var j := LastTable(m, root, w);
    StoreKeepsTables(m, shape, root, w, k, f, i, e, j);
    WalkFromTable(m, root, w, j);
    WalkFromTable(m', root, w, j);
    TableAtShaped(m, shape, root, w, j);
  }

  // The lowest level at which the walk of w has a table.
  lemma LastTable(m: Memory, root: Frame, w: bv64) returns (j: nat)
    ensures 1 <= j <= 4 && TableAt(m, root, w, j).Some?
    ensures !Descends(j, Load(m, TableAt(m, root, w, j).value, Index(w, j)))
  {
    hide Present, Huge, Addr, IsFrame, Index, Load;
    j := 4;
    while j > 1 && Descends(j, Load(m, TableAt(m, root, w, j).value, Index(w, j)))
      invariant 1 <= j <= 4 && TableAt(m, root, w, j).Some?
    {
      j := j - 1;
    }
  }

  // ----- who reads a slot

  // v and w agree on the indices of levels k and above: their walks read the same slot at level k.
  predicate SameSlots(v: bv64, w: bv64, k: nat)
    requires 1 <= k <= 4
  {
    forall j :: k <= j <= 4 ==> Index(v, j) == Index(w, j)
  }

  lemma SamePageIffSameSlots(v: bv64, w: bv64)
    ensures SamePage(v, w) <==> SameSlots(v, w, 1)
  {
    hide Index, SamePage;
    SamePageIffIndices(v, w);
  }

  lemma SameSlotsSameTable(m: Memory, root: Frame, v: bv64, w: bv64, k: nat)
    requires 1 <= k <= 4
    requires forall j :: k < j <= 4 ==> Index(v, j) == Index(w, j)
    ensures TableAt(m, root, v, k) == TableAt(m, root, w, k)
    decreases 4 - k
  {
    hide Index, Load, Addr, Present, Huge;
    if k < 4 {
      SameSlotsSameTable(m, root, v, w, k + 1);
    }
  }

  // In a forest, the addresses that read v's slot at level k are those of v's root that share v's indices.
  lemma ReadersOfSlot(m: Memory, shape: Shape, root: Frame, v: bv64, root': Frame, w: bv64, k: nat)
    requires Forest(m, shape) && IsRoot(shape, root) && IsRoot(shape, root') && 1 <= k <= 4
    requires TableAt(m, root, v, k).Some?
    ensures Reads(m, root', w, k, TableAt(m, root, v, k).value, Index(v, k)) <==> root == root' && SameSlots(v, w, k)
  {
    hide Index, Load, Addr, Present, Huge, IsFrame, Forest, IsRoot;
    if Reads(m, root', w, k, TableAt(m, root, v, k).value, Index(v, k)) {
      UniquePath(m, shape, root, v, root', w, k);
    }
    if root == root' && SameSlots(v, w, k) {
      SameSlotsSameTable(m, root, v, w, k);
    }
  }

  // Storing an entry that leads to no table keeps the forest and changes exactly the walks through its slot.
  lemma StoreEffect(m: Memory, shape: Shape, root: Frame, v: bv64, k: nat, e: Entry, root': Frame, w: bv64)
    requires Forest(m, shape) && IsRoot(shape, root) && IsRoot(shape, root') && 1 <= k <= 4
    requires TableAt(m, root, v, k).Some? && !Descends(k, e)
    ensures
      var m' := Store(m, TableAt(m, root, v, k).value, Index(v, k), e);
      Walk(m', root', w) ==
      if root == root' && SameSlots(v, w, k) then WalkEntry(k, m, e, w) else Walk(m, root', w)
  {
    hide Index, Load, Addr, Present, Huge, IsFrame, Forest, IsRoot;
    var f, i := TableAt(m, root, v, k).value, Index(v, k);
    TableAtShaped(m, shape, root, v, k);
    ReadersOfSlot(m, shape, root, v, root', w, k);
    if Reads(m, root', w, k, f, i) {
      StoreKeepsTables(m, shape, root', w, k, f, i, e, k);
      WalkFromTable(Store(m, f, i, e), root', w, k);
    } else {
      StoreKeepsWalk(m, shape, root', w, k, f, i, e);
    }
  }

  lemma StoreKeepsForest(m: Memory, shape: Shape, f: Frame, i: nat, e: Entry)
    requires Forest(m, shape) && f in shape && !Descends(shape[f].Level(), e)
    ensures Forest(Store(m, f, i, e), shape)
  {
    hide Index, Load, Addr, Present, Huge, IsFrame;
    var m' := Store(m, f, i, e);
    forall g, j | g in shape && 0 <= j < 512
      ensures SlotShaped(m', shape, g, j)
    {
      assert SlotShaped(m, shape, g, j);
      assert g != f || j != i ==> Load(m', g, j) == Load(m, g, j);
    }
  }

  // ----- changes outside the tables

  // A walk in a forest depends on the words of its tables only.
  lemma {:induction false} ShapedWalkStays(level: nat, m: Memory, shape: Shape, m': Memory, g: Frame, v: bv64)
    requires 1 <= level <= 4 && Forest(m, shape) && g in shape && shape[g].Level() == level
    requires forall h, j :: h in shape ==> Load(m', h, j) == Load(m, h, j)
    ensures WalkEntry(level, m', Load(m', g, Index(v, level)), v) ==
            WalkEntry(level, m, Load(m, g, Index(v, level)), v)
    decreases level
  {
    hide Load, Addr, Present, Huge, Index, IsFrame;
    var e := Load(m, g, Index(v, level));
    assert SlotShaped(m, shape, g, Index(v, level));
    if Descends(level, e) {
      ShapedWalkStays(level - 1, m, shape, m', Addr(e), v);
    }
  }

  lemma AgreeingForest(m: Memory, shape: Shape, m': Memory)
    requires Forest(m, shape) && forall h, j :: h in shape ==> Load(m', h, j) == Load(m, h, j)
    ensures Forest(m', shape)
    ensures forall r, w :: IsRoot(shape, r) ==> Walk(m', r, w) == Walk(m, r, w)
  {
    hide Load, Addr, Present, Huge, Index, IsFrame;
    forall g, j | g in shape && 0 <= j < 512
      ensures SlotShaped(m', shape, g, j)
    {
      assert SlotShaped(m, shape, g, j);
    }
    forall r, w | IsRoot(shape, r)
      ensures Walk(m', r, w) == Walk(m, r, w)
    {
      ShapedWalkStays(4, m, shape, m', r, w);
    }
  }

  lemma {:induction false} AgreeingTables(m: Memory, shape: Shape, m': Memory, root: Frame, v: bv64, k: nat)
    requires Forest(m, shape) && IsRoot(shape, root) && 1 <= k <= 4
    requires forall h, j :: h in shape ==> Load(m', h, j) == Load(m, h, j)
    ensures TableAt(m', root, v, k) == TableAt(m, root, v, k)
    ensures TableAt(m, root, v, k).Some? ==> TableAt(m, root, v, k).value in shape
    decreases 4 - k
  {
    hide Load, Addr, Present, Huge, Index, IsFrame, Forest;
    if k < 4 {
      AgreeingTables(m, shape, m', root, v, k + 1);
    }
    if TableAt(m, root, v, k).Some? {
      TableAtShaped(m, shape, root, v, k);
    }
  }
}
