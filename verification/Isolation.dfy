// Runs of map_4kb_page, unmap_page and clone_higher_half over any number of address spaces.
module Isolation {
  import opened PageEntry
  import opened Paging
  import opened Mapping
  import opened MappingCases
  import opened MappingLaws
  import opened Cloning
  import opened CloneSteps

  datatype Op =
    | MapPage(root: Frame, v: bv64, p: bv64, flags: bv64)
    | UnmapPage(root: Frame, v: bv64)
    | CloneSpace(root: Frame)
  {
    predicate WritesThrough(r: Frame) {
      !CloneSpace? && root == r
    }
  }

  function Step(s: State, op: Op): State {
    match op
    case MapPage(root, v, p, flags) => Map4kb(s, root, v, p, flags)
    case UnmapPage(root, v) => s.(m := Unmap(s.m, root, v))
    case CloneSpace(root) => CloneHigherHalf(s, root).s
  }

  // Mappings and unmappings write where no table lies, if not into tables; clones take aligned addresses. The addresses
  // that mappings take need not be aligned.
  ghost predicate Allowed(s: State, op: Op) {
    match op
    case MapPage(root, v, _, _) => IsRoot(s.shape, root) && MapSafe(s, root, v)
    case UnmapPage(root, v) => IsRoot(s.shape, root) && DataApart(s, root, v)
    case CloneSpace(root) => TakesAligned(s, root)
  }

  function Run(s: State, ops: seq<Op>): State
    decreases |ops|
  {
    if ops == [] then s else Run(Step(s, ops[0]), ops[1..])
  }

  ghost predicate AllowedRun(s: State, ops: seq<Op>)
    decreases |ops|
  {
    ops == [] || (Allowed(s, ops[0]) && AllowedRun(Step(s, ops[0]), ops[1..]))
  }

  predicate NoWriteThrough(ops: seq<Op>, r: Frame) {
    forall i :: 0 <= i < |ops| ==> !ops[i].WritesThrough(r)
  }

  lemma StepKeepsInv(s: State, op: Op)
    requires Inv(s) && Allowed(s, op)
    ensures Inv(Step(s, op))
    ensures forall r :: IsRoot(s.shape, r) ==> IsRoot(Step(s, op).shape, r)
  {
    hide Inv, IsRoot, Map4kb, Unmap, CloneHigherHalf, MapSafe, DataApart, TakesAligned;
    match op
    case MapPage(root, v, p, flags) => MapKeepsInv(s, root, v, p, flags);
    case UnmapPage(root, v) => UnmapKeepsInv(s, root, v);
    case CloneSpace(root) => CloneKeepsInv(s, root);
  }

  // A step changes translations of the one root it writes through.
  lemma StepIsolated(s: State, op: Op, r: Frame, w: bv64)
    requires Inv(s) && Allowed(s, op) && IsRoot(s.shape, r) && !op.WritesThrough(r)
    ensures Walk(Step(s, op).m, r, w) == Walk(s.m, r, w)
  {
    hide Inv, IsRoot, Map4kb, Unmap, CloneHigherHalf, Walk, MapSafe, DataApart, TakesAligned, ChangeLevel, HugeLink;
    match op
    case MapPage(root, v, p, flags) => MapEffect(s, root, v, p, flags, r, w);
    case UnmapPage(root, v) => UnmapClears(s, root, v, r, w);
    case CloneSpace(root) => CloneKeepsInv(s, root);
  }

  // Over every run, the address space of r keeps every translation as long as nothing is written through r.
  lemma {:induction false} RunIsolated(s: State, ops: seq<Op>, r: Frame)
    requires Inv(s) && AllowedRun(s, ops) && IsRoot(s.shape, r)
    ensures Inv(Run(s, ops)) && IsRoot(Run(s, ops).shape, r)
    ensures NoWriteThrough(ops, r) ==> forall w :: Walk(Run(s, ops).m, r, w) == Walk(s.m, r, w)
    decreases |ops|
  {
    hide Inv, IsRoot, Allowed, Walk, Step;
    if ops != [] {
      StepKeepsInv(s, ops[0]);
      RunIsolated(Step(s, ops[0]), ops[1..], r);
      if NoWriteThrough(ops, r) {
        assert NoWriteThrough(ops[1..], r) && !ops[0].WritesThrough(r);
        forall w
          ensures Walk(Step(s, ops[0]).m, r, w) == Walk(s.m, r, w)
        {
          StepIsolated(s, ops[0], r, w);
        }
      }
    }
  }

  // ----- an original and its clone

  ghost predicate GigaFree(m: Memory, root: Frame) {
    forall v :: !GigaMapped(m, root, v)
  }

  lemma NoGigaEntry(m: Memory, root: Frame, i4: nat, i3: nat)
    requires GigaFree(m, root) && i4 < 512 && i3 < 512 && Present(Load(m, root, i4))
    ensures var e := Load(m, Addr(Load(m, root, i4)), i3); !(Present(e) && Huge(e))
  {
    hide Present, Huge, Load, Addr, Index;
    var v := AddressWithIndices(i4, i3);
    assert !GigaMapped(m, root, v);
    assert !UnderGiga(3, m, Load(m, Addr(Load(m, root, i4)), i3), v);
  }

  // Below level 3, and at level 3 without 1 GB pages, the clone follows the entries that the walk follows.
  lemma {:induction false} ShapedAvoids(level: nat, s: State, g: Frame, i: nat, frames: set<Frame>)
    requires 1 <= level <= 3 && Forest(s.m, s.shape) && g in s.shape && s.shape[g].Level() == level && i < 512
    requires level == 3 ==> !(Present(Load(s.m, g, i)) && Huge(Load(s.m, g, i)))
    requires forall c :: c in frames ==> c !in s.shape
    ensures Avoids(level, s.m, Load(s.m, g, i), frames)
    decreases level
  {
    hide Present, Huge, Load, Addr, IsFrame;
    var e := Load(s.m, g, i);
    assert SlotShaped(s.m, s.shape, g, i);
    if Copies(level, e) {
      forall j | 0 <= j < 512
        ensures Avoids(level - 1, s.m, Load(s.m, Addr(e), j), frames)
      {
        ShapedAvoids(level - 1, s, Addr(e), j, frames);
      }
    }
  }

  lemma ForestOutsidePool(s: State, root: Frame)
    requires Inv(s) && Aligned(s.pool) && IsRoot(s.shape, root) && GigaFree(s.m, root)
    ensures GoodPool(s) && TablesOutsidePool(s, root)
  {
    hide Present, Huge, Load, Addr, IsFrame, FreshPool, GigaFree;
    FreshIsGood(s);
    var frames := set c | c in s.pool;
    forall j | 0 <= j < 512
      ensures Avoids(4, s.m, Load(s.m, root, j), frames)
    {
      var e := Load(s.m, root, j);
      assert SlotShaped(s.m, s.shape, root, j);
      if Present(e) {
        forall i | 0 <= i < 512
          ensures Avoids(3, s.m, Load(s.m, Addr(e), i), frames)
        {
          NoGigaEntry(s.m, root, j, i);
          ShapedAvoids(3, s, Addr(e), i, frames);
        }
      }
    }
  }

  // A clone starts with the translations of the original. After any run, whichever of the two nothing was written
  // through still has the translations of the moment of cloning. The mappings of the run may take addresses that are
  // not aligned, as they are after a clone.
  lemma CloneIsolated(s: State, root: Frame, ops: seq<Op>)
    requires Inv(s) && IsRoot(s.shape, root) && GigaFree(s.m, root) && TakesAligned(s, root)
    requires CloneHigherHalf(s, root).status == Cloned && AllowedRun(CloneHigherHalf(s, root).s, ops)
    ensures s.pool != [] && s.pool[0] != root
    ensures
      var clone, end := s.pool[0], Run(CloneHigherHalf(s, root).s, ops);
      && Inv(end) && IsRoot(end.shape, root) && IsRoot(end.shape, clone)
      && (NoWriteThrough(ops, root) ==> forall w :: Walk(end.m, root, w) == Walk(s.m, root, w))
      && (NoWriteThrough(ops, clone) ==> forall w :: Walk(end.m, clone, w) == Walk(s.m, root, w))
  {
    hide Inv, CloneHigherHalf, AllowedRun, Run, Walk, NoWriteThrough, GigaMapped, GoodPool, TablesOutsidePool, Taking,
      Aligned;
    var r := CloneHigherHalf(s, root).s;
    CloneKeepsInv(s, root);
    TakingFresh(s, root);
    ForestOutsidePool(Taking(s, root), root);
    RunIsolated(r, ops, root);
    RunIsolated(r, ops, s.pool[0]);
    forall w
      ensures Walk(r.m, s.pool[0], w) == Walk(s.m, root, w)
    {
      CloneTranslates(s, root, w);
    }
  }
}
