// Clones of address spaces that share tables: what is written through one side does not reach the other.
module SharedTables {
  import opened PageEntry
  import opened Paging
  import opened Mapping
  import opened MappingLaws
  import opened Cloning
  import opened CloneSteps
  import opened Isolation

  // ----- where the operations write

  // The tables in use and those that the addresses of the pool lead to.
  function Own(s: State): set<Frame> {
    s.shape.Keys + PoolTables(s)
  }

  function PoolTables(s: State): set<Frame> {
    set t | 0 <= t < |s.pool| :: TableOf(s.pool[t])
  }

  // Only frames of s differ, and no frame has come in.
  ghost predicate WritesOwn(s: State, r: State) {
    && Own(r) <= Own(s)
    && forall f, j :: f !in Own(s) ==> Load(r.m, f, j) == Load(s.m, f, j)
  }

  lemma WritesOwnTrans(s: State, a: State, r: State)
    requires WritesOwn(s, a) && WritesOwn(a, r)
    ensures WritesOwn(s, r)
  {
    hide Load, Own;
  }

  lemma CreateOrGetWrites(s: State, f: Frame, i: nat, k: nat)
    requires k >= 1 && f in s.shape
    ensures WritesOwn(s, CreateOrGet(s, f, i, k).0)
  {
    hide Load, Present, Addr, LinkTo, Descends;
    var s' := CreateOrGet(s, f, i, k).0;
    if s'.pool != s.pool {
      TableIsAddr(s.pool[0]);
      assert forall t :: 0 <= t < |s'.pool| ==> s'.pool[t] == s.pool[t + 1];
      assert forall g :: g in Own(s') ==> g in Own(s);
    }
  }

  lemma {:induction false} DescentWrites(s: State, root: Frame, v: bv64, k: nat)
    requires Mappable(s, root, v) && 1 <= k <= 4
    ensures WritesOwn(s, Descent(s, root, v, k).0)
    decreases 4 - k
  {
    hide Present, Huge, Addr, IsFrame, Index, Load, LinkTo, CreateOrGet, Missing, WritesOwn, SameWalks, Forest, Unused,
      TableOf, Descends;
    if k == 4 {
      WritesNothing(s);
    } else {
      DescentWrites(s, root, v, k + 1);
      DescentReaches(s, root, v, k + 1);
      var (c, f) := Descent(s, root, v, k + 1);
      TableAtShaped(c.m, c.shape, root, v, k + 1);
      CreateOrGetWrites(c, f, Index(v, k + 1), k + 1);
      WritesOwnTrans(s, c, Descent(s, root, v, k).0);
    }
  }

  lemma MapWrites(s: State, root: Frame, v: bv64, p: bv64, flags: bv64)
    requires Mappable(s, root, v)
    ensures WritesOwn(s, Map4kb(s, root, v, p, flags))
  {
    hide Present, Huge, Addr, IsFrame, Index, Load, LinkTo, CreateOrGet, Missing, Leaf, WritesOwn, SameWalks, Forest,
      Unused, TableOf, Descends, Map4kb, Descent;
    var (c, pt) := Descent(s, root, v, 1);
    DescentWrites(s, root, v, 1);
    DescentReaches(s, root, v, 1);
    MapDescends(s, root, v, p, flags);
    TableAtShaped(c.m, c.shape, root, v, 1);
    StoreWrites(c, pt, Index(v, 1), Leaf(p, flags));
    WritesOwnTrans(s, c, Map4kb(s, root, v, p, flags));
  }

  lemma StoreWrites(s: State, f: Frame, i: nat, e: Entry)
    requires f in s.shape
    ensures WritesOwn(s, s.(m := Store(s.m, f, i, e)))
  {
    hide Load;
  }

  lemma UnmapWrites(s: State, root: Frame, v: bv64)
    requires Inv(s) && IsRoot(s.shape, root) && PageLevel(s.m, root, v) == 1
    ensures WritesOwn(s, s.(m := Unmap(s.m, root, v)))
  {
    hide Index, Load, Addr, Present, Huge, Large, Unmap, IsFrame, PageLevel, Data;
    UnmapStores(s.m, root, v);
    var k := ClearedLevel(s.m, root, v);
    if k > 0 {
      TableAtShaped(s.m, s.shape, root, v, k);
      StoreWrites(s, TableAt(s.m, root, v, k).value, Index(v, k), ZERO);
    }
  }

  // The clone writes to the frames that it takes.
  lemma CloneTouchesTaken(s: State, root: Frame)
    requires Inv(s) && TakesAligned(s, root)
    ensures
      var r, q := CloneHigherHalf(s, root), Taking(s, root);
      && s.pool == q.pool + r.s.pool && (forall t :: 0 <= t < |q.pool| ==> TableOf(q.pool[t]) == q.pool[t])
      && (forall g :: g in r.s.shape ==> g in s.shape || g in q.pool)
      && (forall g, j :: g !in q.pool ==> Load(r.s.m, g, j) == Load(s.m, g, j))
  {
    hide Load, CloneHigherHalf, Forest, FreshPool, IsFrame, TableOf, Taking, Suffix, GoodPool;
    var q := Taking(s, root);
    InvFresh(s);
    CloneTakes(s, root);
    TakingFresh(s, root);
    InvFresh(q);
    FreshIsGood(q);
    CloneTouches(q, root);
    CloneNothingTaken(q, root);
  }

  lemma CloneWrites(s: State, root: Frame)
    requires Inv(s) && TakesAligned(s, root)
    ensures WritesOwn(s, CloneHigherHalf(s, root).s)
  {
    hide Load, CloneHigherHalf, Inv, TakesAligned, TableOf, Taking;
    var r, q := CloneHigherHalf(s, root), Taking(s, root);
    CloneTouchesTaken(s, root);
    TakenOwn(s, q.pool, r.s.pool);
    assert forall t :: 0 <= t < |r.s.pool| ==> r.s.pool[t] == s.pool[|q.pool| + t];
  }

  lemma TakenOwn(s: State, head: seq<Frame>, rest: seq<Frame>)
    requires s.pool == head + rest && forall t :: 0 <= t < |head| ==> TableOf(head[t]) == head[t]
    ensures forall c :: c in head ==> c in Own(s)
  {
    hide TableOf;
    forall c | c in head
      ensures c in Own(s)
    {
      var t :| 0 <= t < |head| && head[t] == c;
      assert TableOf(s.pool[t]) == c;
    }
  }

  // ----- runs that write tables only

  // The mapping or unmapping meets no huge page, whose data might be anything, and does not run out of memory.
  ghost predicate InTables(s: State, op: Op) {
    match op
    case MapPage(root, v, _, _) => Mappable(s, root, v)
    case UnmapPage(root, v) => IsRoot(s.shape, root) && PageLevel(s.m, root, v) == 1
    case CloneSpace(root) => TakesAligned(s, root)
  }

  ghost predicate TableRun(s: State, ops: seq<Op>)
    decreases |ops|
  {
    ops == [] || (InTables(s, ops[0]) && TableRun(Step(s, ops[0]), ops[1..]))
  }

  lemma TableStep(s: State, op: Op)
    requires Inv(s) && InTables(s, op)
    ensures WritesOwn(s, Step(s, op)) && Inv(Step(s, op))
  {
    hide Inv, IsRoot, Map4kb, Unmap, CloneHigherHalf, Mappable, WritesOwn, PageLevel, Data, TakesAligned;
    match op
    case MapPage(root, v, p, flags) =>
      MapWrites(s, root, v, p, flags);
      PlainMapKeepsInv(s, root, v, p, flags);
    case UnmapPage(root, v) =>
      UnmapWrites(s, root, v);
      NoHugeNoData(s.m, root, v);
      UnmapKeepsInv(s, root, v);
    case CloneSpace(root) =>
      CloneWrites(s, root);
      CloneKeepsInv(s, root);
  }

  lemma {:induction false} RunWrites(s: State, ops: seq<Op>)
    requires Inv(s) && TableRun(s, ops)
    ensures WritesOwn(s, Run(s, ops))
    decreases |ops|
  {
    hide Inv, InTables, WritesOwn, Step;
    if ops == [] {
      WritesNothing(s);
    } else {
      TableStep(s, ops[0]);
      RunWrites(Step(s, ops[0]), ops[1..]);
      WritesOwnTrans(s, Step(s, ops[0]), Run(s, ops));
    }
  }

  lemma {:induction false} TableRunAllowed(s: State, ops: seq<Op>)
    requires Inv(s) && TableRun(s, ops)
    ensures AllowedRun(s, ops)
    decreases |ops|
  {
    hide Inv, Step, InTables, Allowed;
    if ops != [] {
      TableStep(s, ops[0]);
      TableStepAllowed(s, ops[0]);
      TableRunAllowed(Step(s, ops[0]), ops[1..]);
    }
  }

  lemma TableStepAllowed(s: State, op: Op)
    requires Inv(s) && InTables(s, op)
    ensures Allowed(s, op)
  {
    hide Inv, IsRoot, PageLevel, Data, NoHugeOnWalk, Missing;
    if !op.CloneSpace? {
      NoHugeNoData(s.m, op.root, op.v);
    }
  }

  lemma WritesNothing(s: State)
    ensures WritesOwn(s, s)
  {
  }

  // ----- an original that shares tables, and its clone

  // No table that is reached from root is in frames.
  ghost predicate TablesOutside(m: Memory, root: Frame, frames: set<Frame>) {
    root !in frames && forall j :: 0 <= j < 512 ==> Avoids(4, m, Load(m, root, j), frames)
  }

  // The tables of the original may be shared in any way, within a level or across levels, as long as none is a frame
  // of the state. No run over the other address spaces, the clone among them, changes a translation of the original.
  lemma OriginalIsolated(s: State, root: Frame, ops: seq<Op>, w: bv64)
    requires Inv(s) && TablesOutside(s.m, root, Own(s)) && TableRun(s, ops)
    ensures Walk(Run(s, ops).m, root, w) == Walk(s.m, root, w)
  {
    hide Load, Index, Own, Inv, Run, Avoids;
    RunWrites(s, ops);
    AvoidsAgree(4, s.m, Run(s, ops).m, Load(s.m, root, Index(w, 4)), Own(s));
  }

  lemma {:induction false} AvoidsFewer(level: nat, m: Memory, e: Entry, frames: set<Frame>, fewer: set<Frame>)
    requires Avoids(level, m, e, frames) && fewer <= frames
    ensures Avoids(level, m, e, fewer)
    decreases level
  {
    hide Load, Present, Huge, Addr;
    if Copies(level, e) {
      forall j | 0 <= j < 512
        ensures Avoids(level - 1, m, Load(m, Addr(e), j), fewer)
      {
        AvoidsFewer(level - 1, m, Load(m, Addr(e), j), frames, fewer);
      }
    }
  }

  lemma OutsidePool(s: State, root: Frame)
    requires Inv(s) && TakesAligned(s, root) && TablesOutside(s.m, root, Own(s))
    ensures TablesOutsidePool(Taking(s, root), root)
  {
    hide Load, Present, Huge, Addr, Avoids, CloneHigherHalf, Forest, IsFrame, TableOf, Taking, Own, FreshPool;
    var q := Taking(s, root);
    InvFresh(s);
    CloneTakes(s, root);
    TakingFresh(s, root);
    InvFresh(q);
    FreshIsGood(q);
    TakenOwn(s, q.pool, CloneHigherHalf(s, root).s.pool);
    forall j | 0 <= j < 512
      ensures Avoids(4, s.m, Load(s.m, root, j), set c | c in q.pool)
    {
      AvoidsFewer(4, s.m, Load(s.m, root, j), Own(s), set c | c in q.pool);
    }
  }

  // No run of table writes takes a translation from such an original. Its clone has the same translations outside
  // 1 GB pages, and keeps them over every run that does not write through it, and whatever happens to memory
  // outside the tables of the state.
  lemma SharedCloneIsolated(s: State, root: Frame, ops: seq<Op>)
    requires Inv(s) && TablesOutside(s.m, root, Own(s)) && TakesAligned(s, root)
    requires CloneHigherHalf(s, root).status == Cloned && TableRun(CloneHigherHalf(s, root).s, ops)
    ensures s.pool != []
    ensures
      var r, clone := CloneHigherHalf(s, root).s, s.pool[0];
      && (forall w :: Walk(Run(r, ops).m, root, w) == Walk(s.m, root, w))
      && (forall w :: NoWriteThrough(ops, clone) && !GigaMapped(s.m, root, w) ==>
            Walk(Run(r, ops).m, clone, w) == Walk(s.m, root, w))
      && (forall m', w :: (forall f, j :: f in r.shape ==> Load(m', f, j) == Load(r.m, f, j)) ==>
            !GigaMapped(s.m, root, w) ==> Walk(m', clone, w) == Walk(s.m, root, w))
  {
    hide Inv, CloneHigherHalf, TableRun, Run, Walk, GigaMapped, GoodPool, TablesOutsidePool, Load, TablesOutside,
      AllowedRun, NoWriteThrough;
    CloneKeepsInv(s, root);
    var r, clone := CloneHigherHalf(s, root).s, s.pool[0];
    TableRunAllowed(r, ops);
    RunIsolated(r, ops, clone);
    OutsidePool(s, root);
    OriginalStays(s, root);
    forall w
      ensures Walk(Run(r, ops).m, root, w) == Walk(s.m, root, w)
      ensures !GigaMapped(s.m, root, w) ==> Walk(r.m, clone, w) == Walk(s.m, root, w)
    {
      OriginalIsolated(r, root, ops, w);
      OriginalSpared(s, root, w);
      if !GigaMapped(s.m, root, w) {
        CloneTranslates(s, root, w);
      }
    }
    forall m', w | forall f, j :: f in r.shape ==> Load(m', f, j) == Load(r.m, f, j)
      ensures !GigaMapped(s.m, root, w) ==> Walk(m', clone, w) == Walk(s.m, root, w)
    {
      AgreeingForestInv(r, m');
    }
  }

  lemma OriginalSpared(s: State, root: Frame, w: bv64)
    requires Inv(s) && TakesAligned(s, root) && TablesOutside(s.m, root, Own(s))
    ensures Walk(CloneHigherHalf(s, root).s.m, root, w) == Walk(s.m, root, w)
  {
    hide Load, Index, Own, Inv, CloneHigherHalf, Avoids;
    CloneWrites(s, root);
    AvoidsAgree(4, s.m, CloneHigherHalf(s, root).s.m, Load(s.m, root, Index(w, 4)), Own(s));
  }

  lemma AgreeingForestInv(s: State, m': Memory)
    requires Inv(s) && forall f, j :: f in s.shape ==> Load(m', f, j) == Load(s.m, f, j)
    ensures forall r, w :: IsRoot(s.shape, r) ==> Walk(m', r, w) == Walk(s.m, r, w)
  {
    hide Forest, FreshPool, Load, Walk;
    AgreeingForest(s.m, s.shape, m');
  }

  // After cloning, the tables of the original are still outside the state.
  lemma OriginalStays(s: State, root: Frame)
    requires Inv(s) && TablesOutside(s.m, root, Own(s)) && TakesAligned(s, root)
    ensures
      var r := CloneHigherHalf(s, root).s;
      TablesOutside(r.m, root, Own(r))
  {
    hide Inv, CloneHigherHalf, Load, Avoids, Own;
    var r := CloneHigherHalf(s, root).s;
    CloneWrites(s, root);
    forall j | 0 <= j < 512
      ensures Avoids(4, r.m, Load(r.m, root, j), Own(r))
    {
      AvoidsAgree(4, s.m, r.m, Load(s.m, root, j), Own(s));
      AvoidsFewer(4, r.m, Load(s.m, root, j), Own(s), Own(r));
    }
  }

  // ----- what is written through the original

  lemma {:induction false} TableAtOutside(m: Memory, root: Frame, v: bv64, k: nat, frames: set<Frame>)
    requires TablesOutside(m, root, frames) && 1 <= k <= 4 && TableAt(m, root, v, k).Some?
    ensures TableAt(m, root, v, k).value !in frames
    ensures forall j :: 0 <= j < 512 ==> Avoids(k, m, Load(m, TableAt(m, root, v, k).value, j), frames)
    decreases 4 - k
  {
    hide Load, Present, Huge, Addr, Index;
    if k < 4 {
      TableAtOutside(m, root, v, k + 1, frames);
    }
  }

  // Unmapping through the original writes to none of the frames that its tables are outside of.
  lemma OriginalUnmaps(m: Memory, root: Frame, v: bv64, frames: set<Frame>)
    requires TablesOutside(m, root, frames) && PageLevel(m, root, v) == 1
    ensures forall f, j :: f in frames ==> Load(Unmap(m, root, v), f, j) == Load(m, f, j)
  {
    hide Load, Index, Avoids, Unmap, PageLevel;
    UnmapStores(m, root, v);
    var k := ClearedLevel(m, root, v);
    if k > 0 {
      TableAtOutside(m, root, v, k, frames);
    }
  }

  // The pool is fresh and has no frame of the set.
  ghost predicate Waiting(s: State, frames: set<Frame>) {
    && (forall t :: 0 <= t < |s.pool| ==> s.pool[t] != NULL && TableOf(s.pool[t]) !in frames)
    && (forall t, i :: 0 <= t < |s.pool| && 0 <= i < 512 ==> !Present(Load(s.m, TableOf(s.pool[t]), i)))
    && (forall t, u :: 0 <= t < u < |s.pool| ==> TableOf(s.pool[t]) != TableOf(s.pool[u]))
  }

  // One step of the descent through the original: tables there are lead to tables outside, and a new one is empty.
  lemma OriginalStep(s: State, f: Frame, i: nat, k: nat, frames: set<Frame>)
    requires 2 <= k <= 4 && i < 512 && Waiting(s, frames) && f !in frames + PoolTables(s)
    requires forall j :: 0 <= j < 512 ==> Avoids(k, s.m, Load(s.m, f, j), frames + PoolTables(s))
    requires Present(Load(s.m, f, i)) || s.pool != []
    requires k == 2 ==> !(Present(Load(s.m, f, i)) && Huge(Load(s.m, f, i)))
    ensures
      var (s', t) := CreateOrGet(s, f, i, k);
      && Waiting(s', frames) && t !in frames + PoolTables(s')
      && (forall j :: 0 <= j < 512 ==> Avoids(k - 1, s'.m, Load(s'.m, t, j), frames + PoolTables(s')))
      && (forall g, j :: g in frames ==> Load(s'.m, g, j) == Load(s.m, g, j))
      && (if Present(Load(s.m, f, i)) then s' == s && t == Addr(Load(s.m, f, i))
          else |s'.pool| == |s.pool| - 1 && forall j :: 0 <= j < 512 ==> !Present(Load(s'.m, t, j)))
  {
    hide Load, Addr, IsFrame, LinkTo, TableOf, Present, Huge;
    if !Present(Load(s.m, f, i)) {
      TableIsAddr(s.pool[0]);
      assert TableOf(s.pool[0]) in PoolTables(s);
      assert forall u :: 0 <= u < |s.pool| - 1 ==> s.pool[1..][u] == s.pool[u + 1];
      assert forall u :: 0 <= u < |s.pool| ==> TableOf(s.pool[u]) in PoolTables(s);
    }
  }

  // Mapping through the original writes to none of them either, as long as it does not run out of memory.
  lemma OriginalMaps(s: State, root: Frame, v: bv64, p: bv64, flags: bv64)
    requires FreshPool(s) && TablesOutside(s.m, root, Own(s))
    requires NoHugeOnWalk(s.m, root, v) && |s.pool| >= Missing(s.m, root, v)
    ensures forall f, j :: f in s.shape ==> Load(Map4kb(s, root, v, p, flags).m, f, j) == Load(s.m, f, j)
  {
    hide Load, Addr, IsFrame, LinkTo, Leaf, Present, Huge, Index, Avoids, CreateOrGet, Missing;
    var frames := s.shape.Keys;
    WaitingAtFirst(s);
    if !Present(Load(s.m, root, Index(v, 4))) {
      NothingBelow(s.m, root, v, 4);
    }
    OriginalStep(s, root, Index(v, 4), 4, frames);
    var (a, pdpt) := CreateOrGet(s, root, Index(v, 4), 4);
    ZeroEntry();
    assert NoHugeAt(s.m, root, v, 4) && NoHugeAt(s.m, root, v, 3) && NoHugeAt(s.m, root, v, 2);
    if TableAt(s.m, root, v, 3).Some? && !Present(Load(s.m, pdpt, Index(v, 3))) {
      NothingBelow(s.m, root, v, 3);
    }
    OriginalStep(a, pdpt, Index(v, 3), 3, frames);
    var (b, pd) := CreateOrGet(a, pdpt, Index(v, 3), 3);
    if TableAt(s.m, root, v, 2).Some? && !Present(Load(s.m, pd, Index(v, 2))) {
      NothingBelow(s.m, root, v, 2);
    }
    OriginalStep(b, pd, Index(v, 2), 2, frames);
  }

  lemma WaitingAtFirst(s: State)
    requires FreshPool(s)
    ensures Waiting(s, s.shape.Keys)
  {
    hide Load, Present, TableOf;
    assert forall t :: 0 <= t < |s.pool| ==> FreshFrame(s, s.pool[t]);
  }
}
