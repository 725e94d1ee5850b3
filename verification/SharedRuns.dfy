// Runs that write through an address space that shares tables, through its clone, and elsewhere.
module SharedRuns {
  import opened PageEntry
  import opened Paging
  import opened Mapping
  import opened MappingCases
  import opened Cloning
  import opened CloneSteps
  import opened Isolation
  import opened SharedTables

  // ----- runs through the original as well

  // Every table of the original has one level, at which every walk meets it. It may be shared within its level.
  ghost predicate Graded(m: Memory, root: Frame, levels: map<Frame, nat>) {
    && root in levels && levels[root] == 4
    && (forall f :: f in levels ==> 1 <= levels[f] <= 4)
    && (forall f, i :: f in levels && 0 <= i < 512 ==> GradedSlot(m, levels, f, i))
  }

  ghost predicate GradedSlot(m: Memory, levels: map<Frame, nat>, f: Frame, i: nat)
    requires f in levels
  {
    var e := Load(m, f, i);
    Descends(levels[f], e) ==> Addr(e) in levels && levels[Addr(e)] == levels[f] - 1
  }

  datatype Move = Other(op: Op) | MapOriginal(v: bv64, p: bv64, flags: bv64) | UnmapOriginal(v: bv64)

  function Play(s: State, root: Frame, move: Move): State {
    match move
    case Other(op) => Step(s, op)
    case MapOriginal(v, p, flags) => Map4kb(s, root, v, p, flags)
    case UnmapOriginal(v) => s.(m := Unmap(s.m, root, v))
  }

  // The original is mapped into under tables that it has, and unmapped from where no huge page is in the way.
  ghost predicate Playable(s: State, root: Frame, move: Move) {
    match move
    case Other(op) => InTables(s, op)
    case MapOriginal(v, _, _) => TableAt(s.m, root, v, 1).Some?
    case UnmapOriginal(v) => PageLevel(s.m, root, v) == 1
  }

  function PlayAll(s: State, root: Frame, moves: seq<Move>): State
    decreases |moves|
  {
    if moves == [] then s else PlayAll(Play(s, root, moves[0]), root, moves[1..])
  }

  ghost predicate AllPlayable(s: State, root: Frame, moves: seq<Move>)
    decreases |moves|
  {
    moves == [] || (Playable(s, root, moves[0]) && AllPlayable(Play(s, root, moves[0]), root, moves[1..]))
  }

  // The moves through the original alone.
  function PlayOriginal(m: Memory, root: Frame, moves: seq<Move>): Memory
    decreases |moves|
  {
    if moves == [] then m
    else
      match moves[0]
      case Other(_) => PlayOriginal(m, root, moves[1..])
      case MapOriginal(v, p, flags) => PlayOriginal(Map4kb(State(m, [], map[]), root, v, p, flags).m, root, moves[1..])
      case UnmapOriginal(v) => PlayOriginal(Unmap(m, root, v), root, moves[1..])
  }

  predicate NoneThrough(moves: seq<Move>, r: Frame) {
    forall i :: 0 <= i < |moves| ==> moves[i].Other? ==> !moves[i].op.WritesThrough(r)
  }

  // The two memories agree on the tables of the original.
  ghost predicate SameTables(m: Memory, m': Memory, levels: map<Frame, nat>) {
    forall f, j :: f in levels ==> Load(m', f, j) == Load(m, f, j)
  }

  lemma {:induction false} GradedTable(m: Memory, root: Frame, levels: map<Frame, nat>, v: bv64, k: nat)
    requires Graded(m, root, levels) && 1 <= k <= 4 && TableAt(m, root, v, k).Some?
    ensures TableAt(m, root, v, k).value in levels && levels[TableAt(m, root, v, k).value] == k
    decreases 4 - k
  {
    hide Load, Present, Huge, Addr, Index;
    if k < 4 {
      GradedTable(m, root, levels, v, k + 1);
      assert GradedSlot(m, levels, TableAt(m, root, v, k + 1).value, Index(v, k + 1));
    }
  }

  lemma {:induction false} GradedAgree(m: Memory, m': Memory, root: Frame, levels: map<Frame, nat>, v: bv64, k: nat)
    requires Graded(m, root, levels) && SameTables(m, m', levels) && 1 <= k <= 4
    ensures TableAt(m', root, v, k) == TableAt(m, root, v, k)
    decreases 4 - k
  {
    hide Load, Present, Huge, Addr, Index, Graded;
    if k < 4 {
      GradedAgree(m, m', root, levels, v, k + 1);
      if TableAt(m, root, v, k + 1).Some? {
        GradedTable(m, root, levels, v, k + 1);
      }
    }
  }

  lemma GradedWalks(m: Memory, m': Memory, root: Frame, levels: map<Frame, nat>, v: bv64)
    requires Graded(m, root, levels) && SameTables(m, m', levels)
    ensures Walk(m', root, v) == Walk(m, root, v)
  {
    hide Load, Present, Huge, Addr, Index, Graded;
    var k := LastTable(m, root, v);
    GradedAgree(m, m', root, levels, v, k);
    GradedTable(m, root, levels, v, k);
    WalkFromTable(m, root, v, k);
    WalkFromTable(m', root, v, k);
  }

  lemma GradedStore(m: Memory, root: Frame, levels: map<Frame, nat>, f: Frame, i: nat, e: Entry)
    requires Graded(m, root, levels) && f in levels && !Descends(levels[f], e)
    ensures Graded(Store(m, f, i, e), root, levels)
  {
    hide Load, Present, Huge, Addr;
    var m' := Store(m, f, i, e);
    forall g, j | g in levels && 0 <= j < 512
      ensures GradedSlot(m', levels, g, j)
    {
      assert GradedSlot(m, levels, g, j);
      assert g != f || j != i ==> Load(m', g, j) == Load(m, g, j);
    }
  }

  // The tables of the original are none of the state's.
  ghost predicate Separate(s: State, root: Frame, levels: map<Frame, nat>) {
    Inv(s) && Graded(s.m, root, levels) && forall f :: f in levels ==> Unused(s, f)
  }

  // Mapping under an existing page table is one store.
  lemma MapUnderTable(s: State, root: Frame, v: bv64, p: bv64, flags: bv64)
    requires TableAt(s.m, root, v, 1).Some?
    ensures Map4kb(s, root, v, p, flags) ==
            s.(m := Store(s.m, TableAt(s.m, root, v, 1).value, Index(v, 1), Leaf(p, flags)))
  {
    hide Load, Present, Huge, Addr, Index, Leaf, Map4kb, TableAt;
    DescentFollows(s, root, v, 1);
    MapDescends(s, root, v, p, flags);
  }

  lemma OriginalStore(s: State, root: Frame, levels: map<Frame, nat>, m: Memory, v: bv64, k: nat, e: Entry)
    requires Separate(s, root, levels) && 1 <= k <= 4 && TableAt(s.m, root, v, k).Some? && !Descends(k, e)
    requires SameTables(m, s.m, levels)
    ensures
      var f := TableAt(s.m, root, v, k).value;
      var s' := s.(m := Store(s.m, f, Index(v, k), e));
      && Separate(s', root, levels) && SameWalks(s, s') && SameTables(Store(m, f, Index(v, k), e), s'.m, levels)
  {
    hide Load, Present, Huge, Addr, Index, Graded, Inv, SameWalks, Descends;
    var f := TableAt(s.m, root, v, k).value;
    GradedTable(s.m, root, levels, v, k);
    GradedStore(s.m, root, levels, f, Index(v, k), e);
    OutsideTables(s, f, Index(v, k), e);
  }

  // A move through the original changes the tables of the original as it does alone, and no translation of a root.
  lemma OriginalMove(s: State, root: Frame, levels: map<Frame, nat>, m: Memory, move: Move)
    requires Separate(s, root, levels) && SameTables(m, s.m, levels) && Playable(s, root, move) && !move.Other?
    ensures
      var s' := Play(s, root, move);
      && Separate(s', root, levels) && SameWalks(s, s')
      && SameTables(PlayOriginal(m, root, [move]), s'.m, levels)
  {
    hide Load, Present, Huge, Addr, Index, Separate, Graded, Inv, Walk, Leaf, Map4kb, Unmap, PageLevel, Large, TableAt;
    var only := [move];
    assert only[1..] == [];
    SameTablesBack(m, s.m, levels);
    SeparateGraded(s, root, levels);
    forall v, k | 1 <= k <= 4
      ensures TableAt(m, root, v, k) == TableAt(s.m, root, v, k)
    {
      GradedAgree(s.m, m, root, levels, v, k);
    }
    match move
    case MapOriginal(v, p, flags) =>
      MapUnderTable(s, root, v, p, flags);
      MapUnderTable(State(m, [], map[]), root, v, p, flags);
      OriginalStore(s, root, levels, m, v, 1, Leaf(p, flags));
    case UnmapOriginal(v) =>
      ZeroEntry();
      UnmapStores(s.m, root, v);
      UnmapStores(m, root, v);
      SameClearing(s, m, root, levels, v);
      var k := ClearedLevel(s.m, root, v);
      if k > 0 {
        OriginalStore(s, root, levels, m, v, k, ZERO);
      } else {
        SameWalksSelf(s);
      }
  }

  lemma SameTablesBack(m: Memory, m': Memory, levels: map<Frame, nat>)
    requires SameTables(m, m', levels)
    ensures SameTables(m', m, levels)
  {
    hide Load;
  }

  lemma SeparateGraded(s: State, root: Frame, levels: map<Frame, nat>)
    requires Separate(s, root, levels)
    ensures Inv(s) && Graded(s.m, root, levels)
  {
  }

  lemma SameWalksSelf(s: State)
    ensures SameWalks(s, s)
  {
  }

  lemma SameClearing(s: State, m: Memory, root: Frame, levels: map<Frame, nat>, v: bv64)
    requires Graded(s.m, root, levels) && SameTables(m, s.m, levels)
    ensures ClearedLevel(m, root, v) == ClearedLevel(s.m, root, v)
    ensures PageLevel(m, root, v) == PageLevel(s.m, root, v)
  {
    hide Load, Present, Huge, Addr, Index, Graded, Large;
    SameTablesBack(m, s.m, levels);
    forall k | 1 <= k <= 4
      ensures TableAt(m, root, v, k) == TableAt(s.m, root, v, k)
      ensures TableAt(s.m, root, v, k).Some? ==> TableAt(s.m, root, v, k).value in levels
    {
      GradedAgree(s.m, m, root, levels, v, k);
      if TableAt(s.m, root, v, k).Some? {
        GradedTable(s.m, root, levels, v, k);
      }
    }
  }

  // A move elsewhere leaves the tables of the original alone.
  lemma OtherMove(s: State, root: Frame, levels: map<Frame, nat>, op: Op)
    requires Separate(s, root, levels) && InTables(s, op)
    ensures Separate(Step(s, op), root, levels) && SameTables(s.m, Step(s, op).m, levels)
  {
    hide Load, Inv, InTables, Step, GradedSlot, TableOf;
    TableStep(s, op);
    var s' := Step(s, op);
    forall f | f in levels
      ensures f !in Own(s) && Unused(s', f)
    {
      UnusedOwn(s, f);
      UnusedOwn(s', f);
    }
    GradedStays(s.m, s'.m, root, levels);
  }

  lemma UnusedOwn(s: State, f: Frame)
    ensures Unused(s, f) <==> f !in Own(s)
  {
    hide TableOf;
  }

  lemma GradedStays(m: Memory, m': Memory, root: Frame, levels: map<Frame, nat>)
    requires Graded(m, root, levels) && SameTables(m, m', levels)
    ensures Graded(m', root, levels)
  {
    hide Load, Present, Huge, Addr;
    forall f, i | f in levels && 0 <= i < 512
      ensures GradedSlot(m', levels, f, i)
    {
      assert GradedSlot(m, levels, f, i);
    }
  }

  lemma SameTablesTrans(a: Memory, b: Memory, c: Memory, levels: map<Frame, nat>)
    requires SameTables(a, b, levels) && SameTables(b, c, levels)
    ensures SameTables(a, c, levels)
  {
    hide Load;
  }

  lemma {:induction false} PlayRuns(
    s: State, root: Frame, levels: map<Frame, nat>, m: Memory, moves: seq<Move>, r: Frame)
    requires Separate(s, root, levels) && SameTables(m, s.m, levels) && AllPlayable(s, root, moves)
    requires IsRoot(s.shape, r)
    ensures
      var end := PlayAll(s, root, moves);
      && Separate(end, root, levels) && SameTables(PlayOriginal(m, root, moves), end.m, levels)
      && (NoneThrough(moves, r) ==> forall w :: Walk(end.m, r, w) == Walk(s.m, r, w))
    decreases |moves|
  {
    hide Load, Separate, Playable, Play, Step, Walk, Map4kb, Unmap, IsRoot, SameTables;
    if moves != [] {
      var move, s' := moves[0], Play(s, root, moves[0]);
      var m' := PlayOriginal(m, root, [move]);
      MoveRuns(s, root, levels, m, move, r);
      assert PlayOriginal(m, root, moves) == PlayOriginal(m', root, moves[1..]) by {
        OneMove(m, root, moves);
      }
      PlayRuns(s', root, levels, m', moves[1..], r);
      if NoneThrough(moves, r) {
        assert NoneThrough(moves[1..], r);
      }
    }
  }

  lemma OneMove(m: Memory, root: Frame, moves: seq<Move>)
    requires moves != []
    ensures PlayOriginal(m, root, moves) == PlayOriginal(PlayOriginal(m, root, [moves[0]]), root, moves[1..])
  {
    hide Map4kb, Unmap;
    var only := [moves[0]];
    assert only[1..] == [];
  }

  lemma MoveRuns(s: State, root: Frame, levels: map<Frame, nat>, m: Memory, move: Move, r: Frame)
    requires Separate(s, root, levels) && SameTables(m, s.m, levels) && Playable(s, root, move) && IsRoot(s.shape, r)
    ensures
      var s' := Play(s, root, move);
      && Separate(s', root, levels) && SameTables(PlayOriginal(m, root, [move]), s'.m, levels) && IsRoot(s'.shape, r)
      && ((move.Other? && move.op.WritesThrough(r)) || forall w :: Walk(s'.m, r, w) == Walk(s.m, r, w))
  {
    hide Load, Separate, Step, Walk, Map4kb, Unmap, IsRoot, SameTables, Inv, PageLevel, InTables, Allowed, TableAt;
    if move.Other? {
      var only := [move];
      assert only[1..] == [];
      SeparateGraded(s, root, levels);
      OtherMove(s, root, levels, move.op);
      SameTablesTrans(m, s.m, Step(s, move.op).m, levels);
      TableStepAllowed(s, move.op);
      StepKeepsInv(s, move.op);
      if !move.op.WritesThrough(r) {
        forall w
          ensures Walk(Step(s, move.op).m, r, w) == Walk(s.m, r, w)
        {
          StepIsolated(s, move.op, r, w);
        }
      }
    } else {
      OriginalMove(s, root, levels, m, move);
    }
  }

  // Runs that write through the original, through its clone and elsewhere, in any order: the clone keeps the
  // translations of the moment of cloning unless it is written through, and the original has the translations that
  // the moves through it alone give it.
  lemma SharedCloneRuns(s: State, root: Frame, levels: map<Frame, nat>, moves: seq<Move>)
    requires Separate(s, root, levels) && TablesOutside(s.m, root, Own(s)) && TakesAligned(s, root)
    requires CloneHigherHalf(s, root).status == Cloned && AllPlayable(CloneHigherHalf(s, root).s, root, moves)
    ensures s.pool != []
    ensures
      var end, clone := PlayAll(CloneHigherHalf(s, root).s, root, moves), s.pool[0];
      && (forall w :: NoneThrough(moves, clone) && !GigaMapped(s.m, root, w) ==>
            Walk(end.m, clone, w) == Walk(s.m, root, w))
      && (forall w :: Walk(end.m, root, w) == Walk(PlayOriginal(s.m, root, moves), root, w))
  {
    hide Load, Separate, Walk, SameTables, Inv, CloneHigherHalf, AllPlayable, PlayAll, PlayOriginal, NoneThrough,
      TablesOutside, TakesAligned, GigaMapped, TablesOutsidePool, IsRoot, Own;
    SeparateGraded(s, root, levels);
    CloneKeepsInv(s, root);
    var r, clone := CloneHigherHalf(s, root).s, s.pool[0];
    CloneSeparate(s, root, levels);
    PlayRuns(r, root, levels, s.m, moves, clone);
    OutsidePool(s, root);
    var end := PlayAll(r, root, moves);
    SeparateGraded(end, root, levels);
    SameTablesBack(PlayOriginal(s.m, root, moves), end.m, levels);
    forall w
      ensures Walk(end.m, root, w) == Walk(PlayOriginal(s.m, root, moves), root, w)
      ensures NoneThrough(moves, clone) && !GigaMapped(s.m, root, w) ==> Walk(end.m, clone, w) == Walk(s.m, root, w)
    {
      GradedWalks(end.m, PlayOriginal(s.m, root, moves), root, levels, w);
      if !GigaMapped(s.m, root, w) {
        CloneTranslates(s, root, w);
      }
    }
  }

  lemma CloneSeparate(s: State, root: Frame, levels: map<Frame, nat>)
    requires Separate(s, root, levels) && TakesAligned(s, root)
    ensures Separate(CloneHigherHalf(s, root).s, root, levels)
    ensures SameTables(s.m, CloneHigherHalf(s, root).s.m, levels)
  {
    hide CloneHigherHalf, Inv, Load, TakesAligned, Graded;
    assert InTables(s, CloneSpace(root));
    OtherMove(s, root, levels, CloneSpace(root));
  }
}
