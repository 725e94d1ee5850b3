// clone_higher_half: the copy of the four levels of tables, its shape and its translations.
module Cloning {
  import opened Wrappers
  import opened PageEntry
  import opened Paging
  import opened Mapping

  // Fault: a table pointer keeps one of bits 52-63 and leaves the backed memory.
  datatype Status = Cloned | OutOfMemory | Fault

  datatype Progress = Progress(s: State, status: Status)

  // The entries that the clone takes for a table pointer. It does not test bit 7 at level 3.
  predicate Copies(level: nat, e: Entry) {
    level >= 2 && Present(e) && !(level == 2 && Huge(e))
  }

  // memcpy of one page from src to dst.
  function CopyTable(m: Memory, src: Frame, dst: Frame): (m': Memory)
    ensures forall i :: 0 <= i < 512 ==> Load(m', dst, i) == Load(m, src, i)
    ensures forall g, i :: g != dst ==> Load(m', g, i) == Load(m, g, i)
  {
    map c | c in m.Keys + (set i | 0 <= i < 512 :: Cell(dst, i)) ::
      if c.frame == dst && c.slot < 512 then Load(m, src, c.slot) else Load(m, c.frame, c.slot)
  }

  // A new table takes over entry i of table f.
  function CopyInto(level: nat, s: State, f: Frame, i: nat): State
    requires level >= 1 && s.pool != []
  {
    var e := Load(s.m, f, i);
    var c := s.pool[0];
    State(Store(CopyTable(s.m, Pointer(e), c), f, i, Relink(c, e)), s.pool[1..], s.shape[c := Child(level - 1, f, i)])
  }

  // The loop over the entries of a new table, from entry i on.
  function Fill(level: nat, s: State, f: Frame, i: nat): Progress
    requires 1 <= level <= 4 && i <= 512
    decreases level, 512 - i
  {
    if level == 1 || i == 512 then Progress(s, Cloned)
    else
      var e := Load(s.m, f, i);
      if !Copies(level, e) then Fill(level, s, f, i + 1)
      else if s.pool == [] || s.pool[0] == NULL then Progress(s, OutOfMemory)
      else if !IsFrame(Pointer(e)) then Progress(s.(pool := s.pool[1..]), Fault)
      else
        var r := Fill(level - 1, CopyInto(level, s, f, i), s.pool[0], 0);
        if r.status != Cloned then r else Fill(level, r.s, f, i + 1)
  }

  // The new root: a copy of the old one.
  function NewRoot(s: State, root: Frame): State
    requires s.pool != []
  {
    State(CopyTable(s.m, root, s.pool[0]), s.pool[1..], s.shape[s.pool[0] := Top])
  }

  // A clone that is given up leaves its tables without a place.
  function CloneHigherHalf(s: State, root: Frame): Progress {
    if s.pool == [] || s.pool[0] == NULL then Progress(s, OutOfMemory)
    else
      var r := Fill(4, NewRoot(s, root), s.pool[0], 0);
      if r.status == Cloned then r else r.(s := r.s.(shape := s.shape))
  }

  // ----- what a clone touches

  ghost predicate GoodPool(s: State) {
    && (forall c :: c in s.pool ==> IsFrame(c) && c != NULL && c !in s.shape)
    && (forall t, u :: 0 <= t < u < |s.pool| ==> s.pool[t] != s.pool[u])
  }

  ghost predicate Suffix(q: seq<Frame>, p: seq<Frame>) {
    |q| <= |p| && q == p[|p| - |q|..]
  }

  lemma SuffixMembers(q: seq<Frame>, p: seq<Frame>)
    requires Suffix(q, p)
    ensures forall c :: c in q ==> c in p
  {
  }

  lemma SuffixTrans(p: seq<Frame>, q: seq<Frame>, r: seq<Frame>)
    requires Suffix(q, p) && Suffix(r, q)
    ensures Suffix(r, p)
  {
    assert p[|p| - |q|..][|q| - |r|..] == p[|p| - |r|..];
  }

  // Only f and the frames taken from the pool may differ; places are added for taken frames only.
  ghost predicate Touches(s: State, r: State, f: Frame) {
    && Suffix(r.pool, s.pool)
    && (forall g, j :: g != f && (g !in s.pool || g in r.pool) ==> Load(r.m, g, j) == Load(s.m, g, j))
    && (forall g :: g in s.shape ==> g in r.shape && r.shape[g] == s.shape[g])
    && (forall g :: g in r.shape && g !in s.shape ==> g in s.pool && g !in r.pool)
  }

  lemma TouchesTrans(s: State, a: State, b: State, f: Frame, g: Frame)
    requires Touches(s, a, f) && Touches(a, b, g)
    requires g == f || (g in s.pool && g !in a.pool)
    ensures Touches(s, b, f)
  {
    hide Load, Suffix;
    SuffixTrans(s.pool, a.pool, b.pool);
    SuffixMembers(a.pool, s.pool);
    SuffixMembers(b.pool, a.pool);
    forall h, j | h != f && (h !in s.pool || h in b.pool)
      ensures Load(b.m, h, j) == Load(s.m, h, j)
    {
      assert h != g;
      assert Load(a.m, h, j) == Load(s.m, h, j);
    }
  }

  lemma TouchesKeepsGood(s: State, r: State, f: Frame)
    requires GoodPool(s) && Touches(s, r, f)
    ensures GoodPool(r)
  {
    hide Load, IsFrame;
    SuffixMembers(r.pool, s.pool);
    var n := |s.pool| - |r.pool|;
    assert forall t :: 0 <= t < |r.pool| ==> r.pool[t] == s.pool[t + n];
  }

  // A table with a place that is not f is spared.
  lemma TouchesSpares(s: State, r: State, f: Frame, g: Frame)
    requires GoodPool(s) && Touches(s, r, f) && g in s.shape
    ensures g in r.shape && r.shape[g] == s.shape[g] && g !in s.pool
    ensures g != f ==> forall j :: Load(r.m, g, j) == Load(s.m, g, j)
  {
    hide Load, IsFrame, Suffix;
  }

  lemma TakesNothing(s: State, f: Frame)
    ensures Touches(s, s, f)
    ensures s.pool != [] && s.pool[0] !in s.pool[1..] && s.pool[0] !in s.shape ==>
              Touches(s, s.(pool := s.pool[1..]), f)
  {
  }

  lemma CopyIntoTouches(level: nat, s: State, f: Frame, i: nat)
    requires 2 <= level <= 4 && s.pool != [] && GoodPool(s) && f in s.shape
    ensures
      var a := CopyInto(level, s, f, i);
      var c := s.pool[0];
      && Touches(s, a, f) && GoodPool(a)
      && c in s.pool && c !in a.pool && c != f && c !in s.shape && f in a.shape && IsFrame(c)
      && a.pool == s.pool[1..]
      && a.shape == s.shape[c := Child(level - 1, f, i)]
  {
    hide Load, Pointer, Relink, IsFrame;
    var a := CopyInto(level, s, f, i);
    assert s.pool == [s.pool[0]] + a.pool;
    TouchesKeepsGood(s, a, f);
  }

  lemma CopyIntoContents(level: nat, s: State, f: Frame, i: nat)
    requires 2 <= level <= 4 && s.pool != [] && s.pool[0] != f
    ensures
      var s' := CopyInto(level, s, f, i);
      var e := Load(s.m, f, i);
      && (forall j :: 0 <= j < 512 ==> Load(s'.m, s.pool[0], j) == Load(s.m, Pointer(e), j))
      && (forall j :: j != i ==> Load(s'.m, f, j) == Load(s.m, f, j))
      && Load(s'.m, f, i) == Relink(s.pool[0], e)
  {
    hide Load, Pointer, Relink, IsFrame;
  }

  // A clone, complete or not, leaves every table but its own alone.
  lemma {:induction false} FillTouches(level: nat, s: State, f: Frame, i: nat)
    requires 1 <= level <= 4 && i <= 512 && GoodPool(s) && f in s.shape
    ensures Touches(s, Fill(level, s, f, i).s, f)
    ensures forall j: nat :: j < i ==> Load(Fill(level, s, f, i).s.m, f, j) == Load(s.m, f, j)
    decreases level, 512 - i
  {
    hide Load, Pointer, Relink, IsFrame, Copies, CopyInto, Touches, GoodPool;
    TakesNothing(s, f);
    if level > 1 && i < 512 {
      var e := Load(s.m, f, i);
      if !Copies(level, e) {
        FillTouches(level, s, f, i + 1);
      } else if s.pool != [] && s.pool[0] != NULL {
        CopyIntoTouches(level, s, f, i);
        if IsFrame(Pointer(e)) {
          var c, a := s.pool[0], CopyInto(level, s, f, i);
          CopyIntoContents(level, s, f, i);
          FillTouches(level - 1, a, c, 0);
          var b := Fill(level - 1, a, c, 0);
          TouchesTrans(s, a, b.s, f, c);
          TouchesSpares(a, b.s, c, f);
          if b.status == Cloned {
            TouchesKeepsGood(a, b.s, c);
            FillTouches(level, b.s, f, i + 1);
            TouchesTrans(s, b.s, Fill(level, b.s, f, i + 1).s, f, f);
          }
        }
      }
    }
  }

  // ----- the shape of a clone

  // Entry j of table g leads to no table, or to a table that was not there before and whose place is that entry.
  ghost predicate NewSlot(s: State, before: Shape, level: nat, g: Frame, j: nat) {
    var e := Load(s.m, g, j);
    Descends(level, e) ==>
      Addr(e) !in before && Addr(e) in s.shape && s.shape[Addr(e)] == Child(level - 1, g, j)
  }

  ghost predicate NewSlots(s: State, before: Shape, level: nat, g: Frame, i: nat) {
    forall j :: i <= j < 512 ==> NewSlot(s, before, level, g, j)
  }

  ghost predicate NewTable(s: State, before: Shape, g: Frame)
    requires g in s.shape
  {
    IsFrame(g) && 1 <= s.shape[g].Level() <= 3 && NewSlots(s, before, s.shape[g].Level(), g, 0)
  }

  ghost predicate AllNew(s: State, before: Shape) {
    forall g :: g in s.shape && g !in before ==> NewTable(s, before, g)
  }

  ghost predicate Filled(s: State, before: Shape, level: nat, f: Frame, i: nat) {
    NewSlots(s, before, level, f, i) && AllNew(s, before)
  }

  lemma NewTableStays(s: State, r: State, f: Frame, g: Frame, before: Shape)
    requires GoodPool(s) && Touches(s, r, f) && g in s.shape && g != f && NewTable(s, before, g)
    ensures g in r.shape && NewTable(r, before, g)
  {
    hide Load, Addr, Present, Huge, IsFrame, GoodPool, Suffix;
    TouchesSpares(s, r, f, g);
    forall j | 0 <= j < 512
      ensures NewSlot(r, before, r.shape[g].Level(), g, j)
    {
      assert NewSlot(s, before, s.shape[g].Level(), g, j);
    }
  }

  lemma ChildIsNew(level: nat, s: State, f: Frame, i: nat, b: State)
    requires 2 <= level <= 4 && GoodPool(s) && f in s.shape && s.pool != []
    requires Touches(CopyInto(level, s, f, i), b, s.pool[0])
    requires Filled(b, CopyInto(level, s, f, i).shape, level - 1, s.pool[0], 0)
    ensures AllNew(b, s.shape)
    ensures s.pool[0] in b.shape && s.pool[0] !in s.shape && b.shape[s.pool[0]].Level() == level - 1
  {
    hide Load, Addr, Present, Huge, IsFrame, GoodPool, Suffix, CopyInto;
    var c, a := s.pool[0], CopyInto(level, s, f, i);
    CopyIntoTouches(level, s, f, i);
    TouchesSpares(a, b, c, c);
    assert NewTable(b, a.shape, c);
    forall g | g in b.shape && g !in s.shape
      ensures NewTable(b, s.shape, g)
    {
      assert NewTable(b, a.shape, g);
      var k := b.shape[g].Level();
      assert forall j :: NewSlot(b, a.shape, k, g, j) ==> NewSlot(b, s.shape, k, g, j);
    }
  }

  lemma FilledStep(level: nat, s: State, f: Frame, i: nat, b: State, r: State)
    requires 2 <= level <= 4 && i < 512 && GoodPool(s) && f in s.shape && s.pool != []
    requires GoodPool(b) && Touches(CopyInto(level, s, f, i), b, s.pool[0])
    requires Filled(b, CopyInto(level, s, f, i).shape, level - 1, s.pool[0], 0)
    requires Touches(b, r, f) && Filled(r, b.shape, level, f, i + 1)
    requires Load(r.m, f, i) == Relink(s.pool[0], Load(s.m, f, i))
    ensures Filled(r, s.shape, level, f, i)
  {
    hide Load, Addr, Present, Huge, Pointer, Relink, IsFrame, GoodPool, Suffix, CopyInto;
    var c, a := s.pool[0], CopyInto(level, s, f, i);
    CopyIntoTouches(level, s, f, i);
    ChildIsNew(level, s, f, i, b);
    TouchesSpares(a, b, c, f);
    assert forall h :: h in s.shape ==> h in b.shape;
    forall g | g in r.shape && g !in s.shape
      ensures NewTable(r, s.shape, g)
    {
      if g in b.shape {
        NewTableStays(b, r, f, g, s.shape);
      } else {
        assert NewTable(r, b.shape, g);
        var k := r.shape[g].Level();
        assert forall j :: NewSlot(r, b.shape, k, g, j) ==> NewSlot(r, s.shape, k, g, j);
      }
    }
    forall j | i <= j < 512
      ensures NewSlot(r, s.shape, level, f, j)
    {
      if j == i {
        RelinkFields(c, Load(s.m, f, i));
        TouchesSpares(b, r, f, c);
      } else {
        assert NewSlot(r, b.shape, level, f, j);
      }
    }
  }

  // Every table of a complete clone is new and is reached by exactly one entry.
  lemma {:induction false} FillShapes(level: nat, s: State, f: Frame, i: nat)
    requires 1 <= level <= 4 && i <= 512 && GoodPool(s) && f in s.shape
    requires Fill(level, s, f, i).status == Cloned
    ensures Filled(Fill(level, s, f, i).s, s.shape, level, f, i)
    decreases level, 512 - i
  {
    hide Load, Pointer, Relink, IsFrame, CopyInto, Touches, GoodPool, Present, Huge, Addr;
    if level > 1 && i < 512 {
      var e := Load(s.m, f, i);
      FillTouches(level, s, f, i);
      if !Copies(level, e) {
        FillShapes(level, s, f, i + 1);
        FillTouches(level, s, f, i + 1);
        assert NewSlot(Fill(level, s, f, i).s, s.shape, level, f, i);
      } else {
        var c, a := s.pool[0], CopyInto(level, s, f, i);
        CopyIntoTouches(level, s, f, i);
        CopyIntoContents(level, s, f, i);
        FillTouches(level - 1, a, c, 0);
        FillShapes(level - 1, a, c, 0);
        var b := Fill(level - 1, a, c, 0).s;
        TouchesSpares(a, b, c, f);
        TouchesKeepsGood(a, b, c);
        FillTouches(level, b, f, i + 1);
        FillShapes(level, b, f, i + 1);
        FilledStep(level, s, f, i, b, Fill(level, b, f, i + 1).s);
      }
    }
  }

  // ----- the translations of a clone

  // The walk ends at a 1 GB page.
  predicate UnderGiga(level: nat, m: Memory, e: Entry, v: bv64)
    requires 1 <= level <= 4
  {
    || (level == 3 && Present(e) && Huge(e))
    || (level == 4 && Present(e) && UnderGiga(3, m, Load(m, Addr(e), Index(v, 3)), v))
  }

  // No table that the clone would copy from below e is in frames.
  ghost predicate Avoids(level: nat, m: Memory, e: Entry, frames: set<Frame>) {
    Copies(level, e) ==>
      Addr(e) !in frames && forall j :: 0 <= j < 512 ==> Avoids(level - 1, m, Load(m, Addr(e), j), frames)
  }

  // The new entry and those below it on the walk of v have the flags of the old ones, lead to tables where the old ones
  // do, and elsewhere are the same words. Below a 1 GB page nothing is said.
  ghost predicate PathKept(level: nat, m: Memory, e: Entry, m': Memory, e': Entry, v: bv64)
    requires 1 <= level <= 4
    decreases level
  {
    && Flags(e') == Flags(e)
    && (if level == 3 && Present(e) && Huge(e) then true
        else if Descends(level, e) then
          && Descends(level, e') && IsFrame(Pointer(e'))
          && PathKept(level - 1, m, Load(m, Addr(e), Index(v, level - 1)),
                      m', Load(m', Addr(e'), Index(v, level - 1)), v)
        else e' == e)
  }

  // The new entry keeps the path of v and translates v as the old one did; under a 1 GB page it leads to the 1 GB page
  // around frame k of the pool.
  ghost predicate WalkKept(pool: seq<Frame>, k: nat, level: nat, m: Memory, e: Entry, m': Memory, e': Entry, v: bv64)
    requires 1 <= level <= 4
  {
    && PathKept(level, m, e, m', e', v)
    && (if UnderGiga(level, m, e, v) then k < |pool| && WalkEntry(level, m', e', v) == Some(GigaPage(pool[k], v))
        else WalkEntry(level, m', e', v) == WalkEntry(level, m, e, v))
  }

  // A path depends on the original through its tables only.
  lemma {:induction false} PathSource(
    level: nat, m: Memory, m1: Memory, e: Entry, m': Memory, e': Entry, v: bv64, frames: set<Frame>)
    requires 1 <= level <= 4 && Avoids(level, m, e, frames) && PathKept(level, m1, e, m', e', v)
    requires forall g, j :: g !in frames ==> Load(m1, g, j) == Load(m, g, j)
    ensures PathKept(level, m, e, m', e', v)
    decreases level
  {
    hide Load, Addr, Present, Huge, Index, Flags, Pointer, IsFrame;
    if Descends(level, e) {
      var j := Index(v, level - 1);
      PathSource(level - 1, m, m1, Load(m, Addr(e), j), m', Load(m', Addr(e'), j), v, frames);
    }
  }

  // What is cloned later does not change the paths inside the tables cloned so far.
  lemma {:induction false} PathTarget(
    level: nat, m: Memory, e: Entry, b: State, r: State, f: Frame, before: Shape, g: Frame, v: bv64)
    requires 1 <= level <= 3 && GoodPool(b) && Touches(b, r, f) && AllNew(b, before) && f in before
    requires g in b.shape && g !in before && b.shape[g].Level() == level
    requires PathKept(level, m, e, b.m, Load(b.m, g, Index(v, level)), v)
    ensures PathKept(level, m, e, r.m, Load(r.m, g, Index(v, level)), v)
    decreases level
  {
    hide Load, Addr, Present, Huge, Index, GoodPool, Touches, IsFrame, Flags, Pointer;
    TouchesSpares(b, r, f, g);
    var e' := Load(b.m, g, Index(v, level));
    assert NewTable(b, before, g);
    assert NewSlot(b, before, level, g, Index(v, level));
    if Descends(level, e) {
      PathTarget(level - 1, m, Load(m, Addr(e), Index(v, level - 1)), b, r, f, before, Addr(e'), v);
    }
  }

  // How many tables are made for slots i to x - 1 of table f.
  function Between(level: nat, m: Memory, f: Frame, i: nat, x: nat): nat
    requires 1 <= level <= 4 && i <= x <= 512
    decreases x - i
  {
    if i == x then 0
    else
      var e := Load(m, f, i);
      (if Copies(level, e) then 1 + Tables(level - 1, m, Addr(e), 0) else 0) + Between(level, m, f, i + 1, x)
  }

  // How many tables are made, from slot i of table f on, before the level-3 entry of v is copied.
  function Before(level: nat, m: Memory, f: Frame, i: nat, v: bv64): nat
    requires 1 <= level <= 4 && i <= Index(v, level)
    decreases level
  {
    var x := Index(v, level);
    var e := Load(m, f, x);
    Between(level, m, f, i, x) + if level == 4 && Copies(4, e) then 1 + Before(3, m, Addr(e), 0, v) else 0
  }

  lemma {:induction false} AvoidsAgree(level: nat, m: Memory, m': Memory, e: Entry, frames: set<Frame>)
    requires 1 <= level <= 4 && Avoids(level, m, e, frames)
    requires forall g, j :: g !in frames ==> Load(m', g, j) == Load(m, g, j)
    ensures Avoids(level, m', e, frames)
    ensures forall v :: WalkEntry(level, m', e, v) == WalkEntry(level, m, e, v)
    ensures forall v :: UnderGiga(level, m', e, v) == UnderGiga(level, m, e, v)
    decreases level
  {
    hide Load, Addr, Present, Huge, Index;
    if Copies(level, e) {
      var k := level - 1;
      forall j | 0 <= j < 512
        ensures Avoids(k, m', Load(m', Addr(e), j), frames)
        ensures forall v :: WalkEntry(k, m', Load(m', Addr(e), j), v) == WalkEntry(k, m, Load(m, Addr(e), j), v)
        ensures forall v :: UnderGiga(k, m', Load(m', Addr(e), j), v) == UnderGiga(k, m, Load(m, Addr(e), j), v)
      {
        AvoidsAgree(k, m, m', Load(m, Addr(e), j), frames);
      }
    }
  }

  // What is cloned later does not change the walks inside the tables cloned so far.
  lemma {:induction false} NewWalkStays(level: nat, b: State, r: State, f: Frame, before: Shape, g: Frame, v: bv64)
    requires 1 <= level <= 3 && GoodPool(b) && Touches(b, r, f) && AllNew(b, before) && f in before
    requires g in b.shape && g !in before && b.shape[g].Level() == level
    ensures WalkEntry(level, r.m, Load(r.m, g, Index(v, level)), v) ==
            WalkEntry(level, b.m, Load(b.m, g, Index(v, level)), v)
    decreases level
  {
    hide Load, Addr, Present, Huge, Index, GoodPool, Touches, IsFrame;
    TouchesSpares(b, r, f, g);
    var e := Load(b.m, g, Index(v, level));
    assert NewTable(b, before, g);
    assert NewSlot(b, before, level, g, Index(v, level));
    if Descends(level, e) {
      NewWalkStays(level - 1, b, r, f, before, Addr(e), v);
    }
  }

  // Entry i of f, now leading to the finished copy c, translates as it did before it was copied.
  lemma CopiedEntryKept(
    level: nat, s: State, f: Frame, i: nat, b: State, r: State, frames: set<Frame>, k: nat, v: bv64)
    requires 2 <= level <= 4 && i < 512 && GoodPool(s) && f in s.shape && s.pool != []
    requires Copies(level, Load(s.m, f, i)) && IsFrame(Pointer(Load(s.m, f, i)))
    requires Avoids(level, s.m, Load(s.m, f, i), frames) && f in frames && forall c :: c in s.pool ==> c in frames
    requires GoodPool(b) && Touches(CopyInto(level, s, f, i), b, s.pool[0])
    requires Filled(b, CopyInto(level, s, f, i).shape, level - 1, s.pool[0], 0)
    requires
      var a, c, j := CopyInto(level, s, f, i), s.pool[0], Index(v, level - 1);
      WalkKept(a.pool, k, level - 1, a.m, Load(a.m, c, j), b.m, Load(b.m, c, j), v)
    requires Touches(b, r, f)
    ensures
      var e := Load(s.m, f, i);
      WalkKept(s.pool, if level == 4 then 1 + k else 0, level, s.m, e, r.m, Relink(s.pool[0], e), v)
  {
    hide Load, Addr, Present, Huge, Pointer, Relink, IsFrame, GoodPool, Suffix, CopyInto, Index, Touches;
    var a, c, e, j := CopyInto(level, s, f, i), s.pool[0], Load(s.m, f, i), Index(v, level - 1);
    CopyIntoTouches(level, s, f, i);
    CopyIntoContents(level, s, f, i);
    RelinkFields(c, e);
    PointerIsAddr(e);
    ChildIsNew(level, s, f, i, b);
    var x := Load(s.m, Addr(e), j);
    assert Load(a.m, c, j) == x && Avoids(level - 1, s.m, x, frames);
    ChangesInside(s, a, f, frames);
    AvoidsAgree(level - 1, s.m, a.m, x, frames);
    NewWalkStays(level - 1, b, r, f, s.shape, c, v);
    PathTarget(level - 1, a.m, x, b, r, f, s.shape, c, v);
    PathSource(level - 1, s.m, a.m, x, r.m, Load(r.m, c, j), v, frames);
    RelinkFlags(c, e);
  }

  lemma ChangesInside(s: State, r: State, f: Frame, frames: set<Frame>)
    requires Touches(s, r, f) && f in frames && forall c :: c in s.pool ==> c in frames
    ensures forall g, j :: g !in frames ==> Load(r.m, g, j) == Load(s.m, g, j)
    ensures forall c :: c in r.pool ==> c in frames
  {
    hide Load, Suffix;
    SuffixMembers(r.pool, s.pool);
  }

  lemma ChildAvoids(level: nat, s: State, f: Frame, i: nat, frames: set<Frame>)
    requires 2 <= level <= 4 && GoodPool(s) && f in s.shape && s.pool != []
    requires Copies(level, Load(s.m, f, i)) && IsFrame(Pointer(Load(s.m, f, i)))
    requires Avoids(level, s.m, Load(s.m, f, i), frames) && f in frames && forall c :: c in s.pool ==> c in frames
    ensures
      var a, c := CopyInto(level, s, f, i), s.pool[0];
      forall j :: 0 <= j < 512 ==> Avoids(level - 1, a.m, Load(a.m, c, j), frames)
  {
    hide Load, Addr, Present, Huge, Pointer, IsFrame, GoodPool, CopyInto, Touches;
    var a, c, e := CopyInto(level, s, f, i), s.pool[0], Load(s.m, f, i);
    CopyIntoTouches(level, s, f, i);
    CopyIntoContents(level, s, f, i);
    PointerIsAddr(e);
    ChangesInside(s, a, f, frames);
    forall j | 0 <= j < 512
      ensures Avoids(level - 1, a.m, Load(a.m, c, j), frames)
    {
      AvoidsAgree(level - 1, s.m, a.m, Load(s.m, Addr(e), j), frames);
    }
  }

  lemma PoolShrinks(s: State, r: State, f: Frame)
    requires Touches(s, r, f)
    ensures forall c :: c in r.pool ==> c in s.pool
  {
    SuffixMembers(r.pool, s.pool);
  }

  lemma {:induction false} BetweenAgree(
    level: nat, m: Memory, f: Frame, m': Memory, f': Frame, i: nat, x: nat, frames: set<Frame>)
    requires 1 <= level <= 4 && i <= x <= 512
    requires forall j :: i <= j < 512 ==> Load(m', f', j) == Load(m, f, j) && Avoids(level, m, Load(m, f, j), frames)
    requires forall g, j :: g !in frames ==> Load(m', g, j) == Load(m, g, j)
    ensures Between(level, m', f', i, x) == Between(level, m, f, i, x)
    decreases x - i
  {
    hide Load, Addr, Present, Huge, Tables;
    if i < x {
      var e := Load(m, f, i);
      if Copies(level, e) {
        if level == 1 {
          assert false;
        }
        TablesAgree(level - 1, m, Addr(e), m', Addr(e), 0, frames);
      }
      BetweenAgree(level, m, f, m', f', i + 1, x, frames);
    }
  }

  lemma BeforeAgrees(level: nat, m: Memory, f: Frame, m': Memory, f': Frame, i: nat, v: bv64, frames: set<Frame>)
    requires 1 <= level <= 4 && i <= Index(v, level)
    requires forall j :: i <= j < 512 ==> Load(m', f', j) == Load(m, f, j) && Avoids(level, m, Load(m, f, j), frames)
    requires forall g, j :: g !in frames ==> Load(m', g, j) == Load(m, g, j)
    ensures Before(level, m', f', i, v) == Before(level, m, f, i, v)
    decreases level
  {
    hide Load, Addr, Present, Huge, Index, Between, Copies;
    BetweenAgree(level, m, f, m', f', i, Index(v, level), frames);
    var e := Load(m, f, Index(v, level));
    if level == 4 && Copies(4, e) {
      BeforeAgrees(3, m, Addr(e), m', Addr(e), 0, v, frames);
    }
  }

  lemma {:induction false} FillWalks(level: nat, s: State, f: Frame, i: nat, frames: set<Frame>, v: bv64)
    requires 1 <= level <= 4 && i <= 512 && GoodPool(s) && f in s.shape
    requires Fill(level, s, f, i).status == Cloned
    requires f in frames && forall c :: c in s.pool ==> c in frames
    requires forall j :: i <= j < 512 ==> Avoids(level, s.m, Load(s.m, f, j), frames)
    requires i <= Index(v, level)
    ensures
      var r, x := Fill(level, s, f, i).s, Index(v, level);
      WalkKept(s.pool, Before(level, s.m, f, i, v), level, s.m, Load(s.m, f, x), r.m, Load(r.m, f, x), v)
    decreases level, 512 - i
  {
    hide Load, Pointer, Relink, IsFrame, CopyInto, Touches, GoodPool, Present, Huge, Addr, Index, Filled, WalkEntry,
      Before, Tables, WalkKept, Avoids, UnderGiga;
    var x := Index(v, level);
    if level == 1 || i == 512 || (!Copies(level, Load(s.m, f, i)) && x == i) {
      UncopiedHere(level, s, f, i, frames, v);
    } else if !Copies(level, Load(s.m, f, i)) {
      FillWalks(level, s, f, i + 1, frames, v);
      BeforeStep(level, s.m, f, i, v);
    } else {
      var c, a := s.pool[0], CopyInto(level, s, f, i);
      CopyIntoTouches(level, s, f, i);
      if x == i {
        ChildAvoids(level, s, f, i, frames);
        ChangesInside(s, a, f, frames);
        FillWalks(level - 1, a, c, 0, frames, v);
        CopiedHere(level, s, f, i, frames, v);
      } else {
        var b := Fill(level - 1, a, c, 0).s;
        RestWalks(level, s, f, i, frames, v);
        FillWalks(level, b, f, i + 1, frames, v);
        BeforeStep(level, s.m, f, i, v);
        var n := 1 + Tables(level - 1, s.m, Addr(Load(s.m, f, i)), 0);
        var r := Fill(level, s, f, i).s;
        WalkKeptPath(b.pool, Before(level, b.m, f, i + 1, v), level, b.m, Load(s.m, f, x), r.m, Load(r.m, f, x), v);
        PathSource(level, s.m, b.m, Load(s.m, f, x), r.m, Load(r.m, f, x), v, frames);
        WalkKeptLater(s, b, n, Before(level, b.m, f, i + 1, v), level, Load(s.m, f, x), r.m, Load(r.m, f, x), v);
      }
    }
  }

  // A slot that is not copied.
  lemma UncopiedHere(level: nat, s: State, f: Frame, i: nat, frames: set<Frame>, v: bv64)
    requires 1 <= level <= 4 && i <= 512 && GoodPool(s) && f in s.shape && i <= Index(v, level)
    requires f in frames && forall c :: c in s.pool ==> c in frames
    requires forall j :: i <= j < 512 ==> Avoids(level, s.m, Load(s.m, f, j), frames)
    requires level == 1 || i == 512 || (!Copies(level, Load(s.m, f, i)) && Index(v, level) == i)
    ensures
      var r, x := Fill(level, s, f, i).s, Index(v, level);
      WalkKept(s.pool, Before(level, s.m, f, i, v), level, s.m, Load(s.m, f, x), r.m, Load(r.m, f, x), v)
  {
    hide Load, Pointer, Relink, IsFrame, CopyInto, Touches, GoodPool, Present, Huge, Addr, Index, WalkEntry, Before,
      Tables;
    if level > 1 && i < 512 {
      FillTouches(level, s, f, i + 1);
      ChangesInside(s, Fill(level, s, f, i).s, f, frames);
      AvoidsAgree(level, s.m, Fill(level, s, f, i).s.m, Load(s.m, f, i), frames);
    }
  }

  lemma WalkKeptPath(pool: seq<Frame>, k: nat, level: nat, m: Memory, e: Entry, m': Memory, e': Entry, v: bv64)
    requires 1 <= level <= 4 && WalkKept(pool, k, level, m, e, m', e', v)
    ensures PathKept(level, m, e, m', e', v)
  {
  }

  // What holds of the rest of the pool holds of the pool.
  lemma WalkKeptLater(s: State, b: State, n: nat, k: nat, level: nat, e: Entry, m': Memory, e': Entry, v: bv64)
    requires 1 <= level <= 4 && n <= |s.pool| && b.pool == s.pool[n..]
    requires WalkEntry(level, b.m, e, v) == WalkEntry(level, s.m, e, v)
    requires UnderGiga(level, b.m, e, v) == UnderGiga(level, s.m, e, v)
    requires WalkKept(b.pool, k, level, b.m, e, m', e', v) && PathKept(level, s.m, e, m', e', v)
    ensures WalkKept(s.pool, k + n, level, s.m, e, m', e', v)
  {
    hide WalkEntry, UnderGiga, GigaPage, PathKept;
  }

  // Entry i, with its copy and what is copied after it.
  lemma CopiedHere(level: nat, s: State, f: Frame, i: nat, frames: set<Frame>, v: bv64)
    requires 2 <= level <= 4 && i < 512 && GoodPool(s) && f in s.shape && s.pool != [] && i == Index(v, level)
    requires Copies(level, Load(s.m, f, i)) && IsFrame(Pointer(Load(s.m, f, i)))
    requires Fill(level, s, f, i).status == Cloned
    requires Avoids(level, s.m, Load(s.m, f, i), frames) && f in frames && forall c :: c in s.pool ==> c in frames
    requires
      var a, c, x := CopyInto(level, s, f, i), s.pool[0], Index(v, level - 1);
      var b := Fill(level - 1, a, c, 0).s;
      WalkKept(a.pool, Before(level - 1, a.m, c, 0, v), level - 1, a.m, Load(a.m, c, x), b.m, Load(b.m, c, x), v)
    ensures
      var r := Fill(level, s, f, i).s;
      WalkKept(s.pool, Before(level, s.m, f, i, v), level, s.m, Load(s.m, f, i), r.m, Load(r.m, f, i), v)
  {
    hide Load, Pointer, Relink, IsFrame, CopyInto, Touches, GoodPool, Present, Huge, Addr, Index, Filled, WalkEntry,
      Before, Tables, WalkKept, Avoids;
    var c, a, r := s.pool[0], CopyInto(level, s, f, i), Fill(level, s, f, i).s;
    assert s.pool[0] != NULL by {
      PoolHasNoNull(s);
    }
    CopyIntoTouches(level, s, f, i);
    CopyIntoContents(level, s, f, i);
    FillTouches(level - 1, a, c, 0);
    FillShapes(level - 1, a, c, 0);
    var b := Fill(level - 1, a, c, 0).s;
    TouchesSpares(a, b, c, f);
    TouchesKeepsGood(a, b, c);
    FillTouches(level, b, f, i + 1);
    CopiedEntryKept(level, s, f, i, b, r, frames, Before(level - 1, a.m, c, 0, v), v);
    BeforeHere(level, s, f, i, frames, v);
  }

  lemma BeforeStep(level: nat, m: Memory, f: Frame, i: nat, v: bv64)
    requires 2 <= level <= 4 && i < Index(v, level)
    ensures
      var e := Load(m, f, i);
      Before(level, m, f, i, v) ==
      Before(level, m, f, i + 1, v) + if Copies(level, e) then 1 + Tables(level - 1, m, Addr(e), 0) else 0
  {
    hide Load, Present, Huge, Addr, Index, Tables;
  }

  // The copy of v's own entry takes the first frame; at level 4 the tables below it come next.
  lemma BeforeHere(level: nat, s: State, f: Frame, i: nat, frames: set<Frame>, v: bv64)
    requires 2 <= level <= 4 && GoodPool(s) && f in s.shape && s.pool != [] && i == Index(v, level)
    requires Copies(level, Load(s.m, f, i)) && IsFrame(Pointer(Load(s.m, f, i)))
    requires Avoids(level, s.m, Load(s.m, f, i), frames) && f in frames && forall c :: c in s.pool ==> c in frames
    ensures
      var a, c := CopyInto(level, s, f, i), s.pool[0];
      Before(level, s.m, f, i, v) == if level == 4 then 1 + Before(3, a.m, c, 0, v) else 0
  {
    hide Load, Addr, Present, Huge, Pointer, IsFrame, GoodPool, CopyInto, Touches, Tables, Index;
    var a, c, e := CopyInto(level, s, f, i), s.pool[0], Load(s.m, f, i);
    if level == 4 {
      CopyIntoTouches(level, s, f, i);
      CopyIntoContents(level, s, f, i);
      PointerIsAddr(e);
      ChangesInside(s, a, f, frames);
      BeforeAgrees(3, s.m, Addr(e), a.m, c, 0, v, frames);
    }
  }

  // What the rest of the loop starts from: the entries still to copy, and the pool without the frames that entry i
  // has taken.
  lemma RestWalks(level: nat, s: State, f: Frame, i: nat, frames: set<Frame>, v: bv64)
    requires 2 <= level <= 4 && i < 512 && GoodPool(s) && f in s.shape && s.pool != [] && i < Index(v, level)
    requires Copies(level, Load(s.m, f, i)) && IsFrame(Pointer(Load(s.m, f, i)))
    requires Fill(level - 1, CopyInto(level, s, f, i), s.pool[0], 0).status == Cloned
    requires f in frames && forall c :: c in s.pool ==> c in frames
    requires forall j :: i <= j < 512 ==> Avoids(level, s.m, Load(s.m, f, j), frames)
    ensures
      var b, x := Fill(level - 1, CopyInto(level, s, f, i), s.pool[0], 0).s, Index(v, level);
      var n := 1 + Tables(level - 1, s.m, Addr(Load(s.m, f, i)), 0);
      && GoodPool(b) && f in b.shape && n <= |s.pool| && b.pool == s.pool[n..]
      && Load(b.m, f, x) == Load(s.m, f, x)
      && (forall c :: c in b.pool ==> c in frames)
      && (forall j :: i + 1 <= j < 512 ==> Avoids(level, b.m, Load(b.m, f, j), frames))
      && Before(level, b.m, f, i + 1, v) == Before(level, s.m, f, i + 1, v)
      && (forall w :: WalkEntry(level, b.m, Load(s.m, f, x), w) == WalkEntry(level, s.m, Load(s.m, f, x), w))
      && (forall w :: UnderGiga(level, b.m, Load(s.m, f, x), w) == UnderGiga(level, s.m, Load(s.m, f, x), w))
      && (forall g, j :: g !in frames ==> Load(b.m, g, j) == Load(s.m, g, j))
  {
    hide Load, Pointer, Relink, IsFrame, CopyInto, Touches, GoodPool, Present, Huge, Addr, Avoids, Fill, Tables, Before,
      WalkEntry, UnderGiga, Index, Suffix;
    var c, a, x := s.pool[0], CopyInto(level, s, f, i), Index(v, level);
    CopyIntoTouches(level, s, f, i);
    CopyIntoContents(level, s, f, i);
    FillTouches(level - 1, a, c, 0);
    var b := Fill(level - 1, a, c, 0).s;
    TouchesSpares(a, b, c, f);
    TouchesKeepsGood(a, b, c);
    TouchesTrans(s, a, b, f, c);
    ChangesInside(s, b, f, frames);
    ChangesInside(s, a, f, frames);
    ChildAvoids(level, s, f, i, frames);
    ChildAgrees(level, s, f, i, frames);
    FillCost(level - 1, a, c, 0, frames);
    SuffixFrom(s, b, f);
    forall j | i + 1 <= j < 512
      ensures Load(b.m, f, j) == Load(s.m, f, j) && Avoids(level, b.m, Load(b.m, f, j), frames)
    {
      AvoidsAgree(level, s.m, b.m, Load(s.m, f, j), frames);
    }
    AvoidsAgree(level, s.m, b.m, Load(s.m, f, x), frames);
    BeforeAgrees(level, s.m, f, b.m, f, i + 1, v, frames);
  }

  lemma SuffixFrom(s: State, r: State, f: Frame)
    requires Touches(s, r, f)
    ensures |r.pool| <= |s.pool| && r.pool == s.pool[|s.pool| - |r.pool|..]
  {
    hide Load;
  }

  // ----- clone_higher_half as a whole

  lemma NewRootTouches(s: State, root: Frame)
    requires GoodPool(s) && s.pool != []
    ensures
      var a, c := NewRoot(s, root), s.pool[0];
      && Touches(s, a, c) && GoodPool(a) && IsFrame(c) && c !in a.pool && c !in s.shape
      && a.pool == s.pool[1..] && a.shape == s.shape[c := Top]
      && forall j :: 0 <= j < 512 ==> Load(a.m, c, j) == Load(s.m, root, j)
  {
    hide Load, IsFrame;
    assert s.pool == [s.pool[0]] + NewRoot(s, root).pool;
    TouchesKeepsGood(s, NewRoot(s, root), s.pool[0]);
  }

  lemma CloneTouches(s: State, root: Frame)
    requires GoodPool(s)
    ensures var r := CloneHigherHalf(s, root); s.pool == [] || Touches(s, r.s, s.pool[0])
  {
    hide Load, IsFrame, Touches, GoodPool, Fill;
    if s.pool != [] {
      TakesNothing(s, s.pool[0]);
      if s.pool[0] != NULL {
        var a, c := NewRoot(s, root), s.pool[0];
        NewRootTouches(s, root);
        FillTouches(4, a, c, 0);
        var b := Fill(4, a, c, 0).s;
        TouchesTrans(s, a, b, c, c);
        TouchesForgets(s, b, c);
      }
    }
  }

  lemma TouchesForgets(s: State, r: State, f: Frame)
    requires Touches(s, r, f)
    ensures Touches(s, r.(shape := s.shape), f)
  {
  }

  lemma SparedForest(s: State, r: State, f: Frame)
    requires Forest(s.m, s.shape) && GoodPool(s) && Touches(s, r, f) && f !in s.shape
    ensures forall g, j :: g in s.shape && 0 <= j < 512 ==> SlotShaped(r.m, r.shape, g, j)
  {
    hide Load, Addr, Present, Huge, IsFrame, GoodPool, Suffix;
    forall g, j | g in s.shape && 0 <= j < 512
      ensures SlotShaped(r.m, r.shape, g, j)
    {
      TouchesSpares(s, r, f, g);
      assert SlotShaped(s.m, s.shape, g, j);
    }
  }

  // The addresses that aligned_alloc hands out are those of frames.
  ghost predicate Aligned(q: seq<Frame>) {
    forall t :: 0 <= t < |q| ==> IsFrame(q[t])
  }

  lemma AlignedTable(f: Frame)
    requires IsFrame(f)
    ensures TableOf(f) == f
  {
    hide IsFrame, Addr, LinkTo, Present, Huge;
    LinkFields(f);
  }

  lemma FreshIsGood(s: State)
    requires FreshPool(s) && Aligned(s.pool)
    ensures GoodPool(s)
    ensures forall t :: 0 <= t < |s.pool| ==> TableOf(s.pool[t]) == s.pool[t]
  {
    hide Load, IsFrame, TableOf;
    forall t | 0 <= t < |s.pool|
      ensures TableOf(s.pool[t]) == s.pool[t]
    {
      AlignedTable(s.pool[t]);
    }
    forall c | c in s.pool
      ensures IsFrame(c) && c != NULL && c !in s.shape
    {
      var t :| 0 <= t < |s.pool| && s.pool[t] == c;
      assert FreshFrame(s, s.pool[t]);
    }
  }

  lemma TouchesKeepsFresh(s: State, r: State, f: Frame)
    requires FreshPool(s) && Aligned(s.pool) && Touches(s, r, f) && f in s.pool && f !in r.pool
    ensures FreshPool(r) && Aligned(r.pool)
  {
    hide Load, IsFrame, TableOf;
    FreshIsGood(s);
    TouchesKeepsGood(s, r, f);
    SuffixMembers(r.pool, s.pool);
    var n := |s.pool| - |r.pool|;
    forall t | 0 <= t < |r.pool|
      ensures FreshFrame(r, r.pool[t])
    {
      assert FreshFrame(s, s.pool[t + n]) && r.pool[t] == s.pool[t + n];
    }
  }

  lemma CloneKeepsForest(s: State, root: Frame)
    requires Inv(s) && GoodPool(s) && s.pool != []
    ensures var r := CloneHigherHalf(s, root); Forest(r.s.m, r.s.shape)
    ensures CloneHigherHalf(s, root).status == Cloned ==> IsRoot(CloneHigherHalf(s, root).s.shape, s.pool[0])
  {
    hide Load, IsFrame, Touches, GoodPool, Fill, Present, Huge, Addr, NewRoot, FreshPool;
    var r, c := CloneHigherHalf(s, root), s.pool[0];
    CloneTouches(s, root);
    NewRootTouches(s, root);
    SparedForest(s, r.s, c);
    forall g | g in s.shape
      ensures g in r.s.shape && r.s.shape[g] == s.shape[g]
    {
      TouchesSpares(s, r.s, c, g);
    }
    if r.status == Cloned {
      var a := NewRoot(s, root);
      FillTouches(4, a, c, 0);
      FillShapes(4, a, c, 0);
      TouchesSpares(a, r.s, c, c);
      forall g, j | g in r.s.shape && 0 <= j < 512
        ensures SlotShaped(r.s.m, r.s.shape, g, j)
      {
        if g == c {
          assert NewSlot(r.s, a.shape, 4, c, j);
        } else if g !in s.shape {
          assert NewTable(r.s, a.shape, g);
          assert NewSlot(r.s, a.shape, r.s.shape[g].Level(), g, j);
        }
      }
    }
  }

  // A clone keeps the invariant of all address spaces and every translation of the roots there were, whether it
  // completes or not; a complete clone is one more root.
  lemma AlignedCloneKeepsInv(s: State, root: Frame)
    requires Inv(s) && Aligned(s.pool)
    ensures Inv(CloneHigherHalf(s, root).s) && SameWalks(s, CloneHigherHalf(s, root).s)
    ensures CloneHigherHalf(s, root).status == Cloned ==>
              s.pool != [] && s.pool[0] !in s.shape && IsRoot(CloneHigherHalf(s, root).s.shape, s.pool[0])
  {
    hide Load, IsFrame, Touches, GoodPool, Fill, Present, Huge, Addr, NewRoot, FreshPool;
    FreshIsGood(s);
    if s.pool != [] {
      var r, c := CloneHigherHalf(s, root), s.pool[0];
      CloneTouches(s, root);
      CloneKeepsForest(s, root);
      NewRootTouches(s, root);
      CloneTakesHead(s, root);
      TouchesKeepsFresh(s, r.s, c);
      forall g | g in s.shape
        ensures g in r.s.shape && r.s.shape[g] == s.shape[g]
        ensures forall j :: Load(r.s.m, g, j) == Load(s.m, g, j)
      {
        TouchesSpares(s, r.s, c, g);
      }
      forall q, w | IsRoot(s.shape, q)
        ensures Walk(r.s.m, q, w) == Walk(s.m, q, w)
      {
        ShapedWalkStays(4, s.m, s.shape, r.s.m, q, w);
      }
    }
  }

  lemma CloneTakesHead(s: State, root: Frame)
    requires GoodPool(s) && s.pool != []
    ensures s.pool[0] !in CloneHigherHalf(s, root).s.pool
  {
    hide Load, IsFrame, Touches, Fill, NewRoot;
    var a, c := NewRoot(s, root), s.pool[0];
    NewRootTouches(s, root);
    FillTouches(4, a, c, 0);
    TouchesSpares(a, Fill(4, a, c, 0).s, c, c);
    PoolShrinks(a, Fill(4, a, c, 0).s, c);
  }

  // ----- the meaning of a clone

  // No table that the clone copies is one of the frames that the allocator will hand out.
  ghost predicate TablesOutsidePool(s: State, root: Frame) {
    && root !in s.pool
    && forall j :: 0 <= j < 512 ==> Avoids(4, s.m, Load(s.m, root, j), set c | c in s.pool)
  }

  // v's page in the space of root is a 1 GB page.
  predicate GigaMapped(m: Memory, root: Frame, v: bv64) {
    UnderGiga(4, m, Load(m, root, Index(v, 4)), v)
  }

  // The place in the pool of the frame that the clone makes a table for the 1 GB page of v.
  function GigaCopy(m: Memory, root: Frame, v: bv64): nat {
    1 + Before(4, m, root, 0, v)
  }

  lemma CloneWalks(s: State, root: Frame, v: bv64)
    requires GoodPool(s) && TablesOutsidePool(s, root) && CloneHigherHalf(s, root).status == Cloned
    ensures
      var x, m' := Index(v, 4), CloneHigherHalf(s, root).s.m;
      WalkKept(s.pool, GigaCopy(s.m, root, v), 4, s.m, Load(s.m, root, x), m', Load(m', s.pool[0], x), v)
  {
    hide Load, IsFrame, Touches, Fill, NewRoot, GoodPool, Index, WalkEntry, UnderGiga, Before;
    var a, c, frames := NewRoot(s, root), s.pool[0], set c | c in s.pool;
    NewRootTouches(s, root);
    ChangesInside(s, a, c, frames);
    forall j | 0 <= j < 512
      ensures Avoids(4, a.m, Load(a.m, c, j), frames)
    {
      AvoidsAgree(4, s.m, a.m, Load(s.m, root, j), frames);
    }
    FillWalks(4, a, c, 0, frames, v);
    BeforeAgrees(4, s.m, root, a.m, c, 0, v, frames);
    var x, r := Index(v, 4), CloneHigherHalf(s, root).s;
    AvoidsAgree(4, s.m, a.m, Load(s.m, root, x), frames);
    PathSource(4, s.m, a.m, Load(s.m, root, x), r.m, Load(r.m, c, x), v, frames);
  }

  // Every address outside the 1 GB pages translates through the clone as through the original.
  lemma ClonePreserves(s: State, root: Frame, v: bv64)
    requires GoodPool(s) && TablesOutsidePool(s, root) && CloneHigherHalf(s, root).status == Cloned
    requires !GigaMapped(s.m, root, v)
    ensures Walk(CloneHigherHalf(s, root).s.m, s.pool[0], v) == Walk(s.m, root, v)
  {
    hide Load, IsFrame, Fill, NewRoot, GoodPool, Index, WalkEntry, UnderGiga, CloneHigherHalf, TablesOutsidePool;
    CloneWalks(s, root, v);
  }

  // Where the walk of v has a table of level k, the clone's walk has one, and its entry for v has the flags of the old
  // one. It leads to a table, through a clean pointer, where the old one does; it is the same word where the old one
  // does not, but for 1 GB pages.
  ghost predicate EntryKept(m: Memory, root: Frame, m': Memory, clone: Frame, v: bv64, k: nat)
    requires 1 <= k <= 4
  {
    TableAt(m, root, v, k).Some? ==>
      TableAt(m', clone, v, k).Some? &&
      var e := Load(m, TableAt(m, root, v, k).value, Index(v, k));
      var e' := Load(m', TableAt(m', clone, v, k).value, Index(v, k));
      && Flags(e') == Flags(e)
      && (Descends(k, e) ==> Descends(k, e') && IsFrame(Pointer(e')))
      && (!Descends(k, e) && !(k == 3 && Present(e) && Huge(e)) ==> e' == e)
  }

  lemma {:induction false} ClonePaths(s: State, root: Frame, v: bv64, k: nat)
    requires GoodPool(s) && TablesOutsidePool(s, root) && CloneHigherHalf(s, root).status == Cloned
    requires 1 <= k <= 4 && TableAt(s.m, root, v, k).Some?
    ensures s.pool != []
    ensures
      var m', c := CloneHigherHalf(s, root).s.m, s.pool[0];
      && TableAt(m', c, v, k).Some?
      && PathKept(k, s.m, Load(s.m, TableAt(s.m, root, v, k).value, Index(v, k)),
                  m', Load(m', TableAt(m', c, v, k).value, Index(v, k)), v)
    decreases 4 - k
  {
    hide Load, IsFrame, GoodPool, Index, Present, Huge, Addr, CloneHigherHalf, TablesOutsidePool, Flags, Pointer;
    CloneNeedsFrame(s, root);
    if k == 4 {
      CloneWalks(s, root, v);
    } else {
      ClonePaths(s, root, v, k + 1);
    }
  }

  // Every entry of the clone that some walk can read keeps its flags, and the entries that map pages are the same
  // words.
  lemma CloneKeepsEntries(s: State, root: Frame, v: bv64, k: nat)
    requires GoodPool(s) && TablesOutsidePool(s, root) && CloneHigherHalf(s, root).status == Cloned && 1 <= k <= 4
    ensures s.pool != [] && EntryKept(s.m, root, CloneHigherHalf(s, root).s.m, s.pool[0], v, k)
  {
    hide Load, IsFrame, GoodPool, Index, Present, Huge, Addr, CloneHigherHalf, TablesOutsidePool, Flags, Pointer,
      TableAt;
    CloneNeedsFrame(s, root);
    if TableAt(s.m, root, v, k).Some? {
      ClonePaths(s, root, v, k);
    }
  }

  // The frame of the level-3 entry of v.
  function GigaTarget(m: Memory, root: Frame, v: bv64): Frame {
    Addr(Load(m, Addr(Load(m, root, Index(v, 4))), Index(v, 3)))
  }

  // Under a 1 GB page an address translates through the clone into the 1 GB page around the frame that the clone
  // takes for it.
  lemma CloneMovesGigaPage(s: State, root: Frame, v: bv64)
    requires GoodPool(s) && TablesOutsidePool(s, root) && CloneHigherHalf(s, root).status == Cloned
    requires GigaMapped(s.m, root, v)
    ensures GigaCopy(s.m, root, v) < |s.pool|
    ensures Walk(CloneHigherHalf(s, root).s.m, s.pool[0], v) == Some(GigaPage(s.pool[GigaCopy(s.m, root, v)], v))
    ensures Walk(s.m, root, v) == Some(GigaPage(GigaTarget(s.m, root, v), v))
  {
    hide Load, IsFrame, Fill, NewRoot, GoodPool, Index, Present, Huge, Addr, CloneHigherHalf, TablesOutsidePool,
      GigaPage, GigaCopy;
    CloneWalks(s, root, v);
    var e := Load(s.m, Addr(Load(s.m, root, Index(v, 4))), Index(v, 3));
    assert UnderGiga(3, s.m, e, v);
    assert WalkEntry(3, s.m, e, v) == Some(GigaPage(Addr(e), v));
  }

  // The two frames lie in the same 1 GB region.
  predicate SameGiga(f: Frame, g: Frame) {
    GigaRegion(f.base) == GigaRegion(g.base)
  }

  lemma SameGigaPages(f: Frame, g: Frame, v: bv64)
    ensures GigaPage(f, v) == GigaPage(g, v) <==> SameGiga(f, g)
  {
    hide GigaBits, GigaRegion;
    SameRegionBits(f.base, g.base, v);
  }

  // The frame taken for the 1 GB page of v lies in the 1 GB region of that page.
  predicate CopyNearby(s: State, root: Frame, v: bv64) {
    GigaCopy(s.m, root, v) < |s.pool| && SameGiga(s.pool[GigaCopy(s.m, root, v)], GigaTarget(s.m, root, v))
  }

  // The clone translates every address as the original does exactly when, for each 1 GB page of the original, the
  // frame taken for it lies in the same 1 GB region.
  lemma CloneExact(s: State, root: Frame)
    requires GoodPool(s) && TablesOutsidePool(s, root) && CloneHigherHalf(s, root).status == Cloned
    ensures s.pool != []
    ensures (forall v :: Walk(CloneHigherHalf(s, root).s.m, s.pool[0], v) == Walk(s.m, root, v))
       <==> (forall v :: GigaMapped(s.m, root, v) ==> CopyNearby(s, root, v))
  {
    hide GoodPool, CloneHigherHalf, TablesOutsidePool, GigaPage, GigaMapped, GigaCopy, GigaTarget, SameGiga, Walk;
    CloneNeedsFrame(s, root);
    forall v
      ensures Walk(CloneHigherHalf(s, root).s.m, s.pool[0], v) == Walk(s.m, root, v)
         <==> (GigaMapped(s.m, root, v) ==> CopyNearby(s, root, v))
    {
      if GigaMapped(s.m, root, v) {
        CloneMovesGigaPage(s, root, v);
        SameGigaPages(s.pool[GigaCopy(s.m, root, v)], GigaTarget(s.m, root, v), v);
      } else {
        ClonePreserves(s, root, v);
      }
    }
  }

  // The original translates as before, shared tables or not, whether the clone completes or not.
  lemma CloneSparesOriginal(s: State, root: Frame, v: bv64)
    requires GoodPool(s) && TablesOutsidePool(s, root)
    ensures Walk(CloneHigherHalf(s, root).s.m, root, v) == Walk(s.m, root, v)
  {
    hide Load, IsFrame, Fill, NewRoot, GoodPool, Index, WalkEntry, UnderGiga, CloneHigherHalf, Touches, Avoids;
    if s.pool == [] {
      assert CloneHigherHalf(s, root).s == s by {
        CloneNothing(s, root);
      }
    } else {
      var frames := set c | c in s.pool;
      CloneTouches(s, root);
      ChangesInside(s, CloneHigherHalf(s, root).s, s.pool[0], frames);
      AvoidsAgree(4, s.m, CloneHigherHalf(s, root).s.m, Load(s.m, root, Index(v, 4)), frames);
    }
  }

  lemma CloneNeedsFrame(s: State, root: Frame)
    requires CloneHigherHalf(s, root).status == Cloned
    ensures s.pool != []
  {
  }

  lemma CloneNothing(s: State, root: Frame)
    requires s.pool == []
    ensures CloneHigherHalf(s, root).s == s
  {
  }

  // ----- when a clone completes, and what it costs

  // No table pointer that the clone follows from entry e keeps one of bits 52-63.
  ghost predicate Clean(level: nat, m: Memory, e: Entry) {
    Copies(level, e) ==> IsFrame(Pointer(e)) && forall j :: 0 <= j < 512 ==> Clean(level - 1, m, Load(m, Addr(e), j))
  }

  // How many tables lie below slots i and up of table f, counting a shared table once for each path to it.
  function Tables(level: nat, m: Memory, f: Frame, i: nat): nat
    requires 1 <= level <= 4 && i <= 512
    decreases level, 512 - i
  {
    if level == 1 || i == 512 then 0
    else
      var e := Load(m, f, i);
      (if Copies(level, e) then 1 + Tables(level - 1, m, Addr(e), 0) else 0) + Tables(level, m, f, i + 1)
  }

  lemma {:induction false} CleanAgrees(level: nat, m: Memory, m': Memory, e: Entry, frames: set<Frame>)
    requires 1 <= level <= 4 && Avoids(level, m, e, frames)
    requires forall g, j :: g !in frames ==> Load(m', g, j) == Load(m, g, j)
    ensures Clean(level, m', e) == Clean(level, m, e)
    decreases level
  {
    hide Load, Addr, Present, Huge, Pointer, IsFrame;
    if Copies(level, e) {
      forall j | 0 <= j < 512
        ensures Clean(level - 1, m', Load(m', Addr(e), j)) == Clean(level - 1, m, Load(m, Addr(e), j))
      {
        CleanAgrees(level - 1, m, m', Load(m, Addr(e), j), frames);
      }
    }
  }

  lemma {:induction false} TablesAgree(
    level: nat, m: Memory, f: Frame, m': Memory, f': Frame, i: nat, frames: set<Frame>)
    requires 1 <= level <= 4 && i <= 512
    requires forall j :: i <= j < 512 ==> Load(m', f', j) == Load(m, f, j) && Avoids(level, m, Load(m, f, j), frames)
    requires forall g, j :: g !in frames ==> Load(m', g, j) == Load(m, g, j)
    ensures Tables(level, m', f', i) == Tables(level, m, f, i)
    decreases level, 512 - i
  {
    hide Load, Addr, Present, Huge, Copies;
    if level > 1 && i < 512 {
      var e := Load(m, f, i);
      if Copies(level, e) {
        TablesAgree(level - 1, m, Addr(e), m', Addr(e), 0, frames);
      }
      TablesAgree(level, m, f, m', f', i + 1, frames);
    }
  }

  lemma ChildAgrees(level: nat, s: State, f: Frame, i: nat, frames: set<Frame>)
    requires 2 <= level <= 4 && GoodPool(s) && f in s.shape && s.pool != []
    requires Copies(level, Load(s.m, f, i)) && IsFrame(Pointer(Load(s.m, f, i)))
    requires Avoids(level, s.m, Load(s.m, f, i), frames) && f in frames && forall c :: c in s.pool ==> c in frames
    ensures
      var a, c, e := CopyInto(level, s, f, i), s.pool[0], Load(s.m, f, i);
      && Tables(level - 1, a.m, c, 0) == Tables(level - 1, s.m, Addr(e), 0)
      && (Clean(level, s.m, e) <==> forall j :: 0 <= j < 512 ==> Clean(level - 1, a.m, Load(a.m, c, j)))
  {
    hide Load, Addr, Present, Huge, Pointer, IsFrame, GoodPool, CopyInto, Touches, Tables;
    var a, c, e := CopyInto(level, s, f, i), s.pool[0], Load(s.m, f, i);
    CopyIntoTouches(level, s, f, i);
    CopyIntoContents(level, s, f, i);
    PointerIsAddr(e);
    ChangesInside(s, a, f, frames);
    TablesAgree(level - 1, s.m, Addr(e), a.m, c, 0, frames);
    forall j | 0 <= j < 512
      ensures Clean(level - 1, a.m, Load(a.m, c, j)) == Clean(level - 1, s.m, Load(s.m, Addr(e), j))
    {
      CleanAgrees(level - 1, s.m, a.m, Load(s.m, Addr(e), j), frames);
    }
  }

  ghost predicate CleanSlots(level: nat, m: Memory, f: Frame, i: nat) {
    forall j :: i <= j < 512 ==> Clean(level, m, Load(m, f, j))
  }

  lemma {:induction false} FillCost(level: nat, s: State, f: Frame, i: nat, frames: set<Frame>)
    requires 1 <= level <= 4 && i <= 512 && GoodPool(s) && f in s.shape
    requires f in frames && forall c :: c in s.pool ==> c in frames
    requires forall j :: i <= j < 512 ==> Avoids(level, s.m, Load(s.m, f, j), frames)
    ensures
      var r := Fill(level, s, f, i);
      && (r.status == Cloned <==> CleanSlots(level, s.m, f, i) && Tables(level, s.m, f, i) <= |s.pool|)
      && (r.status == Cloned ==> |r.s.pool| == |s.pool| - Tables(level, s.m, f, i))
      && (r.status == OutOfMemory ==> r.s.pool == []) && (r.status == Fault ==> !CleanSlots(level, s.m, f, i))
    decreases level, 512 - i
  {
    hide Load, Pointer, Relink, IsFrame, CopyInto, Touches, GoodPool, Present, Huge, Addr, Avoids;
    if level > 1 && i < 512 {
      var e := Load(s.m, f, i);
      assert CleanSlots(level, s.m, f, i) <==> Clean(level, s.m, e) && CleanSlots(level, s.m, f, i + 1);
      if !Copies(level, e) {
        FillCost(level, s, f, i + 1, frames);
      } else if s.pool != [] && s.pool[0] != NULL && IsFrame(Pointer(e)) {
        var c, a := s.pool[0], CopyInto(level, s, f, i);
        CopyIntoTouches(level, s, f, i);
        ChangesInside(s, a, f, frames);
        ChildAvoids(level, s, f, i, frames);
        ChildAgrees(level, s, f, i, frames);
        FillCost(level - 1, a, c, 0, frames);
        var b := Fill(level - 1, a, c, 0);
        if b.status == Cloned {
          RestAgrees(level, s, f, i, frames);
          FillCost(level, b.s, f, i + 1, frames);
        }
      } else {
        PoolHasNoNull(s);
      }
    }
  }

  lemma PoolHasNoNull(s: State)
    requires GoodPool(s)
    ensures s.pool != [] ==> s.pool[0] != NULL
  {
    assert s.pool != [] ==> s.pool[0] in s.pool;
  }

  lemma RestAgrees(level: nat, s: State, f: Frame, i: nat, frames: set<Frame>)
    requires 2 <= level <= 4 && i < 512 && GoodPool(s) && f in s.shape && s.pool != []
    requires f in frames && forall c :: c in s.pool ==> c in frames
    requires forall j :: i <= j < 512 ==> Avoids(level, s.m, Load(s.m, f, j), frames)
    ensures
      var b := Fill(level - 1, CopyInto(level, s, f, i), s.pool[0], 0).s;
      && GoodPool(b) && f in b.shape && (forall c :: c in b.pool ==> c in frames)
      && Tables(level, b.m, f, i + 1) == Tables(level, s.m, f, i + 1)
      && CleanSlots(level, b.m, f, i + 1) == CleanSlots(level, s.m, f, i + 1)
      && (forall j :: i + 1 <= j < 512 ==> Avoids(level, b.m, Load(b.m, f, j), frames))
  {
    hide Load, Pointer, Relink, IsFrame, CopyInto, Touches, GoodPool, Present, Huge, Addr, Avoids, Fill, Tables, Clean;
    var c, a := s.pool[0], CopyInto(level, s, f, i);
    CopyIntoTouches(level, s, f, i);
    CopyIntoContents(level, s, f, i);
    FillTouches(level - 1, a, c, 0);
    var b := Fill(level - 1, a, c, 0).s;
    TouchesSpares(a, b, c, f);
    TouchesKeepsGood(a, b, c);
    TouchesTrans(s, a, b, f, c);
    ChangesInside(s, b, f, frames);
    TablesAgree(level, s.m, f, b.m, f, i + 1, frames);
    forall j | i + 1 <= j < 512
      ensures Load(b.m, f, j) == Load(s.m, f, j)
      ensures Clean(level, b.m, Load(b.m, f, j)) == Clean(level, s.m, Load(s.m, f, j))
      ensures Avoids(level, b.m, Load(b.m, f, j), frames)
    {
      CleanAgrees(level, s.m, b.m, Load(s.m, f, j), frames);
      AvoidsAgree(level, s.m, b.m, Load(s.m, f, j), frames);
    }
  }

  // The clone completes exactly when every table pointer is clean and the pool holds a frame for the root and for
  // every table below it; it then takes exactly those frames.
  lemma CloneCost(s: State, root: Frame)
    requires GoodPool(s) && TablesOutsidePool(s, root)
    ensures
      var r, n := CloneHigherHalf(s, root), 1 + Tables(4, s.m, root, 0);
      && (r.status == Cloned <==> CleanSlots(4, s.m, root, 0) && n <= |s.pool|)
      && (r.status == Cloned ==> |r.s.pool| == |s.pool| - n)
      && (r.status == OutOfMemory ==> r.s.pool == []) && (r.status == Fault ==> !CleanSlots(4, s.m, root, 0))
  {
    hide Load, IsFrame, Touches, Fill, NewRoot, GoodPool, Tables, Avoids, Clean;
    if s.pool != [] {
      PoolHasNoNull(s);
      var a, c, frames := NewRoot(s, root), s.pool[0], set c | c in s.pool;
      NewRootTouches(s, root);
      ChangesInside(s, a, c, frames);
      TablesAgree(4, s.m, root, a.m, c, 0, frames);
      forall j | 0 <= j < 512
        ensures Avoids(4, a.m, Load(a.m, c, j), frames)
        ensures Clean(4, a.m, Load(a.m, c, j)) == Clean(4, s.m, Load(s.m, root, j))
      {
        CleanAgrees(4, s.m, a.m, Load(s.m, root, j), frames);
        AvoidsAgree(4, s.m, a.m, Load(s.m, root, j), frames);
      }
      FillCost(4, a, c, 0, frames);
    }
  }
}
