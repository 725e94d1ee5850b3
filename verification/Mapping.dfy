// map_4kb_page and unmap_page as functions of memory, and what they do to every translation.
module Mapping {
  import opened Wrappers
  import opened PageEntry
  import opened Paging

  // pool: the addresses that the allocator will hand out, in order; shape: the place of every table.
  datatype State = State(m: Memory, pool: seq<Frame>, shape: Shape)

  function CreateOrGet(s: State, f: Frame, i: nat, level: nat): (State, Frame)
    requires level >= 1
  {
    var e := Load(s.m, f, i);
    if Present(e) then (s, Addr(e))
    else if s.pool == [] || s.pool[0] == NULL then (s, NULL)
    else
      var link := LinkTo(s.pool[0]);
      var placed := s.shape[Addr(link) := Child(level - 1, f, i)];
      var shape := if f in s.shape && Descends(level, link) then placed else s.shape;
      (State(Store(s.m, f, i, link), s.pool[1..], shape), Addr(link))
  }

  function Map4kb(s: State, root: Frame, v: bv64, p: bv64, flags: bv64): State {
    var (a, pdpt) := CreateOrGet(s, root, Index(v, 4), 4);
    var (b, pd) := CreateOrGet(a, pdpt, Index(v, 3), 3);
    var (c, pt) := CreateOrGet(b, pd, Index(v, 2), 2);
    c.(m := Store(c.m, pt, Index(v, 1), Leaf(p, flags)))
  }

  function Unmap(m: Memory, root: Frame, v: bv64): Memory {
    var e4 := Load(m, root, Index(v, 4));
    if !Present(e4) then m
    else
      var pdpt := Addr(e4);
      var e3 := Load(m, pdpt, Index(v, 3));
      if !Present(e3) then m
      else
        var pd := Addr(e3);
        var e2 := Load(m, pd, Index(v, 2));
        if Large(e2) then Store(m, pd, Index(v, 2), ZERO)
        else if !Present(e2) then m
        else Store(m, Addr(e2), Index(v, 1), ZERO)
  }

  // ----- what the allocator is assumed to hand out, and the invariant of every run

  // The table at the allocated address n is not in use, and no word of it has the present bit. The address need not
  // be that of a frame.
  ghost predicate FreshFrame(s: State, n: Frame) {
    n != NULL && TableOf(n) !in s.shape && forall i :: 0 <= i < 512 ==> !Present(Load(s.m, TableOf(n), i))
  }

  ghost predicate FreshPool(s: State) {
    && (forall t :: 0 <= t < |s.pool| ==> FreshFrame(s, s.pool[t]))
    && (forall t, u :: 0 <= t < u < |s.pool| ==> TableOf(s.pool[t]) != TableOf(s.pool[u]))
  }

  ghost predicate Inv(s: State) {
    Forest(s.m, s.shape) && FreshPool(s)
  }

  // Every present entry on the walk of v above level 1 leads to a table.
  ghost predicate NoHugeOnWalk(m: Memory, root: Frame, v: bv64) {
    forall k :: 2 <= k <= 4 ==> NoHugeAt(m, root, v, k)
  }

  ghost predicate NoHugeAt(m: Memory, root: Frame, v: bv64, k: nat)
    requires 2 <= k <= 4
  {
    var t := TableAt(m, root, v, k);
    t.Some? && Present(Load(m, t.value, Index(v, k))) ==> Descends(k, Load(m, t.value, Index(v, k)))
  }

  // How many tables the walk of v lacks.
  function Missing(m: Memory, root: Frame, v: bv64): nat {
    if TableAt(m, root, v, 1).Some? then 0
    else if TableAt(m, root, v, 2).Some? then 1
    else if TableAt(m, root, v, 3).Some? then 2
    else 3
  }

  // Each root of s is a root of s' and translates every address as before.
  ghost predicate SameWalks(s: State, s': State) {
    && (forall r :: IsRoot(s.shape, r) ==> IsRoot(s'.shape, r))
    && (forall r, w :: IsRoot(s.shape, r) ==> Walk(s'.m, r, w) == Walk(s.m, r, w))
  }

  // ----- creating a table

  lemma LinkKeepsForest(s: State, f: Frame, i: nat, k: nat)
    requires Inv(s) && s.pool != [] && 2 <= k <= 4
    requires f in s.shape && s.shape[f].Level() == k && i < 512 && !Present(Load(s.m, f, i))
    ensures Forest(CreateOrGet(s, f, i, k).0.m, CreateOrGet(s, f, i, k).0.shape)
  {
    hide Present, Huge, Addr, IsFrame, Index, Load, LinkTo;
    var n := s.pool[0];
    assert FreshFrame(s, n);
    TableIsFrame(n);
    var s' := CreateOrGet(s, f, i, k).0;
    forall g, j | g in s'.shape && 0 <= j < 512
      ensures SlotShaped(s'.m, s'.shape, g, j)
    {
      if g == TableOf(n) {
        assert !Present(Load(s.m, g, j)) && g != f;
      } else if g != f || j != i {
        assert Load(s'.m, g, j) == Load(s.m, g, j);
        assert SlotShaped(s.m, s.shape, g, j);
      }
    }
  }

  lemma LinkKeepsFresh(s: State, f: Frame, i: nat, k: nat)
    requires Inv(s) && s.pool != [] && 2 <= k <= 4
    requires f in s.shape && i < 512 && !Present(Load(s.m, f, i))
    ensures FreshPool(CreateOrGet(s, f, i, k).0)
  {
    hide Present, Huge, Addr, IsFrame, Index, Load, LinkTo, Forest, TableOf;
    assert FreshFrame(s, s.pool[0]);
    var s' := CreateOrGet(s, f, i, k).0;
    assert TableOf(s.pool[0]) == Addr(LinkTo(s.pool[0])) by {
      TableIsAddr(s.pool[0]);
    }
    forall t | 0 <= t < |s'.pool|
      ensures FreshFrame(s', s'.pool[t])
    {
      assert s'.pool[t] == s.pool[t + 1] && FreshFrame(s, s.pool[t + 1]);
      assert TableOf(s.pool[0]) != TableOf(s.pool[t + 1]);
    }
  }

  lemma TableIsAddr(n: Frame)
    ensures TableOf(n) == Addr(LinkTo(n))
  {
  }

  // A new table is empty, so no translation changes, neither for this root nor for another.
  lemma LinkKeepsWalk(s: State, f: Frame, i: nat, k: nat, root: Frame, w: bv64)
    requires Inv(s) && s.pool != [] && 2 <= k <= 4 && Descends(k, LinkTo(s.pool[0]))
    requires f in s.shape && s.shape[f].Level() == k && i < 512 && !Present(Load(s.m, f, i))
    requires IsRoot(s.shape, root)
    ensures Walk(CreateOrGet(s, f, i, k).0.m, root, w) == Walk(s.m, root, w)
  {
    hide Present, Huge, Addr, IsFrame, Index, Load, LinkTo, Forest, IsRoot;
    var n := s.pool[0];
    assert FreshFrame(s, n);
    var m' := CreateOrGet(s, f, i, k).0.m;
    if Reads(s.m, root, w, k, f, i) {
      StoreKeepsTables(s.m, s.shape, root, w, k, f, i, LinkTo(n), k);
      WalkFromTable(s.m, root, w, k);
      WalkFromTable(m', root, w, k);
      var e := Load(m', TableOf(n), Index(w, k - 1));
      assert e == Load(s.m, TableOf(n), Index(w, k - 1)) && !Present(e);
      assert WalkEntry(k - 1, m', e, w) == None;
    } else {
      StoreKeepsWalk(s.m, s.shape, root, w, k, f, i, LinkTo(n));
    }
  }

  // The descent of map_4kb_page has reached the table of level k.
  ghost predicate Reached(s: State, root: Frame, v: bv64, k: nat)
    requires 1 <= k <= 4
  {
    && Inv(s) && IsRoot(s.shape, root)
    && TableAt(s.m, root, v, k).Some?
    && (k > 1 ==> NoHugeAt(s.m, root, v, k))
    && (k > 2 ==> NoHugeAt(s.m, root, v, k - 1))
    && (k > 3 ==> NoHugeAt(s.m, root, v, k - 2))
  }

  // The addresses taken for the tables that the walk of v lacks have bit 7 clear, unless they go into the top table:
  // their entries lead to tables and not to huge pages.
  ghost predicate PlainLinks(s: State, root: Frame, v: bv64) {
    var n := Missing(s.m, root, v);
    forall t :: 0 <= t < n && t < |s.pool| ==> Descends(n + 1 - t, LinkTo(s.pool[t]))
  }

  lemma NoTableBelow(m: Memory, root: Frame, v: bv64, k: nat, j: nat)
    requires 1 <= j < k <= 4 && TableAt(m, root, v, k).Some?
    requires !Present(Load(m, TableAt(m, root, v, k).value, Index(v, k)))
    ensures TableAt(m, root, v, j) == None
    decreases k - j
  {
    hide Present, Huge, Addr, Index, Load;
    if j < k - 1 {
      NoTableBelow(m, root, v, k, j + 1);
    }
  }

  lemma NothingBelow(m: Memory, root: Frame, v: bv64, k: nat)
    requires 2 <= k <= 4 && TableAt(m, root, v, k).Some?
    requires !Present(Load(m, TableAt(m, root, v, k).value, Index(v, k)))
    ensures Missing(m, root, v) == k - 1
  {
    hide Present, Huge, Addr, IsFrame, Index, Load;
    forall j | 1 <= j < k
      ensures TableAt(m, root, v, j) == None
    {
      NoTableBelow(m, root, v, k, j);
    }
  }

  // No table lies at f, and none will.
  ghost predicate Unused(s: State, f: Frame) {
    f !in s.shape && forall t :: 0 <= t < |s.pool| ==> TableOf(s.pool[t]) != f
  }

  // The step that makes a table.
  lemma LinkStep(s: State, root: Frame, v: bv64, k: nat)
    requires 2 <= k <= 4 && Reached(s, root, v, k) && s.pool != [] && Descends(k, LinkTo(s.pool[0]))
    requires !Present(Load(s.m, TableAt(s.m, root, v, k).value, Index(v, k)))
    ensures
      var f := TableAt(s.m, root, v, k).value;
      var (s', t) := CreateOrGet(s, f, Index(v, k), k);
      && Reached(s', root, v, k - 1)
      && TableAt(s'.m, root, v, k - 1) == Some(t)
      && SameWalks(s, s')
      && Missing(s'.m, root, v) == k - 2 && s'.pool == s.pool[1..]
  {
    hide Present, Huge, Addr, IsFrame, Index, Load, LinkTo;
    var f := TableAt(s.m, root, v, k).value;
    var i := Index(v, k);
    var (s', t) := CreateOrGet(s, f, i, k);
    TableAtShaped(s.m, s.shape, root, v, k);
    var n := s.pool[0];
    assert FreshFrame(s, n);
    LinkKeepsForest(s, f, i, k);
    LinkKeepsFresh(s, f, i, k);
    forall r, w | IsRoot(s.shape, r)
      ensures Walk(s'.m, r, w) == Walk(s.m, r, w)
    {
      LinkKeepsWalk(s, f, i, k, r, w);
    }
    StoreKeepsTables(s.m, s.shape, root, v, k, f, i, LinkTo(n), k);
    assert TableAt(s'.m, root, v, k - 1) == Some(TableOf(n));
    assert Load(s'.m, TableOf(n), Index(v, k - 1)) == Load(s.m, TableOf(n), Index(v, k - 1));
    if k > 2 {
      NothingBelow(s'.m, root, v, k - 1);
      forall j | 1 <= j < k - 1
        ensures TableAt(s'.m, root, v, j) == None
      {
        NoTableBelow(s'.m, root, v, k - 1, j);
      }
    }
  }

  lemma LinkWrites(s: State, root: Frame, v: bv64, k: nat)
    requires 2 <= k <= 4 && Reached(s, root, v, k)
    ensures
      var s' := CreateOrGet(s, TableAt(s.m, root, v, k).value, Index(v, k), k).0;
      KeepsUnused(s, s')
  {
    hide Present, Huge, Addr, IsFrame, Index, Load, LinkTo;
    TableAtShaped(s.m, s.shape, root, v, k);
  }

  // One step of the descent of map_4kb_page: to the next table of the walk, or nowhere without memory for it.
  lemma CreateOrGetStep(s: State, root: Frame, v: bv64, k: nat)
    requires 2 <= k <= 4 && Reached(s, root, v, k)
    requires
      var e := Load(s.m, TableAt(s.m, root, v, k).value, Index(v, k));
      Present(e) || s.pool == [] || Descends(k, LinkTo(s.pool[0]))
    ensures
      var f := TableAt(s.m, root, v, k).value;
      var (s', t) := CreateOrGet(s, f, Index(v, k), k);
      if s.pool == [] && !Present(Load(s.m, f, Index(v, k))) then
        s' == s && t == NULL && Missing(s.m, root, v) == k - 1
      else
        && Reached(s', root, v, k - 1)
        && TableAt(s'.m, root, v, k - 1) == Some(t)
        && SameWalks(s, s')
        && (if Present(Load(s.m, f, Index(v, k))) then s' == s
            else s'.pool == s.pool[1..] && Missing(s.m, root, v) == k - 1 && Missing(s'.m, root, v) == k - 2)
  {
    hide Present, Huge, Addr, IsFrame, Index, Load, LinkTo, Forest, FreshPool, Missing;
    var f := TableAt(s.m, root, v, k).value;
    if !Present(Load(s.m, f, Index(v, k))) {
      NothingBelow(s.m, root, v, k);
      if s.pool != [] {
        LinkStep(s, root, v, k);
      }
    }
  }

  // The descent to the table of level k.
  function Descent(s: State, root: Frame, v: bv64, k: nat): (State, Frame)
    requires 1 <= k <= 4
    decreases 4 - k
  {
    if k == 4 then (s, root)
    else
      var (c, f) := Descent(s, root, v, k + 1);
      CreateOrGet(c, f, Index(v, k + 1), k + 1)
  }

  // How many tables the descent to level k makes.
  function Made(m: Memory, root: Frame, v: bv64, k: nat): nat {
    if Missing(m, root, v) >= k then Missing(m, root, v) + 1 - k else 0
  }

  // c is the state, and f the table of level k, that the descent has reached.
  ghost predicate Arrived(s: State, root: Frame, v: bv64, k: nat, c: State, f: Frame)
    requires 1 <= k <= 4
  {
    var n := Made(s.m, root, v, k);
    && Reached(c, root, v, k) && TableAt(c.m, root, v, k) == Some(f) && SameWalks(s, c)
    && n <= |s.pool| && c.pool == s.pool[n..] && Missing(c.m, root, v) == Missing(s.m, root, v) - n
    && KeepsUnused(s, c)
  }

  // What is not in use stays so and is not written.
  ghost predicate KeepsUnused(s: State, c: State) {
    forall g :: Unused(s, g) ==> Unused(c, g) && forall j :: Load(c.m, g, j) == Load(s.m, g, j)
  }

  lemma KeepsUnusedTrans(s: State, a: State, b: State)
    requires KeepsUnused(s, a) && KeepsUnused(a, b)
    ensures KeepsUnused(s, b)
  {
    hide Unused, Load;
  }

  lemma DropHead(q: seq<Frame>, n: nat)
    requires n < |q|
    ensures q[n..][0] == q[n] && q[n..][1..] == q[n + 1..]
  {
  }

  lemma DescentGoesOn(s: State, root: Frame, v: bv64, k: nat, c: State, f: Frame)
    requires 1 <= k <= 3 && Arrived(s, root, v, k + 1, c, f)
    requires
      var n := Made(s.m, root, v, k + 1);
      n < Made(s.m, root, v, k) ==> n < |s.pool| && Descends(k + 1, LinkTo(s.pool[n]))
    ensures
      var (c', f') := CreateOrGet(c, f, Index(v, k + 1), k + 1);
      Arrived(s, root, v, k, c', f')
  {
    hide Present, Huge, Addr, IsFrame, Index, Load, LinkTo, CreateOrGet, Missing, Descends, Inv, Walk, TableOf, TableAt,
      Reached, SameWalks, NoHugeOnWalk, IsRoot, Unused, KeepsUnused;
    var n := Made(s.m, root, v, k + 1);
    if Present(Load(c.m, f, Index(v, k + 1))) {
      SomethingBelow(c, root, v, k + 1);
    } else {
      NothingBelow(c.m, root, v, k + 1);
      DropHead(s.pool, n);
    }
    CreateOrGetStep(c, root, v, k + 1);
    LinkWrites(c, root, v, k + 1);
    var c' := CreateOrGet(c, f, Index(v, k + 1), k + 1).0;
    SameWalksTrans(s, c, c');
    KeepsUnusedTrans(s, c, c');
  }

  // The descent reaches the table of level k, with every translation as before, when there is memory for the tables
  // on the way and their addresses make no huge page.
  lemma {:induction false} DescentReaches(s: State, root: Frame, v: bv64, k: nat)
    requires 1 <= k <= 4 && Inv(s) && IsRoot(s.shape, root) && NoHugeOnWalk(s.m, root, v)
    requires Made(s.m, root, v, k) <= |s.pool|
    requires forall t :: 0 <= t < Made(s.m, root, v, k) ==>
               Descends(Missing(s.m, root, v) + 1 - t, LinkTo(s.pool[t]))
    ensures Arrived(s, root, v, k, Descent(s, root, v, k).0, Descent(s, root, v, k).1)
    decreases 4 - k
  {
    hide Present, Huge, Index, LinkTo, CreateOrGet, Missing, Descends, Inv, NoHugeOnWalk, IsRoot;
    if k == 4 {
      DescentStarts(s, root, v);
    } else {
      hide Arrived;
      DescentReaches(s, root, v, k + 1);
      var n := Made(s.m, root, v, k + 1);
      assert n < Made(s.m, root, v, k) ==> n == Missing(s.m, root, v) - k && Descends(k + 1, LinkTo(s.pool[n]));
      DescentGoesOn(s, root, v, k, Descent(s, root, v, k + 1).0, Descent(s, root, v, k + 1).1);
    }
  }

  lemma SameWalksTrans(s: State, a: State, b: State)
    requires SameWalks(s, a) && SameWalks(a, b)
    ensures SameWalks(s, b)
  {
    hide Walk, IsRoot;
  }

  lemma DescentStarts(s: State, root: Frame, v: bv64)
    requires Inv(s) && IsRoot(s.shape, root) && NoHugeOnWalk(s.m, root, v)
    ensures Reached(s, root, v, 4) && TableAt(s.m, root, v, 4) == Some(root) && Missing(s.m, root, v) <= 3
    ensures SameWalks(s, s)
  {
    hide Present, Huge, Addr, IsFrame, Index, Load, Forest, FreshPool;
  }

  lemma SomethingBelow(c: State, root: Frame, v: bv64, k: nat)
    requires 2 <= k <= 4 && Reached(c, root, v, k)
    requires Present(Load(c.m, TableAt(c.m, root, v, k).value, Index(v, k)))
    ensures Missing(c.m, root, v) < k - 1
  {
    hide Present, Huge, Addr, IsFrame, Index, Load, Forest, FreshPool;
    assert NoHugeAt(c.m, root, v, k);
  }

  // Where the tables exist, the descent makes none.
  lemma {:induction false} DescentFollows(h: State, root: Frame, v: bv64, k: nat)
    requires 1 <= k <= 4 && TableAt(h.m, root, v, k).Some?
    ensures Descent(h, root, v, k) == (h, TableAt(h.m, root, v, k).value)
    decreases 4 - k
  {
    hide Present, Huge, Addr, IsFrame, Index, Load;
    if k < 4 {
      DescentFollows(h, root, v, k + 1);
    }
  }

  // Mapping may start from any state of its own descent.
  lemma MapResumes(s: State, root: Frame, v: bv64, p: bv64, flags: bv64, k: nat, h: State)
    requires 1 <= k <= 3 && TableAt(h.m, root, v, k + 1).Some?
    requires Descent(s, root, v, k).0 == h && Descent(s, root, v, k + 1).1 == TableAt(h.m, root, v, k + 1).value
    requires Present(Load(h.m, TableAt(h.m, root, v, k + 1).value, Index(v, k + 1)))
    requires Descent(s, root, v, k).1 == Addr(Load(h.m, TableAt(h.m, root, v, k + 1).value, Index(v, k + 1)))
    ensures Map4kb(h, root, v, p, flags) == Map4kb(s, root, v, p, flags)
  {
    hide Present, Huge, Addr, IsFrame, Index, Load, Leaf, LinkTo;
    DescentFollows(h, root, v, k + 1);
    assert Descent(h, root, v, k) == Descent(s, root, v, k);
    MapDescends(s, root, v, p, flags);
    MapDescends(h, root, v, p, flags);
    assert k >= 2 ==> Descent(h, root, v, k - 1) == Descent(s, root, v, k - 1);
    assert k == 3 ==> Descent(h, root, v, 1) == Descent(s, root, v, 1);
  }

  lemma MapDescends(s: State, root: Frame, v: bv64, p: bv64, flags: bv64)
    ensures
      var (c, pt) := Descent(s, root, v, 1);
      Map4kb(s, root, v, p, flags) == c.(m := Store(c.m, pt, Index(v, 1), Leaf(p, flags)))
  {
    hide Present, Huge, Addr, IsFrame, Index, Load, Leaf, LinkTo, CreateOrGet;
    assert Descent(s, root, v, 4) == (s, root);
    assert Descent(s, root, v, 3) == CreateOrGet(s, root, Index(v, 4), 4);
  }

  // ----- map_4kb_page

  // What an address of the mapped page translates to.
  function Target(p: bv64, flags: bv64, w: bv64): Option<bv64> {
    if Present(Leaf(p, flags)) then Some(SmallPage(Addr(Leaf(p, flags)), w)) else None
  }

  ghost predicate Mappable(s: State, root: Frame, v: bv64) {
    && Inv(s) && IsRoot(s.shape, root) && NoHugeOnWalk(s.m, root, v)
    && |s.pool| >= Missing(s.m, root, v) && PlainLinks(s, root, v)
  }

  // The table that receives v's leaf entry, after up to three tables have been created.
  lemma DescentEnds(s: State, root: Frame, v: bv64, p: bv64, flags: bv64) returns (c: State)
    requires Mappable(s, root, v)
    ensures Reached(c, root, v, 1) && SameWalks(s, c)
    ensures Map4kb(s, root, v, p, flags) ==
            c.(m := Store(c.m, TableAt(c.m, root, v, 1).value, Index(v, 1), Leaf(p, flags)))
  {
    hide Present, Huge, Addr, IsFrame, Index, Load, LinkTo, CreateOrGet, Missing, Leaf, Reached, Descends, Descent;
    c := Descent(s, root, v, 1).0;
    DescentReaches(s, root, v, 1);
    MapDescends(s, root, v, p, flags);
  }

  lemma StoreKeepsFresh(s: State, f: Frame, i: nat, e: Entry)
    requires FreshPool(s) && f in s.shape
    ensures FreshPool(s.(m := Store(s.m, f, i, e)))
  {
    hide IsFrame, Load;
    forall t | 0 <= t < |s.pool|
      ensures FreshFrame(s.(m := Store(s.m, f, i, e)), s.pool[t])
    {
      assert FreshFrame(s, s.pool[t]);
    }
  }

  lemma PlainMapKeepsInv(s: State, root: Frame, v: bv64, p: bv64, flags: bv64)
    requires Mappable(s, root, v)
    ensures Inv(Map4kb(s, root, v, p, flags))
    ensures forall r :: IsRoot(s.shape, r) ==> IsRoot(Map4kb(s, root, v, p, flags).shape, r)
  {
    hide Present, Huge, Addr, IsFrame, Index, Load, Leaf, Map4kb, Forest, Missing, NoHugeAt;
    var c := DescentEnds(s, root, v, p, flags);
    var pt := TableAt(c.m, root, v, 1).value;
    TableAtShaped(c.m, c.shape, root, v, 1);
    StoreKeepsForest(c.m, c.shape, pt, Index(v, 1), Leaf(p, flags));
    StoreKeepsFresh(c, pt, Index(v, 1), Leaf(p, flags));
  }

  // Mapping sets exactly the page of v, in exactly the address space of root.
  lemma PlainMapSetsOnePage(s: State, root: Frame, v: bv64, p: bv64, flags: bv64, r: Frame, w: bv64)
    requires Mappable(s, root, v) && IsRoot(s.shape, r)
    ensures Walk(Map4kb(s, root, v, p, flags).m, r, w) ==
            if r == root && SamePage(v, w) then Target(p, flags, w) else Walk(s.m, r, w)
  {
    hide Present, Huge, Addr, IsFrame, Index, Load, Leaf, SamePage, SameSlots, Map4kb, Forest, FreshPool, Missing,
      NoHugeAt, TableAt, Walk;
    var c := DescentEnds(s, root, v, p, flags);
    StoreEffect(c.m, c.shape, root, v, 1, Leaf(p, flags), r, w);
    SamePageIffSameSlots(v, w);
  }

  // map_4kb_page makes every address of v's page translate to p plus its offset, exactly when the present
  // bit is given, p is a frame address and the flags add no address bit to it.
  lemma PlainMapTranslates(s: State, root: Frame, v: bv64, p: bv64, flags: bv64)
    requires Mappable(s, root, v)
    ensures (forall w :: SamePage(v, w) ==> Walk(Map4kb(s, root, v, p, flags).m, root, w) == Some(At(p, w)))
       <==> PlainMapping(p, flags)
  {
    hide Walk, Map4kb, Inv, IsRoot, NoHugeOnWalk, Missing, SamePage, Leaf, Present, Addr, PlainMapping, At,
      SmallPage;
    var m' := Map4kb(s, root, v, p, flags).m;
    forall w | SamePage(v, w)
      ensures Walk(m', root, w) == Target(p, flags, w)
      ensures PlainMapping(p, flags) ==> Target(p, flags, w) == Some(At(p, w))
    {
      PlainMapSetsOnePage(s, root, v, p, flags, root, w);
      if PlainMapping(p, flags) {
        PlainMappingTarget(p, flags, w);
      }
    }
    var w := PageStart(v);
    if Target(p, flags, w) == Some(At(p, w)) {
      TargetIsPlain(p, flags, w);
    }
  }

  // ----- unmap_page

  // unmap_page takes v's page-directory entry for a 2 MB page when its bit 21 is set.
  predicate TakenForLarge(m: Memory, root: Frame, v: bv64) {
    var t := TableAt(m, root, v, 2);
    t.Some? && Large(Load(m, t.value, Index(v, 2)))
  }

  // v's page is a 2 MB page (k = 2) or a 1 GB page (k = 3).
  predicate HugeAt(m: Memory, root: Frame, v: bv64, k: nat)
    requires 2 <= k <= 3
  {
    var t := TableAt(m, root, v, k);
    t.Some? && Present(Load(m, t.value, Index(v, k))) && Huge(Load(m, t.value, Index(v, k)))
  }

  // The level whose entries map the page of v: addresses that share v's indices from there on share its page.
  function PageLevel(m: Memory, root: Frame, v: bv64): (k: nat)
    ensures 1 <= k <= 3
  {
    if HugeAt(m, root, v, 3) then 3 else if HugeAt(m, root, v, 2) then 2 else 1
  }

  // The parts of a huge page on the walk of v that map_4kb_page and unmap_page take for tables.
  function Data(m: Memory, root: Frame, v: bv64): set<Frame> {
    if HugeAt(m, root, v, 3) then
      var pd := Addr(Load(m, TableAt(m, root, v, 3).value, Index(v, 3)));
      var e := Load(m, pd, Index(v, 2));
      if Present(e) then {pd, Addr(e)} else {pd}
    else if HugeAt(m, root, v, 2) then {Addr(Load(m, TableAt(m, root, v, 2).value, Index(v, 2)))}
    else {}
  }

  ghost predicate DataApart(s: State, root: Frame, v: bv64) {
    forall f :: f in Data(s.m, root, v) ==> f !in s.shape
  }

  lemma NoHugeNoData(m: Memory, root: Frame, v: bv64)
    ensures NoHugeOnWalk(m, root, v) <==> PageLevel(m, root, v) == 1
    ensures NoHugeOnWalk(m, root, v) ==> Data(m, root, v) == {}
  {
    hide Index, Load, Addr, Present, Huge;
    assert NoHugeOnWalk(m, root, v) <==> NoHugeAt(m, root, v, 4) && NoHugeAt(m, root, v, 3) && NoHugeAt(m, root, v, 2);
  }

  // The level at which unmap_page clears the entry of v, or 0 when it clears none.
  function ClearedLevel(m: Memory, root: Frame, v: bv64): nat {
    if TakenForLarge(m, root, v) then 2
    else if TableAt(m, root, v, 1).Some? then 1
    else 0
  }

  // unmap_page is at most one store of a zero entry: into v's entry, or into the data of a huge page.
  lemma UnmapStores(m: Memory, root: Frame, v: bv64)
    ensures
      var k := ClearedLevel(m, root, v);
      && (k > 0 ==> Unmap(m, root, v) == Store(m, TableAt(m, root, v, k).value, Index(v, k), ZERO))
      && (k == 0 && PageLevel(m, root, v) == 1 ==> Unmap(m, root, v) == m)
      && (k == 0 ==> forall f, i :: f !in Data(m, root, v) ==> Load(Unmap(m, root, v), f, i) == Load(m, f, i))
  {
    hide Index, Load, Addr, Present, Huge, Large, TakenForLarge, TableAt, PageLevel, Data, Unmap, Store;
    if ClearedLevel(m, root, v) == 0 {
      UnmapInData(m, root, v);
    } else {
      UnmapInTable(m, root, v);
    }
  }

  lemma UnmapInTable(m: Memory, root: Frame, v: bv64)
    requires ClearedLevel(m, root, v) > 0
    ensures
      var k := ClearedLevel(m, root, v);
      Unmap(m, root, v) == Store(m, TableAt(m, root, v, k).value, Index(v, k), ZERO)
  {
    hide Index, Load, Addr, Present, Huge, Large, Store;
  }

  lemma UnmapInData(m: Memory, root: Frame, v: bv64)
    requires ClearedLevel(m, root, v) == 0
    ensures PageLevel(m, root, v) == 1 ==> Unmap(m, root, v) == m
    ensures forall f, i :: f !in Data(m, root, v) ==> Load(Unmap(m, root, v), f, i) == Load(m, f, i)
  {
    hide Index, Load, Addr, Present, Huge, Large;
  }

  lemma UnmapZeroes(m: Memory, root: Frame, v: bv64, f: Frame, i: nat)
    requires !Present(Load(m, f, i))
    ensures !Present(Load(Unmap(m, root, v), f, i))
  {
    hide Index, Load, Addr, Present, Huge, Large;
    ZeroEntry();
  }

  ghost predicate Unmappable(s: State, root: Frame, v: bv64) {
    Inv(s) && IsRoot(s.shape, root) && DataApart(s, root, v)
  }

  lemma UnmapKeepsInv(s: State, root: Frame, v: bv64)
    requires Unmappable(s, root, v)
    ensures Inv(s.(m := Unmap(s.m, root, v)))
  {
    hide Index, Load, Addr, Present, Huge, Large, Unmap, IsFrame, Forest, PageLevel, Data;
    UnmapStores(s.m, root, v);
    ZeroEntry();
    var k := ClearedLevel(s.m, root, v);
    if k != 0 {
      TableAtShaped(s.m, s.shape, root, v, k);
      StoreKeepsForest(s.m, s.shape, TableAt(s.m, root, v, k).value, Index(v, k), ZERO);
    } else {
      AgreeingForest(s.m, s.shape, Unmap(s.m, root, v));
    }
    forall t | 0 <= t < |s.pool|
      ensures FreshFrame(s.(m := Unmap(s.m, root, v)), s.pool[t])
    {
      assert FreshFrame(s, s.pool[t]);
      forall i | 0 <= i < 512
        ensures !Present(Load(Unmap(s.m, root, v), TableOf(s.pool[t]), i))
      {
        UnmapZeroes(s.m, root, v, TableOf(s.pool[t]), i);
      }
    }
  }

  // The addresses that unmap_page(v) takes the translation away from.
  predicate Cleared(m: Memory, root: Frame, v: bv64, w: bv64) {
    if TakenForLarge(m, root, v) then SameSlots(v, w, 2) else PageLevel(m, root, v) == 1 && SamePage(v, w)
  }

  // A 4 KB page is untranslated afterwards, a 2 MB page if bit 21 of its entry is set, a 1 GB page never; if bit 21
  // is set for a page table, so are all its 512 pages. Nothing else changes, in this address space or another.
  lemma UnmapClears(s: State, root: Frame, v: bv64, r: Frame, w: bv64)
    requires Unmappable(s, root, v) && IsRoot(s.shape, r)
    ensures Walk(Unmap(s.m, root, v), r, w) ==
            if r == root && Cleared(s.m, root, v, w) then None else Walk(s.m, r, w)
  {
    hide Index, Load, Addr, Present, Huge, Large, Unmap, IsFrame, Forest, SamePage, IsRoot, Data, PageLevel,
      NoHugeOnWalk;
    UnmapStores(s.m, root, v);
    NoHugeNoData(s.m, root, v);
    ZeroEntry();
    SamePageIffSameSlots(v, w);
    var k := ClearedLevel(s.m, root, v);
    if k != 0 {
      StoreEffect(s.m, s.shape, root, v, k, ZERO, r, w);
      if k == 1 {
        TablesNoHuge(s.m, root, v);
      }
    } else {
      AgreeingForest(s.m, s.shape, Unmap(s.m, root, v));
      if r == root && SamePage(v, w) && PageLevel(s.m, root, v) == 1 {
        NoTableNoWalk(s.m, root, v);
        SameSlotsSameWalk(s.m, root, v, w);
      }
    }
  }

  lemma NoTableNoWalk(m: Memory, root: Frame, v: bv64)
    requires NoHugeOnWalk(m, root, v) && TableAt(m, root, v, 1) == None
    ensures Walk(m, root, v) == None
  {
    hide Index, Load, Addr, Present, Huge;
    var k := LastTable(m, root, v);
    WalkFromTable(m, root, v, k);
    assert NoHugeAt(m, root, v, k);
  }

  lemma SameSlotsSameWalk(m: Memory, root: Frame, v: bv64, w: bv64)
    requires SameSlots(v, w, 1)
    ensures Walk(m, root, v) == None <==> Walk(m, root, w) == None
  {
    hide Index, Load, Addr, Present, Huge;
    var k := LastTable(m, root, v);
    SameSlotsSameTable(m, root, v, w, k);
    WalkFromTable(m, root, v, k);
    WalkFromTable(m, root, w, k);
  }

  lemma HugeIsMapped(m: Memory, root: Frame, v: bv64)
    requires PageLevel(m, root, v) > 1
    ensures Walk(m, root, v).Some?
  {
    hide Index, Load, Addr, Present, Huge, GigaPage, MegaPage;
    var k := PageLevel(m, root, v);
    WalkFromTable(m, root, v, k);
  }

  // unmap_page takes away the translation of v exactly when v's page is a 4 KB page, or a 2 MB page whose entry has
  // bit 21 set. When it does not, it changes no translation at all.
  lemma UnmapReaches(s: State, root: Frame, v: bv64)
    requires Unmappable(s, root, v)
    ensures
      var m' := Unmap(s.m, root, v);
      && (Walk(m', root, v) == None <==> PageLevel(s.m, root, v) == 1 || TakenForLarge(s.m, root, v))
      && (Walk(m', root, v) != None ==> forall r, w :: IsRoot(s.shape, r) ==> Walk(m', r, w) == Walk(s.m, r, w))
  {
    hide Walk, Unmap, Inv, TakenForLarge, IsRoot, Data, PageLevel, SamePage, SameSlots;
    var m' := Unmap(s.m, root, v);
    SamePageIffSameSlots(v, v);
    SameSlotsSelf(v);
    forall r, w | IsRoot(s.shape, r)
      ensures Walk(m', r, w) == if r == root && Cleared(s.m, root, v, w) then None else Walk(s.m, r, w)
    {
      UnmapClears(s, root, v, r, w);
    }
    if PageLevel(s.m, root, v) > 1 {
      HugeIsMapped(s.m, root, v);
    }
  }

  lemma SameSlotsSelf(v: bv64)
    ensures forall k :: 1 <= k <= 4 ==> SameSlots(v, v, k)
  {
  }

  // What decides whether unmap_page(v) does what it is for: the size of v's page, bit 21 of the directory entry,
  // and, where that bit misleads it, whether the page table has other pages.
  ghost predicate UnmapsOwnPage(m: Memory, root: Frame, v: bv64) {
    match PageLevel(m, root, v)
    case 3 => false
    case 2 => TakenForLarge(m, root, v)
    case _ =>
      || !TakenForLarge(m, root, v)
      || forall w :: SameSlots(v, w, 2) && !SamePage(v, w) ==> Walk(m, root, w) == None
  }

  // w is untranslated in m' if it shares v's page, and else translates as in m.
  ghost predicate OwnPageOnly(m: Memory, m': Memory, root: Frame, v: bv64, w: bv64) {
    Walk(m', root, w) == if SameSlots(v, w, PageLevel(m, root, v)) then None else Walk(m, root, w)
  }

  // unmap_page takes away the translations of v's page, of whatever size, and no other exactly when UnmapsOwnPage
  // holds.
  lemma UnmapExact(s: State, root: Frame, v: bv64)
    requires Unmappable(s, root, v)
    ensures (forall w :: OwnPageOnly(s.m, Unmap(s.m, root, v), root, v, w)) <==> UnmapsOwnPage(s.m, root, v)
  {
    hide Walk, Unmap, Inv, TakenForLarge, SamePage, SameSlots, IsRoot, Data, PageLevel;
    var k := PageLevel(s.m, root, v);
    SameSlotsSelf(v);
    if k > 1 {
      HugeIsMapped(s.m, root, v);
    }
    forall w
      ensures Walk(Unmap(s.m, root, v), root, w) == if Cleared(s.m, root, v, w) then None else Walk(s.m, root, w)
      ensures SamePage(v, w) <==> SameSlots(v, w, 1)
      ensures SameSlots(v, w, 1) ==> SameSlots(v, w, 2)
    {
      UnmapClears(s, root, v, root, w);
      SamePageIffSameSlots(v, w);
      if SameSlots(v, w, 1) {
        SameSlotsNarrow(v, w);
      }
    }
    if forall w :: OwnPageOnly(s.m, Unmap(s.m, root, v), root, v, w) {
      assert OwnPageOnly(s.m, Unmap(s.m, root, v), root, v, v);
      assert k == 3 ==> !TakenForLarge(s.m, root, v) by {
        GigaHidesDirectory(s.m, root, v);
      }
      forall w | SameSlots(v, w, 2) && !SamePage(v, w)
        ensures k == 1 && TakenForLarge(s.m, root, v) ==> Walk(s.m, root, w) == None
      {
        assert OwnPageOnly(s.m, Unmap(s.m, root, v), root, v, w);
      }
    }
  }

  lemma GigaHidesDirectory(m: Memory, root: Frame, v: bv64)
    ensures PageLevel(m, root, v) == 3 ==> !TakenForLarge(m, root, v)
  {
    hide Index, Load, Addr, Present, Huge;
  }

  // ----- unmap_page after map_4kb_page

  lemma MappedWalkHasTables(s: State, root: Frame, v: bv64, p: bv64, flags: bv64)
    requires Mappable(s, root, v)
    ensures TableAt(Map4kb(s, root, v, p, flags).m, root, v, 1).Some?
    ensures NoHugeOnWalk(Map4kb(s, root, v, p, flags).m, root, v)
  {
    hide Present, Huge, Addr, IsFrame, Index, Load, Leaf, Map4kb, Forest, FreshPool, Missing, Walk;
    var c := DescentEnds(s, root, v, p, flags);
    var pt := TableAt(c.m, root, v, 1).value;
    TableAtShaped(c.m, c.shape, root, v, 1);
    StoreKeepsTables(c.m, c.shape, root, v, 1, pt, Index(v, 1), Leaf(p, flags), 1);
    TablesNoHuge(Map4kb(s, root, v, p, flags).m, root, v);
  }

  lemma TablesNoHuge(m: Memory, root: Frame, v: bv64)
    requires TableAt(m, root, v, 1).Some?
    ensures NoHugeOnWalk(m, root, v)
  {
    hide Present, Huge, Addr, Index, Load;
    assert TableAt(m, root, v, 2).Some? && TableAt(m, root, v, 3).Some?;
  }

  lemma RegionWithoutTable(m: Memory, root: Frame, v: bv64, w: bv64)
    requires NoHugeOnWalk(m, root, v) && TableAt(m, root, v, 1) == None && SameSlots(v, w, 2)
    ensures Walk(m, root, w) == None
  {
    hide Present, Huge, Addr, Index, Load, Walk;
    forall k | 1 <= k <= 4
      ensures TableAt(m, root, v, k) == TableAt(m, root, w, k)
    {
      SameSlotsSameTable(m, root, v, w, k);
    }
    forall k | 2 <= k <= 4
      ensures NoHugeAt(m, root, w, k)
    {
      assert NoHugeAt(m, root, v, k);
    }
    NoTableNoWalk(m, root, w);
  }

  // A directory entry that exists is not changed by the mapping.
  lemma MapKeepsDirectory(s: State, root: Frame, v: bv64, p: bv64, flags: bv64)
    requires Mappable(s, root, v) && TableAt(s.m, root, v, 1).Some?
    ensures TakenForLarge(Map4kb(s, root, v, p, flags).m, root, v) == TakenForLarge(s.m, root, v)
  {
    hide Present, Huge, Large, Addr, IsFrame, Index, Load, Leaf, FreshPool, Missing, Walk;
    assert TableAt(s.m, root, v, 2).Some? && TableAt(s.m, root, v, 3).Some?;
    TableAtShaped(s.m, s.shape, root, v, 1);
    TableAtShaped(s.m, s.shape, root, v, 2);
    var pd, pt := TableAt(s.m, root, v, 2).value, TableAt(s.m, root, v, 1).value;
    assert Map4kb(s, root, v, p, flags).m == Store(s.m, pt, Index(v, 1), Leaf(p, flags));
    StoreKeepsTables(s.m, s.shape, root, v, 1, pt, Index(v, 1), Leaf(p, flags), 2);
  }

  // Unmapping a page that has just been mapped, and was not mapped before, restores every translation of
  // every address space, exactly when the directory entry is not taken for a 2 MB page or no other page of
  // its page table was mapped.
  lemma PlainUnmapUndoesMap(s: State, root: Frame, v: bv64, p: bv64, flags: bv64)
    requires Mappable(s, root, v) && Walk(s.m, root, v) == None
    ensures
      var m' := Unmap(Map4kb(s, root, v, p, flags).m, root, v);
      (forall r, w :: IsRoot(s.shape, r) ==> Walk(m', r, w) == Walk(s.m, r, w))
      <==> !TakenForLarge(s.m, root, v) ||
           forall w :: SameSlots(v, w, 2) && !SamePage(v, w) ==> Walk(s.m, root, w) == None
  {
    hide Walk, Unmap, Map4kb, TakenForLarge, SamePage, SameSlots, IsRoot, Inv, NoHugeOnWalk, Missing, TableAt, Data,
      PageLevel;
    var s' := Map4kb(s, root, v, p, flags);
    var m' := Unmap(s'.m, root, v);
    PlainMapKeepsInv(s, root, v, p, flags);
    MappedWalkHasTables(s, root, v, p, flags);
    NoHugeNoData(s'.m, root, v);
    forall r, w | IsRoot(s.shape, r)
      ensures Walk(m', r, w) ==
              if r == root && (SamePage(v, w) || Cleared(s'.m, root, v, w)) then None else Walk(s.m, r, w)
      ensures SamePage(v, w) ==> Walk(s.m, root, w) == None && SameSlots(v, w, 2)
      ensures TableAt(s.m, root, v, 1) == None && SameSlots(v, w, 2) ==> Walk(s.m, root, w) == None
    {
      PlainMapSetsOnePage(s, root, v, p, flags, r, w);
      UnmapClears(s', root, v, r, w);
      SamePageIffSameSlots(v, w);
      if SamePage(v, w) {
        SameSlotsSameWalk(s.m, root, v, w);
        SameSlotsNarrow(v, w);
      }
      if TableAt(s.m, root, v, 1) == None && SameSlots(v, w, 2) {
        RegionWithoutTable(s.m, root, v, w);
      }
    }
    if TableAt(s.m, root, v, 1).Some? {
      MapKeepsDirectory(s, root, v, p, flags);
    }
  }

  lemma SameSlotsNarrow(v: bv64, w: bv64)
    requires SameSlots(v, w, 1)
    ensures SameSlots(v, w, 2)
  {
  }
}
