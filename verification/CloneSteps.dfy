// clone_higher_half in a run: it takes the head of the pool, and only the addresses it takes need to be aligned.
module CloneSteps {
  import opened PageEntry
  import opened Paging
  import opened Mapping
  import opened Cloning

  function WithMore(r: Progress, more: seq<Frame>): Progress {
    r.(s := r.s.(pool := r.s.pool + more))
  }

  lemma {:induction false} FillTakes(level: nat, s: State, f: Frame, i: nat)
    requires 1 <= level <= 4 && i <= 512
    ensures |Fill(level, s, f, i).s.pool| <= |s.pool|
    decreases level, 512 - i
  {
    hide Load, Pointer, IsFrame, Copies, Relink, CopyTable;
    if level > 1 && i < 512 {
      if !Copies(level, Load(s.m, f, i)) {
        FillTakes(level, s, f, i + 1);
      } else if s.pool != [] && s.pool[0] != NULL && IsFrame(Pointer(Load(s.m, f, i))) {
        FillTakes(level - 1, CopyInto(level, s, f, i), s.pool[0], 0);
        FillTakes(level, Fill(level - 1, CopyInto(level, s, f, i), s.pool[0], 0).s, f, i + 1);
      }
    }
  }

  // What the loops leave of the pool has no part in them.
  lemma {:induction false} FillPrefix(level: nat, s: State, f: Frame, i: nat, more: seq<Frame>)
    requires 1 <= level <= 4 && i <= 512 && (forall c :: c in more ==> c != NULL)
    requires |Fill(level, s.(pool := s.pool + more), f, i).s.pool| >= |more|
    ensures Fill(level, s.(pool := s.pool + more), f, i) == WithMore(Fill(level, s, f, i), more)
    decreases level, 512 - i
  {
    hide Load, Pointer, IsFrame, Copies, Relink, CopyTable;
    var s' := s.(pool := s.pool + more);
    if level == 1 || i == 512 {
    } else if !Copies(level, Load(s.m, f, i)) {
      FillPrefix(level, s, f, i + 1, more);
    } else if s.pool == [] {
      assert s'.pool == more;
      if more != [] && IsFrame(Pointer(Load(s.m, f, i))) {
        FillTakes(level - 1, CopyInto(level, s', f, i), s'.pool[0], 0);
        FillTakes(level, Fill(level - 1, CopyInto(level, s', f, i), s'.pool[0], 0).s, f, i + 1);
      }
    } else {
      assert s'.pool[0] == s.pool[0] && s'.pool[1..] == s.pool[1..] + more;
      if s.pool[0] != NULL && IsFrame(Pointer(Load(s.m, f, i))) {
        var a, a' := CopyInto(level, s, f, i), CopyInto(level, s', f, i);
        assert a' == a.(pool := a.pool + more);
        FillTakes(level, Fill(level - 1, a', s'.pool[0], 0).s, f, i + 1);
        FillPrefix(level - 1, a, s.pool[0], 0, more);
        var b := Fill(level - 1, a, s.pool[0], 0);
        if b.status == Cloned {
          FillPrefix(level, b.s, f, i + 1, more);
        }
      }
    }
  }

  // The state with the head of the pool that the clone takes.
  function Taking(s: State, root: Frame): State {
    var n := |CloneHigherHalf(s, root).s.pool|;
    if n <= |s.pool| then s.(pool := s.pool[..|s.pool| - n]) else s
  }

  lemma NoNulls(s: State)
    requires FreshPool(s)
    ensures forall c :: c in s.pool ==> c != NULL
  {
    hide Load, TableOf, Present;
    forall c | c in s.pool
      ensures c != NULL
    {
      var t :| 0 <= t < |s.pool| && s.pool[t] == c;
      assert FreshFrame(s, s.pool[t]);
    }
  }

  lemma NewRootPrefix(s: State, root: Frame, n: nat)
    requires 1 <= n <= |s.pool|
    ensures
      var q, more := s.(pool := s.pool[..n]), s.pool[n..];
      NewRoot(s, root) == NewRoot(q, root).(pool := NewRoot(q, root).pool + more)
  {
    hide CopyTable;
    assert s.pool[1..] == s.pool[..n][1..] + s.pool[n..];
  }

  // What clone_higher_half makes of the outcome of its loops.
  function Closed(r: Progress, shape: Shape): Progress {
    if r.status == Cloned then r else r.(s := r.s.(shape := shape))
  }

  lemma CloneLoops(s: State, root: Frame)
    requires s.pool != [] && s.pool[0] != NULL
    ensures CloneHigherHalf(s, root) == Closed(Fill(4, NewRoot(s, root), s.pool[0], 0), s.shape)
    ensures NewRoot(s, root).pool == s.pool[1..]
  {
    hide Fill;
  }

  // The clone takes the first n addresses.
  lemma CloneSplits(s: State, root: Frame) returns (n: nat)
    requires FreshPool(s)
    ensures n <= |s.pool|
    ensures
      var q := CloneHigherHalf(s.(pool := s.pool[..n]), root);
      q.s.pool == [] && CloneHigherHalf(s, root) == WithMore(q, s.pool[n..])
  {
    hide Load, Fill, NewRoot, FreshPool, CloneHigherHalf;
    NoNulls(s);
    n := 0;
    if s.pool == [] {
      CloneNothing(s, root);
      assert s.(pool := s.pool[..0]) == s;
    } else {
      assert s.pool[0] in s.pool;
      CloneLoops(s, root);
      FillTakes(4, NewRoot(s, root), s.pool[0], 0);
      n := |s.pool| - |Fill(4, NewRoot(s, root), s.pool[0], 0).s.pool|;
      var q, more := s.(pool := s.pool[..n]), s.pool[n..];
      NewRootPrefix(s, root, n);
      assert forall c :: c in more ==> c in s.pool;
      FillPrefix(4, NewRoot(q, root), s.pool[0], 0, more);
      CloneLoops(q, root);
      ClosedWithMore(Fill(4, NewRoot(q, root), s.pool[0], 0), s.shape, more);
    }
  }

  lemma ClosedWithMore(r: Progress, shape: Shape, more: seq<Frame>)
    ensures Closed(WithMore(r, more), shape) == WithMore(Closed(r, shape), more)
    ensures Closed(r, shape).s.pool == r.s.pool
  {
  }

  lemma CloneTakes(s: State, root: Frame)
    requires FreshPool(s)
    ensures
      var r, q := CloneHigherHalf(s, root), Taking(s, root);
      && |r.s.pool| <= |s.pool| && r == WithMore(CloneHigherHalf(q, root), r.s.pool)
      && s.pool == q.pool + r.s.pool && CloneHigherHalf(q, root).s.pool == []
  {
    hide FreshPool, CloneHigherHalf;
    var n := CloneSplits(s, root);
    assert CloneHigherHalf(s, root).s.pool == s.pool[n..];
    assert Taking(s, root) == s.(pool := s.pool[..n]);
  }

  // ----- the laws with the rest of the pool

  // The addresses that the clone takes come from aligned_alloc.
  ghost predicate TakesAligned(s: State, root: Frame) {
    Aligned(Taking(s, root).pool)
  }

  lemma TakingFresh(s: State, root: Frame)
    requires Inv(s)
    ensures Inv(Taking(s, root)) && Taking(s, root).m == s.m && Taking(s, root).shape == s.shape
    ensures |Taking(s, root).pool| <= |s.pool|
  {
    hide Forest, Load, TableOf, CloneHigherHalf;
    var q := Taking(s, root);
    forall t | 0 <= t < |q.pool|
      ensures FreshFrame(q, q.pool[t])
    {
      assert q.pool[t] == s.pool[t] && FreshFrame(s, s.pool[t]);
    }
  }

  // What the clone leaves of the pool is as fresh as before.
  lemma RestFrame(s: State, root: Frame, t: nat)
    requires Inv(s) && TakesAligned(s, root)
    requires |Taking(s, root).pool| <= t < |s.pool|
    ensures FreshFrame(CloneHigherHalf(s, root).s.(pool := []), s.pool[t])
  {
    hide Forest, Load, CloneHigherHalf, TableOf, Present, IsFrame, Taking, Suffix, GoodPool;
    var q, n := Taking(s, root), TableOf(s.pool[t]);
    InvFresh(s);
    CloneTakes(s, root);
    TakingFresh(s, root);
    FreshIsGood(q);
    CloneTouches(q, root);
    CloneNothingTaken(q, root);
    assert FreshFrame(s, s.pool[t]);
    assert forall u :: 0 <= u < |q.pool| ==> q.pool[u] == s.pool[u] && TableOf(s.pool[u]) != n;
    assert n !in q.pool;
  }

  lemma CloneNothingTaken(s: State, root: Frame)
    ensures s.pool == [] ==> CloneHigherHalf(s, root).s == s
  {
    hide CloneHigherHalf;
    if s.pool == [] {
      CloneNothing(s, root);
    }
  }

  // The addresses of a pool whose tables differ.
  ghost predicate Distinct(q: seq<Frame>) {
    forall t, u :: 0 <= t < u < |q| ==> TableOf(q[t]) != TableOf(q[u])
  }

  lemma DistinctRest(head: seq<Frame>, rest: seq<Frame>)
    requires Distinct(head + rest)
    ensures Distinct(rest)
  {
    hide TableOf;
    var q, n := head + rest, |head|;
    assert forall t :: 0 <= t < |rest| ==> rest[t] == q[n + t];
  }

  lemma FreshIsDistinct(s: State)
    ensures FreshPool(s) <==>
            Distinct(s.pool) && forall t :: 0 <= t < |s.pool| ==> FreshFrame(s.(pool := []), s.pool[t])
  {
    hide TableOf, Load, Present;
  }

  lemma RestFresh(s: State, root: Frame)
    requires Inv(s) && TakesAligned(s, root)
    ensures FreshPool(CloneHigherHalf(s, root).s)
  {
    hide Forest, FreshPool, FreshFrame, CloneHigherHalf, Taking, TakesAligned, Distinct;
    var r, n := CloneHigherHalf(s, root), |Taking(s, root).pool|;
    InvFresh(s);
    CloneTakes(s, root);
    FreshIsDistinct(s);
    FreshIsDistinct(r.s);
    DistinctRest(Taking(s, root).pool, r.s.pool);
    forall t | 0 <= t < |r.s.pool|
      ensures FreshFrame(r.s.(pool := []), r.s.pool[t])
    {
      assert r.s.pool[t] == s.pool[n + t];
      RestFrame(s, root, n + t);
    }
  }

  // A clone keeps the invariant and every translation of the roots there were, complete or not; a complete one is
  // one more root.
  lemma CloneKeepsInv(s: State, root: Frame)
    requires Inv(s) && TakesAligned(s, root)
    ensures Inv(CloneHigherHalf(s, root).s) && SameWalks(s, CloneHigherHalf(s, root).s)
    ensures CloneHigherHalf(s, root).status == Cloned ==>
              s.pool != [] && s.pool[0] !in s.shape && IsRoot(CloneHigherHalf(s, root).s.shape, s.pool[0])
  {
    hide Forest, FreshPool, Load, CloneHigherHalf, Walk, Aligned;
    InvFresh(s);
    CloneTakes(s, root);
    TakingFresh(s, root);
    AlignedCloneKeepsInv(Taking(s, root), root);
    RestFresh(s, root);
    CloneHead(s, root);
  }

  lemma InvFresh(s: State)
    requires Inv(s)
    ensures FreshPool(s)
  {
  }

  // The clone takes the first address of the pool for its root.
  lemma CloneHead(s: State, root: Frame)
    requires FreshPool(s)
    ensures Taking(s, root).pool != [] ==> s.pool != [] && Taking(s, root).pool[0] == s.pool[0]
    ensures CloneHigherHalf(s, root).status == Cloned ==> Taking(s, root).pool != []
  {
    hide CloneHigherHalf, FreshPool;
    CloneTakes(s, root);
    if CloneHigherHalf(s, root).status == Cloned {
      CloneNeedsFrame(Taking(s, root), root);
    }
  }

  // A complete clone translates as the original does outside 1 GB pages.
  lemma CloneTranslates(s: State, root: Frame, v: bv64)
    requires Inv(s) && TakesAligned(s, root) && TablesOutsidePool(Taking(s, root), root)
    requires CloneHigherHalf(s, root).status == Cloned && !GigaMapped(s.m, root, v)
    ensures s.pool != [] && Walk(CloneHigherHalf(s, root).s.m, s.pool[0], v) == Walk(s.m, root, v)
  {
    hide Forest, FreshPool, Load, CloneHigherHalf, Walk, Aligned, GigaMapped, TablesOutsidePool, GoodPool;
    InvFresh(s);
    CloneTakes(s, root);
    TakingFresh(s, root);
    CloneHead(s, root);
    InvFresh(Taking(s, root));
    FreshIsGood(Taking(s, root));
    ClonePreserves(Taking(s, root), root, v);
  }

  // And its entries have the flags of the original's.
  lemma CloneFlags(s: State, root: Frame, v: bv64, k: nat)
    requires Inv(s) && TakesAligned(s, root) && TablesOutsidePool(Taking(s, root), root)
    requires CloneHigherHalf(s, root).status == Cloned && 1 <= k <= 4
    ensures s.pool != [] && EntryKept(s.m, root, CloneHigherHalf(s, root).s.m, s.pool[0], v, k)
  {
    hide Forest, FreshPool, Load, CloneHigherHalf, Aligned, TablesOutsidePool, GoodPool, EntryKept;
    InvFresh(s);
    CloneTakes(s, root);
    TakingFresh(s, root);
    CloneHead(s, root);
    InvFresh(Taking(s, root));
    FreshIsGood(Taking(s, root));
    CloneKeepsEntries(Taking(s, root), root, v, k);
  }
}
