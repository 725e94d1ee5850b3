// All cores run physical_memory_init: acquire the lock, run the loop of init_blocks, release the lock.
module Boot {
  import opened Bits
  import opened Regions
  import opened MemoryMap

  const NUM_BLOCKS: nat := 12000

  // The steps of the loop body, each one access to shared memory.
  datatype Phase = LoadTotal | StoreTotal | WriteSlot | LoadCount | StoreCount | SetStart

  datatype Core =
    | Waiting
    | InLoop(i: nat, phase: Phase, register: nat)
    | Finished

  datatype World = World(
    lock: bool,
    total: nat,
    start: nat,
    free: seq<Block>,
    freeCount: nat,
    used: seq<Region>,
    usedCount: nat,
    cores: seq<Core>
  )

  function Boot(n: nat): World {
    var free, used := seq(NUM_BLOCKS, _ => Block(0, 0, 0)), seq(NUM_BLOCKS, _ => Region(0, 0));
    World(false, 0, 0, free, 0, used, 0, seq(n, _ => Waiting))
  }

  function Put<T>(s: seq<T>, i: nat, x: T): seq<T> {
    if i < |s| then s[i := x] else s
  }

  // One step of core c. A core that does not get the lock spins.
  function Step(w: World, map_: seq<MMapEnt>, c: nat): World
    requires c < |w.cores|
  {
    match w.cores[c]
    case Waiting =>
      if w.lock then w else w.(lock := true, cores := w.cores[c := InLoop(0, LoadTotal, 0)])
    case Finished => w
    case InLoop(i, phase, register) =>
      if i >= |map_| then w.(lock := false, cores := w.cores[c := Finished])
      else
        var e := map_[i];
        match phase
        case LoadTotal => w.(cores := w.cores[c := InLoop(i, StoreTotal, w.total)])
        case StoreTotal =>
          w.(total := (register + e.Size()) % TWO_64, cores := w.cores[c := InLoop(i, WriteSlot, 0)])
        case WriteSlot =>
          var next := w.cores[c := InLoop(i, LoadCount, 0)];
          if e.IsFree() then w.(free := Put(w.free, w.freeCount, FreeEntry(map_, i)), cores := next)
          else w.(used := Put(w.used, w.usedCount, Region(e.ptr, e.Size())), cores := next)
        case LoadCount =>
          w.(cores := w.cores[c := InLoop(i, StoreCount, if e.IsFree() then w.freeCount else w.usedCount)])
        case StoreCount =>
          var next := w.cores[c := InLoop(i, SetStart, 0)];
          var count := (register + 1) % 0x1_0000;
          if e.IsFree() then w.(freeCount := count, cores := next) else w.(usedCount := count, cores := next)
        case SetStart =>
          w.(start := if i == 0 then e.Base() else w.start, cores := w.cores[c := InLoop(i + 1, LoadTotal, 0)])
  }

  // Any interleaving: the cores step in the order of the schedule.
  function Run(w: World, map_: seq<MMapEnt>, schedule: seq<nat>): World
    requires forall t :: 0 <= t < |schedule| ==> schedule[t] < |w.cores|
    ensures |Run(w, map_, schedule).cores| == |w.cores|
    decreases |schedule|
  {
    if schedule == [] then w else Run(Step(w, map_, schedule[0]), map_, schedule[1..])
  }

  function FinishedCores(cores: seq<Core>): nat {
    if cores == [] then 0 else (if cores[0].Finished? then 1 else 0) + FinishedCores(cores[1..])
  }

  lemma {:induction false} FinishedUpdate(cores: seq<Core>, c: nat, x: Core)
    requires c < |cores|
    ensures FinishedCores(cores[c := x]) ==
            FinishedCores(cores) + (if x.Finished? then 1 else 0) - (if cores[c].Finished? then 1 else 0)
  {
    if c == 0 {
      assert cores[0 := x][1..] == cores[1..];
    } else {
      assert cores[c := x][1..] == cores[1..][c - 1 := x];
      FinishedUpdate(cores[1..], c - 1, x);
    }
  }

  lemma {:induction false} FinishedBound(cores: seq<Core>, c: nat)
    requires c < |cores| && !cores[c].Finished?
    ensures FinishedCores(cores) < |cores|
  {
    FinishedMost(cores[1..]);
    if c > 0 {
      FinishedBound(cores[1..], c - 1);
    }
  }

  lemma {:induction false} FinishedMost(cores: seq<Core>)
    ensures FinishedCores(cores) <= |cores|
  {
    if cores != [] {
      FinishedMost(cores[1..]);
    }
  }

  // ----- what is in the shared variables after `done` complete loops and i entries of one more

  ghost predicate Lists(w: World, map_: seq<MMapEnt>, done: nat, i: nat)
    requires i <= |map_|
  {
    && w.freeCount <= |w.free| && w.usedCount <= |w.used|
    && w.free[..w.freeCount] == Copies(FreePart(map_, |map_|), done) + FreePart(map_, i)
    && w.used[..w.usedCount] == Copies(UsedPart(map_, |map_|), done) + UsedPart(map_, i)
  }

  ghost predicate Start(w: World, map_: seq<MMapEnt>, done: nat, i: nat)
    requires i <= |map_|
  {
    w.start == if |map_| == 0 || (done == 0 && i == 0) then 0 else map_[0].Base()
  }

  ghost predicate Total(w: World, map_: seq<MMapEnt>, done: nat, i: nat)
    requires i <= |map_|
  {
    w.total == (done * TotalSize(map_, |map_|) + TotalSize(map_, i)) % TWO_64
  }

  ghost predicate HolderOk(w: World, map_: seq<MMapEnt>, done: nat, h: Core)
    requires h.InLoop?
  {
    var i := h.i;
    if i >= |map_| then
      i == |map_| && Lists(w, map_, done, i) && Total(w, map_, done, i) && Start(w, map_, done, i)
    else
      var e := map_[i];
      && (if h.phase.SetStart? then Lists(w, map_, done, i + 1) else Lists(w, map_, done, i))
      && (if h.phase.LoadTotal? || h.phase.StoreTotal? then Total(w, map_, done, i) else Total(w, map_, done, i + 1))
      && Start(w, map_, done, i)
      && (h.phase.StoreTotal? ==> h.register == w.total)
      && (h.phase.LoadCount? || h.phase.StoreCount? ==>
            if e.IsFree() then w.freeCount < |w.free| && w.free[w.freeCount] == FreeEntry(map_, i)
            else w.usedCount < |w.used| && w.used[w.usedCount] == Region(e.ptr, e.Size()))
      && (h.phase.StoreCount? ==> h.register == if e.IsFree() then w.freeCount else w.usedCount)
  }

  // n copies of both lists fit the arrays.
  ghost predicate ListsFit(map_: seq<MMapEnt>, n: nat) {
    n * |FreePart(map_, |map_|)| <= NUM_BLOCKS && n * |UsedPart(map_, |map_|)| <= NUM_BLOCKS
  }

  ghost predicate Inv(w: World, map_: seq<MMapEnt>) {
    && |w.free| == NUM_BLOCKS && |w.used| == NUM_BLOCKS
    && (forall c, d :: 0 <= c < d < |w.cores| ==> !(w.cores[c].InLoop? && w.cores[d].InLoop?))
    && (w.lock <==> exists c :: 0 <= c < |w.cores| && w.cores[c].InLoop?)
    && (forall c :: 0 <= c < |w.cores| && w.cores[c].InLoop? ==> HolderOk(w, map_, FinishedCores(w.cores), w.cores[c]))
    && (!w.lock ==>
          && Lists(w, map_, FinishedCores(w.cores), 0)
          && Total(w, map_, FinishedCores(w.cores), 0)
          && Start(w, map_, FinishedCores(w.cores), 0))
  }

  // ----- every step keeps the invariant

  lemma {:induction false} PartsGrow(map_: seq<MMapEnt>, i: nat, n: nat)
    requires i <= n <= |map_|
    ensures |FreePart(map_, i)| <= |FreePart(map_, n)| && |UsedPart(map_, i)| <= |UsedPart(map_, n)|
  {
    if i < n {
      PartsGrow(map_, i, n - 1);
    }
  }

  lemma {:induction false} CopiesBound(size: nat, done: nat, n: nat)
    requires done < n
    ensures done * size + size <= n * size
  {
    assert n * size == (n - 1) * size + size;
    if done < n - 1 {
      CopiesBound(size, done, n - 1);
    }
  }

  // While one core is in the loop, the slot that it is about to fill exists.
  lemma SlotExists(w: World, map_: seq<MMapEnt>, done: nat, i: nat, n: nat)
    requires |w.free| == |w.used| == NUM_BLOCKS && i < |map_| && Lists(w, map_, done, i)
    requires done < n && ListsFit(map_, n)
    ensures map_[i].IsFree() ==> w.freeCount < NUM_BLOCKS
    ensures !map_[i].IsFree() ==> w.usedCount < NUM_BLOCKS
  {
    PartsGrow(map_, i + 1, |map_|);
    var f, u := |FreePart(map_, |map_|)|, |UsedPart(map_, |map_|)|;
    CopiesBound(f, done, n);
    CopiesBound(u, done, n);
    assert w.freeCount == |w.free[..w.freeCount]| == done * f + |FreePart(map_, i)|;
    assert w.usedCount == |w.used[..w.usedCount]| == done * u + |UsedPart(map_, i)|;
  }

  lemma ListsGrow(w: World, map_: seq<MMapEnt>, done: nat, i: nat, w': World)
    requires i < |map_| && Lists(w, map_, done, i)
    requires w'.free == w.free && w'.used == w.used
    requires map_[i].IsFree() ==>
               && w.freeCount < |w.free| && w.free[w.freeCount] == FreeEntry(map_, i)
               && w'.freeCount == w.freeCount + 1 && w'.usedCount == w.usedCount
    requires !map_[i].IsFree() ==>
               && w.usedCount < |w.used| && w.used[w.usedCount] == Region(map_[i].ptr, map_[i].Size())
               && w'.usedCount == w.usedCount + 1 && w'.freeCount == w.freeCount
    ensures Lists(w', map_, done, i + 1)
  {
    hide Copies;
    if map_[i].IsFree() {
      assert w.free[..w.freeCount + 1] == w.free[..w.freeCount] + [FreeEntry(map_, i)];
    } else {
      assert w.used[..w.usedCount + 1] == w.used[..w.usedCount] + [Region(map_[i].ptr, map_[i].Size())];
    }
  }

  lemma WriteSlotStep(w: World, map_: seq<MMapEnt>, c: nat, done: nat, n: nat)
    requires c < |w.cores| && w.cores[c].InLoop? && w.cores[c].i < |map_| && w.cores[c].phase == WriteSlot
    requires |w.free| == NUM_BLOCKS && |w.used| == NUM_BLOCKS && done < n && ListsFit(map_, n)
    requires HolderOk(w, map_, done, w.cores[c])
    ensures
      var w' := Step(w, map_, c);
      && w'.lock == w.lock && |w'.free| == |w'.used| == NUM_BLOCKS
      && w'.cores == w.cores[c := InLoop(w.cores[c].i, LoadCount, 0)]
      && HolderOk(w', map_, done, w'.cores[c])
  {
    hide Copies, FreePart, UsedPart, TotalSize, FreeEntry, ListsFit;
    var w', i := Step(w, map_, c), w.cores[c].i;
    SlotExists(w, map_, done, i, n);
    assert w'.free[..w.freeCount] == w.free[..w.freeCount];
    assert w'.used[..w.usedCount] == w.used[..w.usedCount];
  }

  lemma HolderStep(w: World, map_: seq<MMapEnt>, c: nat, done: nat, n: nat)
    requires c < |w.cores| && w.cores[c].InLoop? && w.cores[c].i < |map_|
    requires |w.free| == NUM_BLOCKS && |w.used| == NUM_BLOCKS && done < n && ListsFit(map_, n)
    requires HolderOk(w, map_, done, w.cores[c])
    ensures
      var w' := Step(w, map_, c);
      && w'.lock == w.lock && |w'.free| == |w'.used| == NUM_BLOCKS
      && (exists x: Core :: x.InLoop? && w'.cores == w.cores[c := x] && HolderOk(w', map_, done, x))
  {
    hide Copies, FreePart, UsedPart, TotalSize, FreeEntry, ListsFit;
    var w' := Step(w, map_, c);
    var i, phase := w.cores[c].i, w.cores[c].phase;
    if phase.WriteSlot? {
      WriteSlotStep(w, map_, c, done, n);
    } else if phase.StoreTotal? {
      TotalGrows(w, map_, done, i, w');
    } else if phase.StoreCount? {
      ListsGrow(w, map_, done, i, w');
    }
    assert HolderOk(w', map_, done, w'.cores[c]);
  }

  lemma TotalGrows(w: World, map_: seq<MMapEnt>, done: nat, i: nat, w': World)
    requires i < |map_| && Total(w, map_, done, i) && w'.total == (w.total + map_[i].Size()) % TWO_64
    ensures Total(w', map_, done, i + 1)
  {
    AddInWord(done * TotalSize(map_, |map_|) + TotalSize(map_, i), map_[i].Size());
  }

  lemma AddInWord(a: nat, b: nat)
    ensures (a % TWO_64 + b) % TWO_64 == (a + b) % TWO_64
  {
  }

  lemma AcquireKeepsInv(w: World, map_: seq<MMapEnt>, c: nat)
    requires Inv(w, map_) && c < |w.cores| && w.cores[c].Waiting? && !w.lock
    ensures Inv(Step(w, map_, c), map_)
  {
    hide Copies, FreePart, UsedPart, TotalSize, FreeEntry, FinishedCores;
    var w' := Step(w, map_, c);
    FinishedUpdate(w.cores, c, w'.cores[c]);
    assert w'.cores[c].InLoop?;
    assert HolderOk(w', map_, FinishedCores(w'.cores), w'.cores[c]);
  }

  lemma LoopKeepsInv(w: World, map_: seq<MMapEnt>, c: nat)
    requires Inv(w, map_) && c < |w.cores| && w.cores[c].InLoop? && w.cores[c].i < |map_|
    requires ListsFit(map_, |w.cores|)
    ensures Inv(Step(w, map_, c), map_)
  {
    hide Step, HolderOk, Lists, Start, Total, FinishedCores, ListsFit;
    FinishedBound(w.cores, c);
    HolderStep(w, map_, c, FinishedCores(w.cores), |w.cores|);
    var w' := Step(w, map_, c);
    var x: Core :| x.InLoop? && w'.cores == w.cores[c := x] && HolderOk(w', map_, FinishedCores(w.cores), x);
    FinishedUpdate(w.cores, c, x);
    assert w'.cores[c].InLoop?;
  }

  lemma ReleaseKeepsInv(w: World, map_: seq<MMapEnt>, c: nat)
    requires Inv(w, map_) && c < |w.cores| && w.cores[c].InLoop? && w.cores[c].i >= |map_|
    ensures Inv(Step(w, map_, c), map_)
  {
    hide FreePart, UsedPart, TotalSize, FreeEntry, FinishedCores;
    var w', done := Step(w, map_, c), FinishedCores(w.cores);
    FinishedUpdate(w.cores, c, Finished);
    assert HolderOk(w, map_, done, w.cores[c]);
    PartsStartEmpty(map_);
    ReleaseLists(w, map_, done, w');
    OneMoreCopy(done, TotalSize(map_, |map_|));
  }

  lemma PartsStartEmpty(map_: seq<MMapEnt>)
    ensures FreePart(map_, 0) == [] && UsedPart(map_, 0) == [] && TotalSize(map_, 0) == 0
  {
  }

  lemma ReleaseLists(w: World, map_: seq<MMapEnt>, done: nat, w': World)
    requires Lists(w, map_, done, |map_|)
    requires w'.free == w.free && w'.used == w.used && w'.freeCount == w.freeCount && w'.usedCount == w.usedCount
    ensures Lists(w', map_, done + 1, 0)
  {
    hide FreeEntry;
    PartsStartEmpty(map_);
  }

  lemma OneMoreCopy(done: nat, t: nat)
    ensures (done + 1) * t == done * t + t
  {
  }

  lemma StepKeepsInv(w: World, map_: seq<MMapEnt>, c: nat)
    requires Inv(w, map_) && c < |w.cores| && ListsFit(map_, |w.cores|)
    ensures Inv(Step(w, map_, c), map_)
  {
    hide Inv, ListsFit;
    match w.cores[c]
    case Waiting =>
      if !w.lock {
        AcquireKeepsInv(w, map_, c);
      }
    case Finished =>
    case InLoop(i, _, _) =>
      if i < |map_| {
        LoopKeepsInv(w, map_, c);
      } else {
        ReleaseKeepsInv(w, map_, c);
      }
  }

  lemma BootInv(map_: seq<MMapEnt>, n: nat)
    ensures Inv(Boot(n), map_)
  {
    NoneFinished(Boot(n).cores);
  }

  lemma {:induction false} NoneFinished(cores: seq<Core>)
    requires forall c :: 0 <= c < |cores| ==> !cores[c].Finished?
    ensures FinishedCores(cores) == 0
  {
    if cores != [] {
      NoneFinished(cores[1..]);
    }
  }

  lemma {:induction false} AllFinished(cores: seq<Core>)
    requires forall c :: 0 <= c < |cores| ==> cores[c].Finished?
    ensures FinishedCores(cores) == |cores|
  {
    if cores != [] {
      AllFinished(cores[1..]);
    }
  }

  lemma {:induction false} RunKeepsInv(w: World, map_: seq<MMapEnt>, schedule: seq<nat>)
    requires forall t :: 0 <= t < |schedule| ==> schedule[t] < |w.cores|
    requires Inv(w, map_) && ListsFit(map_, |w.cores|)
    ensures Inv(Run(w, map_, schedule), map_)
    decreases |schedule|
  {
    hide Inv, ListsFit, Step;
    if schedule != [] {
      StepKeepsInv(w, map_, schedule[0]);
      StepKeepsCores(w, map_, schedule[0]);
      RunKeepsInv(Step(w, map_, schedule[0]), map_, schedule[1..]);
    }
  }

  lemma StepKeepsCores(w: World, map_: seq<MMapEnt>, c: nat)
    requires c < |w.cores|
    ensures |Step(w, map_, c).cores| == |w.cores|
  {
  }

  ghost predicate MutualExclusion(w: World) {
    forall c, d :: 0 <= c < d < |w.cores| ==> !(w.cores[c].InLoop? && w.cores[d].InLoop?)
  }

  ghost predicate AllDone(w: World) {
    forall c :: 0 <= c < |w.cores| ==> w.cores[c].Finished?
  }

  // The lock is free and the lists are n copies of the classified memory map, end to end.
  ghost predicate Published(w: World, map_: seq<MMapEnt>, n: nat) {
    && !w.lock
    && w.freeCount <= |w.free| && w.free[..w.freeCount] == Copies(FreePart(map_, |map_|), n)
    && w.usedCount <= |w.used| && w.used[..w.usedCount] == Copies(UsedPart(map_, |map_|), n)
    && w.total == n * TotalSize(map_, |map_|) % TWO_64
    && (n == 0 || map_ == [] ==> w.start == 0)
    && (n > 0 && map_ != [] ==> w.start == if map_[0].word % 16 == 1 && map_[0].ptr == 0 then 1 else map_[0].ptr)
  }

  lemma DonePublished(w: World, map_: seq<MMapEnt>)
    requires Inv(w, map_) && AllDone(w)
    ensures Published(w, map_, |w.cores|)
  {
    hide Copies, FreePart, UsedPart, TotalSize, FinishedCores, HolderOk;
    AllFinished(w.cores);
    PartsStartEmpty(map_);
  }

  // Under every interleaving at most one core is between acquire and release, and what the cores leave behind
  // when all have finished does not depend on the interleaving.
  lemma BootSerialisable(map_: seq<MMapEnt>, n: nat, schedule: seq<nat>)
    requires (forall t :: 0 <= t < |schedule| ==> schedule[t] < n) && ListsFit(map_, n)
    ensures MutualExclusion(Run(Boot(n), map_, schedule))
    ensures AllDone(Run(Boot(n), map_, schedule)) ==> Published(Run(Boot(n), map_, schedule), map_, n)
  {
    hide Run, ListsFit, FinishedCores, HolderOk, Published, Lists, Total, Start;
    BootInv(map_, n);
    RunKeepsInv(Boot(n), map_, schedule);
    var w := Run(Boot(n), map_, schedule);
    if AllDone(w) {
      DonePublished(w, map_);
    }
  }

  // ----- progress

  function PhasesLeft(phase: Phase): nat {
    match phase
    case LoadTotal => 6
    case StoreTotal => 5
    case WriteSlot => 4
    case LoadCount => 3
    case StoreCount => 2
    case SetStart => 1
  }

  // The steps that a core has yet to make, not counting spins.
  function CoreWork(map_: seq<MMapEnt>, core: Core): nat {
    match core
    case Waiting => 6 * |map_| + 2
    case Finished => 0
    case InLoop(i, phase, _) => if i >= |map_| then 1 else 6 * (|map_| - i - 1) + PhasesLeft(phase) + 1
  }

  function Work(map_: seq<MMapEnt>, cores: seq<Core>): nat {
    if cores == [] then 0 else CoreWork(map_, cores[0]) + Work(map_, cores[1..])
  }

  lemma {:induction false} WorkUpdate(map_: seq<MMapEnt>, cores: seq<Core>, c: nat, x: Core)
    requires c < |cores|
    ensures Work(map_, cores[c := x]) == Work(map_, cores) - CoreWork(map_, cores[c]) + CoreWork(map_, x)
  {
    hide CoreWork;
    if c == 0 {
      assert cores[0 := x][1..] == cores[1..];
    } else {
      assert cores[c := x][1..] == cores[1..][c - 1 := x];
      WorkUpdate(map_, cores[1..], c - 1, x);
    }
  }

  // A step either changes nothing (a spin, or a finished core) or is one of the finitely many steps of work left.
  lemma StepWorks(w: World, map_: seq<MMapEnt>, c: nat)
    requires c < |w.cores|
    ensures
      var idle := w.cores[c].Finished? || (w.cores[c].Waiting? && w.lock);
      if idle then Step(w, map_, c) == w else Work(map_, Step(w, map_, c).cores) == Work(map_, w.cores) - 1
  {
    hide Work;
    WorkUpdate(map_, w.cores, c, Step(w, map_, c).cores[c]);
    assert w.cores[c := w.cores[c]] == w.cores;
  }

  // The boot cannot deadlock: in every reachable state that is not final some core can do a step of work.
  lemma BootProgresses(map_: seq<MMapEnt>, n: nat, schedule: seq<nat>)
    requires (forall t :: 0 <= t < |schedule| ==> schedule[t] < n) && ListsFit(map_, n)
    ensures
      var w := Run(Boot(n), map_, schedule);
      AllDone(w) || exists c :: 0 <= c < n && Work(map_, Step(w, map_, c).cores) == Work(map_, w.cores) - 1
  {
    hide Run, ListsFit, FinishedCores, HolderOk, Lists, Total, Start, Work, Step;
    BootInv(map_, n);
    RunKeepsInv(Boot(n), map_, schedule);
    var w := Run(Boot(n), map_, schedule);
    if !AllDone(w) {
      var c :| 0 <= c < n && if w.lock then w.cores[c].InLoop? else !w.cores[c].Finished?;
      StepWorks(w, map_, c);
    }
  }

  // ----- every core keeps stepping

  predicate Idle(w: World, c: nat)
    requires c < |w.cores|
  {
    w.cores[c].Finished? || (w.cores[c].Waiting? && w.lock)
  }

  // A piece of a schedule either does some work or leaves every core in it idle.
  lemma {:induction false} SegmentWorks(w: World, map_: seq<MMapEnt>, segment: seq<nat>)
    requires forall t :: 0 <= t < |segment| ==> segment[t] < |w.cores|
    ensures
      var w' := Run(w, map_, segment);
      && Work(map_, w'.cores) <= Work(map_, w.cores)
      && (Work(map_, w'.cores) == Work(map_, w.cores) ==>
            w' == w && forall t :: 0 <= t < |segment| ==> Idle(w, segment[t]))
    decreases |segment|
  {
    hide Work, Step;
    if segment != [] {
      StepWorks(w, map_, segment[0]);
      StepKeepsCores(w, map_, segment[0]);
      SegmentWorks(Step(w, map_, segment[0]), map_, segment[1..]);
      assert forall t :: 1 <= t < |segment| ==> segment[t] == segment[1..][t - 1];
    }
  }

  // While some core has not finished, some core is not idle.
  lemma SomeoneWorks(w: World, map_: seq<MMapEnt>) returns (c: nat)
    requires Inv(w, map_) && !AllDone(w)
    ensures c < |w.cores| && !Idle(w, c)
  {
    hide HolderOk, Lists, Total, Start, FinishedCores;
    c :| 0 <= c < |w.cores| && if w.lock then w.cores[c].InLoop? else !w.cores[c].Finished?;
  }

  // Each piece schedules every core.
  predicate Fair(segments: seq<seq<nat>>, n: nat) {
    forall i :: 0 <= i < |segments| ==>
      && (forall t :: 0 <= t < |segments[i]| ==> segments[i][t] < n)
      && (forall c :: 0 <= c < n ==> c in segments[i])
  }

  function RunAll(w: World, map_: seq<MMapEnt>, segments: seq<seq<nat>>): World
    requires Fair(segments, |w.cores|)
    decreases |segments|
  {
    if segments == [] then w else RunAll(Run(w, map_, segments[0]), map_, segments[1..])
  }

  lemma {:induction false} DoneStays(w: World, map_: seq<MMapEnt>, segments: seq<seq<nat>>)
    requires AllDone(w) && Fair(segments, |w.cores|)
    ensures RunAll(w, map_, segments) == w
    decreases |segments|
  {
    hide Work, Step;
    if segments != [] {
      DoneRuns(w, map_, segments[0]);
      DoneStays(w, map_, segments[1..]);
    }
  }

  lemma {:induction false} DoneRuns(w: World, map_: seq<MMapEnt>, schedule: seq<nat>)
    requires AllDone(w) && forall t :: 0 <= t < |schedule| ==> schedule[t] < |w.cores|
    ensures Run(w, map_, schedule) == w
    decreases |schedule|
  {
    if schedule != [] {
      DoneRuns(w, map_, schedule[1..]);
    }
  }

  lemma {:induction false} FairRun(w: World, map_: seq<MMapEnt>, segments: seq<seq<nat>>)
    requires Inv(w, map_) && ListsFit(map_, |w.cores|) && Fair(segments, |w.cores|)
    requires |segments| >= Work(map_, w.cores)
    ensures AllDone(RunAll(w, map_, segments))
    decreases |segments|
  {
    hide Inv, ListsFit, Work, Step, Run;
    if AllDone(w) {
      DoneStays(w, map_, segments);
    } else {
      var c := SomeoneWorks(w, map_);
      StepWorks(w, map_, c);
      SegmentWorks(w, map_, segments[0]);
      RunKeepsInv(w, map_, segments[0]);
      assert c in segments[0];
      var t :| 0 <= t < |segments[0]| && segments[0][t] == c;
      FairRun(Run(w, map_, segments[0]), map_, segments[1..]);
    }
  }

  // The boot ends: every schedule made of pieces that each schedule all cores, as many as there is work, ends with all
  // cores finished and the lists published.
  lemma BootEnds(map_: seq<MMapEnt>, n: nat, segments: seq<seq<nat>>)
    requires ListsFit(map_, n) && Fair(segments, n) && |segments| >= n * (6 * |map_| + 2)
    ensures AllDone(RunAll(Boot(n), map_, segments)) && Published(RunAll(Boot(n), map_, segments), map_, n)
  {
    hide Inv, ListsFit, Work, RunAll, Published;
    BootInv(map_, n);
    BootWork(map_, Boot(n).cores);
    FairRun(Boot(n), map_, segments);
    FairKeepsInv(Boot(n), map_, segments);
    DonePublished(RunAll(Boot(n), map_, segments), map_);
  }

  lemma {:induction false} BootWork(map_: seq<MMapEnt>, cores: seq<Core>)
    requires forall c :: 0 <= c < |cores| ==> cores[c].Waiting?
    ensures Work(map_, cores) == |cores| * (6 * |map_| + 2)
  {
    if cores != [] {
      BootWork(map_, cores[1..]);
      assert |cores| * (6 * |map_| + 2) == (|cores| - 1) * (6 * |map_| + 2) + (6 * |map_| + 2);
    }
  }

  lemma {:induction false} FairKeepsInv(w: World, map_: seq<MMapEnt>, segments: seq<seq<nat>>)
    requires Inv(w, map_) && ListsFit(map_, |w.cores|) && Fair(segments, |w.cores|)
    ensures Inv(RunAll(w, map_, segments), map_) && |RunAll(w, map_, segments).cores| == |w.cores|
    decreases |segments|
  {
    hide Inv, ListsFit, Run;
    if segments != [] {
      RunKeepsInv(w, map_, segments[0]);
      FairKeepsInv(Run(w, map_, segments[0]), map_, segments[1..]);
    }
  }

  // ----- the price of running the loop on every core

  lemma {:induction false} CopyHolds<T>(s: seq<T>, n: nat, k: nat)
    requires n >= 1 && k < |s|
    ensures (n - 1) * |s| + k < |Copies(s, n)| && Copies(s, n)[(n - 1) * |s| + k] == s[k]
  {
    assert n * |s| == (n - 1) * |s| + |s|;
  }

  lemma {:induction false} CopyBegins<T>(s: seq<T>, n: nat, k: nat)
    requires n >= 1 && k < |s|
    ensures k < |Copies(s, n)| && Copies(s, n)[k] == s[k]
  {
    if n == 1 {
      assert Copies(s, 1) == Copies(s, 0) + s == s;
    } else {
      CopyBegins(s, n - 1, k);
    }
  }

  // From two cores on, the region allocator starts with overlapping blocks, if there is any free memory at all.
  lemma BootOverlaps(map_: seq<MMapEnt>, n: nat, k: nat)
    requires n >= 2 && k < |FreePart(map_, |map_|)| && FreePart(map_, |map_|)[k].size > 0
    ensures !GoodBlocks(Copies(FreePart(map_, |map_|), n))
  {
    hide Copies, FreePart;
    var f := FreePart(map_, |map_|);
    CopyBegins(f, n, k);
    CopyHolds(f, n, k);
    SecondCopy(|f|, n);
    var j := (n - 1) * |f| + k;
    assert !Extent(Copies(f, n)[k]).Apart(Extent(Copies(f, n)[j]));
  }

  // Every element of the copies is one of the original.
  lemma {:induction false} CopyStems<T>(s: seq<T>, n: nat, j: nat)
    requires j < |Copies(s, n)|
    ensures Copies(s, n)[j] in s
  {
    if j < |Copies(s, n - 1)| {
      CopyStems(s, n - 1, j);
    }
  }

  // After the boot of n cores the region allocator has what it needs exactly when there is one core at most, or no
  // free memory.
  lemma BootGood(map_: seq<MMapEnt>, n: nat)
    requires GoodMap(map_)
    ensures
      var f := FreePart(map_, |map_|);
      GoodBlocks(Copies(f, n)) <==> n <= 1 || forall k :: 0 <= k < |f| ==> f[k].size == 0
  {
    hide Copies, FreePart, GoodMap;
    var f := FreePart(map_, |map_|);
    OneBootIsGood(map_, |map_|);
    FewCopies(f);
    if n >= 2 {
      if k :| 0 <= k < |f| && f[k].size > 0 {
        BootOverlaps(map_, n, k);
      } else {
        EmptyCopiesGood(f, n);
      }
    }
  }

  lemma FewCopies<T>(s: seq<T>)
    ensures Copies(s, 0) == [] && Copies(s, 1) == s
  {
    assert Copies(s, 1) == Copies(s, 0) + s;
  }

  lemma EmptyCopiesGood(f: seq<Block>, n: nat)
    requires GoodBlocks(f) && forall k :: 0 <= k < |f| ==> f[k].size == 0
    ensures GoodBlocks(Copies(f, n))
  {
    hide Copies;
    forall j | 0 <= j < |Copies(f, n)|
      ensures Copies(f, n)[j] in f
    {
      CopyStems(f, n, j);
    }
  }

  lemma {:induction false} SecondCopy(size: nat, n: nat)
    requires size > 0 && n >= 2
    ensures (n - 1) * size > 0
  {
    CopiesBound(size, 0, n - 1);
  }
}
