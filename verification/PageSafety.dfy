// What clients of the page allocator get, over every run after the setup of a memory map.
module PageSafety {
  import opened Bitmaps
  import opened BitmapSetup
  import Regions
  import MemoryMap
  import PageRuns

  function Bitmap(e: MemoryMap.MMapEnt): Regions.Interval {
    Regions.Interval(e.ptr, 8 * BitmapWords(e.Size()))
  }

  // The memory of an allocation.
  function Span(blocks: seq<Block>, r: PageRuns.Run): Regions.Interval
    requires r.block < |blocks|
  {
    Regions.Interval(blocks[r.block].Address(r.start), r.len * PAGE_SIZE)
  }

  lemma RunsApart(blocks: seq<Block>, live: seq<PageRuns.Run>, k: nat, n: nat)
    requires PageRuns.GoodBlocks(blocks) && k < n < |live| && PageRuns.Apart(live, k, n)
    requires PageRuns.RunOk(blocks, live[k]) && PageRuns.RunOk(blocks, live[n])
    ensures Span(blocks, live[k]).Apart(Span(blocks, live[n]))
  {
    hide PageRuns.AllValid, AllFree;
    var r, r' := live[k], live[n];
    assert !(r.Covers(r'.block, r'.start) && r'.Covers(r'.block, r'.start));
    assert !(r.Covers(r.block, r.start) && r'.Covers(r.block, r.start));
  }

  // An allocation is behind the bitmap of its own region and so apart from every bitmap.
  lemma {:induction false} RunSparesBitmap(map_: seq<MemoryMap.MMapEnt>, r: PageRuns.Run, i: nat)
    requires Usable(map_) && i < |map_| && map_[i].IsFree()
    requires PageRuns.GoodBlocks(SetupAll(map_, |map_|)) && PageRuns.RunOk(SetupAll(map_, |map_|), r)
    ensures Span(SetupAll(map_, |map_|), r).Apart(Bitmap(map_[i]))
  {
    hide PageRuns.GoodBlocks, AllFree, Setup, BitmapWords, MemoryMap.MMapEnt.Size, SetupAll;
    var k := SetupStems(map_, |map_|, r.block);
    SetupInReach(map_[k]);
    if k != i {
      assert Reach(map_[k]).End() <= map_[i].ptr || Reach(map_[i]).End() <= map_[k].ptr;
    }
  }

  // Over every run of allocations and frees after setup, no two live allocations share memory and none touches a
  // bitmap.
  lemma SetupRunSafe(map_: seq<MemoryMap.MMapEnt>, ops: seq<PageRuns.Op>)
    requires Usable(map_)
    ensures
      var blocks := SetupAll(map_, |map_|);
      PageRuns.GoodBlocks(blocks) &&
      var live := PageRuns.RunOps(PageRuns.Ledger(blocks, []), ops).live;
      && (forall k :: 0 <= k < |live| ==> live[k].block < |blocks| && PageRuns.RunOk(blocks, live[k]))
      && (forall k, n :: 0 <= k < n < |live| ==> Span(blocks, live[k]).Apart(Span(blocks, live[n])))
      && (forall k, i :: 0 <= k < |live| && 0 <= i < |map_| && map_[i].IsFree() ==>
            Span(blocks, live[k]).Apart(Bitmap(map_[i])))
  {
    hide PageRuns.RunOps, PageRuns.GoodBlocks, PageRuns.RunOk, PageRuns.BlockOk, PageRuns.AllValid, PageRuns.TotalFree,
      PageRuns.Apart, Usable, SetupAll, Span, Bitmap, MemoryMap.MMapEnt.IsFree, Regions.Interval.Apart;
    var blocks := SetupAll(map_, |map_|);
    SetupAllGood(map_, |map_|);
    PageRuns.RunSafe(blocks, ops);
    var live := PageRuns.RunOps(PageRuns.Ledger(blocks, []), ops).live;
    RunsInRange(blocks, live);
    forall k, n | 0 <= k < n < |live|
      ensures Span(blocks, live[k]).Apart(Span(blocks, live[n]))
    {
      RunsApart(blocks, live, k, n);
    }
    forall k, i | 0 <= k < |live| && 0 <= i < |map_| && map_[i].IsFree()
      ensures Span(blocks, live[k]).Apart(Bitmap(map_[i]))
    {
      RunSparesBitmap(map_, live[k], i);
    }
  }

  lemma RunsInRange(blocks: seq<Block>, live: seq<PageRuns.Run>)
    requires PageRuns.GoodBlocks(blocks) && forall r :: r in live ==> PageRuns.RunOk(blocks, r)
    ensures forall k :: 0 <= k < |live| ==> live[k].block < |blocks|
  {
    hide PageRuns.GoodBlocks, AllFree;
    forall k | 0 <= k < |live|
      ensures live[k].block < |blocks|
    {
      assert PageRuns.RunOk(blocks, live[k]);
    }
  }

  // ----- regions whose bitmaps fit

  // A sane memory map of a machine with 52 address bits, whose page numbers fit an int.
  ghost predicate Managed(map_: seq<MemoryMap.MMapEnt>) {
    && MemoryMap.GoodMap(map_)
    && forall i :: 0 <= i < |map_| && map_[i].IsFree() ==>
         MemoryMap.Area(map_[i]).End() < 0x10_0000_0000_0000 && map_[i].Size() / PAGE_SIZE <= 0x8000_0000
  }

  predicate AllFit(map_: seq<MemoryMap.MMapEnt>) {
    forall i :: 0 <= i < |map_| && map_[i].IsFree() ==> Fits(map_[i].Size())
  }

  // The pages of a region whose bitmap fits start at least 8 bytes behind its start and end at most 8 behind its end.
  lemma FittingBlock(e: MemoryMap.MMapEnt)
    requires Fits(e.Size()) && e.Size() / PAGE_SIZE > 0
    ensures
      var b := Setup(e.ptr, e.Size());
      e.ptr + 8 <= b.base && b.base + b.pages * PAGE_SIZE <= MemoryMap.Area(e).End() + 8
  {
    hide Setup, MemoryMap.MMapEnt.Size;
    SetupInReach(e);
  }

  lemma AreasApart(map_: seq<MemoryMap.MMapEnt>, i: nat, j: nat)
    requires MemoryMap.GoodMap(map_) && i < |map_| && j < |map_| && i != j
    ensures MemoryMap.Area(map_[i]).Apart(MemoryMap.Area(map_[j]))
  {
  }

  lemma FittingBlockValid(e: MemoryMap.MMapEnt)
    requires Fits(e.Size()) && e.Size() / PAGE_SIZE <= 0x8000_0000 && MemoryMap.Area(e).End() < 0x10_0000_0000_0000
    ensures Setup(e.ptr, e.Size()).Valid()
  {
    hide Setup, MemoryMap.MMapEnt.Size, Fits;
    SetupInReach(e);
    if e.Size() / PAGE_SIZE > 0 {
      FittingBlock(e);
    }
  }

  lemma FittingBlocksApart(map_: seq<MemoryMap.MMapEnt>, i: nat, j: nat)
    requires MemoryMap.GoodMap(map_) && i < |map_| && j < |map_| && i != j
    requires Fits(map_[i].Size()) && Fits(map_[j].Size())
    ensures
      var b, b' := Setup(map_[i].ptr, map_[i].Size()), Setup(map_[j].ptr, map_[j].Size());
      || b.pages == 0 || b'.pages == 0
      || b.base + b.pages * PAGE_SIZE <= b'.base || b'.base + b'.pages * PAGE_SIZE <= b.base
  {
    hide Setup, MemoryMap.MMapEnt.Size, Fits, MemoryMap.GoodMap;
    AreasApart(map_, i, j);
    SetupInReach(map_[i]);
    SetupInReach(map_[j]);
    if map_[i].Size() / PAGE_SIZE > 0 && map_[j].Size() / PAGE_SIZE > 0 {
      FittingBlock(map_[i]);
      FittingBlock(map_[j]);
    }
  }

  // Setup of a memory map whose bitmaps fit gives what the allocator needs.
  lemma {:induction false} FittingMapGood(map_: seq<MemoryMap.MMapEnt>, i: nat)
    requires Managed(map_) && AllFit(map_) && i <= |map_|
    ensures PageRuns.GoodBlocks(SetupAll(map_, i))
  {
    hide Setup, BitmapWords, MemoryMap.MMapEnt.Size, MemoryMap.GoodMap, Fits, Block.Valid;
    if i > 0 {
      FittingMapGood(map_, i - 1);
      var e, before := map_[i - 1], SetupAll(map_, i - 1);
      if e.IsFree() {
        var b := Setup(e.ptr, e.Size());
        FittingBlockValid(e);
        forall j | 0 <= j < |before|
          ensures
            || before[j].pages == 0 || b.pages == 0
            || before[j].base + before[j].pages * PAGE_SIZE <= b.base
            || b.base + b.pages * PAGE_SIZE <= before[j].base
        {
          var k := SetupStems(map_, i - 1, j);
          FittingBlocksApart(map_, k, i - 1);
        }
        assert SetupAll(map_, i) == before + [b];
      } else {
        assert SetupAll(map_, i) == before;
      }
    }
  }

  // A run of free pages of a region whose bitmap fits lies in the region, behind the bitmap.
  lemma FittingRunInside(e: MemoryMap.MMapEnt, start: nat, len: nat)
    requires Fits(e.Size()) && 1 <= len && start + len <= e.Size() / PAGE_SIZE && BitmapPages(e.Size()) <= start
    ensures
      var r := Regions.Interval(Setup(e.ptr, e.Size()).Address(start), len * PAGE_SIZE);
      r.Inside(MemoryMap.Area(e)) && Bitmap(e).End() <= r.start && Bitmap(e).Inside(MemoryMap.Area(e))
  {
    hide Setup, MemoryMap.MMapEnt.Size, BitmapPages;
    SetupInReach(e);
  }

  lemma BitmapInside(e: MemoryMap.MMapEnt)
    ensures Bitmap(e).Inside(MemoryMap.Area(e))
  {
    hide MemoryMap.MMapEnt.Size;
  }

  // The region that an allocation belongs to.
  lemma RunHasRegion(map_: seq<MemoryMap.MMapEnt>, r: PageRuns.Run) returns (k: nat)
    requires AllFit(map_) && PageRuns.GoodBlocks(SetupAll(map_, |map_|))
    requires PageRuns.RunOk(SetupAll(map_, |map_|), r)
    ensures k < |map_| && map_[k].IsFree() && r.block < |SetupAll(map_, |map_|)|
    ensures Span(SetupAll(map_, |map_|), r).Inside(MemoryMap.Area(map_[k]))
    ensures Bitmap(map_[k]).End() <= Span(SetupAll(map_, |map_|), r).start
  {
    hide PageRuns.GoodBlocks, Setup, MemoryMap.MMapEnt.Size, SetupAll, Block.Free, Fits, BitmapPages;
    k := SetupStems(map_, |map_|, r.block);
    var e := map_[k];
    SetupInReach(e);
    SetupFree(e.ptr, e.Size(), r.start);
    FittingRunInside(e, r.start, r.len);
  }

  // Over every run after setup of a memory map whose bitmaps fit, every allocation lies in one free region, and
  // apart from every region of another type, from every bitmap and from every other allocation.
  lemma FittingRunSafe(map_: seq<MemoryMap.MMapEnt>, ops: seq<PageRuns.Op>)
    requires Managed(map_) && AllFit(map_)
    ensures
      var blocks := SetupAll(map_, |map_|);
      PageRuns.GoodBlocks(blocks) &&
      var live := PageRuns.RunOps(PageRuns.Ledger(blocks, []), ops).live;
      && (forall k :: 0 <= k < |live| ==> live[k].block < |blocks| && PageRuns.RunOk(blocks, live[k]))
      && (forall k, n :: 0 <= k < n < |live| ==> Span(blocks, live[k]).Apart(Span(blocks, live[n])))
      && (forall k :: 0 <= k < |live| ==> InFreeRegion(map_, Span(blocks, live[k])))
      && (forall k, i :: 0 <= k < |live| && 0 <= i < |map_| && map_[i].word % 16 != 1 ==>
            Span(blocks, live[k]).Apart(MemoryMap.Area(map_[i])))
      && (forall k, i :: 0 <= k < |live| && 0 <= i < |map_| && map_[i].IsFree() ==>
            Span(blocks, live[k]).Apart(Bitmap(map_[i])))
  {
    hide PageRuns.RunOps, PageRuns.GoodBlocks, PageRuns.RunOk, PageRuns.BlockOk, PageRuns.AllValid, PageRuns.TotalFree,
      PageRuns.Apart, AllFit, SetupAll, Span, Bitmap, MemoryMap.MMapEnt.IsFree, Regions.Interval.Apart,
      InFreeRegion, MemoryMap.GoodMap;
    var blocks := SetupAll(map_, |map_|);
    FittingMapGood(map_, |map_|);
    PageRuns.RunSafe(blocks, ops);
    var live := PageRuns.RunOps(PageRuns.Ledger(blocks, []), ops).live;
    RunsInRange(blocks, live);
    forall k, n | 0 <= k < n < |live|
      ensures Span(blocks, live[k]).Apart(Span(blocks, live[n]))
    {
      RunsApart(blocks, live, k, n);
    }
    forall k | 0 <= k < |live|
      ensures InFreeRegion(map_, Span(blocks, live[k]))
      ensures forall i :: 0 <= i < |map_| && map_[i].IsFree() ==> Span(blocks, live[k]).Apart(Bitmap(map_[i]))
    {
      FittingRunSpares(map_, live[k]);
    }
    forall k, i | 0 <= k < |live| && 0 <= i < |map_| && map_[i].word % 16 != 1
      ensures Span(blocks, live[k]).Apart(MemoryMap.Area(map_[i]))
    {
      ReservedSpared(map_, Span(blocks, live[k]), i);
    }
  }

  ghost predicate InFreeRegion(map_: seq<MemoryMap.MMapEnt>, a: Regions.Interval) {
    exists i :: 0 <= i < |map_| && map_[i].word % 16 == 1 && a.Inside(MemoryMap.Area(map_[i]))
  }

  // What lies in a free region is apart from every region of another type.
  lemma ReservedSpared(map_: seq<MemoryMap.MMapEnt>, a: Regions.Interval, i: nat)
    requires MemoryMap.GoodMap(map_) && InFreeRegion(map_, a) && i < |map_| && map_[i].word % 16 != 1
    ensures a.Apart(MemoryMap.Area(map_[i]))
  {
    hide MemoryMap.GoodMap, MemoryMap.Area;
    var k: nat :| k < |map_| && map_[k].word % 16 == 1 && a.Inside(MemoryMap.Area(map_[k]));
    AreasApart(map_, k, i);
    MemoryMap.InsideApart(a, MemoryMap.Area(map_[k]), MemoryMap.Area(map_[i]));
  }

  lemma FittingRunSpares(map_: seq<MemoryMap.MMapEnt>, r: PageRuns.Run)
    requires MemoryMap.GoodMap(map_) && AllFit(map_) && PageRuns.GoodBlocks(SetupAll(map_, |map_|))
    requires PageRuns.RunOk(SetupAll(map_, |map_|), r)
    ensures r.block < |SetupAll(map_, |map_|)|
    ensures InFreeRegion(map_, Span(SetupAll(map_, |map_|), r))
    ensures forall i :: 0 <= i < |map_| && map_[i].IsFree() ==> Span(SetupAll(map_, |map_|), r).Apart(Bitmap(map_[i]))
  {
    hide PageRuns.GoodBlocks, PageRuns.RunOk, MemoryMap.GoodMap, SetupAll, Span, Bitmap, MemoryMap.MMapEnt.Size;
    var k := RunHasRegion(map_, r);
    forall i | 0 <= i < |map_| && map_[i].IsFree()
      ensures Span(SetupAll(map_, |map_|), r).Apart(Bitmap(map_[i]))
    {
      BitmapInside(map_[i]);
      if i != k {
        AreasApart(map_, k, i);
      }
    }
  }

  predicate FreeAfterSetup(address: nat, size: nat, p: nat) {
    p < size / PAGE_SIZE && p < 64 * |Setup(address, size).words| && Setup(address, size).Free(p)
  }

  // A region whose bitmap does not fit has a page outside that is free after setup; a region whose bitmap fits has
  // none.
  lemma FreePagesInside(address: nat, size: nat)
    ensures (forall p :: FreeAfterSetup(address, size, p) ==> Inside(address, size, p)) <==> Fits(size)
  {
    hide Inside, BitmapWords, BitmapPages, Fits, Setup, Block.Free;
    LayoutExact(address, size);
    forall p | 0 <= p < size / PAGE_SIZE
      ensures p < 64 * |Setup(address, size).words|
      ensures Setup(address, size).Free(p) <==> p >= BitmapPages(size)
    {
      SetupFree(address, size, p);
    }
  }

  // ----- regions whose bitmaps do not fit

  // A region of two pages: its page 1 can be handed out and ends 8 bytes behind the region.
  lemma TwoPagesOverrun(address: nat)
    ensures !Fits(0x2000) && Setup(address, 0x2000).pages == 2 && |Setup(address, 0x2000).words| == 1
    ensures Setup(address, 0x2000).Free(1) && !Setup(address, 0x2000).Free(0) && !Inside(address, 0x2000, 1)
  {
    hide Block.Free, TakeRun;
    SetupFree(address, 0x2000, 0);
    SetupFree(address, 0x2000, 1);
    BitmapFits(0x2000);
  }

  // Two such regions side by side.
  const ADJACENT: seq<MemoryMap.MMapEnt> := [MemoryMap.MMapEnt(0x1000, 0x2001), MemoryMap.MMapEnt(0x3000, 0x2001)]

  lemma AdjacentMap()
    ensures MemoryMap.GoodMap(ADJACENT) && Managed(ADJACENT)
    ensures forall i :: 0 <= i < 2 ==> ADJACENT[i].IsFree() && ADJACENT[i].Size() == 0x2000
  {
    assert 0x2001 % 16 == 1;
    assert ADJACENT[0].Size() == 0x2000 && ADJACENT[1].Size() == 0x2000;
    assert MemoryMap.Area(ADJACENT[0]).End() == 0x3000 && MemoryMap.Area(ADJACENT[1]).End() == 0x5000;
  }

  lemma AdjacentBlocks()
    ensures SetupAll(ADJACENT, 2) == [Setup(0x1000, 0x2000), Setup(0x3000, 0x2000)]
    ensures PageRuns.GoodBlocks(SetupAll(ADJACENT, 2)) && !Usable(ADJACENT)
  {
    hide Setup, MemoryMap.GoodMap, MemoryMap.MMapEnt.Size, MemoryMap.MMapEnt.IsFree;
    AdjacentMap();
    SetupInReach(ADJACENT[0]);
    SetupInReach(ADJACENT[1]);
    assert SetupAll(ADJACENT, 0) == [];
    assert Reach(ADJACENT[0]).End() == 0x3008;
  }

  // The first page that is handed out covers the bitmap of the second region.
  lemma PageCoversBitmap()
    ensures MemoryMap.GoodMap(ADJACENT) && PageRuns.GoodBlocks(SetupAll(ADJACENT, 2))
    ensures PageRuns.AllocatePage(SetupAll(ADJACENT, 2), 0).1 == 0x2008
    ensures !Regions.Interval(0x2008, PAGE_SIZE).Apart(Bitmap(ADJACENT[1]))
  {
    hide Block.Free, Block.Take, Setup, MemoryMap.GoodMap, Managed, SetupAll;
    AdjacentMap();
    AdjacentBlocks();
    TwoPagesOverrun(0x1000);
    SetupInReach(ADJACENT[0]);
    var b, p := PageRuns.AllocatePageFinds(SetupAll(ADJACENT, 2), 0);
  }
}
