// Which pages bitmap_allocate_page ever hands out: exactly those that are free at the start.
module PageExhaustion {
  import opened Bitmaps
  import opened BitmapSetup
  import opened PageSafety
  import opened PageRuns
  import Regions
  import MemoryMap

  // The bitmaps after n calls.
  function AfterCalls(blocks: seq<Block>, n: nat): (r: seq<Block>)
    requires AllValid(blocks)
    ensures AllValid(r)
    decreases n
  {
    if n == 0 then blocks
    else
      CallKeepsValid(blocks);
      AfterCalls(AllocatePage(blocks, 0).0, n - 1)
  }

  // What call n returns.
  function HandedOut(blocks: seq<Block>, n: nat): nat
    requires AllValid(blocks)
  {
    AllocatePage(AfterCalls(blocks, n), 0).1
  }

  lemma CallKeepsValid(blocks: seq<Block>)
    requires AllValid(blocks)
    ensures AllValid(AllocatePage(blocks, 0).0)
  {
    hide Block.Free, Block.Take;
    var b, p := AllocatePageFinds(blocks, 0);
  }

  lemma OneLess(blocks: seq<Block>, b: nat, p: nat)
    requires AllValid(blocks) && b < |blocks| && p < blocks[b].pages && blocks[b].Free(p)
    ensures TotalFree(blocks[b := blocks[b].Take(p)]) == TotalFree(blocks) - 1
  {
    hide Block.Free, Block.Take, TakeRun, CountFree, TotalFree;
    forall q | 0 <= q < blocks[b].pages
      ensures blocks[b].Take(p).Free(q) <==> q != p && blocks[b].Free(q)
    {
      TakeOnly(blocks[b], p, q);
    }
    CountToggle(blocks[b], blocks[b].Take(p), p, blocks[b].pages);
    TotalUpdate(blocks, b, blocks[b].Take(p));
  }

  // A page that is free is handed out by some call.
  lemma {:induction false} EveryPageComes(blocks: seq<Block>, b: nat, p: nat) returns (n: nat)
    requires AllValid(blocks) && b < |blocks| && p < blocks[b].pages && blocks[b].Free(p)
    ensures HandedOut(blocks, n) == blocks[b].Address(p)
    decreases TotalFree(blocks)
  {
    hide Block.Free, Block.Take, TotalFree, AllocatePage;
    var c, q := AllocatePageFinds(blocks, 0);
    var (now, a) := AllocatePage(blocks, 0);
    if c == b && q == p && a != 0 {
      n := 0;
    } else {
      OneLess(blocks, c, q);
      if c == b {
        TakeOnly(blocks[b], q, p);
      }
      CallKeepsValid(blocks);
      n := EveryPageComes(now, b, p);
      n := n + 1;
    }
  }

  // A call hands out a page that was free at the start.
  lemma {:induction false} OnlyFreePages(blocks: seq<Block>, n: nat) returns (b: nat, p: nat)
    requires AllValid(blocks)
    ensures HandedOut(blocks, n) != 0 ==>
              && b < |blocks| && p < blocks[b].pages && blocks[b].Free(p)
              && HandedOut(blocks, n) == blocks[b].Address(p)
    decreases n
  {
    hide Block.Free, Block.Take, AllocatePage;
    var c, q := AllocatePageFinds(blocks, 0);
    if n == 0 {
      b, p := c, q;
    } else {
      CallKeepsValid(blocks);
      var now := AllocatePage(blocks, 0).0;
      b, p := OnlyFreePages(now, n - 1);
      if HandedOut(blocks, n) != 0 && now != blocks && b == c {
        TakeOnly(blocks[c], q, p);
      }
    }
  }

  // ----- after the setup of a memory map

  lemma {:induction false} SetupAllValid(map_: seq<MemoryMap.MMapEnt>, i: nat)
    requires Managed(map_) && i <= |map_|
    ensures AllValid(SetupAll(map_, i))
    decreases i
  {
    hide Setup, MemoryMap.MMapEnt.Size, MemoryMap.GoodMap;
    if i > 0 {
      SetupAllValid(map_, i - 1);
      SetupInReach(map_[i - 1]);
    }
  }

  // The block of a free entry.
  lemma {:induction false} SetupHas(map_: seq<MemoryMap.MMapEnt>, i: nat, k: nat) returns (b: nat)
    requires k < i <= |map_| && map_[k].IsFree()
    ensures b < |SetupAll(map_, i)| && SetupAll(map_, i)[b] == Setup(map_[k].ptr, map_[k].Size())
    decreases i
  {
    hide Setup;
    if k == i - 1 {
      b := |SetupAll(map_, i - 1)|;
    } else {
      b := SetupHas(map_, i - 1, k);
    }
  }

  // In every sane map, a region whose bitmap does not fit has a page outside it that some call hands out.
  lemma PageOutside(map_: seq<MemoryMap.MMapEnt>, k: nat)
    requires Managed(map_) && k < |map_| && map_[k].IsFree() && !Fits(map_[k].Size())
    ensures AllValid(SetupAll(map_, |map_|))
    ensures exists n: nat, p: nat ::
              && HandedOut(SetupAll(map_, |map_|), n) == Setup(map_[k].ptr, map_[k].Size()).Address(p)
              && !Inside(map_[k].ptr, map_[k].Size(), p)
  {
    hide Setup, MemoryMap.MMapEnt.Size, MemoryMap.GoodMap, Fits, Inside, Block.Free, HandedOut;
    var e := map_[k];
    FreePagesInside(e.ptr, e.Size());
    var p: nat :| FreeAfterSetup(e.ptr, e.Size(), p) && !Inside(e.ptr, e.Size(), p);
    SetupAllValid(map_, |map_|);
    var b := SetupHas(map_, |map_|, k);
    SetupInReach(e);
    var n := EveryPageComes(SetupAll(map_, |map_|), b, p);
  }

  // The pages of a region that are free after setup.
  function Pages(e: MemoryMap.MMapEnt): Regions.Interval {
    var b, n := Setup(e.ptr, e.Size()), BitmapPages(e.Size());
    Regions.Interval(b.Address(n), if n < b.pages then (b.pages - n) * PAGE_SIZE else 0)
  }

  predicate BitmapsSpared(map_: seq<MemoryMap.MMapEnt>) {
    forall i, j :: 0 <= i < |map_| && 0 <= j < |map_| && map_[i].IsFree() && map_[j].IsFree() ==>
      Pages(map_[i]).Apart(Bitmap(map_[j]))
  }

  ghost predicate CallsSpareBitmaps(map_: seq<MemoryMap.MMapEnt>)
    requires AllValid(SetupAll(map_, |map_|))
  {
    forall n: nat, j :: 0 <= j < |map_| && map_[j].IsFree() && HandedOut(SetupAll(map_, |map_|), n) != 0 ==>
      Regions.Interval(HandedOut(SetupAll(map_, |map_|), n), PAGE_SIZE).Apart(Bitmap(map_[j]))
  }

  lemma PageInPages(e: MemoryMap.MMapEnt, p: nat)
    requires FreeAfterSetup(e.ptr, e.Size(), p)
    ensures Regions.Interval(Setup(e.ptr, e.Size()).Address(p), PAGE_SIZE).Inside(Pages(e))
  {
    hide Setup, MemoryMap.MMapEnt.Size, Block.Free, BitmapPages;
    SetupInReach(e);
    SetupFree(e.ptr, e.Size(), p);
  }

  // A byte of the free pages lies in one of them.
  lemma PageOfByte(e: MemoryMap.MMapEnt, x: nat) returns (p: nat)
    requires Pages(e).start <= x < Pages(e).End()
    ensures FreeAfterSetup(e.ptr, e.Size(), p)
    ensures Setup(e.ptr, e.Size()).Address(p) <= x < Setup(e.ptr, e.Size()).Address(p) + PAGE_SIZE
  {
    hide Setup, MemoryMap.MMapEnt.Size, Block.Free, BitmapPages;
    SetupInReach(e);
    p := (x - Setup(e.ptr, e.Size()).base) / PAGE_SIZE;
    SetupFree(e.ptr, e.Size(), p);
  }

  // For every sane map: no call ever hands out a page that touches a bitmap exactly when the free pages of every
  // region are apart from every bitmap.
  lemma BitmapsExact(map_: seq<MemoryMap.MMapEnt>)
    requires Managed(map_)
    ensures AllValid(SetupAll(map_, |map_|)) && (CallsSpareBitmaps(map_) <==> BitmapsSpared(map_))
  {
    hide Setup, MemoryMap.MMapEnt.Size, MemoryMap.MMapEnt.IsFree, Block.Free, HandedOut, Managed, Pages, Bitmap;
    SetupAllValid(map_, |map_|);
    var blocks := SetupAll(map_, |map_|);
    if BitmapsSpared(map_) {
      forall n: nat, j | 0 <= j < |map_| && map_[j].IsFree() && HandedOut(blocks, n) != 0
        ensures Regions.Interval(HandedOut(blocks, n), PAGE_SIZE).Apart(Bitmap(map_[j]))
      {
        var b, p := OnlyFreePages(blocks, n);
        var i := SetupStems(map_, |map_|, b);
        SetupInReach(map_[i]);
        PageInPages(map_[i], p);
      }
    }
    if CallsSpareBitmaps(map_) {
      forall i, j | 0 <= i < |map_| && 0 <= j < |map_| && map_[i].IsFree() && map_[j].IsFree()
        ensures Pages(map_[i]).Apart(Bitmap(map_[j]))
      {
        if !Pages(map_[i]).Apart(Bitmap(map_[j])) {
          PageMeetsBitmap(map_, i, j);
        }
      }
    }
  }

  lemma PageMeetsBitmap(map_: seq<MemoryMap.MMapEnt>, i: nat, j: nat)
    requires AllValid(SetupAll(map_, |map_|)) && i < |map_| && j < |map_| && map_[i].IsFree() && map_[j].IsFree()
    requires !Pages(map_[i]).Apart(Bitmap(map_[j]))
    ensures !CallsSpareBitmaps(map_)
  {
    hide Setup, MemoryMap.MMapEnt.Size, MemoryMap.MMapEnt.IsFree, Block.Free, HandedOut, Pages, Bitmap, SetupAll,
      AllValid, Regions.Interval.Apart, BitmapPages, BitmapWords;
    var blocks := SetupAll(map_, |map_|);
    var x := SharedByte(Pages(map_[i]), Bitmap(map_[j]));
    var p := PageOfByte(map_[i], x);
    var b := SetupHas(map_, |map_|, i);
    SetupInReach(map_[i]);
    var n := EveryPageComes(blocks, b, p);
    FreePageNotNull(blocks, b, p);
    BytesMeet(Regions.Interval(HandedOut(blocks, n), PAGE_SIZE), Bitmap(map_[j]), x);
  }

  lemma SharedByte(a: Regions.Interval, b: Regions.Interval) returns (x: nat)
    requires !a.Apart(b)
    ensures a.start <= x < a.End() && b.start <= x < b.End()
  {
    x := if a.start < b.start then b.start else a.start;
  }

  lemma BytesMeet(a: Regions.Interval, b: Regions.Interval, x: nat)
    requires a.start <= x < a.End() && b.start <= x < b.End()
    ensures !a.Apart(b)
  {
  }

  lemma FreePageNotNull(blocks: seq<Block>, b: nat, p: nat)
    requires AllValid(blocks) && b < |blocks| && p < blocks[b].pages
    ensures blocks[b].Address(p) > 0
  {
  }
}
