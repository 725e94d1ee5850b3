// The bitmap of a free region of the memory map, and where its pages lie.
module BitmapSetup {
  import opened BitWords
  import opened Bitmaps
  import Regions
  import MemoryMap
  import PageRuns

  // Words of the bitmap of a region.
  function BitmapWords(size: nat): nat {
    (size / PAGE_SIZE + 63) / 64
  }

  // Pages that the bitmap is taken to fill.
  function BitmapPages(size: nat): nat {
    (8 * BitmapWords(size) + PAGE_SIZE - 1) / PAGE_SIZE
  }

  // The bitmap lies at the start of the region, and page 0 right behind it.
  function Fresh(address: nat, size: nat): Block {
    var words := BitmapWords(size);
    Block(address + 8 * words, size / PAGE_SIZE, seq(words, _ => ALL_FREE))
  }

  function Setup(address: nat, size: nat): Block {
    BitmapFits(size);
    TakeRun(Fresh(address, size), 0, BitmapPages(size))
  }

  lemma BitmapFits(size: nat)
    ensures BitmapPages(size) <= size / PAGE_SIZE <= 64 * BitmapWords(size)
  {
  }

  // The bitmap has the fewest words that give every page a bit, and is taken to fill the fewest pages that hold it.
  lemma BitmapLeast(size: nat)
    ensures forall n: nat :: 64 * n >= size / PAGE_SIZE <==> n >= BitmapWords(size)
    ensures forall n: nat :: 0x1000 * n >= 8 * BitmapWords(size) <==> n >= BitmapPages(size)
  {
  }

  // Page p lies inside the region, after the bitmap.
  predicate Inside(address: nat, size: nat, p: nat) {
    var a := Setup(address, size).Address(p);
    address + 8 * BitmapWords(size) <= a && a + PAGE_SIZE <= address + size
  }

  // The free pages after setup are those that the bitmap is not taken to fill.
  lemma SetupFree(address: nat, size: nat, p: nat)
    requires p < size / PAGE_SIZE
    ensures
      var b := Setup(address, size);
      p < 64 * |b.words| && (b.Free(p) <==> p >= BitmapPages(size))
  {
    hide Block.Free, TakeRun;
    BitmapFits(size);
    var b := Fresh(address, size);
    FreshFree(b, p);
    TakeRunOnly(b, 0, BitmapPages(size), p);
  }

  lemma FreshFree(b: Block, p: nat)
    requires p < 64 * |b.words| && forall w :: 0 <= w < |b.words| ==> b.words[w] == ALL_FREE
    ensures b.Free(p)
  {
    hide Bit;
    AllFreeBit(p % 64);
  }

  // Every page but the last ones, as many as the bitmap is taken to fill, lies inside the region.
  lemma LayoutBound(address: nat, size: nat, p: nat)
    requires p < size / PAGE_SIZE
    ensures Inside(address, size, p) <==> 8 * BitmapWords(size) + PAGE_SIZE * (p + 1) <= size
    ensures p + BitmapPages(size) < size / PAGE_SIZE ==> Inside(address, size, p)
  {
    hide TakeRun;
    BitmapFits(size);
  }

  // The region has no free page at all, or what it has beyond whole pages is enough for the bitmap.
  predicate Fits(size: nat) {
    size / PAGE_SIZE <= BitmapPages(size) || 8 * BitmapWords(size) <= size % PAGE_SIZE
  }

  // The allocator can hand out only pages inside the region exactly when the bitmap fits.
  lemma LayoutExact(address: nat, size: nat)
    ensures (forall p :: BitmapPages(size) <= p < size / PAGE_SIZE ==> Inside(address, size, p)) <==> Fits(size)
  {
    hide Inside, BitmapWords, BitmapPages;
    forall p | BitmapPages(size) <= p < size / PAGE_SIZE
      ensures Inside(address, size, p) <==> 8 * BitmapWords(size) + PAGE_SIZE * (p + 1) <= size
    {
      LayoutBound(address, size, p);
    }
    var last := size / PAGE_SIZE - 1;
    if BitmapPages(size) <= last {
      assert Inside(address, size, last) <==> 8 * BitmapWords(size) + PAGE_SIZE * (last + 1) <= size;
    }
  }

  // ----- the whole memory map

  // The blocks set up for the free regions among the first i.
  function SetupAll(map_: seq<MemoryMap.MMapEnt>, i: nat): (r: seq<Block>)
    requires i <= |map_|
    ensures |r| <= i
  {
    if i == 0 then []
    else SetupAll(map_, i - 1) + if map_[i - 1].IsFree() then [Setup(map_[i - 1].ptr, map_[i - 1].Size())] else []
  }

  // The bitmap of a free region and its pages, the last of which may lie beyond the region.
  function Reach(e: MemoryMap.MMapEnt): Regions.Interval {
    Regions.Interval(e.ptr, 8 * BitmapWords(e.Size()) + e.Size() / PAGE_SIZE * PAGE_SIZE)
  }

  // What the allocator needs from the memory map.
  predicate Usable(map_: seq<MemoryMap.MMapEnt>) {
    && (forall i :: 0 <= i < |map_| && map_[i].IsFree() ==>
          && Reach(map_[i]).End() < 0x1_0000_0000_0000_0000
          && map_[i].Size() / PAGE_SIZE <= 0x8000_0000
          && (map_[i].ptr > 0 || map_[i].Size() >= PAGE_SIZE))
    && (forall i, j :: 0 <= i < j < |map_| && map_[i].IsFree() && map_[j].IsFree() ==>
          Reach(map_[i]).End() <= map_[j].ptr || Reach(map_[j]).End() <= map_[i].ptr)
  }

  lemma SetupInReach(e: MemoryMap.MMapEnt)
    ensures
      var b := Setup(e.ptr, e.Size());
      b.pages <= 64 * |b.words| && b.pages == e.Size() / PAGE_SIZE
      && b.base == e.ptr + 8 * |b.words| && b.base + b.pages * PAGE_SIZE == Reach(e).End()
  {
    hide TakeRun;
    BitmapFits(e.Size());
  }

  // Block j of the first i entries comes from some entry k.
  lemma {:induction false} SetupStems(map_: seq<MemoryMap.MMapEnt>, i: nat, j: nat) returns (k: nat)
    requires i <= |map_| && j < |SetupAll(map_, i)|
    ensures k < i && map_[k].IsFree() && SetupAll(map_, i)[j] == Setup(map_[k].ptr, map_[k].Size())
  {
    hide Setup, BitmapWords;
    if j < |SetupAll(map_, i - 1)| {
      k := SetupStems(map_, i - 1, j);
    } else {
      k := i - 1;
    }
  }

  // One block for each entry of type 1, in the order of the map, and none for the others.
  lemma {:induction false} SetupAllExact(map_: seq<MemoryMap.MMapEnt>, i: nat)
    requires i <= |map_|
    ensures |SetupAll(map_, i)| == MemoryMap.CountFree(map_, i)
    ensures forall k :: 0 <= k < i && map_[k].word % 16 == 1 ==>
              && MemoryMap.CountFree(map_, k) < |SetupAll(map_, i)|
              && SetupAll(map_, i)[MemoryMap.CountFree(map_, k)] ==
                 Setup(map_[k].ptr, map_[k].word - map_[k].word % 16)
  {
    hide Setup;
    if i > 0 {
      SetupAllExact(map_, i - 1);
    }
  }

  // Setup gives the allocator valid blocks with disjoint page ranges.
  lemma {:induction false} SetupAllGood(map_: seq<MemoryMap.MMapEnt>, i: nat)
    requires Usable(map_) && i <= |map_|
    ensures PageRuns.GoodBlocks(SetupAll(map_, i))
  {
    hide Setup, BitmapWords, MemoryMap.MMapEnt.Size;
    if i > 0 {
      SetupAllGood(map_, i - 1);
      var e, before := map_[i - 1], SetupAll(map_, i - 1);
      SetupInReach(e);
      if e.IsFree() {
        var b := Setup(e.ptr, e.Size());
        forall j | 0 <= j < |before|
          ensures
            || before[j].base + before[j].pages * PAGE_SIZE <= b.base
            || b.base + b.pages * PAGE_SIZE <= before[j].base
        {
          var k := SetupStems(map_, i - 1, j);
          SetupInReach(map_[k]);
          assert Reach(map_[k]).End() <= e.ptr || Reach(e).End() <= map_[k].ptr;
        }
        assert SetupAll(map_, i) == before + [b];
      } else {
        assert SetupAll(map_, i) == before;
      }
    }
  }
}
