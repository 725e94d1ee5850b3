// The boot loader's memory map and its classification into free and used regions.
module MemoryMap {
  import opened Bits
  import opened Regions

  // The type of a region is the low half byte of its size word.
  datatype MMapEnt = MMapEnt(ptr: nat, word: nat) {
    function Size(): nat {
      word - word % 16
    }

    predicate IsFree() {
      word % 16 == 1
    }

    // A free region does not start at address 0.
    function Base(): nat {
      if IsFree() && ptr == 0 then 1 else ptr
    }

    function FreeSize(): nat {
      if ptr == 0 then (Size() + TWO_64 - 1) % TWO_64 else Size()
    }
  }

  datatype Region = Region(address: nat, size: nat)

  // The base of the last free region among the first i.
  function LastFree(map_: seq<MMapEnt>, i: nat): nat
    requires i <= |map_|
  {
    if i == 0 then 0 else if map_[i - 1].IsFree() then map_[i - 1].Base() else LastFree(map_, i - 1)
  }

  function FreeEntry(map_: seq<MMapEnt>, i: nat): Block
    requires i < |map_|
  {
    Block(map_[i].Base(), map_[i].FreeSize(), LastFree(map_, i))
  }

  function FreePart(map_: seq<MMapEnt>, i: nat): seq<Block>
    requires i <= |map_|
  {
    if i == 0 then []
    else FreePart(map_, i - 1) + if map_[i - 1].IsFree() then [FreeEntry(map_, i - 1)] else []
  }

  function UsedPart(map_: seq<MMapEnt>, i: nat): seq<Region>
    requires i <= |map_|
  {
    if i == 0 then []
    else UsedPart(map_, i - 1) + if map_[i - 1].IsFree() then [] else [Region(map_[i - 1].ptr, map_[i - 1].Size())]
  }

  function TotalSize(map_: seq<MMapEnt>, i: nat): nat
    requires i <= |map_|
  {
    if i == 0 then 0 else TotalSize(map_, i - 1) + map_[i - 1].Size()
  }

  function Copies<T>(s: seq<T>, n: nat): (r: seq<T>)
    ensures |r| == n * |s|
  {
    if n == 0 then [] else Copies(s, n - 1) + s
  }

  function Area(e: MMapEnt): Interval {
    Interval(e.ptr, e.Size())
  }

  // A memory map as the boot loader hands it over: regions apart, below the top of memory, none empty at address 0.
  ghost predicate GoodMap(map_: seq<MMapEnt>) {
    && (forall i :: 0 <= i < |map_| ==> Area(map_[i]).End() < TWO_64 && (map_[i].ptr == 0 ==> map_[i].Size() > 0))
    && (forall i, j :: 0 <= i < j < |map_| ==> Area(map_[i]).Apart(Area(map_[j])))
  }

  // b is what is left of entry k.
  ghost predicate StemsFrom(map_: seq<MMapEnt>, k: nat, b: Block)
    requires k < |map_|
  {
    b.address > 0 && Extent(b).Inside(Area(map_[k]))
  }

  lemma OneLess(size: nat)
    requires 0 < size < TWO_64
    ensures (size + TWO_64 - 1) % TWO_64 == size - 1
  {
  }

  lemma FreeEntrySize(map_: seq<MMapEnt>, i: nat)
    requires GoodMap(map_) && i < |map_|
    ensures map_[i].FreeSize() == map_[i].Size() - if map_[i].ptr == 0 then 1 else 0
  {
    hide MMapEnt.Size;
    assert Area(map_[i]).End() < TWO_64;
    if map_[i].ptr == 0 {
      OneLess(map_[i].Size());
    }
  }

  lemma EntryStems(map_: seq<MMapEnt>, i: nat)
    requires GoodMap(map_) && i < |map_| && map_[i].IsFree()
    ensures StemsFrom(map_, i, FreeEntry(map_, i)) && Extent(FreeEntry(map_, i)).End() < TWO_64
  {
    hide MMapEnt.Size, MMapEnt.FreeSize;
    FreeEntrySize(map_, i);
  }

  lemma {:induction false} FreeStems(map_: seq<MMapEnt>, i: nat, j: nat) returns (k: nat)
    requires GoodMap(map_) && i <= |map_| && j < |FreePart(map_, i)|
    ensures k < i && StemsFrom(map_, k, FreePart(map_, i)[j])
  {
    hide GoodMap, StemsFrom, FreeEntry;
    if j < |FreePart(map_, i - 1)| {
      k := FreeStems(map_, i - 1, j);
    } else {
      k := i - 1;
      EntryStems(map_, k);
    }
  }

  lemma AreasApart(map_: seq<MMapEnt>, i: nat, j: nat)
    requires GoodMap(map_) && i < j < |map_|
    ensures Area(map_[i]).Apart(Area(map_[j]))
  {
  }

  // The loop on one core gives the region allocator what it needs: free blocks that are apart, in range, and not
  // at address 0.
  lemma {:induction false} OneBootIsGood(map_: seq<MMapEnt>, i: nat)
    requires GoodMap(map_) && i <= |map_|
    ensures GoodBlocks(FreePart(map_, i))
  {
    hide FreeEntry, GoodMap, MMapEnt.Size, MMapEnt.IsFree;
    if i > 0 {
      OneBootIsGood(map_, i - 1);
      if map_[i - 1].IsFree() {
        var before, b := FreePart(map_, i - 1), FreeEntry(map_, i - 1);
        EntryStems(map_, i - 1);
        forall j | 0 <= j < |before|
          ensures Extent(before[j]).Apart(Extent(b))
        {
          var k := FreeStems(map_, i - 1, j);
          AreasApart(map_, k, i - 1);
        }
        assert FreePart(map_, i) == before + [b];
      } else {
        assert FreePart(map_, i) == FreePart(map_, i - 1);
      }
    }
  }

  function UsedBytes(used: seq<Region>): nat {
    if used == [] then 0 else UsedBytes(used[..|used| - 1]) + used[|used| - 1].size
  }

  // The bytes at address 0 that are kept out of the free list.
  function ZeroBytes(map_: seq<MMapEnt>, i: nat): nat
    requires i <= |map_|
  {
    if i == 0 then 0 else ZeroBytes(map_, i - 1) + if map_[i - 1].IsFree() && map_[i - 1].ptr == 0 then 1 else 0
  }

  lemma {:induction false} FreeBytesAppend(blocks: seq<Block>, b: Block)
    ensures FreeBytes(blocks + [b]) == FreeBytes(blocks) + b.size
  {
    if blocks == [] {
      assert blocks + [b] == [b];
    } else {
      assert (blocks + [b])[1..] == blocks[1..] + [b];
      FreeBytesAppend(blocks[1..], b);
    }
  }

  // Classification loses nothing but a byte at address 0.
  lemma {:induction false} ClassificationConserves(map_: seq<MMapEnt>, i: nat)
    requires GoodMap(map_) && i <= |map_|
    ensures FreeBytes(FreePart(map_, i)) + UsedBytes(UsedPart(map_, i)) + ZeroBytes(map_, i) == TotalSize(map_, i)
  {
    hide GoodMap, MMapEnt.Size, MMapEnt.FreeSize, MMapEnt.IsFree, MMapEnt.Base;
    if i > 0 {
      ClassificationConserves(map_, i - 1);
      var e := map_[i - 1];
      if e.IsFree() {
        FreeEntrySize(map_, i - 1);
        FreeBytesAppend(FreePart(map_, i - 1), FreeEntry(map_, i - 1));
        assert UsedPart(map_, i) == UsedPart(map_, i - 1);
      } else {
        var r := Region(e.ptr, e.Size());
        assert UsedPart(map_, i) == UsedPart(map_, i - 1) + [r];
        assert UsedPart(map_, i)[..|UsedPart(map_, i - 1)|] == UsedPart(map_, i - 1);
        assert FreePart(map_, i) == FreePart(map_, i - 1);
      }
    }
  }

  // ----- the lists, entry by entry

  // Entries of type 1, free memory, among the first k.
  function CountFree(map_: seq<MMapEnt>, k: nat): (n: nat)
    requires k <= |map_|
    ensures n <= k
  {
    if k == 0 then 0 else CountFree(map_, k - 1) + if map_[k - 1].word % 16 == 1 then 1 else 0
  }

  // Block c of the list is made of entry e: all of it, but for the byte at address 0, and linked to the block before.
  ghost predicate BlockOf(blocks: seq<Block>, c: nat, e: MMapEnt) {
    && c < |blocks|
    && blocks[c].address == (if e.ptr == 0 then 1 else e.ptr)
    && blocks[c].address + blocks[c].size == e.ptr + (e.word - e.word % 16)
    && blocks[c].next == if c == 0 then 0 else blocks[c - 1].address
  }

  ghost predicate RegionOf(used: seq<Region>, c: nat, e: MMapEnt) {
    c < |used| && used[c] == Region(e.ptr, e.word - e.word % 16)
  }

  // Each entry of type 1 is in the free list and each other entry in the used list, in the order of the map.
  ghost predicate Listed(map_: seq<MMapEnt>, i: nat, blocks: seq<Block>, used: seq<Region>)
    requires i <= |map_|
  {
    && |blocks| == CountFree(map_, i) && |used| == i - CountFree(map_, i)
    && forall k :: 0 <= k < i ==>
         if map_[k].word % 16 == 1 then BlockOf(blocks, CountFree(map_, k), map_[k])
         else RegionOf(used, k - CountFree(map_, k), map_[k])
  }

  ghost predicate LinksTo(blocks: seq<Block>, last: nat) {
    last == if blocks == [] then 0 else blocks[|blocks| - 1].address
  }

  lemma BlockStays(blocks: seq<Block>, b: Block, c: nat, e: MMapEnt)
    requires BlockOf(blocks, c, e)
    ensures BlockOf(blocks + [b], c, e)
  {
  }

  lemma RegionStays(used: seq<Region>, r: Region, c: nat, e: MMapEnt)
    requires RegionOf(used, c, e)
    ensures RegionOf(used + [r], c, e)
  {
  }

  lemma NextBlock(map_: seq<MMapEnt>, i: nat, blocks: seq<Block>)
    requires GoodMap(map_) && i < |map_| && map_[i].word % 16 == 1 && LinksTo(blocks, LastFree(map_, i))
    ensures BlockOf(blocks + [FreeEntry(map_, i)], |blocks|, map_[i])
  {
    FreeEntrySize(map_, i);
  }

  lemma CountNext(map_: seq<MMapEnt>, i: nat)
    requires i < |map_|
    ensures CountFree(map_, i + 1) == CountFree(map_, i) + if map_[i].word % 16 == 1 then 1 else 0
  {
  }

  lemma ListBlock(map_: seq<MMapEnt>, i: nat, blocks: seq<Block>, used: seq<Region>, b: Block)
    requires i < |map_| && Listed(map_, i, blocks, used)
    requires map_[i].word % 16 == 1 && BlockOf(blocks + [b], |blocks|, map_[i])
    ensures Listed(map_, i + 1, blocks + [b], used)
  {
    hide BlockOf, RegionOf, CountFree;
    CountNext(map_, i);
    forall k | 0 <= k < i && map_[k].word % 16 == 1
      ensures BlockOf(blocks + [b], CountFree(map_, k), map_[k])
    {
      BlockStays(blocks, b, CountFree(map_, k), map_[k]);
    }
  }

  lemma ListRegion(map_: seq<MMapEnt>, i: nat, blocks: seq<Block>, used: seq<Region>, r: Region)
    requires i < |map_| && Listed(map_, i, blocks, used)
    requires map_[i].word % 16 != 1 && RegionOf(used + [r], |used|, map_[i])
    ensures Listed(map_, i + 1, blocks, used + [r])
  {
    hide BlockOf, RegionOf, CountFree;
    CountNext(map_, i);
    forall k | 0 <= k < i && map_[k].word % 16 != 1
      ensures RegionOf(used + [r], k - CountFree(map_, k), map_[k])
    {
      RegionStays(used, r, k - CountFree(map_, k), map_[k]);
    }
  }

  lemma FreeStep(map_: seq<MMapEnt>, i: nat)
    requires i < |map_| && map_[i].word % 16 == 1
    ensures FreePart(map_, i + 1) == FreePart(map_, i) + [FreeEntry(map_, i)]
    ensures UsedPart(map_, i + 1) == UsedPart(map_, i) && LastFree(map_, i + 1) == FreeEntry(map_, i).address
  {
  }

  lemma UsedStep(map_: seq<MMapEnt>, i: nat)
    requires i < |map_| && map_[i].word % 16 != 1
    ensures UsedPart(map_, i + 1) == UsedPart(map_, i) + [Region(map_[i].ptr, map_[i].Size())]
    ensures FreePart(map_, i + 1) == FreePart(map_, i) && LastFree(map_, i + 1) == LastFree(map_, i)
  {
  }

  lemma ListNext(map_: seq<MMapEnt>, i: nat)
    requires GoodMap(map_) && i < |map_|
    requires Listed(map_, i, FreePart(map_, i), UsedPart(map_, i)) && LinksTo(FreePart(map_, i), LastFree(map_, i))
    ensures Listed(map_, i + 1, FreePart(map_, i + 1), UsedPart(map_, i + 1))
    ensures LinksTo(FreePart(map_, i + 1), LastFree(map_, i + 1))
  {
    hide GoodMap, FreeEntry, BlockOf, RegionOf, Listed, MMapEnt.Size, FreePart, UsedPart, LastFree;
    var e, blocks, used := map_[i], FreePart(map_, i), UsedPart(map_, i);
    if e.word % 16 == 1 {
      FreeStep(map_, i);
      NextBlock(map_, i, blocks);
      ListBlock(map_, i, blocks, used, FreeEntry(map_, i));
    } else {
      UsedStep(map_, i);
      NewRegion(used, e);
      ListRegion(map_, i, blocks, used, Region(e.ptr, e.Size()));
    }
  }

  lemma NothingListed(map_: seq<MMapEnt>)
    ensures Listed(map_, 0, FreePart(map_, 0), UsedPart(map_, 0)) && LinksTo(FreePart(map_, 0), LastFree(map_, 0))
  {
    hide BlockOf, RegionOf;
  }

  // What the loop has put into the two lists after i entries.
  lemma {:induction false} ClassificationExact(map_: seq<MMapEnt>, i: nat)
    requires GoodMap(map_) && i <= |map_|
    ensures Listed(map_, i, FreePart(map_, i), UsedPart(map_, i)) && LinksTo(FreePart(map_, i), LastFree(map_, i))
  {
    hide GoodMap, Listed, LinksTo, FreePart, UsedPart, LastFree;
    if i == 0 {
      NothingListed(map_);
    } else {
      ClassificationExact(map_, i - 1);
      ListNext(map_, i - 1);
    }
  }

  lemma NewRegion(used: seq<Region>, e: MMapEnt)
    ensures RegionOf(used + [Region(e.ptr, e.Size())], |used|, e)
  {
  }

  // Every block of the free list is the block of an entry of type 1.
  lemma {:induction false} BlockHasEntry(map_: seq<MMapEnt>, i: nat, c: nat) returns (k: nat)
    requires i <= |map_| && c < CountFree(map_, i)
    ensures k < i && map_[k].word % 16 == 1 && CountFree(map_, k) == c
  {
    k := i - 1;
    if map_[k].word % 16 != 1 || CountFree(map_, k) != c {
      k := BlockHasEntry(map_, i - 1, c);
    }
  }

  lemma ReservedApart(map_: seq<MMapEnt>, blocks: seq<Block>, used: seq<Region>, c: nat, k: nat)
    requires GoodMap(map_) && Listed(map_, |map_|, blocks, used) && c < |blocks|
    requires k < |map_| && map_[k].word % 16 != 1
    ensures Extent(blocks[c]).Apart(Area(map_[k]))
  {
    hide GoodMap, BlockOf, RegionOf, Extent, Area;
    var j := BlockHasEntry(map_, |map_|, c);
    AreasApart(map_, if j < k then j else k, if j < k then k else j);
    BlockInside(blocks, c, map_[j]);
    InsideApart(Extent(blocks[c]), Area(map_[j]), Area(map_[k]));
  }

  lemma ReservedListed(map_: seq<MMapEnt>, blocks: seq<Block>, used: seq<Region>, k: nat)
    requires Listed(map_, |map_|, blocks, used) && k < |map_| && map_[k].word % 16 != 1
    ensures Region(map_[k].ptr, map_[k].word - map_[k].word % 16) in used
  {
    hide BlockOf, CountFree;
    assert RegionOf(used, k - CountFree(map_, k), map_[k]);
  }

  // No block of the free list touches an entry of another type, and that entry is in the used list.
  lemma ReservedIsUsed(map_: seq<MMapEnt>, k: nat)
    requires GoodMap(map_) && k < |map_| && map_[k].word % 16 != 1
    ensures forall c :: 0 <= c < |FreePart(map_, |map_|)| ==> Extent(FreePart(map_, |map_|)[c]).Apart(Area(map_[k]))
    ensures Region(map_[k].ptr, map_[k].word - map_[k].word % 16) in UsedPart(map_, |map_|)
  {
    hide GoodMap, FreePart, UsedPart, Listed, Interval.Apart, Extent, Area;
    var blocks, used := FreePart(map_, |map_|), UsedPart(map_, |map_|);
    ClassificationExact(map_, |map_|);
    ReservedListed(map_, blocks, used, k);
    forall c | 0 <= c < |blocks|
      ensures Extent(blocks[c]).Apart(Area(map_[k]))
    {
      ReservedApart(map_, blocks, used, c, k);
    }
  }

  lemma BlockInside(blocks: seq<Block>, c: nat, e: MMapEnt)
    requires BlockOf(blocks, c, e)
    ensures Extent(blocks[c]).Inside(Area(e))
  {
  }

  lemma InsideApart(a: Interval, b: Interval, c: Interval)
    requires a.Inside(b) && (b.Apart(c) || c.Apart(b))
    ensures a.Apart(c)
  {
  }
}
