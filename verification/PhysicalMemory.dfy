// The block lists of the physical memory manager, updated in place.
module PhysicalMemory {
  import opened Bits
  import opened Regions
  import opened MemoryMap
  import Boot

  class Manager {
    const free: array<Block>
    const used: array<Region>
    var freeCount: nat
    var usedCount: nat
    var total: nat
    var start: nat
    var lock: bool
    var bytes: Bytes

    constructor ()
      ensures Valid() && fresh(free) && fresh(used) && !lock
      ensures Free() == [] && Used() == [] && total == 0 && start == 0
    {
      free := new Block[Boot.NUM_BLOCKS](_ => Block(0, 0, 0));
      used := new Region[Boot.NUM_BLOCKS](_ => Region(0, 0));
      freeCount, usedCount, total, start, lock, bytes := 0, 0, 0, 0, false, map[];
    }

    ghost predicate Valid()
      reads this
    {
      && total < TWO_64 && free.Length == used.Length == Boot.NUM_BLOCKS
      && freeCount <= free.Length && usedCount <= used.Length
    }

    ghost function Free(): seq<Block>
      reads this, free
      requires Valid()
    {
      free[..freeCount]
    }

    ghost function Used(): seq<Region>
      reads this, used
      requires Valid()
    {
      used[..usedCount]
    }

    ghost function H(): Heap
      reads this, free
      requires Valid()
    {
      Heap(Free(), bytes)
    }

    // One entry of the memory map joins one of the lists.
    method AddEntry(e: MMapEnt, current: nat) returns (base: nat, current': nat)
      requires Valid()
      requires e.IsFree() ==> freeCount < Boot.NUM_BLOCKS
      requires !e.IsFree() ==> usedCount < Boot.NUM_BLOCKS
      modifies this`freeCount, this`usedCount, free, used
      ensures Valid() && base == e.Base()
      ensures Free() == old(Free()) + if e.IsFree() then [Block(e.Base(), e.FreeSize(), current)] else []
      ensures Used() == old(Used()) + if e.IsFree() then [] else [Region(e.ptr, e.Size())]
      ensures current' == if e.IsFree() then e.Base() else current
    {
      base, current' := e.ptr, current;
      var size := e.Size();
      if e.IsFree() {
        if base == 0 {
          base := base + 1;
          size := (size + TWO_64 - 1) % TWO_64;
        }
        free[freeCount] := Block(base, size, current);
        current' := base;
        freeCount := freeCount + 1;
      } else {
        used[usedCount] := Region(base, size);
        usedCount := usedCount + 1;
      }
    }

    // The whole of init_blocks on one core: the lock is free before and after.
    method InitBlocks(map_: seq<MMapEnt>)
      requires Valid() && !lock
      requires freeCount + |FreePart(map_, |map_|)| <= Boot.NUM_BLOCKS
      requires usedCount + |UsedPart(map_, |map_|)| <= Boot.NUM_BLOCKS
      modifies this, free, used
      ensures Valid() && !lock && bytes == old(bytes)
      ensures Free() == old(Free()) + FreePart(map_, |map_|)
      ensures Used() == old(Used()) + UsedPart(map_, |map_|)
      ensures total == (old(total) + TotalSize(map_, |map_|)) % TWO_64
      ensures start == if map_ == [] then old(start) else map_[0].Base()
      ensures GoodMap(map_) && old(Free() == [] && Used() == []) ==> Listed(map_, |map_|, Free(), Used())
    {
      hide GoodMap, Listed, TotalSize, FreePart, UsedPart, LastFree;
      Boot.PartsStartEmpty(map_);
      assert LastFree(map_, 0) == 0 by {
        NoneFreeYet(map_);
      }
      lock := true;
      var current := 0;
      var i := 0;
      while i < |map_|
        invariant i <= |map_| && Valid() && lock && bytes == old(bytes)
        invariant current == LastFree(map_, i)
        invariant Free() == old(Free()) + FreePart(map_, i)
        invariant Used() == old(Used()) + UsedPart(map_, i)
        invariant total == (old(total) + TotalSize(map_, i)) % TWO_64
        invariant start == if i == 0 then old(start) else map_[0].Base()
      {
        Boot.PartsGrow(map_, i + 1, |map_|);
        PartsStep(map_, i, old(total));
        assert |Free()| == freeCount && |Used()| == usedCount;
        total := (total + map_[i].Size()) % TWO_64;
        var base;
        base, current := AddEntry(map_[i], current);
        if i == 0 {
          start := base;
        }
        i := i + 1;
      }
      lock := false;
      ListedFromEmpty(map_, old(Free()), old(Used()), Free(), Used());
    }

    // First fit. 0 stands for no memory.
    method AllocateMemory(size: nat) returns (address: nat)
      requires Valid() && size < TWO_64
      modifies free
      ensures Valid() && (Free(), address) == Allocate(old(Free()), size)
    {
      var i := 0;
      while i < freeCount
        invariant i <= freeCount && free[..] == old(free[..])
        invariant forall j :: 0 <= j < i ==> free[j].size < size
      {
        if free[i].size >= size {
          FirstFitUnique(Free(), size, i);
          var b := free[i];
          free[i] := Block((b.address + size) % TWO_64, b.size - size, b.next);
          return b.address;
        }
        i := i + 1;
      }
      FirstFitUnique(Free(), size, i);
      return 0;
    }

    method AllocateAligned(alignment: nat, size: nat) returns (p: nat)
      requires Valid() && alignment < TWO_64 && size < TWO_64
      modifies this`bytes, free
      ensures Valid() && (H(), p) == AlignedAlloc(old(H()), alignment, size)
    {
      hide BitAnd, Allocate, StoreBytes;
      var al := AtLeastPointer(alignment);
      if BitAnd(al, al - 1) != 0 {
        return 0;
      }
      var original := AllocateMemory(PaddedSize(al, size));
      if original == 0 {
        return 0;
      }
      p := AlignUp(original, al);
      bytes := StoreBytes(bytes, HeaderAddress(p), original, 8);
    }

    // aligned_free, up to its call of free_memory: whether it is called, and with which address.
    method AlignedFree(p: nat) returns (called: bool, address: nat)
      ensures called <==> p != 0
      ensures called ==> address == FreeArgument(bytes, p)
      ensures forall a: Live :: a.alignment > 0 && a.payload.start == p && HeaderOk(bytes, a) && called ==>
                address == a.interval.start
    {
      called, address := p != 0, 0;
      if called {
        address := LoadBytes(bytes, HeaderAddress(p), 8);
      }
    }
  }

  lemma ListedFromEmpty(map_: seq<MMapEnt>, free: seq<Block>, used: seq<Region>, free': seq<Block>, used': seq<Region>)
    requires free' == free + FreePart(map_, |map_|) && used' == used + UsedPart(map_, |map_|)
    ensures GoodMap(map_) && free == [] && used == [] ==> Listed(map_, |map_|, free', used')
  {
    hide GoodMap, Listed, FreePart, UsedPart;
    if GoodMap(map_) && free == [] && used == [] {
      ClassificationExact(map_, |map_|);
      assert free' == FreePart(map_, |map_|) && used' == UsedPart(map_, |map_|);
    }
  }

  lemma NoneFreeYet(map_: seq<MMapEnt>)
    ensures LastFree(map_, 0) == 0
  {
  }

  lemma PartsStep(map_: seq<MMapEnt>, i: nat, total: nat)
    requires i < |map_|
    ensures
      var e := map_[i];
      && FreePart(map_, i + 1) ==
           FreePart(map_, i) + (if e.IsFree() then [Block(e.Base(), e.FreeSize(), LastFree(map_, i))] else [])
      && UsedPart(map_, i + 1) == UsedPart(map_, i) + (if e.IsFree() then [] else [Region(e.ptr, e.Size())])
      && LastFree(map_, i + 1) == (if e.IsFree() then e.Base() else LastFree(map_, i))
      && (total + TotalSize(map_, i + 1)) % TWO_64 == ((total + TotalSize(map_, i)) % TWO_64 + e.Size()) % TWO_64
  {
    Boot.AddInWord(total + TotalSize(map_, i), map_[i].Size());
  }

  lemma {:induction false} FirstFitUnique(blocks: seq<Block>, size: nat, i: nat)
    requires i <= |blocks| && (forall j :: 0 <= j < i ==> blocks[j].size < size)
    requires i < |blocks| ==> blocks[i].size >= size
    ensures FirstFit(blocks, size) == i
  {
    if i > 0 {
      FirstFitUnique(blocks[1..], size, i - 1);
    }
  }
}
