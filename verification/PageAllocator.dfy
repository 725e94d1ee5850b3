// The bitmap page allocator over bitmaps that are updated in place.
module PageAllocator {
  import opened BitWords
  import opened Bitmaps
  import MemoryMap
  import BitmapSetup
  import PageSafety
  import PageRuns

  class BitmapManager {
    const bitmap: array<Word>
    const base: nat
    const pages: nat

    // The bitmap of a free region: all pages free but those that the bitmap is taken to fill.
    constructor Setup(address: nat, size: nat)
      ensures fresh(bitmap) && B() == BitmapSetup.Setup(address, size)
    {
      hide TakeRun, BitmapSetup.BitmapPages;
      var words := (size / PAGE_SIZE + 63) / 64;
      bitmap := new Word[words];
      base := address + words * 8;
      pages := size / PAGE_SIZE;
      new;
      var j := 0;
      while j < words
        invariant j <= words && forall w :: 0 <= w < j ==> bitmap[w] == ALL_FREE
      {
        bitmap[j] := ALL_FREE;
        j := j + 1;
      }
      BitmapSetup.BitmapFits(size);
      assert bitmap[..] == BitmapSetup.Fresh(address, size).words;
      MarkTaken(0, BitmapSetup.BitmapPages(size));
    }

    ghost function B(): (b: Block)
      reads bitmap
      ensures b.base == base && b.pages == pages && |b.words| == bitmap.Length
    {
      Block(base, pages, bitmap[..])
    }

    predicate IsFree(i: nat)
      requires i < 64 * bitmap.Length
      reads bitmap
    {
      Bit(bitmap[i / 64], i % 64)
    }

    method FindFirstFreePage() returns (r: int)
      requires B().Valid()
      ensures r == FirstFree(B(), 0)
    {
      hide Bit, ToInt32;
      var i := 0;
      while i < pages
        invariant i <= pages && FirstFree(B(), i) == FirstFree(B(), 0)
      {
        if IsFree(i) {
          return ToInt32(i);
        }
        i := i + 1;
      }
      return -1;
    }

    method FindContiguousFreePages(n: nat) returns (r: int)
      requires B().Valid()
      ensures r == FirstRun(B(), n, 0, 0)
    {
      hide Bit, ToInt32;
      var count := 0;
      var i := 0;
      while i < pages
        invariant count <= i <= pages && FirstRun(B(), n, i, count) == FirstRun(B(), n, 0, 0)
      {
        if IsFree(i) {
          if count + 1 == n {
            return ToInt32(i + 1 - n);
          }
          count := count + 1;
        } else {
          count := 0;
        }
        i := i + 1;
      }
      return -1;
    }

    predicate Holds(a: nat)
      reads bitmap
      ensures Holds(a) == B().Holds(a)
    {
      base <= a < base + pages * PAGE_SIZE
    }

    function PageOf(a: nat): (p: nat)
      requires base <= a
      reads bitmap
      ensures p == B().PageOf(a)
    {
      (a - base) / PAGE_SIZE
    }

    // The page is marked as used and its address returned.
    method Take(i: nat) returns (a: nat)
      requires i < 64 * bitmap.Length
      modifies bitmap
      ensures B() == old(B()).Take(i) && a == old(B()).Address(i)
    {
      hide ClearBit;
      bitmap[i / 64] := ClearBit(bitmap[i / 64], i % 64);
      return base + i * PAGE_SIZE;
    }

    method Give(a: nat)
      requires B().Valid() && B().Holds(a)
      modifies bitmap
      ensures B() == old(B()).Give(old(B()).PageOf(a))
    {
      hide SetBit;
      var i := PageOf(a);
      bitmap[i / 64] := SetBit(bitmap[i / 64], i % 64);
    }

    method TakePages(i: nat, n: nat) returns (a: nat)
      requires i + n <= 64 * bitmap.Length
      modifies bitmap
      ensures B() == TakeRun(old(B()), i, n) && a == old(B()).Address(i)
    {
      MarkTaken(i, n);
      return base + i * PAGE_SIZE;
    }

    method GivePages(a: nat, n: nat)
      requires B().Valid() && B().Holds(a) && B().PageOf(a) + n <= pages
      modifies bitmap
      ensures B() == GiveRun(old(B()), old(B()).PageOf(a), n)
    {
      MarkFree(PageOf(a), n);
    }

    method MarkTaken(start: nat, n: nat)
      requires start + n <= 64 * bitmap.Length
      modifies bitmap
      ensures B() == TakeRun(old(B()), start, n)
    {
      hide ClearBit;
      var j := 0;
      while j < n
        invariant j <= n && TakeRun(B(), start + j, n - j) == TakeRun(old(B()), start, n)
      {
        var i := start + j;
        bitmap[i / 64] := ClearBit(bitmap[i / 64], i % 64);
        j := j + 1;
      }
    }

    method MarkFree(start: nat, n: nat)
      requires start + n <= 64 * bitmap.Length
      modifies bitmap
      ensures B() == GiveRun(old(B()), start, n)
    {
      hide SetBit;
      var j := 0;
      while j < n
        invariant j <= n && GiveRun(B(), start + j, n - j) == GiveRun(old(B()), start, n)
      {
        var i := start + j;
        bitmap[i / 64] := SetBit(bitmap[i / 64], i % 64);
        j := j + 1;
      }
    }
  }

  // phys_mblocks and free_block_count
  class Allocator {
    const managers: seq<BitmapManager>

    // setup_physical_memory_management
    constructor (map_: seq<MemoryMap.MMapEnt>)
      ensures View() == BitmapSetup.SetupAll(map_, |map_|)
      ensures BitmapSetup.Usable(map_) || (PageSafety.Managed(map_) && PageSafety.AllFit(map_)) ==> Valid()
      ensures fresh(Arrays())
    {
      hide BitmapSetup.Setup, BitmapManager.B, PageSafety.Managed, PageSafety.AllFit, BitmapSetup.Usable;
      var built: seq<BitmapManager> := [];
      var i := 0;
      while i < |map_|
        invariant i <= |map_| && |built| == |BitmapSetup.SetupAll(map_, i)|
        invariant forall k :: 0 <= k < |built| ==> fresh(built[k].bitmap)
        invariant forall k :: 0 <= k < |built| ==> built[k].B() == BitmapSetup.SetupAll(map_, i)[k]
        invariant forall k, n :: 0 <= k < n < |built| ==> built[k].bitmap != built[n].bitmap
      {
        if map_[i].IsFree() {
          var m := new BitmapManager.Setup(map_[i].ptr, map_[i].Size());
          built := built + [m];
        }
        i := i + 1;
      }
      managers := built;
      new;
      assert View() == BitmapSetup.SetupAll(map_, |map_|);
      if BitmapSetup.Usable(map_) {
        BitmapSetup.SetupAllGood(map_, |map_|);
      }
      if PageSafety.Managed(map_) && PageSafety.AllFit(map_) {
        PageSafety.FittingMapGood(map_, |map_|);
      }
    }

    ghost function Arrays(): set<array<Word>> {
      set i | 0 <= i < |managers| :: managers[i].bitmap
    }

    ghost function Blocks(n: nat): (v: seq<Block>)
      requires n <= |managers|
      reads Arrays()
      ensures |v| == n && forall i :: 0 <= i < n ==> v[i] == managers[i].B()
    {
      if n == 0 then [] else Blocks(n - 1) + [managers[n - 1].B()]
    }

    ghost function View(): seq<Block>
      reads Arrays()
    {
      Blocks(|managers|)
    }

    ghost predicate Valid()
      reads Arrays()
    {
      && PageRuns.AllValid(View())
      && (forall i, j :: 0 <= i < j < |managers| ==> managers[i].bitmap != managers[j].bitmap)
    }

    // Only manager i differs from the view v.
    lemma OneChanged(v: seq<Block>, i: nat)
      requires i < |managers| == |v|
      requires forall j :: 0 <= j < |managers| && j != i ==> managers[j].B() == v[j]
      ensures View() == v[i := managers[i].B()]
    {
    }

    method AllocatePage() returns (a: nat)
      requires Valid()
      modifies Arrays()
      ensures (View(), a) == PageRuns.AllocatePage(old(View()), 0)
    {
      hide TakeRun, FirstFree, Block.Take, BitmapManager.B;
      ghost var v := View();
      var i := 0;
      while i < |managers|
        invariant i <= |managers| && View() == v
        invariant PageRuns.AllocatePage(v, i) == PageRuns.AllocatePage(v, 0)
      {
        var m := managers[i];
        assert m.B() == v[i] && m.bitmap in Arrays();
        FirstFreeExact(m.B(), 0);
        var p := m.FindFirstFreePage();
        if p != -1 {
          a := m.Take(p);
          OneChanged(v, i);
          return;
        }
        i := i + 1;
      }
      return 0;
    }

    method FreePage(a: nat) returns (ok: bool)
      requires Valid()
      modifies Arrays()
      ensures (View(), ok) == PageRuns.FreePage(old(View()), a, 0)
    {
      hide Block.Give, BitmapManager.B;
      ghost var v := View();
      var i := 0;
      while i < |managers|
        invariant i <= |managers| && View() == v
        invariant PageRuns.FreePage(v, a, i) == PageRuns.FreePage(v, a, 0)
      {
        var m := managers[i];
        assert m.B() == v[i] && m.bitmap in Arrays();
        if m.Holds(a) {
          m.Give(a);
          OneChanged(v, i);
          return true;
        }
        i := i + 1;
      }
      return false;
    }

    method AllocatePages(n: nat) returns (a: nat)
      requires Valid()
      modifies Arrays()
      ensures (View(), a) == PageRuns.AllocatePages(old(View()), n, 0)
    {
      hide TakeRun, FirstRun, BitmapManager.B;
      ghost var v := View();
      var i := 0;
      while i < |managers|
        invariant i <= |managers| && View() == v
        invariant PageRuns.AllocatePages(v, n, i) == PageRuns.AllocatePages(v, n, 0)
      {
        var m := managers[i];
        assert m.B() == v[i] && m.bitmap in Arrays();
        ContiguousSearch(m.B(), n);
        var p := m.FindContiguousFreePages(n);
        if p != -1 {
          a := m.TakePages(p, n);
          OneChanged(v, i);
          return;
        }
        i := i + 1;
      }
      return 0;
    }

    method FreePages(a: nat, n: nat) returns (ok: bool)
      requires Valid()
      modifies Arrays()
      ensures (View(), ok) == PageRuns.FreePages(old(View()), a, n, 0)
    {
      hide GiveRun, BitmapManager.B;
      ghost var v := View();
      var i := 0;
      while i < |managers|
        invariant i <= |managers| && View() == v
        invariant PageRuns.FreePages(v, a, n, i) == PageRuns.FreePages(v, a, n, 0)
      {
        var m := managers[i];
        assert m.B() == v[i] && m.bitmap in Arrays();
        if m.Holds(a) && m.PageOf(a) + n <= m.pages {
          m.GivePages(a, n);
          OneChanged(v, i);
          return true;
        }
        i := i + 1;
      }
      return false;
    }
  }
}
