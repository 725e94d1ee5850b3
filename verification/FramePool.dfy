// The pages of the region allocator as frames of the page-table code: those of aligned_alloc are, those of
// allocate_memory need not be.
module FramePool {
  import opened PageEntry
  import opened Paging
  import opened Mapping
  import opened Bits
  import Cloning
  import CloneSteps
  import MemoryMap
  import Regions
  import opened Numbers

  const PHYSICAL_END: nat := 0x10_0000_0000_0000

  // The address of a frame as a number.
  function AddressOf(f: Frame): (n: nat)
    ensures n < 0x1_0000_0000_0000_0000
  {
    Value(f.base)
  }

  // A frame is a page address below 2^52.
  lemma AlignedIsFrame(f: Frame)
    requires AddressOf(f) % 4096 == 0 && AddressOf(f) < PHYSICAL_END
    ensures IsFrame(f)
  {
    AlignedWord(f.base);
  }

  lemma AboveNull(f: Frame)
    requires AddressOf(f) > 0
    ensures f != NULL
  {
  }

  // ----- the pool

  // The k-th live allocation is a page of aligned_alloc(4096, 4096), and f is its frame.
  ghost predicate IsPage(live: seq<Regions.Live>, k: nat, f: Frame) {
    && k < |live| && live[k].alignment == 4096 && live[k].payload.len == 4096
    && AddressOf(f) == live[k].payload.start
  }

  lemma BlocksAboveNull(blocks: seq<Regions.Block>, a: Regions.Interval)
    requires Regions.GoodBlocks(blocks) && Regions.InOneBlock(blocks, a)
    ensures a.start > 0
  {
  }

  // Over every run over blocks of a machine with 52 address bits, frames of different live pages are what the clone
  // asks of its pool, if no table lies in them.
  lemma LivePagesAreGood(blocks: seq<Regions.Block>, bytes: Regions.Bytes, ops: seq<Regions.Op>, ks: seq<nat>, s: State)
    requires Regions.GoodBlocks(blocks)
    requires forall i :: 0 <= i < |blocks| ==> Regions.Extent(blocks[i]).End() <= PHYSICAL_END
    requires Regions.AllowedRun(Regions.Ledger(Regions.Heap(blocks, bytes), []), ops)
    requires |ks| == |s.pool| && forall t, u :: 0 <= t < u < |ks| ==> ks[t] != ks[u]
    requires
      var live := Regions.Run(Regions.Ledger(Regions.Heap(blocks, bytes), []), ops).live;
      forall t :: 0 <= t < |ks| ==> IsPage(live, ks[t], s.pool[t])
    requires forall f :: f in s.pool ==> f !in s.shape
    ensures Cloning.GoodPool(s)
  {
    hide Regions.Run, Regions.GoodBlocks, Regions.FreeBytes, Regions.LiveBytes, Regions.FreeArgument, IsFrame,
      Regions.AllApart, Regions.AllowedRun, AddressOf;
    var live := Regions.Run(Regions.Ledger(Regions.Heap(blocks, bytes), []), ops).live;
    Regions.RunSafe(blocks, bytes, ops);
    forall t | 0 <= t < |ks|
      ensures IsFrame(s.pool[t]) && s.pool[t] != NULL
    {
      assert IsPage(live, ks[t], s.pool[t]);
      var a := live[ks[t]];
      assert a in live && Regions.InOneBlock(blocks, a.interval);
      AlignedIsFrame(s.pool[t]);
      BlocksAboveNull(blocks, a.interval);
      AboveNull(s.pool[t]);
    }
    forall t, u | 0 <= t < u < |ks|
      ensures s.pool[t] != s.pool[u]
    {
      assert IsPage(live, ks[t], s.pool[t]) && IsPage(live, ks[u], s.pool[u]);
      Regions.PagesAreFrames(blocks, bytes, ops, ks[t], ks[u]);
    }
  }

  // ----- addresses that need not be aligned

  // The table that an entry with the address leads to is at the address rounded down.
  lemma TableBelow(f: Frame)
    requires AddressOf(f) < PHYSICAL_END
    ensures AddressOf(TableOf(f)) == AddressOf(f) / 4096 * 4096
  {
    FrameBelow(f.base);
  }

  lemma FrameIsAligned(f: Frame)
    requires IsFrame(f) && AddressOf(f) < PHYSICAL_END
    ensures AddressOf(f) % 4096 == 0
  {
    hide IsFrame, TableOf;
    TableBelow(f);
    Cloning.AlignedTable(f);
  }

  // The k-th live allocation is a page, from either function, and f is its address.
  ghost predicate IsAnyPage(live: seq<Regions.Live>, k: nat, f: Frame) {
    k < |live| && live[k].payload.len == 4096 && AddressOf(f) == live[k].payload.start
  }

  lemma PagesApart(a: Regions.Interval, b: Regions.Interval)
    requires a.Apart(b) && a.len == b.len == 4096
    ensures a.start / 4096 != b.start / 4096
  {
  }

  // Over every run, the tables that the addresses of different live pages lead to are different, aligned or not; no
  // address is NULL.
  lemma LivePagesAreDistinct(
    blocks: seq<Regions.Block>, bytes: Regions.Bytes, ops: seq<Regions.Op>, ks: seq<nat>, q: seq<Frame>)
    requires Regions.GoodBlocks(blocks)
    requires forall i :: 0 <= i < |blocks| ==> Regions.Extent(blocks[i]).End() <= PHYSICAL_END
    requires Regions.AllowedRun(Regions.Ledger(Regions.Heap(blocks, bytes), []), ops)
    requires |ks| == |q| && forall t, u :: 0 <= t < u < |ks| ==> ks[t] != ks[u]
    requires
      var live := Regions.Run(Regions.Ledger(Regions.Heap(blocks, bytes), []), ops).live;
      forall t :: 0 <= t < |ks| ==> IsAnyPage(live, ks[t], q[t])
    ensures CloneSteps.Distinct(q) && forall t :: 0 <= t < |q| ==> q[t] != NULL
  {
    hide Regions.Run, Regions.GoodBlocks, Regions.FreeBytes, Regions.LiveBytes, Regions.FreeArgument, IsFrame, TableOf,
      Regions.AllowedRun, AddressOf;
    var live := Regions.Run(Regions.Ledger(Regions.Heap(blocks, bytes), []), ops).live;
    Regions.RunSafe(blocks, bytes, ops);
    forall t | 0 <= t < |ks|
      ensures q[t] != NULL && AddressOf(q[t]) < PHYSICAL_END
    {
      var a := live[ks[t]];
      assert IsAnyPage(live, ks[t], q[t]) && a in live && Regions.InOneBlock(blocks, a.interval);
      BlocksAboveNull(blocks, a.interval);
      AboveNull(q[t]);
    }
    forall t, u | 0 <= t < u < |ks|
      ensures TableOf(q[t]) != TableOf(q[u])
    {
      assert IsAnyPage(live, ks[t], q[t]) && IsAnyPage(live, ks[u], q[u]);
      var a, b := live[ks[t]], live[ks[u]];
      assert a in live && b in live;
      assert a.interval.Apart(b.interval) || b.interval.Apart(a.interval);
      PagesApart(a.payload, b.payload);
      TableBelow(q[t]);
      TableBelow(q[u]);
    }
  }

  // allocate_memory(4096) gives a frame, and with it a table inside the allocation, exactly when the block that it
  // takes from starts at a multiple of 4096.
  lemma RawPageIsFrame(blocks: seq<Regions.Block>, f: Frame)
    requires Regions.Allocate(blocks, 4096).1 == AddressOf(f) && 0 < AddressOf(f) < PHYSICAL_END
    ensures Regions.FirstFit(blocks, 4096) < |blocks|
    ensures IsFrame(f) <==> blocks[Regions.FirstFit(blocks, 4096)].address % 4096 == 0
    ensures Regions.Interval(AddressOf(TableOf(f)), 4096).Inside(Regions.Interval(AddressOf(f), 4096)) <==> IsFrame(f)
  {
    hide IsFrame, TableOf, AddressOf, Regions.Allocate;
    AllocatesAt(blocks);
    TableBelow(f);
    if AddressOf(f) % 4096 == 0 {
      AlignedIsFrame(f);
    }
    if IsFrame(f) {
      FrameIsAligned(f);
    }
  }

  lemma AllocatesAt(blocks: seq<Regions.Block>)
    requires Regions.Allocate(blocks, 4096).1 != 0
    ensures Regions.FirstFit(blocks, 4096) < |blocks|
    ensures Regions.Allocate(blocks, 4096).1 == blocks[Regions.FirstFit(blocks, 4096)].address
  {
  }

  // ----- after a clone

  // n pages of aligned_alloc(4096, 4096).
  function AlignedPages(n: nat): seq<Regions.Op> {
    seq(n, _ => Regions.AllocAligned(4096, 4096))
  }

  lemma AlignedTakes(base: nat, size: nat, bytes: Regions.Bytes)
    requires 0 < base && size >= 8199 && base + size < TWO_64
    ensures
      var h := Regions.AlignedAlloc(Regions.Heap([Regions.Block(base, size, 0)], bytes), 4096, 4096).0;
      h.blocks == [Regions.Block(base + 8199, size - 8199, 0)]
  {
    hide BitAnd, Regions.StoreBytes;
    assert BitAnd(4096, 4095) == 0 by {
      Page4096();
    }
    assert Regions.PaddedSize(4096, 4096) == 8199;
    assert Regions.FirstFit([Regions.Block(base, size, 0)], 8199) == 0;
  }

  lemma Page4096()
    ensures BitAnd(4096, 4095) == 0 && PowerOfTwo(4096)
  {
    assert PowerOfTwo(4) && PowerOfTwo(16) && PowerOfTwo(64) && PowerOfTwo(256) && PowerOfTwo(1024);
    LowBitTest(4096);
  }

  // Each takes 8199 bytes of a block.
  lemma {:induction false} AfterPages(base: nat, size: nat, l: Regions.Ledger, n: nat)
    requires 0 < base && size >= 8199 * n && base + size < TWO_64
    requires l.heap.blocks == [Regions.Block(base, size, 0)]
    ensures Regions.AllowedRun(l, AlignedPages(n))
    ensures Regions.Run(l, AlignedPages(n)).heap.blocks == [Regions.Block(base + 8199 * n, size - 8199 * n, 0)]
    decreases n
  {
    hide Regions.AlignedAlloc, Regions.PaddedSize, Regions.Allocate;
    if n > 0 {
      AlignedTakes(base, size, l.heap.bytes);
      assert AlignedPages(n)[1..] == AlignedPages(n - 1);
      AfterPages(base + 8199, size - 8199, Regions.Step(l, Regions.AllocAligned(4096, 4096)), n - 1);
    }
  }

  // From a block at a multiple of 4096, the table that the next mapping makes is at a frame exactly when the number
  // of pages is a multiple of 4096: each page shifts the block by 7.
  lemma NextTable(base: nat, size: nat, bytes: Regions.Bytes, n: nat)
    requires 0 < base && base % 4096 == 0 && size >= 8199 * n + 4096 && base + size < TWO_64
    ensures
      var l := Regions.Ledger(Regions.Heap([Regions.Block(base, size, 0)], bytes), []);
      Regions.AllowedRun(l, AlignedPages(n)) &&
      var a := Regions.Allocate(Regions.Run(l, AlignedPages(n)).heap.blocks, 4096).1;
      a == base + 8199 * n && (a % 4096 == 0 <==> n % 4096 == 0)
  {
    hide Regions.Run, Regions.AllowedRun;
    AfterPages(base, size, Regions.Ledger(Regions.Heap([Regions.Block(base, size, 0)], bytes), []), n);
    assert Regions.FirstFit([Regions.Block(base + 8199 * n, size - 8199 * n, 0)], 4096) == 0;
    SevenPerPage(base, n);
  }

  lemma SameRemainder(x: nat, q: nat)
    ensures (x + 4096 * q) % 4096 == x % 4096
  {
  }

  lemma SevenPerPage(base: nat, n: nat)
    requires base % 4096 == 0
    ensures (base + 8199 * n) % 4096 == 0 <==> n % 4096 == 0
  {
    var k := base / 4096;
    assert base + 8199 * n == 7 * n + 4096 * (k + 2 * n);
    SameRemainder(7 * n, k + 2 * n);
    assert n % 4096 == 0 <==> 7 * n % 4096 == 0;
  }

  // After nineteen pages from 1 MB, such as a clone takes, the next address has bit 7 set.
  lemma NineteenPages(size: nat, bytes: Regions.Bytes)
    requires 0x4_0000 <= size < 0x1000_0000
    ensures
      var l := Regions.Ledger(Regions.Heap([Regions.Block(0x10_0000, size, 0)], bytes), []);
      Regions.AllowedRun(l, AlignedPages(19)) &&
      Regions.Allocate(Regions.Run(l, AlignedPages(19)).heap.blocks, 4096).1 == 0x12_6085
    ensures Huge(LinkTo(Frame(0x12_6085))) && TableOf(Frame(0x12_6085)) == Frame(0x12_6000)
  {
    hide Regions.Run, Regions.AllowedRun, Regions.Allocate;
    NextTable(0x10_0000, size, bytes, 19);
  }

  // A free region at address 0: the first table is asked for at 1, and its entry leads to frame 0.
  lemma TableAtNull()
    ensures
      var map_ := [MemoryMap.MMapEnt(0, 0x1_0001)];
      Regions.Allocate(MemoryMap.FreePart(map_, 1), 4096).1 == 1
    ensures AddressOf(Frame(1)) == 1 && LinkTo(Frame(1)) == Entry(0x3) && TableOf(Frame(1)) == NULL
  {
    var map_ := [MemoryMap.MMapEnt(0, 0x1_0001)];
    assert map_[0].IsFree() && map_[0].Size() == 0x1_0000;
    assert MemoryMap.FreePart(map_, 0) == [];
    assert MemoryMap.FreePart(map_, 1) == [MemoryMap.FreeEntry(map_, 0)];
  }
}
