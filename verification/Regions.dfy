// The first-fit region allocator, its aligned wrapper, and every run of both.
module Regions {
  import opened Bits

  datatype Block = Block(address: nat, size: nat, next: nat)

  datatype Interval = Interval(start: nat, len: nat) {
    function End(): nat {
      start + len
    }

    predicate Inside(i: Interval) {
      i.start <= start && End() <= i.End()
    }

    predicate Apart(i: Interval) {
      len == 0 || i.len == 0 || End() <= i.start || i.End() <= start
    }
  }

  function Extent(b: Block): Interval {
    Interval(b.address, b.size)
  }

  // The first block of at least the given size; the number of blocks if there is none.
  function FirstFit(blocks: seq<Block>, size: nat): (i: nat)
    ensures i <= |blocks|
    ensures i < |blocks| ==> blocks[i].size >= size
    ensures forall j :: 0 <= j < i ==> blocks[j].size < size
  {
    if blocks == [] || blocks[0].size >= size then 0 else 1 + FirstFit(blocks[1..], size)
  }

  function Allocate(blocks: seq<Block>, size: nat): (seq<Block>, nat) {
    var i := FirstFit(blocks, size);
    if i == |blocks| then (blocks, 0)
    else
      var b := blocks[i];
      (blocks[i := Block((b.address + size) % TWO_64, b.size - size, b.next)], b.address)
  }

  // ----- bytes of memory

  type Bytes = map<nat, nat>

  function Byte(m: Bytes, a: nat): nat {
    if a in m then m[a] else 0
  }

  function StoreBytes(m: Bytes, a: nat, x: nat, n: nat): Bytes
    decreases n
  {
    if n == 0 then m else StoreBytes(m[a := x % 256], a + 1, x / 256, n - 1)
  }

  function LoadBytes(m: Bytes, a: nat, n: nat): nat
    decreases n
  {
    if n == 0 then 0 else Byte(m, a) + 256 * LoadBytes(m, a + 1, n - 1)
  }

  lemma {:induction false} StoreKeeps(m: Bytes, a: nat, x: nat, n: nat, b: nat)
    requires b < a || a + n <= b
    ensures Byte(StoreBytes(m, a, x, n), b) == Byte(m, b)
    decreases n
  {
    if n > 0 {
      StoreKeeps(m[a := x % 256], a + 1, x / 256, n - 1, b);
    }
  }

  lemma {:induction false} LoadAgrees(m: Bytes, m': Bytes, a: nat, n: nat)
    requires forall b :: a <= b < a + n ==> Byte(m', b) == Byte(m, b)
    ensures LoadBytes(m', a, n) == LoadBytes(m, a, n)
    decreases n
  {
    if n > 0 {
      LoadAgrees(m, m', a + 1, n - 1);
    }
  }

  function Power256(n: nat): (p: nat)
    ensures p > 0
  {
    if n == 0 then 1 else 256 * Power256(n - 1)
  }

  lemma {:induction false} LoadStored(m: Bytes, a: nat, x: nat, n: nat)
    requires x < Power256(n)
    ensures LoadBytes(StoreBytes(m, a, x, n), a, n) == x
    decreases n
  {
    if n > 0 {
      LoadStored(m[a := x % 256], a + 1, x / 256, n - 1);
      StoreKeeps(m[a := x % 256], a + 1, x / 256, n - 1, a);
    }
  }

  // The bytes are stored from the lowest on.
  lemma {:induction false} StoredByte(m: Bytes, a: nat, x: nat, n: nat, i: nat)
    requires i < n
    ensures Byte(StoreBytes(m, a, x, n), a + i) == x / Power256(i) % 256
    decreases n
  {
    if i == 0 {
      StoreKeeps(m[a := x % 256], a + 1, x / 256, n - 1, a);
    } else {
      StoredByte(m[a := x % 256], a + 1, x / 256, n - 1, i - 1);
      QuotientTwice(x, Power256(i - 1));
    }
  }

  lemma QuotientTwice(x: nat, d: nat)
    requires d > 0
    ensures x / (256 * d) == x / 256 / d
  {
    var q, r := x / 256 / d, x / 256 % d;
    assert x / 256 == q * d + r;
    assert x == q * (256 * d) + (256 * r + x % 256);
    Quotient(q, 256 * d, 256 * r + x % 256);
  }

  lemma WordLimit()
    ensures Power256(8) == TWO_64
  {
    assert Power256(4) == 0x1_0000_0000;
  }

  // ----- the aligned wrapper

  datatype Heap = Heap(blocks: seq<Block>, bytes: Bytes)

  function AtLeastPointer(alignment: nat): nat {
    if alignment < 8 then 8 else alignment
  }

  // The size that aligned_alloc asks the region allocator for, in 64 bits.
  function PaddedSize(al: nat, size: nat): nat {
    (size + al + 7) % TWO_64
  }

  function AlignUp(original: nat, al: nat): nat
    requires 0 < al < TWO_64
  {
    BitAnd((original + al + 7) % TWO_64, Not64(al - 1))
  }

  function HeaderAddress(p: nat): nat {
    (p + TWO_64 - 8) % TWO_64
  }

  function AlignedAlloc(h: Heap, alignment: nat, size: nat): (Heap, nat)
    requires alignment < TWO_64
  {
    var al := AtLeastPointer(alignment);
    if BitAnd(al, al - 1) != 0 then (h, 0)
    else
      var (blocks, original) := Allocate(h.blocks, PaddedSize(al, size));
      if original == 0 then (h.(blocks := blocks), 0)
      else
        var p := AlignUp(original, al);
        (Heap(blocks, StoreBytes(h.bytes, HeaderAddress(p), original, 8)), p)
  }

  // What aligned_free passes on to free_memory.
  function FreeArgument(bytes: Bytes, p: nat): nat {
    LoadBytes(bytes, HeaderAddress(p), 8)
  }

  lemma AlignUpBounds(original: nat, al: nat)
    requires PowerOfTwo(al) && 8 <= al < TWO_64 && original + al + 7 < TWO_64
    ensures original + 8 <= AlignUp(original, al) <= original + al + 7
    ensures AlignUp(original, al) % al == 0
  {
    hide Pow2, BitAnd, PowerOfTwo;
    Pow64();
    var x := original + al + 7;
    MaskAligns(64, x, al);
    assert Not64(al - 1) == Pow2(64) - al;
    assert AlignUp(original, al) == BitAnd(x, Pow2(64) - al);
  }

  // When the request does not wrap around, the pointer is aligned, and its header and its payload lie inside the
  // allocated interval; when it wraps, the payload does not fit.
  lemma AlignedLayout(original: nat, al: nat, size: nat)
    requires PowerOfTwo(al) && 8 <= al < TWO_64 && size < TWO_64
    requires original + PaddedSize(al, size) < TWO_64 && original + al + 7 < TWO_64
    ensures
      var p := AlignUp(original, al);
      && p % al == 0 && original + 8 <= p
      && (p + size <= original + PaddedSize(al, size) <==> size + al + 7 < TWO_64)
  {
    AlignUpBounds(original, al);
    PaddedSizeCases(al, size);
  }

  // Such a wrap: for a request of almost 2^64 bytes 7 are allocated, and the payload reaches beyond them.
  lemma WrappedRequest(original: nat)
    requires original + 15 < TWO_64
    ensures PaddedSize(8, TWO_64 - 8) == 7 && AlignUp(original, 8) + (TWO_64 - 8) > original + 7
  {
    assert PowerOfTwo(2) && PowerOfTwo(4);
    AlignedLayout(original, 8, TWO_64 - 8);
  }

  lemma PaddedSizeCases(al: nat, size: nat)
    requires al < TWO_64 && size < TWO_64
    ensures size + al + 7 < TWO_64 ==> PaddedSize(al, size) == size + al + 7
    ensures size + al + 7 >= TWO_64 ==> PaddedSize(al, size) <= size + al + 7 - TWO_64
  {
  }

  // ----- runs

  // An allocation: the interval taken from block `origin`, the part of it that the client may write, and the
  // alignment of that part (0 for a plain allocation, which has no header).
  datatype Live = Live(interval: Interval, payload: Interval, alignment: nat, origin: nat)

  datatype Ledger = Ledger(heap: Heap, live: seq<Live>)

  datatype Op =
    | Alloc(size: nat)
    | AllocAligned(alignment: nat, size: nat)
    | Write(k: nat, offset: nat, byte: nat)

  function Step(l: Ledger, op: Op): Ledger
    requires Allowed(l, op)
  {
    match op
    case Alloc(size) =>
      var (blocks, a) := Allocate(l.heap.blocks, size);
      var i := Interval(a, size);
      var heap := l.heap.(blocks := blocks);
      if a == 0 then Ledger(heap, l.live)
      else Ledger(heap, l.live + [Live(i, i, 0, FirstFit(l.heap.blocks, size))])
    case AllocAligned(alignment, size) =>
      var (heap, p) := AlignedAlloc(l.heap, alignment, size);
      var al := AtLeastPointer(alignment);
      var padded := PaddedSize(al, size);
      if p == 0 then Ledger(heap, l.live)
      else
        var i := Interval(Allocate(l.heap.blocks, padded).1, padded);
        Ledger(heap, l.live + [Live(i, Interval(p, size), al, FirstFit(l.heap.blocks, padded))])
    case Write(k, offset, byte) =>
      l.(heap := l.heap.(bytes := l.heap.bytes[l.live[k].payload.start + offset := byte]))
  }

  // Clients write bytes of their own payloads; an aligned request does not wrap around.
  predicate Allowed(l: Ledger, op: Op) {
    match op
    case Alloc(size) => size < TWO_64
    case AllocAligned(alignment, size) => alignment < TWO_64 && size + AtLeastPointer(alignment) + 7 < TWO_64
    case Write(k, offset, byte) => k < |l.live| && offset < l.live[k].payload.len && byte < 256
  }

  function Run(l: Ledger, ops: seq<Op>): Ledger
    requires AllowedRun(l, ops)
    decreases |ops|
  {
    if ops == [] then l else Run(Step(l, ops[0]), ops[1..])
  }

  predicate AllowedRun(l: Ledger, ops: seq<Op>)
    decreases |ops|
  {
    ops == [] || (Allowed(l, ops[0]) && AllowedRun(Step(l, ops[0]), ops[1..]))
  }

  function FreeBytes(blocks: seq<Block>): nat {
    if blocks == [] then 0 else blocks[0].size + FreeBytes(blocks[1..])
  }

  function LiveBytes(live: seq<Live>): nat {
    if live == [] then 0 else live[0].interval.len + LiveBytes(live[1..])
  }

  // The memory map's free blocks: disjoint, not at address 0, below the top of the address space.
  ghost predicate GoodBlocks(blocks: seq<Block>) {
    && (forall i :: 0 <= i < |blocks| ==> blocks[i].address > 0 && Extent(blocks[i]).End() < TWO_64)
    && (forall i, j :: 0 <= i < j < |blocks| ==> Extent(blocks[i]).Apart(Extent(blocks[j])))
  }

  // The header of an aligned allocation lies in its interval, before its payload, and holds the original pointer.
  ghost predicate HeaderOk(bytes: Bytes, a: Live) {
    a.alignment > 0 ==>
      && a.payload.start % a.alignment == 0
      && a.interval.start + 8 <= a.payload.start < TWO_64
      && FreeArgument(bytes, a.payload.start) == a.interval.start
  }

  ghost predicate LiveOk(free: seq<Block>, blocks: seq<Block>, a: Live)
    requires |free| == |blocks|
  {
    && a.origin < |blocks| && a.interval.Inside(Extent(blocks[a.origin]))
    && a.interval.End() <= free[a.origin].address
    && a.payload.Inside(a.interval) && a.interval.start > 0
  }

  // What is left of a block is its upper end.
  ghost predicate FreeOk(b: Block, original: Block) {
    b.address >= original.address && b.address + b.size == original.address + original.size
  }

  ghost predicate Inv(l: Ledger, blocks: seq<Block>) {
    && |l.heap.blocks| == |blocks|
    && (forall i :: 0 <= i < |blocks| ==> FreeOk(l.heap.blocks[i], blocks[i]))
    && (forall k :: 0 <= k < |l.live| ==> LiveOk(l.heap.blocks, blocks, l.live[k]) && HeaderOk(l.heap.bytes, l.live[k]))
    && (forall k, n :: 0 <= k < n < |l.live| ==> l.live[k].interval.Apart(l.live[n].interval))
    && FreeBytes(l.heap.blocks) + LiveBytes(l.live) == FreeBytes(blocks)
  }

  lemma {:induction false} FreeBytesUpdate(blocks: seq<Block>, i: nat, b: Block)
    requires i < |blocks|
    ensures FreeBytes(blocks[i := b]) == FreeBytes(blocks) - blocks[i].size + b.size
  {
    if i == 0 {
      assert blocks[0 := b][1..] == blocks[1..];
    } else {
      assert blocks[i := b][1..] == blocks[1..][i - 1 := b];
      FreeBytesUpdate(blocks[1..], i - 1, b);
    }
  }

  lemma {:induction false} LiveBytesAppend(live: seq<Live>, a: Live)
    ensures LiveBytes(live + [a]) == LiveBytes(live) + a.interval.len
  {
    if live == [] {
      assert live + [a] == [a];
    } else {
      assert (live + [a])[1..] == live[1..] + [a];
      LiveBytesAppend(live[1..], a);
    }
  }

  // What a successful allocation takes.
  lemma AllocateTakes(free: seq<Block>, blocks: seq<Block>, size: nat)
    requires GoodBlocks(blocks) && |free| == |blocks|
    requires forall i :: 0 <= i < |blocks| ==> FreeOk(free[i], blocks[i])
    ensures
      var i := FirstFit(free, size);
      var (rest, a) := Allocate(free, size);
      if i == |free| then rest == free && a == 0
      else
        && a == free[i].address > 0 && a + size < TWO_64
        && rest == free[i := Block(a + size, free[i].size - size, free[i].next)]
        && FreeOk(rest[i], blocks[i]) && Interval(a, size).Inside(Extent(blocks[i]))
        && FreeBytes(rest) == FreeBytes(free) - size
  {
    var i := FirstFit(free, size);
    if i < |free| {
      assert FreeOk(free[i], blocks[i]);
      FreeBytesUpdate(free, i, Block(free[i].address + size, free[i].size - size, free[i].next));
    }
  }

  lemma NewIsApart(l: Ledger, blocks: seq<Block>, size: nat, k: nat)
    requires GoodBlocks(blocks) && Inv(l, blocks) && k < |l.live|
    requires FirstFit(l.heap.blocks, size) < |blocks|
    ensures
      var i := FirstFit(l.heap.blocks, size);
      l.live[k].interval.Apart(Interval(l.heap.blocks[i].address, size))
  {
    var i := FirstFit(l.heap.blocks, size);
    assert LiveOk(l.heap.blocks, blocks, l.live[k]) && FreeOk(l.heap.blocks[i], blocks[i]);
    var o := l.live[k].origin;
    assert o < i ==> Extent(blocks[o]).Apart(Extent(blocks[i]));
    assert i < o ==> Extent(blocks[i]).Apart(Extent(blocks[o]));
  }

  // The ledger after a successful allocation keeps the invariant, given the headers.
  lemma TakeKeepsInv(l: Ledger, blocks: seq<Block>, size: nat, a: Live, bytes: Bytes)
    requires GoodBlocks(blocks) && Inv(l, blocks) && FirstFit(l.heap.blocks, size) < |blocks|
    requires a.origin == FirstFit(l.heap.blocks, size) && a.interval == Interval(l.heap.blocks[a.origin].address, size)
    requires a.payload.Inside(a.interval) && HeaderOk(bytes, a)
    requires forall k :: 0 <= k < |l.live| ==> HeaderOk(bytes, l.live[k])
    ensures Inv(Ledger(Heap(Allocate(l.heap.blocks, size).0, bytes), l.live + [a]), blocks)
  {
    hide HeaderOk, GoodBlocks, FirstFit, Allocate, FreeBytes, LiveBytes;
    var i, free := a.origin, l.heap.blocks;
    var rest := Allocate(free, size).0;
    AllocateTakes(free, blocks, size);
    LiveBytesAppend(l.live, a);
    forall k | 0 <= k < |l.live|
      ensures LiveOk(rest, blocks, l.live[k])
      ensures l.live[k].interval.Apart(a.interval)
    {
      assert LiveOk(free, blocks, l.live[k]);
      NewIsApart(l, blocks, size, k);
    }
    forall j | 0 <= j < |blocks|
      ensures FreeOk(rest[j], blocks[j])
    {
      assert FreeOk(free[j], blocks[j]);
    }
  }

  lemma HeaderBefore(p: nat)
    requires 8 <= p < TWO_64
    ensures HeaderAddress(p) == p - 8
  {
  }

  // Bytes outside a live interval do not reach its header.
  lemma HeaderStays(bytes: Bytes, bytes': Bytes, a: Live)
    requires HeaderOk(bytes, a)
    requires a.alignment > 0 ==>
               forall b :: a.interval.start <= b < a.payload.start ==> Byte(bytes', b) == Byte(bytes, b)
    ensures HeaderOk(bytes', a)
  {
    hide LoadBytes, Byte;
    if a.alignment > 0 {
      HeaderBefore(a.payload.start);
      LoadAgrees(bytes, bytes', a.payload.start - 8, 8);
    }
  }

  lemma AllocKeepsInv(l: Ledger, blocks: seq<Block>, size: nat)
    requires GoodBlocks(blocks) && Inv(l, blocks) && Allowed(l, Alloc(size))
    ensures Inv(Step(l, Alloc(size)), blocks)
  {
    hide HeaderOk, GoodBlocks, FirstFit, FreeBytes, LiveBytes;
    AllocateTakes(l.heap.blocks, blocks, size);
    var i := FirstFit(l.heap.blocks, size);
    var a := Allocate(l.heap.blocks, size).1;
    if i < |blocks| {
      var x := Live(Interval(a, size), Interval(a, size), 0, i);
      RawHasNoHeader(l.heap.bytes, x);
      TakeKeepsInv(l, blocks, size, x, l.heap.bytes);
    }
  }

  lemma RawHasNoHeader(bytes: Bytes, a: Live)
    requires a.alignment == 0
    ensures HeaderOk(bytes, a)
  {
  }

  lemma AllocAlignedKeepsInv(l: Ledger, blocks: seq<Block>, alignment: nat, size: nat)
    requires GoodBlocks(blocks) && Inv(l, blocks) && Allowed(l, AllocAligned(alignment, size))
    ensures Inv(Step(l, AllocAligned(alignment, size)), blocks)
  {
    hide HeaderOk, GoodBlocks, FirstFit, FreeBytes, LiveBytes, BitAnd, Allocate, AlignUp, StoreBytes, PaddedSize;
    var al := AtLeastPointer(alignment);
    var padded := PaddedSize(al, size);
    var i := FirstFit(l.heap.blocks, padded);
    var original := Allocate(l.heap.blocks, padded).1;
    LowBitTest(al);
    PaddedSizeCases(al, size);
    AllocateTakes(l.heap.blocks, blocks, padded);
    if BitAnd(al, al - 1) == 0 && i < |blocks| {
      AlignedLayout(original, al, size);
      var p := AlignUp(original, al);
      var bytes := StoreBytes(l.heap.bytes, HeaderAddress(p), original, 8);
      var x := Live(Interval(original, padded), Interval(p, size), al, i);
      HeaderStored(l.heap.bytes, x);
      forall k | 0 <= k < |l.live|
        ensures HeaderOk(bytes, l.live[k])
      {
        NewIsApart(l, blocks, padded, k);
        StoreSparesHeader(l.heap.bytes, l.live[k], x);
      }
      TakeKeepsInv(l, blocks, padded, x, bytes);
    }
  }

  // The block has room for the request, for a header and for the padding up to the next multiple of al.
  predicate Serves(b: Block, al: nat, size: nat) {
    size + al + 7 <= b.size
  }

  // aligned_alloc fails exactly when the alignment, taken as 8 at least, is no power of two, or no block serves the
  // request. Otherwise the first block that serves it loses those bytes at its lower end, and the pointer is the first
  // multiple of the alignment that leaves room for a header.
  ghost predicate AlignedResult(free: seq<Block>, al: nat, size: nat, rest: seq<Block>, p: nat) {
    if !PowerOfTwo(al) || forall j :: 0 <= j < |free| ==> !Serves(free[j], al, size) then p == 0 && rest == free
    else
      exists i: nat :: i < |free| && ServedFrom(free, i, al, size, rest, p)
  }

  ghost predicate ServedFrom(free: seq<Block>, i: nat, al: nat, size: nat, rest: seq<Block>, p: nat)
    requires i < |free|
  {
    var b, n := free[i], size + al + 7;
    && Serves(b, al, size) && (forall j :: 0 <= j < i ==> !Serves(free[j], al, size))
    && al > 0 && p % al == 0 && b.address + 8 <= p < b.address + 8 + al
    && rest == free[i := Block(b.address + n, b.size - n, b.next)]
  }

  lemma AlignedAllocExact(h: Heap, alignment: nat, size: nat)
    requires forall i :: 0 <= i < |h.blocks| ==> 0 < h.blocks[i].address && Extent(h.blocks[i]).End() < TWO_64
    requires alignment < TWO_64 && size + (if alignment < 8 then 8 else alignment) + 7 < TWO_64
    ensures
      var (rest, p) := AlignedAlloc(h, alignment, size);
      AlignedResult(h.blocks, if alignment < 8 then 8 else alignment, size, rest.blocks, p)
  {
    hide BitAnd, AlignUp, StoreBytes, PowerOfTwo, PaddedSize, ServedFrom;
    var al := AtLeastPointer(alignment);
    LowBitTest(al);
    PaddedSizeCases(al, size);
    var i := FirstFit(h.blocks, size + al + 7);
    if PowerOfTwo(al) && i < |h.blocks| {
      ServedFirst(h.blocks, i, al, size);
    }
  }

  lemma ServedFirst(free: seq<Block>, i: nat, al: nat, size: nat)
    requires i < |free| && i == FirstFit(free, size + al + 7)
    requires 0 < free[i].address && Extent(free[i]).End() < TWO_64 && 8 <= al < TWO_64 && PowerOfTwo(al)
    ensures ServedFrom(free, i, al, size, Allocate(free, size + al + 7).0, AlignUp(free[i].address, al))
    ensures Serves(free[i], al, size) && Allocate(free, size + al + 7).1 == free[i].address
  {
    hide AlignUp, PowerOfTwo, FirstFit;
    AlignUpBounds(free[i].address, al);
  }

  lemma HeaderStored(bytes: Bytes, a: Live)
    requires a.alignment > 0 && a.payload.start % a.alignment == 0
    requires a.interval.start + 8 <= a.payload.start < TWO_64
    ensures HeaderOk(StoreBytes(bytes, HeaderAddress(a.payload.start), a.interval.start, 8), a)
  {
    hide LoadBytes, StoreBytes, Power256;
    WordLimit();
    HeaderBefore(a.payload.start);
    LoadStored(bytes, a.payload.start - 8, a.interval.start, 8);
  }

  // The header of x is stored inside the interval of x, and so outside the header of a.
  lemma StoreSparesHeader(bytes: Bytes, a: Live, x: Live)
    requires HeaderOk(bytes, a) && a.interval.Apart(x.interval) && a.payload.Inside(a.interval)
    requires x.interval.start + 8 <= x.payload.start < TWO_64 && x.payload.Inside(x.interval)
    ensures HeaderOk(StoreBytes(bytes, HeaderAddress(x.payload.start), x.interval.start, 8), a)
  {
    hide StoreBytes, LoadBytes, FreeArgument, HeaderAddress;
    var h := HeaderAddress(x.payload.start);
    HeaderBefore(x.payload.start);
    var bytes' := StoreBytes(bytes, h, x.interval.start, 8);
    if a.alignment > 0 {
      forall b | a.interval.start <= b < a.payload.start
        ensures Byte(bytes', b) == Byte(bytes, b)
      {
        StoreKeeps(bytes, h, x.interval.start, 8, b);
      }
    }
    HeaderStays(bytes, bytes', a);
  }

  lemma WriteKeepsInv(l: Ledger, blocks: seq<Block>, k: nat, offset: nat, byte: nat)
    requires GoodBlocks(blocks) && Inv(l, blocks) && Allowed(l, Write(k, offset, byte))
    ensures Inv(Step(l, Write(k, offset, byte)), blocks)
  {
    hide GoodBlocks, FreeBytes, LiveBytes, FreeArgument;
    var bytes := Step(l, Write(k, offset, byte)).heap.bytes;
    forall n | 0 <= n < |l.live|
      ensures HeaderOk(bytes, l.live[n])
    {
      assert LiveOk(l.heap.blocks, blocks, l.live[n]) && LiveOk(l.heap.blocks, blocks, l.live[k]);
      assert n < k ==> l.live[n].interval.Apart(l.live[k].interval);
      assert k < n ==> l.live[k].interval.Apart(l.live[n].interval);
      HeaderStays(l.heap.bytes, bytes, l.live[n]);
    }
  }

  lemma {:induction false} RunKeepsInv(l: Ledger, blocks: seq<Block>, ops: seq<Op>)
    requires GoodBlocks(blocks) && Inv(l, blocks) && AllowedRun(l, ops)
    ensures Inv(Run(l, ops), blocks)
    decreases |ops|
  {
    hide GoodBlocks, Inv;
    if ops != [] {
      match ops[0] {
        case Alloc(size) => AllocKeepsInv(l, blocks, size);
        case AllocAligned(alignment, size) => AllocAlignedKeepsInv(l, blocks, alignment, size);
        case Write(k, offset, byte) => WriteKeepsInv(l, blocks, k, offset, byte);
      }
      RunKeepsInv(Step(l, ops[0]), blocks, ops[1..]);
    }
  }

  ghost predicate AllApart(l: Ledger) {
    && (forall k, n :: 0 <= k < n < |l.live| ==> l.live[k].interval.Apart(l.live[n].interval))
    && (forall k, i :: 0 <= k < |l.live| && 0 <= i < |l.heap.blocks| ==>
          l.live[k].interval.Apart(Extent(l.heap.blocks[i])))
    && (forall i, j :: 0 <= i < j < |l.heap.blocks| ==> Extent(l.heap.blocks[i]).Apart(Extent(l.heap.blocks[j])))
  }

  ghost predicate InOneBlock(blocks: seq<Block>, a: Interval) {
    exists i :: 0 <= i < |blocks| && a.Inside(Extent(blocks[i]))
  }

  // The client's part lies in the allocation, is aligned, and leads aligned_free back to the original pointer.
  ghost predicate Recovered(bytes: Bytes, a: Live) {
    && a.payload.Inside(a.interval)
    && (a.alignment > 0 ==>
          a.payload.start % a.alignment == 0 && FreeArgument(bytes, a.payload.start) == a.interval.start)
  }

  lemma InvApart(l: Ledger, blocks: seq<Block>)
    requires GoodBlocks(blocks) && Inv(l, blocks)
    ensures AllApart(l)
  {
    hide HeaderOk, FreeBytes, LiveBytes;
    forall k, i | 0 <= k < |l.live| && 0 <= i < |l.heap.blocks|
      ensures l.live[k].interval.Apart(Extent(l.heap.blocks[i]))
    {
      LiveApartFree(l, blocks, k, i);
    }
    forall i, j | 0 <= i < j < |l.heap.blocks|
      ensures Extent(l.heap.blocks[i]).Apart(Extent(l.heap.blocks[j]))
    {
      assert Extent(blocks[i]).Apart(Extent(blocks[j]));
      assert FreeOk(l.heap.blocks[i], blocks[i]) && FreeOk(l.heap.blocks[j], blocks[j]);
    }
  }

  // Over every run from the memory map: allocations are apart from each other and from what is free, each lies in
  // one block of the map, no byte is lost, and aligned_free would recover every original pointer.
  lemma RunSafe(blocks: seq<Block>, bytes: Bytes, ops: seq<Op>)
    requires GoodBlocks(blocks)
    requires AllowedRun(Ledger(Heap(blocks, bytes), []), ops)
    ensures
      var l := Run(Ledger(Heap(blocks, bytes), []), ops);
      && AllApart(l)
      && FreeBytes(l.heap.blocks) + LiveBytes(l.live) == FreeBytes(blocks)
      && (forall a :: a in l.live ==> InOneBlock(blocks, a.interval) && Recovered(l.heap.bytes, a))
  {
    hide FreeArgument, FreeBytes, LiveBytes, Run, GoodBlocks;
    var start := Ledger(Heap(blocks, bytes), []);
    assert Inv(start, blocks) by {
      NothingLive(blocks);
    }
    RunKeepsInv(start, blocks, ops);
    var l := Run(start, ops);
    InvApart(l, blocks);
    forall a | a in l.live
      ensures InOneBlock(blocks, a.interval) && Recovered(l.heap.bytes, a)
    {
      var k :| 0 <= k < |l.live| && l.live[k] == a;
      assert LiveOk(l.heap.blocks, blocks, l.live[k]) && HeaderOk(l.heap.bytes, l.live[k]);
    }
  }

  // Over every run, the pages that aligned_alloc(4096, 4096) has handed out are distinct page frames, and no header
  // of another such page lies in a page.
  lemma PagesAreFrames(blocks: seq<Block>, bytes: Bytes, ops: seq<Op>, k: nat, n: nat)
    requires GoodBlocks(blocks)
    requires AllowedRun(Ledger(Heap(blocks, bytes), []), ops)
    requires var live := Run(Ledger(Heap(blocks, bytes), []), ops).live;
             && k < |live| && n < |live| && k != n
             && live[k].alignment == live[n].alignment == 4096
             && live[k].payload.len == live[n].payload.len == 4096
    ensures
      var live := Run(Ledger(Heap(blocks, bytes), []), ops).live;
      var p, q := live[k].payload.start, live[n].payload.start;
      && p % 4096 == 0 && p > 0 && p != q
      && (q <= p || p + 4096 <= q - 8)
  {
    hide FreeArgument, FreeBytes, LiveBytes, Run, GoodBlocks;
    var start := Ledger(Heap(blocks, bytes), []);
    assert Inv(start, blocks) by {
      NothingLive(blocks);
    }
    RunKeepsInv(start, blocks, ops);
    var l := Run(start, ops);
    assert LiveOk(l.heap.blocks, blocks, l.live[k]) && HeaderOk(l.heap.bytes, l.live[k]);
    assert LiveOk(l.heap.blocks, blocks, l.live[n]) && HeaderOk(l.heap.bytes, l.live[n]);
    assert k < n ==> l.live[k].interval.Apart(l.live[n].interval);
    assert n < k ==> l.live[n].interval.Apart(l.live[k].interval);
  }

  lemma NothingLive(blocks: seq<Block>)
    ensures FreeBytes(blocks) + LiveBytes([]) == FreeBytes(blocks)
  {
  }

  lemma LiveApartFree(l: Ledger, blocks: seq<Block>, k: nat, i: nat)
    requires GoodBlocks(blocks) && Inv(l, blocks) && k < |l.live| && i < |blocks|
    ensures l.live[k].interval.Apart(Extent(l.heap.blocks[i]))
  {
    var o := l.live[k].origin;
    assert LiveOk(l.heap.blocks, blocks, l.live[k]) && FreeOk(l.heap.blocks[i], blocks[i]);
    assert o < i ==> Extent(blocks[o]).Apart(Extent(blocks[i]));
    assert i < o ==> Extent(blocks[i]).Apart(Extent(blocks[o]));
  }
}
