// Every run of page allocations and frees over the blocks of the memory map.
module PageRuns {
  import opened Bitmaps

  predicate AllValid(blocks: seq<Block>) {
    forall i :: 0 <= i < |blocks| ==> blocks[i].Valid()
  }

  // bitmap_allocate_page, from block i on. 0 stands for NULL.
  function AllocatePage(blocks: seq<Block>, i: nat): (seq<Block>, nat)
    requires AllValid(blocks)
    decreases |blocks| - i
  {
    if i >= |blocks| then (blocks, 0)
    else
      FirstFreeExact(blocks[i], 0);
      var p := FirstFree(blocks[i], 0);
      if p == -1 then AllocatePage(blocks, i + 1) else (blocks[i := blocks[i].Take(p)], blocks[i].Address(p))
  }

  // bitmap_free_page, from block i on.
  function FreePage(blocks: seq<Block>, a: nat, i: nat): (seq<Block>, bool)
    requires AllValid(blocks)
    decreases |blocks| - i
  {
    if i >= |blocks| then (blocks, false)
    else if blocks[i].Holds(a) then (blocks[i := blocks[i].Give(blocks[i].PageOf(a))], true)
    else FreePage(blocks, a, i + 1)
  }

  // bitmap_allocate_pages, from block i on.
  function AllocatePages(blocks: seq<Block>, n: nat, i: nat): (seq<Block>, nat)
    requires AllValid(blocks)
    decreases |blocks| - i
  {
    if i >= |blocks| then (blocks, 0)
    else
      ContiguousSearch(blocks[i], n);
      var p := FirstRun(blocks[i], n, 0, 0);
      if p == -1 then AllocatePages(blocks, n, i + 1)
      else (blocks[i := TakeRun(blocks[i], p, n)], blocks[i].Address(p))
  }

  // bitmap_free_pages, from block i on.
  function FreePages(blocks: seq<Block>, a: nat, n: nat, i: nat): (seq<Block>, bool)
    requires AllValid(blocks)
    decreases |blocks| - i
  {
    if i >= |blocks| then (blocks, false)
    else if blocks[i].Holds(a) && blocks[i].PageOf(a) + n <= blocks[i].pages
    then (blocks[i := GiveRun(blocks[i], blocks[i].PageOf(a), n)], true)
    else FreePages(blocks, a, n, i + 1)
  }

  // An allocation of len pages of a block, by one of the two allocation functions.
  datatype Run = Run(block: nat, start: nat, len: nat, single: bool) {
    predicate Covers(b: nat, p: nat) {
      block == b && start <= p < start + len
    }
  }

  predicate Occupied(live: seq<Run>, b: nat, p: nat) {
    exists k :: 0 <= k < |live| && live[k].Covers(b, p)
  }

  // Blocks as set up: valid, with disjoint page ranges.
  predicate GoodBlocks(blocks: seq<Block>) {
    && AllValid(blocks)
    && (forall i, j :: 0 <= i < j < |blocks| ==>
          || blocks[i].pages == 0 || blocks[j].pages == 0
          || blocks[i].base + blocks[i].pages * PAGE_SIZE <= blocks[j].base
          || blocks[j].base + blocks[j].pages * PAGE_SIZE <= blocks[i].base)
  }

  predicate SameLayout(b: Block, b': Block) {
    b'.base == b.base && b'.pages == b.pages && |b'.words| == |b.words|
  }

  ghost predicate RunOk(blocks: seq<Block>, r: Run)
    requires GoodBlocks(blocks)
  {
    && r.block < |blocks| && 1 <= r.len && r.start + r.len <= blocks[r.block].pages
    && (r.single ==> r.len == 1)
    && AllFree(blocks[r.block], r.start, r.len)
  }

  ghost predicate Apart(live: seq<Run>, k: nat, n: nat)
    requires k < |live| && n < |live|
  {
    forall b, p :: !(live[k].Covers(b, p) && live[n].Covers(b, p))
  }

  // A page of a block is free exactly when it was free at the start and no live allocation covers it.
  ghost predicate BlockOk(start: Block, now: Block, live: seq<Run>, b: nat)
    requires start.Valid()
  {
    && SameLayout(start, now)
    && forall p :: 0 <= p < start.pages ==> (now.Free(p) <==> start.Free(p) && !Occupied(live, b, p))
  }

  // now: the bitmaps; live: the allocations; blocks: the bitmaps at the start.
  ghost predicate Inv(blocks: seq<Block>, now: seq<Block>, live: seq<Run>)
    requires GoodBlocks(blocks)
  {
    && |now| == |blocks|
    && (forall b :: 0 <= b < |blocks| ==> BlockOk(blocks[b], now[b], live, b))
    && (forall k :: 0 <= k < |live| ==> RunOk(blocks, live[k]))
    && (forall k, n :: 0 <= k < n < |live| ==> Apart(live, k, n))
  }

  lemma InvValid(blocks: seq<Block>, now: seq<Block>, live: seq<Run>)
    requires GoodBlocks(blocks) && Inv(blocks, now, live)
    ensures GoodBlocks(now)
  {
    hide Block.Free;
    forall i | 0 <= i < |now|
      ensures SameLayout(blocks[i], now[i]) && now[i].Valid()
    {
      assert BlockOk(blocks[i], now[i], live, i);
    }
  }

  // ----- what the four functions do

  // A page is handed out from the first block that has one; NULL means that no block has a free page.
  lemma {:induction false} AllocatePageFinds(blocks: seq<Block>, i: nat) returns (b: nat, p: nat)
    requires AllValid(blocks)
    ensures
      var (now, a) := AllocatePage(blocks, i);
      if a == 0 then
        && now == blocks
        && forall c :: i <= c < |blocks| ==> forall q :: 0 <= q < blocks[c].pages ==> !blocks[c].Free(q)
      else
        && i <= b < |blocks| && p < blocks[b].pages && blocks[b].Free(p)
        && (forall q :: 0 <= q < p ==> !blocks[b].Free(q))
        && (forall c :: i <= c < b ==> forall q :: 0 <= q < blocks[c].pages ==> !blocks[c].Free(q))
        && now == blocks[b := blocks[b].Take(p)] && a == blocks[b].Address(p)
    decreases |blocks| - i
  {
    hide Block.Free, Block.Take;
    b, p := 0, 0;
    if i < |blocks| {
      FirstFreeExact(blocks[i], 0);
      if FirstFree(blocks[i], 0) == -1 {
        b, p := AllocatePageFinds(blocks, i + 1);
      } else {
        b, p := i, FirstFree(blocks[i], 0);
      }
    }
  }

  lemma {:induction false} AllocatePagesFinds(blocks: seq<Block>, n: nat, i: nat) returns (b: nat, p: nat)
    requires AllValid(blocks)
    ensures
      var (now, a) := AllocatePages(blocks, n, i);
      if a == 0 then
        && now == blocks
        && (n > 0 ==> forall c, q: nat :: i <= c < |blocks| && q + n <= blocks[c].pages ==> !IsRun(blocks[c], q, n))
      else
        && n > 0 && i <= b < |blocks| && IsRun(blocks[b], p, n)
        && (forall q: nat :: q < p ==> !IsRun(blocks[b], q, n))
        && (forall c, q: nat :: i <= c < b && q + n <= blocks[c].pages ==> !IsRun(blocks[c], q, n))
        && now == blocks[b := TakeRun(blocks[b], p, n)] && a == blocks[b].Address(p)
    decreases |blocks| - i
  {
    hide Block.Free, TakeRun, IsRun, FirstRun;
    b, p := 0, 0;
    if i < |blocks| {
      ContiguousSearch(blocks[i], n);
      if FirstRun(blocks[i], n, 0, 0) == -1 {
        b, p := AllocatePagesFinds(blocks, n, i + 1);
      } else {
        b, p := i, FirstRun(blocks[i], n, 0, 0);
      }
    }
  }

  // In a good layout an address leads back to its block and page.
  lemma {:induction false} FreePageFinds(blocks: seq<Block>, b: nat, p: nat, i: nat)
    requires GoodBlocks(blocks) && i <= b < |blocks| && p < blocks[b].pages
    ensures FreePage(blocks, blocks[b].Address(p), i) == (blocks[b := blocks[b].Give(p)], true)
    decreases b - i
  {
    hide Block.Free, Block.Give;
    PageOfAddress(blocks[b], p);
    if i < b {
      OtherBlock(blocks, b, p, i);
      FreePageFinds(blocks, b, p, i + 1);
    }
  }

  lemma {:induction false} FreePagesFinds(blocks: seq<Block>, b: nat, p: nat, n: nat, i: nat)
    requires GoodBlocks(blocks) && i <= b < |blocks| && p + n <= blocks[b].pages && n >= 1
    ensures FreePages(blocks, blocks[b].Address(p), n, i) == (blocks[b := GiveRun(blocks[b], p, n)], true)
    decreases b - i
  {
    hide Block.Free, GiveRun;
    PageOfAddress(blocks[b], p);
    if i < b {
      OtherBlock(blocks, b, p, i);
      FreePagesFinds(blocks, b, p, n, i + 1);
    }
  }

  // Freeing a page at the address it was handed out at restores every bitmap of every block.
  lemma FreePageRestores(blocks: seq<Block>)
    requires GoodBlocks(blocks) && AllocatePage(blocks, 0).1 != 0
    ensures
      var (now, a) := AllocatePage(blocks, 0);
      AllValid(now) && FreePage(now, a, 0) == (blocks, true)
  {
    hide Block.Free, Block.Take, Block.Give, AllocatePage, FreePage;
    var (now, a) := AllocatePage(blocks, 0);
    var b, p := AllocatePageFinds(blocks, 0);
    FreePageFinds(now, b, p, 0);
    GiveTaken(blocks[b], p);
    assert now[b := blocks[b]] == blocks;
  }

  // The same for the pages of a run.
  lemma FreePagesRestores(blocks: seq<Block>, n: nat)
    requires GoodBlocks(blocks) && AllocatePages(blocks, n, 0).1 != 0
    ensures
      var (now, a) := AllocatePages(blocks, n, 0);
      AllValid(now) && FreePages(now, a, n, 0) == (blocks, true)
  {
    hide Block.Free, TakeRun, GiveRun, AllocatePages, FreePages;
    var (now, a) := AllocatePages(blocks, n, 0);
    var b, p := AllocatePagesFinds(blocks, n, 0);
    FreePagesFinds(now, b, p, n, 0);
    GiveTakenRun(blocks[b], p, n);
    assert now[b := blocks[b]] == blocks;
  }

  lemma PageOfAddress(b: Block, p: nat)
    requires p < b.pages
    ensures b.Holds(b.Address(p)) && b.PageOf(b.Address(p)) == p
  {
  }

  lemma OtherBlock(blocks: seq<Block>, b: nat, p: nat, i: nat)
    requires GoodBlocks(blocks) && i < b < |blocks| && p < blocks[b].pages
    ensures !blocks[i].Holds(blocks[b].Address(p))
  {
    PageOfAddress(blocks[b], p);
  }

  // ----- counting free pages

  function CountFree(b: Block, m: nat): nat
    requires m <= 64 * |b.words|
  {
    if m == 0 then 0 else CountFree(b, m - 1) + if b.Free(m - 1) then 1 else 0
  }

  function TotalFree(blocks: seq<Block>): nat
    requires AllValid(blocks)
  {
    if blocks == [] then 0 else CountFree(blocks[0], blocks[0].pages) + TotalFree(blocks[1..])
  }

  function LivePages(live: seq<Run>): nat {
    if live == [] then 0 else live[0].len + LivePages(live[1..])
  }

  lemma {:induction false} CountSame(b: Block, b': Block, m: nat)
    requires m <= 64 * |b.words| && |b'.words| == |b.words|
    requires forall j :: 0 <= j < m ==> b'.Free(j) == b.Free(j)
    ensures CountFree(b', m) == CountFree(b, m)
  {
    hide Block.Free;
    if m > 0 {
      CountSame(b, b', m - 1);
    }
  }

  // A page whose bit changes counts by one.
  lemma {:induction false} CountToggle(b: Block, b': Block, i: nat, m: nat)
    requires i < m <= 64 * |b.words| && |b'.words| == |b.words|
    requires b.Free(i) && !b'.Free(i) && forall j :: 0 <= j < m && j != i ==> b'.Free(j) == b.Free(j)
    ensures CountFree(b', m) == CountFree(b, m) - 1
  {
    hide Block.Free;
    if i == m - 1 {
      CountSame(b, b', m - 1);
    } else {
      CountToggle(b, b', i, m - 1);
    }
  }

  lemma {:induction false} CountTaken(b: Block, i: nat, n: nat, m: nat)
    requires i + n <= m <= 64 * |b.words| && AllFree(b, i, n)
    ensures CountFree(TakeRun(b, i, n), m) == CountFree(b, m) - n
    decreases n
  {
    hide Block.Free, Block.Take, CountFree;
    if n > 0 {
      forall j | 0 <= j < m
        ensures b.Take(i).Free(j) <==> j != i && b.Free(j)
      {
        TakeOnly(b, i, j);
      }
      CountToggle(b, b.Take(i), i, m);
      CountTaken(b.Take(i), i + 1, n - 1, m);
    }
  }

  lemma {:induction false} CountGiven(b: Block, i: nat, n: nat, m: nat)
    requires i + n <= m <= 64 * |b.words| && forall j :: i <= j < i + n ==> !b.Free(j)
    ensures CountFree(GiveRun(b, i, n), m) == CountFree(b, m) + n
    decreases n
  {
    hide Block.Free, Block.Give, CountFree;
    if n > 0 {
      forall j | 0 <= j < m
        ensures b.Give(i).Free(j) <==> j == i || b.Free(j)
      {
        GiveOnly(b, i, j);
      }
      CountToggle(b.Give(i), b, i, m);
      CountGiven(b.Give(i), i + 1, n - 1, m);
    }
  }

  lemma {:induction false} TotalUpdate(blocks: seq<Block>, b: nat, x: Block)
    requires AllValid(blocks) && b < |blocks| && x.Valid()
    ensures TotalFree(blocks[b := x]) ==
            TotalFree(blocks) - CountFree(blocks[b], blocks[b].pages) + CountFree(x, x.pages)
  {
    hide CountFree;
    if b == 0 {
      assert blocks[0 := x][1..] == blocks[1..];
    } else {
      assert blocks[b := x][1..] == blocks[1..][b - 1 := x];
      TotalUpdate(blocks[1..], b - 1, x);
    }
  }

  lemma {:induction false} LiveAppend(live: seq<Run>, r: Run)
    ensures LivePages(live + [r]) == LivePages(live) + r.len
  {
    if live == [] {
      assert live + [r] == [r];
    } else {
      assert (live + [r])[1..] == live[1..] + [r];
      LiveAppend(live[1..], r);
    }
  }

  lemma {:induction false} LiveRemove(live: seq<Run>, k: nat)
    requires k < |live|
    ensures LivePages(live[..k] + live[k + 1..]) == LivePages(live) - live[k].len
  {
    if k == 0 {
      assert live[..0] + live[1..] == live[1..];
    } else {
      assert (live[..k] + live[k + 1..])[1..] == live[1..][..k - 1] + live[1..][k..];
      LiveRemove(live[1..], k - 1);
    }
  }

  // ----- runs

  datatype Ledger = Ledger(blocks: seq<Block>, live: seq<Run>)

  // Release frees a live allocation by its address, with the function that belongs to it.
  datatype Op = TakePage | TakePages(n: nat) | Release(k: nat)

  // The allocation at an address.
  function Locate(blocks: seq<Block>, a: nat, i: nat): nat
    decreases |blocks| - i
  {
    if i >= |blocks| || blocks[i].Holds(a) then i else Locate(blocks, a, i + 1)
  }

  function Record(blocks: seq<Block>, a: nat, n: nat, single: bool): Run {
    var b := Locate(blocks, a, 0);
    if b < |blocks| && blocks[b].base <= a then Run(b, blocks[b].PageOf(a), n, single) else Run(0, 0, 0, single)
  }

  function Step(l: Ledger, op: Op): Ledger
    requires AllValid(l.blocks)
    requires op.Release? ==> op.k < |l.live| && l.live[op.k].block < |l.blocks|
  {
    match op
    case TakePage =>
      var (now, a) := AllocatePage(l.blocks, 0);
      Ledger(now, if a == 0 then l.live else l.live + [Record(l.blocks, a, 1, true)])
    case TakePages(n) =>
      var (now, a) := AllocatePages(l.blocks, n, 0);
      Ledger(now, if a == 0 then l.live else l.live + [Record(l.blocks, a, n, false)])
    case Release(k) =>
      var r := l.live[k];
      var a := l.blocks[r.block].Address(r.start);
      Ledger(if r.single then FreePage(l.blocks, a, 0).0 else FreePages(l.blocks, a, r.len, 0).0,
             l.live[..k] + l.live[k + 1..])
  }

  ghost predicate LedgerOk(blocks: seq<Block>, l: Ledger)
    requires GoodBlocks(blocks)
  {
    && Inv(blocks, l.blocks, l.live) && AllValid(l.blocks)
    && TotalFree(l.blocks) + LivePages(l.live) == TotalFree(blocks)
  }

  lemma {:induction false} LocateFinds(blocks: seq<Block>, b: nat, p: nat, i: nat)
    requires GoodBlocks(blocks) && i <= b < |blocks| && p < blocks[b].pages
    ensures Locate(blocks, blocks[b].Address(p), i) == b
    decreases b - i
  {
    hide Block.Free;
    PageOfAddress(blocks[b], p);
    if i < b {
      OtherBlock(blocks, b, p, i);
      LocateFinds(blocks, b, p, i + 1);
    }
  }

  // Marking a free run taken, and entering it.
  lemma TakeKeeps(blocks: seq<Block>, l: Ledger, r: Run)
    requires GoodBlocks(blocks) && LedgerOk(blocks, l)
    requires r.block < |blocks| && 1 <= r.len && (r.single ==> r.len == 1) && IsRun(l.blocks[r.block], r.start, r.len)
    ensures LedgerOk(blocks, Ledger(l.blocks[r.block := TakeRun(l.blocks[r.block], r.start, r.len)], l.live + [r]))
  {
    hide Block.Free, TakeRun, CountFree, TotalFree, LivePages;
    var b, live := r.block, l.live + [r];
    var x := TakeRun(l.blocks[b], r.start, r.len);
    var now := l.blocks[b := x];
    assert BlockOk(blocks[b], l.blocks[b], l.live, b);
    CountTaken(l.blocks[b], r.start, r.len, l.blocks[b].pages);
    TotalUpdate(l.blocks, b, x);
    LiveAppend(l.live, r);
    forall c, p | 0 <= c < |blocks| && 0 <= p < blocks[c].pages
      ensures Occupied(live, c, p) <==> r.Covers(c, p) || Occupied(l.live, c, p)
    {
      OccupiedAppend(l.live, r, c, p);
    }
    forall c | 0 <= c < |blocks|
      ensures BlockOk(blocks[c], now[c], live, c)
    {
      assert BlockOk(blocks[c], l.blocks[c], l.live, c);
      if c == b {
        forall p | 0 <= p < blocks[b].pages
          ensures x.Free(p) <==> !r.Covers(b, p) && l.blocks[b].Free(p)
        {
          TakeRunOnly(l.blocks[b], r.start, r.len, p);
        }
      }
    }
    forall k | 0 <= k < |l.live|
      ensures Apart(live, k, |l.live|)
    {
      RunsApart(blocks, l, r, k);
    }
    assert forall k, n :: 0 <= k < n < |l.live| && Apart(l.live, k, n) ==> Apart(live, k, n);
  }

  lemma OccupiedAppend(live: seq<Run>, r: Run, c: nat, p: nat)
    ensures Occupied(live + [r], c, p) <==> r.Covers(c, p) || Occupied(live, c, p)
  {
    assert (live + [r])[|live|] == r;
    assert forall k :: 0 <= k < |live| ==> (live + [r])[k] == live[k];
  }

  // A run of free pages meets no live allocation.
  lemma RunsApart(blocks: seq<Block>, l: Ledger, r: Run, k: nat)
    requires GoodBlocks(blocks) && Inv(blocks, l.blocks, l.live) && k < |l.live|
    requires r.block < |blocks| && l.blocks[r.block].Valid() && IsRun(l.blocks[r.block], r.start, r.len)
    ensures Apart(l.live + [r], k, |l.live|)
  {
    hide Block.Free;
    var live := l.live + [r];
    assert live[k] == l.live[k] && live[|l.live|] == r;
    forall b: nat, p: nat
      ensures !(live[k].Covers(b, p) && live[|l.live|].Covers(b, p))
    {
      if b < |blocks| {
        assert BlockOk(blocks[b], l.blocks[b], l.live, b);
      }
      assert l.live[k].Covers(b, p) ==> Occupied(l.live, b, p);
    }
  }

  // Freeing the run of a live allocation, and striking it out.
  lemma ReleaseKeeps(blocks: seq<Block>, l: Ledger, k: nat)
    requires GoodBlocks(blocks) && LedgerOk(blocks, l) && k < |l.live|
    ensures
      var r := l.live[k];
      && r.block < |l.blocks| && r.start + r.len <= l.blocks[r.block].pages &&
      var now := l.blocks[r.block := GiveRun(l.blocks[r.block], r.start, r.len)];
      LedgerOk(blocks, Ledger(now, l.live[..k] + l.live[k + 1..]))
  {
    hide Block.Free, GiveRun, CountFree, TotalFree, LivePages;
    var r, live := l.live[k], l.live[..k] + l.live[k + 1..];
    var b := r.block;
    assert RunOk(blocks, r) && BlockOk(blocks[b], l.blocks[b], l.live, b);
    var x := GiveRun(l.blocks[b], r.start, r.len);
    var now := l.blocks[b := x];
    forall p | r.start <= p < r.start + r.len
      ensures !l.blocks[b].Free(p)
    {
      assert r.Covers(b, p) && Occupied(l.live, b, p);
    }
    CountGiven(l.blocks[b], r.start, r.len, l.blocks[b].pages);
    TotalUpdate(l.blocks, b, x);
    LiveRemove(l.live, k);
    forall c, p | 0 <= c < |blocks| && 0 <= p < blocks[c].pages
      ensures Occupied(live, c, p) <==> Occupied(l.live, c, p) && !r.Covers(c, p)
    {
      OccupiedRemove(l.live, k, c, p);
    }
    forall c | 0 <= c < |blocks|
      ensures BlockOk(blocks[c], now[c], live, c)
    {
      assert BlockOk(blocks[c], l.blocks[c], l.live, c);
      if c == b {
        forall p | 0 <= p < blocks[b].pages
          ensures x.Free(p) <==> r.Covers(b, p) || l.blocks[b].Free(p)
          ensures r.Covers(b, p) ==> blocks[b].Free(p)
        {
          GiveRunOnly(l.blocks[b], r.start, r.len, p);
        }
      }
    }
    RemainingOk(blocks, l.live, k);
  }

  lemma RemainingOk(blocks: seq<Block>, live: seq<Run>, k: nat)
    requires GoodBlocks(blocks) && k < |live|
    requires forall m :: 0 <= m < |live| ==> RunOk(blocks, live[m])
    requires forall m, n :: 0 <= m < n < |live| ==> Apart(live, m, n)
    ensures
      var rest := live[..k] + live[k + 1..];
      && (forall m :: 0 <= m < |rest| ==> RunOk(blocks, rest[m]))
      && (forall m, n :: 0 <= m < n < |rest| ==> Apart(rest, m, n))
  {
    hide RunOk;
    var rest := live[..k] + live[k + 1..];
    forall m | 0 <= m < |rest|
      ensures RunOk(blocks, rest[m])
    {
      assert rest[m] == live[if m < k then m else m + 1];
    }
    forall m, n | 0 <= m < n < |rest|
      ensures Apart(rest, m, n)
    {
      var m', n' := if m < k then m else m + 1, if n < k then n else n + 1;
      assert rest[m] == live[m'] && rest[n] == live[n'] && Apart(live, m', n');
    }
  }

  lemma OccupiedRemove(live: seq<Run>, k: nat, c: nat, p: nat)
    requires k < |live| && forall m, n :: 0 <= m < n < |live| ==> Apart(live, m, n)
    ensures Occupied(live[..k] + live[k + 1..], c, p) <==> Occupied(live, c, p) && !live[k].Covers(c, p)
  {
    var rest := live[..k] + live[k + 1..];
    if Occupied(rest, c, p) {
      var m :| 0 <= m < |rest| && rest[m].Covers(c, p);
      var m' := if m < k then m else m + 1;
      assert rest[m] == live[m'];
      assert if m' < k then Apart(live, m', k) else Apart(live, k, m');
    }
    if Occupied(live, c, p) && !live[k].Covers(c, p) {
      var m :| 0 <= m < |live| && live[m].Covers(c, p);
      assert rest[if m < k then m else m - 1] == live[m];
    }
  }

  predicate Allowed(l: Ledger, op: Op) {
    op.Release? ==> op.k < |l.live|
  }

  lemma StepKeeps(blocks: seq<Block>, l: Ledger, op: Op)
    requires GoodBlocks(blocks) && LedgerOk(blocks, l) && Allowed(l, op)
    ensures op.Release? ==> l.live[op.k].block < |l.blocks|
    ensures LedgerOk(blocks, Step(l, op))
  {
    hide Block.Free, Block.Take, Block.Give, TakeRun, GiveRun, TotalFree, LivePages, AllocatePage, AllocatePages,
      FreePage, FreePages, Locate, Block.PageOf;
    InvValid(blocks, l.blocks, l.live);
    match op
    case TakePage =>
      var b, p := AllocatePageFinds(l.blocks, 0);
      if AllocatePage(l.blocks, 0).1 != 0 {
        LocateFinds(l.blocks, b, p, 0);
        PageOfAddress(l.blocks[b], p);
        OnePage(l.blocks[b], p);
        TakeKeeps(blocks, l, Run(b, p, 1, true));
      }
    case TakePages(n) =>
      var b, p := AllocatePagesFinds(l.blocks, n, 0);
      if AllocatePages(l.blocks, n, 0).1 != 0 {
        LocateFinds(l.blocks, b, p, 0);
        PageOfAddress(l.blocks[b], p);
        TakeKeeps(blocks, l, Run(b, p, n, false));
      }
    case Release(k) =>
      var r := l.live[k];
      ReleaseKeeps(blocks, l, k);
      assert RunOk(blocks, r);
      if r.single {
        FreePageFinds(l.blocks, r.block, r.start, 0);
        OnePage(l.blocks[r.block], r.start);
      } else {
        FreePagesFinds(l.blocks, r.block, r.start, r.len, 0);
      }
  }

  lemma OnePage(b: Block, p: nat)
    requires b.Valid() && p < b.pages
    ensures TakeRun(b, p, 1) == b.Take(p) && GiveRun(b, p, 1) == b.Give(p)
    ensures b.Free(p) ==> IsRun(b, p, 1)
  {
    hide Block.Free, Block.Take, Block.Give;
  }

  // A run of operations. It ends early at an operation that frees no live allocation.
  function RunOps(l: Ledger, ops: seq<Op>): Ledger
    decreases |ops|
  {
    if ops == [] || !Allowed(l, ops[0]) || !AllValid(l.blocks)
       || (ops[0].Release? && l.live[ops[0].k].block >= |l.blocks|)
    then l
    else RunOps(Step(l, ops[0]), ops[1..])
  }

  lemma {:induction false} RunKeeps(blocks: seq<Block>, l: Ledger, ops: seq<Op>)
    requires GoodBlocks(blocks) && LedgerOk(blocks, l)
    ensures LedgerOk(blocks, RunOps(l, ops))
    decreases |ops|
  {
    hide LedgerOk, AllValid, GoodBlocks, Step;
    if ops != [] && Allowed(l, ops[0]) {
      LedgerValid(blocks, l);
      StepKeeps(blocks, l, ops[0]);
      RunKeeps(blocks, Step(l, ops[0]), ops[1..]);
    }
  }

  lemma LedgerValid(blocks: seq<Block>, l: Ledger)
    requires GoodBlocks(blocks) && LedgerOk(blocks, l)
    ensures AllValid(l.blocks)
    ensures forall r :: r in l.live ==> r.block < |l.blocks|
  {
    forall r | r in l.live
      ensures r.block < |l.blocks|
    {
      var k :| 0 <= k < |l.live| && l.live[k] == r;
      assert RunOk(blocks, l.live[k]);
    }
  }

  // Over every run from freshly set up bitmaps: live allocations are disjoint and consist of pages that were free
  // at the start, so reserved pages are never handed out; every other page has its bit as at the start; and no
  // page is lost.
  lemma RunSafe(blocks: seq<Block>, ops: seq<Op>)
    requires GoodBlocks(blocks)
    ensures
      var l := RunOps(Ledger(blocks, []), ops);
      && (forall k, n :: 0 <= k < n < |l.live| ==> Apart(l.live, k, n))
      && (forall r :: r in l.live ==> RunOk(blocks, r))
      && |l.blocks| == |blocks|
      && (forall b :: 0 <= b < |blocks| ==> BlockOk(blocks[b], l.blocks[b], l.live, b))
      && AllValid(l.blocks) && TotalFree(l.blocks) + LivePages(l.live) == TotalFree(blocks)
  {
    hide Block.Free, RunOps, TotalFree;
    RunKeeps(blocks, Ledger(blocks, []), ops);
  }
}
