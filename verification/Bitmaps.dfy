// Bitmap page allocation over a list of memory blocks, as functions of the bitmaps.
module Bitmaps {
  import opened BitWords

  const PAGE_SIZE: nat := 4096

  datatype Block = Block(base: nat, pages: nat, words: seq<Word>) {
    // The bitmap covers the pages, page numbers fit an int, and the pages fit the address space above 0.
    predicate Valid() {
      && pages <= 64 * |words| && pages <= 0x8000_0000
      && (pages > 0 ==> 0 < base && base + pages * PAGE_SIZE < 0x1_0000_0000_0000_0000)
    }

    predicate Free(i: nat)
      requires i < 64 * |words|
    {
      Bit(words[i / 64], i % 64)
    }

    function Take(i: nat): (b: Block)
      requires i < 64 * |words|
      ensures b.base == base && b.pages == pages && |b.words| == |words|
    {
      this.(words := words[i / 64 := ClearBit(words[i / 64], i % 64)])
    }

    function Give(i: nat): (b: Block)
      requires i < 64 * |words|
      ensures b.base == base && b.pages == pages && |b.words| == |words|
    {
      this.(words := words[i / 64 := SetBit(words[i / 64], i % 64)])
    }

    function Address(i: nat): nat {
      base + i * PAGE_SIZE
    }

    predicate Holds(a: nat) {
      base <= a < base + pages * PAGE_SIZE
    }

    function PageOf(a: nat): (p: nat)
      requires base <= a
      ensures Holds(a) ==> p < pages
    {
      (a - base) / PAGE_SIZE
    }
  }

  // An address belongs to the page whose 4096 bytes it lies in, whether it is the start of the page or not.
  lemma PageOfExact(b: Block, a: nat)
    requires b.base <= a
    ensures b.Address(b.PageOf(a)) <= a < b.Address(b.PageOf(a)) + 0x1000
  {
  }

  lemma TakeOnly(b: Block, i: nat, j: nat)
    requires i < 64 * |b.words| && j < 64 * |b.words|
    ensures b.Take(i).Free(j) <==> j != i && b.Free(j)
  {
    hide Bit, ClearBit;
    if i / 64 == j / 64 {
      ClearBitOnly(b.words[i / 64], i % 64, j % 64);
    }
  }

  lemma GiveOnly(b: Block, i: nat, j: nat)
    requires i < 64 * |b.words| && j < 64 * |b.words|
    ensures b.Give(i).Free(j) <==> j == i || b.Free(j)
  {
    hide Bit, SetBit;
    if i / 64 == j / 64 {
      SetBitOnly(b.words[i / 64], i % 64, j % 64);
    }
  }

  lemma GiveTaken(b: Block, i: nat)
    requires i < 64 * |b.words| && b.Free(i)
    ensures b.Take(i).Give(i) == b
  {
    hide Bit, SetBit, ClearBit;
    SetAfterClear(b.words[i / 64], i % 64);
  }

  lemma GiveTakeCommute(b: Block, i: nat, j: nat)
    requires i < 64 * |b.words| && j < 64 * |b.words| && i != j
    ensures b.Take(i).Give(j) == b.Give(j).Take(i)
  {
    hide Bit, SetBit, ClearBit;
    if i / 64 == j / 64 {
      SetClearCommute(b.words[i / 64], i % 64, j % 64);
    }
    assert b.Take(i).Give(j).words == b.Give(j).Take(i).words;
  }

  // ----- runs of pages

  // The loops that mark n pages, from page i on.
  function TakeRun(b: Block, i: nat, n: nat): (b': Block)
    requires i + n <= 64 * |b.words|
    ensures b'.base == b.base && b'.pages == b.pages && |b'.words| == |b.words|
    decreases n
  {
    if n == 0 then b else TakeRun(b.Take(i), i + 1, n - 1)
  }

  function GiveRun(b: Block, i: nat, n: nat): (b': Block)
    requires i + n <= 64 * |b.words|
    ensures b'.base == b.base && b'.pages == b.pages && |b'.words| == |b.words|
    decreases n
  {
    if n == 0 then b else GiveRun(b.Give(i), i + 1, n - 1)
  }

  predicate AllFree(b: Block, i: nat, n: nat)
    requires i + n <= 64 * |b.words|
  {
    forall j :: i <= j < i + n ==> b.Free(j)
  }

  lemma {:induction false} TakeRunOnly(b: Block, i: nat, n: nat, j: nat)
    requires i + n <= 64 * |b.words| && j < 64 * |b.words|
    ensures TakeRun(b, i, n).Free(j) <==> !(i <= j < i + n) && b.Free(j)
    decreases n
  {
    hide Block.Free, Block.Take, Block.Give;
    if n > 0 {
      TakeOnly(b, i, j);
      TakeRunOnly(b.Take(i), i + 1, n - 1, j);
    }
  }

  lemma {:induction false} GiveRunOnly(b: Block, i: nat, n: nat, j: nat)
    requires i + n <= 64 * |b.words| && j < 64 * |b.words|
    ensures GiveRun(b, i, n).Free(j) <==> i <= j < i + n || b.Free(j)
    decreases n
  {
    hide Block.Free, Block.Take, Block.Give;
    if n > 0 {
      GiveOnly(b, i, j);
      GiveRunOnly(b.Give(i), i + 1, n - 1, j);
    }
  }

  lemma {:induction false} GiveTakeRunCommute(b: Block, i: nat, n: nat, j: nat)
    requires i + n <= 64 * |b.words| && j < i
    ensures TakeRun(b, i, n).Give(j) == TakeRun(b.Give(j), i, n)
    decreases n
  {
    hide Block.Free, Block.Take, Block.Give;
    if n > 0 {
      GiveTakeRunCommute(b.Take(i), i + 1, n - 1, j);
      GiveTakeCommute(b, i, j);
    }
  }

  // Freeing a run that was free before it was taken restores every word of the bitmap.
  lemma {:induction false} GiveTakenRun(b: Block, i: nat, n: nat)
    requires i + n <= 64 * |b.words| && AllFree(b, i, n)
    ensures GiveRun(TakeRun(b, i, n), i, n) == b
    decreases n
  {
    hide Block.Free, Block.Take, Block.Give;
    if n > 0 {
      GiveTakeRunCommute(b.Take(i), i + 1, n - 1, i);
      GiveTaken(b, i);
      GiveTakenRun(b, i + 1, n - 1);
    }
  }

  // ----- the searches

  // What a C function that returns an int makes of a page number.
  function ToInt32(x: nat): int {
    var y := x % 0x1_0000_0000;
    if y < 0x8000_0000 then y else y - 0x1_0000_0000
  }

  // find_first_free_page, from page i on.
  function FirstFree(b: Block, i: nat): int
    requires b.Valid()
    decreases b.pages - i
  {
    if i >= b.pages then -1 else if b.Free(i) then ToInt32(i) else FirstFree(b, i + 1)
  }

  // find_contiguous_free_pages at page i, after count free pages.
  function FirstRun(b: Block, n: nat, i: nat, count: nat): int
    requires b.Valid() && count <= i
    decreases b.pages - i
  {
    if i >= b.pages then -1
    else if !b.Free(i) then FirstRun(b, n, i + 1, 0)
    else if count + 1 == n then ToInt32(i + 1 - n)
    else FirstRun(b, n, i + 1, count + 1)
  }

  // n free pages from page i on, inside the block.
  predicate IsRun(b: Block, i: nat, n: nat)
    requires b.Valid()
  {
    i + n <= b.pages && AllFree(b, i, n)
  }

  lemma {:induction false} FirstFreeExact(b: Block, i: nat)
    requires b.Valid() && i <= b.pages
    ensures
      var r := FirstFree(b, i);
      if r == -1 then forall j :: i <= j < b.pages ==> !b.Free(j)
      else i <= r < b.pages && b.Free(r) && forall j :: i <= j < r ==> !b.Free(j)
    decreases b.pages - i
  {
    hide Block.Free;
    if i < b.pages && !b.Free(i) {
      FirstFreeExact(b, i + 1);
    }
  }

  // The state of the scan: exactly the last `count` pages before i are free, fewer than n, and no run ends before i.
  ghost predicate Scanned(b: Block, n: nat, i: nat, count: nat)
    requires b.Valid()
  {
    && count <= i <= b.pages && count < n
    && (forall j :: i - count <= j < i ==> b.Free(j))
    && (count < i ==> !b.Free(i - count - 1))
  }

  lemma RunEndsFree(b: Block, s: nat, n: nat)
    requires b.Valid() && n >= 1 && s + n <= b.pages
    ensures IsRun(b, s, n) ==> b.Free(s + n - 1)
  {
  }

  // find_contiguous_free_pages returns the least start of a run of n >= 1 free pages, and -1 exactly when there is
  // no such run.
  lemma {:induction false} FirstRunExact(b: Block, n: nat, i: nat, count: nat)
    requires b.Valid() && n >= 1 && Scanned(b, n, i, count)
    requires forall s :: 0 <= s && s + n <= i ==> !IsRun(b, s, n)
    ensures
      var r := FirstRun(b, n, i, count);
      if r == -1 then forall s :: 0 <= s && s + n <= b.pages ==> !IsRun(b, s, n)
      else 0 <= r && r + n <= b.pages && IsRun(b, r, n) && forall s :: 0 <= s < r ==> !IsRun(b, s, n)
    decreases b.pages - i
  {
    hide Block.Free;
    if i < b.pages {
      if !b.Free(i) {
        forall s | 0 <= s && s + n <= i + 1
          ensures !IsRun(b, s, n)
        {
          RunEndsFree(b, s, n);
        }
        FirstRunExact(b, n, i + 1, 0);
      } else if count + 1 == n {
        assert IsRun(b, i + 1 - n, n);
      } else {
        assert Scanned(b, n, i + 1, count + 1);
        forall s | 0 <= s && s + n <= i + 1
          ensures !IsRun(b, s, n)
        {
          if s + n == i + 1 {
            NoRunOfLastPages(b, n, i + 1, count + 1, s);
          }
        }
        FirstRunExact(b, n, i + 1, count + 1);
      }
    }
  }

  lemma NoRunOfLastPages(b: Block, n: nat, i: nat, count: nat, s: nat)
    requires b.Valid() && Scanned(b, n, i, count) && s + n == i
    ensures !IsRun(b, s, n)
  {
    hide Block.Free;
    assert s <= i - count - 1 < s + n;
  }

  lemma ContiguousSearch(b: Block, n: nat)
    requires b.Valid()
    ensures
      var r := FirstRun(b, n, 0, 0);
      if n == 0 then r == -1
      else if r == -1 then forall s :: 0 <= s && s + n <= b.pages ==> !IsRun(b, s, n)
      else 0 <= r && r + n <= b.pages && IsRun(b, r, n) && forall s :: 0 <= s < r ==> !IsRun(b, s, n)
  {
    hide Block.Free, FirstRun;
    if n == 0 {
      NoEmptyRun(b, 0, 0);
    } else {
      FirstRunExact(b, n, 0, 0);
    }
  }

  lemma {:induction false} NoEmptyRun(b: Block, i: nat, count: nat)
    requires b.Valid() && count <= i
    ensures FirstRun(b, 0, i, count) == -1
    decreases b.pages - i
  {
    hide Block.Free;
    if i < b.pages {
      NoEmptyRun(b, i + 1, if b.Free(i) then count + 1 else 0);
    }
  }
}
