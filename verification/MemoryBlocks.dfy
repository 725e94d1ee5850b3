// memcpy, memmove and strstr on one flat memory.
module MemoryBlocks {
  type Byte = b: nat | b < 256

  // ----- copies

  // Where the byte at address a comes from once bytes lo to hi of a block at src have been copied to dest.
  function Origin(a: nat, dest: nat, src: nat, lo: nat, hi: nat): nat {
    if dest + lo <= a < dest + hi then a - dest + src else a
  }

  // r is m after bytes lo to hi of the block have been copied.
  predicate PartlyCopied(m: seq<Byte>, r: seq<Byte>, dest: nat, src: nat, lo: nat, hi: nat)
    requires src + hi <= |m| && dest + hi <= |m|
  {
    |r| == |m| && forall a {:trigger r[a]} :: 0 <= a < |m| ==> r[a] == m[Origin(a, dest, src, lo, hi)]
  }

  lemma CopyUp(m: seq<Byte>, r: seq<Byte>, dest: nat, src: nat, lo: nat, hi: nat)
    requires src + hi < |m| && dest + hi < |m| && lo <= hi && PartlyCopied(m, r, dest, src, lo, hi)
    requires dest <= src || src + hi < dest
    ensures PartlyCopied(m, r[dest + hi := r[src + hi]], dest, src, lo, hi + 1)
  {
    assert Origin(src + hi, dest, src, lo, hi) == src + hi;
  }

  lemma CopyDown(m: seq<Byte>, r: seq<Byte>, dest: nat, src: nat, lo: nat, hi: nat)
    requires src + hi <= |m| && dest + hi <= |m| && 0 < lo <= hi && PartlyCopied(m, r, dest, src, lo, hi)
    requires src <= dest
    ensures PartlyCopied(m, r[dest + lo - 1 := r[src + lo - 1]], dest, src, lo - 1, hi)
  {
    assert Origin(src + lo - 1, dest, src, lo, hi) == src + lo - 1;
  }

  // The bytes of memory after n bytes from src have been copied to dest, as if all at once.
  function Copied(m: seq<Byte>, dest: nat, src: nat, n: nat): (r: seq<Byte>)
    requires src + n <= |m| && dest + n <= |m|
    ensures PartlyCopied(m, r, dest, src, 0, n)
  {
    m[..dest] + m[src..src + n] + m[dest + n..]
  }

  // What copying byte by byte from the front leaves behind, from byte i on.
  function CopiedForward(m: seq<Byte>, dest: nat, src: nat, n: nat, i: nat): (r: seq<Byte>)
    requires i <= n && src + n <= |m| && dest + n <= |m|
    ensures |r| == |m|
    decreases n - i
  {
    if i == n then m else CopiedForward(m[dest + i := m[src + i]], dest, src, n, i + 1)
  }

  // The forward copy is right when dest does not lie behind src within the block.
  lemma {:induction false} ForwardIsCopied(m: seq<Byte>, dest: nat, src: nat, n: nat, i: nat)
    requires i <= n && src + n <= |m| && dest + n <= |m| && (dest <= src || src + n <= dest)
    ensures PartlyCopied(m, CopiedForward(m, dest, src, n, i), dest, src, i, n)
    decreases n - i
  {
    if i < n {
      var next := m[dest + i := m[src + i]];
      ForwardIsCopied(next, dest, src, n, i + 1);
      forall a | 0 <= a < |m|
        ensures next[Origin(a, dest, src, i + 1, n)] == m[Origin(a, dest, src, i, n)]
      {
      }
    }
  }

  // When dest lies behind src within the block, memcpy repeats the first dest - src bytes.
  lemma {:induction false} ForwardRepeats(m: seq<Byte>, dest: nat, src: nat, n: nat, i: nat)
    requires i <= n && src + n <= |m| && dest + n <= |m| && src < dest
    requires forall a :: dest <= a < dest + i ==> m[a] == m[a - dest + src]
    ensures
      var r := CopiedForward(m, dest, src, n, i);
      && (forall a :: dest <= a < dest + n ==> r[a] == r[a - dest + src])
      && (forall a :: 0 <= a < |m| && !(dest + i <= a < dest + n) ==> r[a] == m[a])
    decreases n - i
  {
    if i < n {
      ForwardRepeats(m[dest + i := m[src + i]], dest, src, n, i + 1);
    }
  }

  method Memcpy(memory: array<Byte>, dest: nat, src: nat, n: nat)
    requires src + n <= memory.Length && dest + n <= memory.Length
    modifies memory
    ensures memory[..] == CopiedForward(old(memory[..]), dest, src, n, 0)
    ensures dest <= src || src + n <= dest ==> memory[..] == Copied(old(memory[..]), dest, src, n)
  {
    ghost var m := memory[..];
    var i := 0;
    while i < n
      invariant i <= n && CopiedForward(memory[..], dest, src, n, i) == CopiedForward(m, dest, src, n, 0)
    {
      memory[dest + i] := memory[src + i];
      i := i + 1;
    }
    if dest <= src || src + n <= dest {
      ForwardIsCopied(m, dest, src, n, 0);
      CopiedUnique(m, memory[..], dest, src, n);
    }
  }

  // For every overlap.
  method Memmove(memory: array<Byte>, dest: nat, src: nat, n: nat)
    requires src + n <= memory.Length && dest + n <= memory.Length
    modifies memory
    ensures memory[..] == Copied(old(memory[..]), dest, src, n)
  {
    ghost var m := memory[..];
    if src > dest {
      var i: nat := 0;
      while i < n
        invariant i <= n && PartlyCopied(m, memory[..], dest, src, 0, i)
      {
        CopyUp(m, memory[..], dest, src, 0, i);
        memory[dest + i] := memory[src + i];
        i := i + 1;
      }
    } else if src < dest {
      var i: nat := n;
      while i > 0
        invariant i <= n && PartlyCopied(m, memory[..], dest, src, i, n)
      {
        CopyDown(m, memory[..], dest, src, i, n);
        memory[dest + i - 1] := memory[src + i - 1];
        i := i - 1;
      }
    }
    CopiedUnique(m, memory[..], dest, src, n);
  }

  lemma CopiedUnique(m: seq<Byte>, r: seq<Byte>, dest: nat, src: nat, n: nat)
    requires src + n <= |m| && dest + n <= |m| && PartlyCopied(m, r, dest, src, 0, n)
    ensures r == Copied(m, dest, src, n)
  {
    forall a | 0 <= a < |m|
      ensures r[a] == Copied(m, dest, src, n)[a]
    {
    }
  }

  // ----- search

  // A string of n characters and its terminator at address a.
  predicate IsString(m: seq<Byte>, a: nat, n: nat) {
    a + n < |m| && m[a + n] == 0 && forall i :: a <= i < a + n ==> m[i] != 0
  }

  // The n bytes at address b stand at address a.
  predicate Matches(m: seq<Byte>, a: nat, b: nat, n: nat) {
    a + n <= |m| && b + n <= |m| && m[a..a + n] == m[b..b + n]
  }

  // The inner loop of strstr: how far the needle matches at h.
  method MatchLength(memory: array<Byte>, h: nat, needle: nat, ghost hn: nat, ghost nn: nat) returns (k: nat)
    requires IsString(memory[..], h, hn) && IsString(memory[..], needle, nn)
    ensures k <= nn && k <= hn && Matches(memory[..], h, needle, k)
    ensures k == nn || memory[h + k] != memory[needle + k]
  {
    k := 0;
    while memory[h + k] != 0 && memory[needle + k] != 0 && memory[h + k] == memory[needle + k]
      invariant k <= nn && k <= hn && Matches(memory[..], h, needle, k)
      decreases nn - k
    {
      MatchGrows(memory[..], h, needle, k);
      k := k + 1;
    }
  }

  lemma MatchGrows(m: seq<Byte>, a: nat, b: nat, k: nat)
    requires Matches(m, a, b, k) && a + k < |m| && b + k < |m| && m[a + k] == m[b + k]
    ensures Matches(m, a, b, k + 1)
  {
    assert m[a..a + k + 1] == m[a..a + k] + [m[a + k]];
    assert m[b..b + k + 1] == m[b..b + k] + [m[b + k]];
  }

  // The address of the first occurrence, or nothing; strstr returns the haystack for an empty needle.
  method Strstr(memory: array<Byte>, haystack: nat, needle: nat, ghost hn: nat, ghost nn: nat)
    returns (found: bool, at: nat)
    requires IsString(memory[..], haystack, hn) && IsString(memory[..], needle, nn)
    ensures found ==> haystack <= at && at + nn <= haystack + hn && Matches(memory[..], at, needle, nn)
    ensures found ==> forall a :: haystack <= a < at ==> !Matches(memory[..], a, needle, nn)
    ensures !found ==> forall a :: haystack <= a && a + nn <= haystack + hn ==> !Matches(memory[..], a, needle, nn)
  {
    hide IsString, Matches;
    StringAt(memory[..], needle, nn, 0);
    StringAt(memory[..], haystack, hn, 0);
    if memory[needle] == 0 {
      EmptyMatches(memory[..], haystack, needle);
      return true, haystack;
    }
    at := haystack;
    while memory[at] != 0
      invariant haystack <= at <= haystack + hn < memory.Length
      invariant forall a :: haystack <= a < at ==> !Matches(memory[..], a, needle, nn)
      decreases haystack + hn - at
    {
      StringAt(memory[..], haystack, hn, at - haystack);
      var k := MatchLength(memory, at, needle, haystack + hn - at, nn);
      StringAt(memory[..], needle, nn, k);
      if memory[needle + k] == 0 {
        return true, at;
      }
      NoMatch(memory[..], at, needle, k, nn);
      at := at + 1;
    }
    StringAt(memory[..], haystack, hn, at - haystack);
    return false, at;
  }

  // What is left of a string is a string; its terminator is its only zero.
  lemma StringAt(m: seq<Byte>, a: nat, n: nat, k: nat)
    requires IsString(m, a, n) && k <= n
    ensures a + n < |m| && IsString(m, a + k, n - k) && (m[a + k] == 0 <==> k == n)
  {
  }

  lemma EmptyMatches(m: seq<Byte>, a: nat, b: nat)
    requires a <= |m| && b <= |m|
    ensures Matches(m, a, b, 0)
  {
  }

  lemma NoMatch(m: seq<Byte>, a: nat, b: nat, k: nat, n: nat)
    requires k < n && a + k < |m| && b + k < |m| && m[a + k] != m[b + k]
    ensures !Matches(m, a, b, n)
  {
    if a + n <= |m| && b + n <= |m| {
      assert m[a..a + n][k] != m[b..b + n][k];
    }
  }
}
