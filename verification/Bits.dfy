// Bitwise operations of unsigned 64-bit integers, on numbers.
module Bits {
  const TWO_64: nat := 0x1_0000_0000_0000_0000

  function BitAnd(a: nat, b: nat): nat {
    if a == 0 || b == 0 then 0
    else 2 * BitAnd(a / 2, b / 2) + if a % 2 == 1 && b % 2 == 1 then 1 else 0
  }

  function Not64(a: nat): nat
    requires a < TWO_64
  {
    TWO_64 - 1 - a
  }

  predicate PowerOfTwo(a: nat) {
    a == 1 || (a > 0 && a % 2 == 0 && PowerOfTwo(a / 2))
  }

  function Pow2(n: nat): nat {
    if n == 0 then 1 else 2 * Pow2(n - 1)
  }

  // The test of the code for a power of two.
  lemma {:induction false} LowBitTest(a: nat)
    requires a > 0
    ensures BitAnd(a, a - 1) == 0 <==> PowerOfTwo(a)
  {
    if a > 1 {
      if a % 2 == 0 {
        assert (a - 1) / 2 == a / 2 - 1;
        LowBitTest(a / 2);
      } else {
        assert (a - 1) / 2 == a / 2;
        BitAndSelf(a / 2);
      }
    }
  }

  lemma {:induction false} BitAndSelf(a: nat)
    ensures BitAnd(a, a) == a
  {
    if a > 0 {
      BitAndSelf(a / 2);
    }
  }

  // Clearing the low bits rounds down to a multiple.
  lemma {:induction false} MaskRoundsDown(n: nat, x: nat, al: nat) returns (q: nat)
    requires PowerOfTwo(al) && al <= Pow2(n) && x < Pow2(n)
    ensures BitAnd(x, Pow2(n) - al) == q * al
    ensures q * al <= x < q * al + al
  {
    if al == 1 {
      BitAndOnes(n, x);
      q := x;
    } else {
      var h := al / 2;
      q := MaskRoundsDown(n - 1, x / 2, h);
      var base := q * h;
      DoubleProduct(q, h);
      assert q * al == 2 * base;
      assert (Pow2(n) - al) / 2 == Pow2(n - 1) - h && (Pow2(n) - al) % 2 == 0;
    }
  }

  // The same without the quotient.
  lemma MaskAligns(n: nat, x: nat, al: nat)
    requires PowerOfTwo(al) && al <= Pow2(n) && x < Pow2(n)
    ensures BitAnd(x, Pow2(n) - al) % al == 0
    ensures BitAnd(x, Pow2(n) - al) <= x < BitAnd(x, Pow2(n) - al) + al
  {
    var q := MaskRoundsDown(n, x, al);
    MultipleMod(q, al);
  }

  lemma DoubleProduct(q: nat, h: nat)
    ensures q * (2 * h) == 2 * (q * h)
  {
  }

  lemma {:induction false} BitAndOnes(n: nat, x: nat)
    requires x < Pow2(n)
    ensures BitAnd(x, Pow2(n) - 1) == x
  {
    if n > 0 && x > 0 {
      assert (Pow2(n) - 1) / 2 == Pow2(n - 1) - 1;
      BitAndOnes(n - 1, x / 2);
    }
  }

  lemma Pow64()
    ensures Pow2(64) == TWO_64
  {
    assert Pow2(8) == 256;
    assert Pow2(16) == 0x1_0000;
    assert Pow2(24) == 0x100_0000;
    assert Pow2(32) == 0x1_0000_0000;
    assert Pow2(40) == 0x100_0000_0000;
    assert Pow2(48) == 0x1_0000_0000_0000;
    assert Pow2(56) == 0x100_0000_0000_0000;
  }

  lemma {:induction false} MultipleMod(q: nat, al: nat)
    requires al > 0
    ensures q * al % al == 0
  {
    if q > 0 {
      MultipleMod(q - 1, al);
      ModAdd((q - 1) * al, al);
      assert q * al == (q - 1) * al + al;
    }
  }

  lemma ModAdd(x: nat, al: nat)
    requires al > 0
    ensures (x + al) % al == x % al
  {
    var q, r := (x + al) / al, (x + al) % al;
    var k := q - (x / al + 1);
    assert x + al == al * q + r == al * (x / al + 1) + x % al;
    assert al * k == x % al - r;
    ProductAtLeast(al, k);
  }

  lemma ProductAtLeast(al: nat, k: int)
    ensures k >= 1 ==> al * k >= al
    ensures k <= -1 ==> al * k <= 0 - al
  {
  }

  lemma {:induction false} Remainder(q: nat, m: nat, r: nat)
    requires r < m
    ensures (q * m + r) % m == r
  {
    if q > 0 {
      Remainder(q - 1, m, r);
      ModAdd((q - 1) * m + r, m);
    }
  }

  lemma Quotient(q: nat, m: nat, r: nat)
    requires r < m
    ensures (q * m + r) / m == q
  {
    var n := q * m + r;
    Remainder(q, m, r);
    assert m * (n / m - q) == 0;
  }
}
