// The bitmaps of the page allocator in numbers: page i is bit i % 64 of word i / 64.
module BitmapNumbers {
  import opened Bits
  import opened Numbers
  import opened WordFields
  import opened BitWords
  import opened Bitmaps

  predicate BitAt(x: bv64, k: bv64)
    requires k < 64
  {
    x & (1 << k) != 0
  }

  lemma BitIsAt(w: Word, k: nat)
    requires k < 64
    ensures Bit(w, k) <==> BitAt(w.bits, Number(k))
  {
    hide Number;
  }

  lemma BitAtZero(x: bv64)
    ensures BitAt(x, 0) <==> x & 1 != 0
  {
  }

  lemma BitAtHalf(x: bv64, k: bv64)
    requires k < 63
    ensures BitAt(x, k + 1) <==> BitAt(Half(x), k)
  {
  }

  lemma NumberBelow(k: nat)
    requires k < 63
    ensures Number(k) < 63 && Number(k + 1) == Number(k) + 1
  {
    BelowLast(Number(k));
  }

  lemma BelowLast(b: bv64)
    requires b < 64 && b as nat < 63
    ensures b < 63
  {
  }

  lemma HalfPower(n: nat, k: nat)
    ensures n / Power(k + 1) == n / 2 / Power(k)
  {
    var d := Power(k);
    var q, r := n / 2 / d, n / 2 % d;
    assert n / 2 == q * d + r;
    assert n == q * (2 * d) + (2 * r + n % 2);
    Quotient(q, 2 * d, 2 * r + n % 2);
  }

  lemma {:induction false} BitNumber(x: bv64, k: nat)
    requires k < 64
    ensures BitAt(x, Number(k)) <==> Value(x) / Power(k) % 2 == 1
    decreases k
  {
    hide Value, BitAt, Number, Half;
    if k == 0 {
      NumberZero();
      BitAtZero(x);
      LowestBit(x);
    } else {
      NumberBelow(k - 1);
      BitAtHalf(x, Number(k - 1));
      BitNumber(Half(x), k - 1);
      HalfValue(x);
      HalfPower(Value(x), k - 1);
    }
  }

  lemma NumberZero()
    ensures Number(0) == 0
  {
  }

  // A page is free when its bit is set.
  lemma FreeNumber(b: Block, i: nat)
    requires i < 64 * |b.words|
    ensures b.Free(i) <==> Value(b.words[i / 64].bits) / Power(i % 64) % 2 == 1
  {
    hide Value, BitAt, Number, Bit;
    BitIsAt(b.words[i / 64], i % 64);
    BitNumber(b.words[i / 64].bits, i % 64);
  }
}
