// 64-bit words and the numbers they stand for.
module Numbers {
  lemma Doubled(x: bv64)
    requires x < 0x8000_0000_0000_0000
    ensures (x << 1) as nat == 2 * (x as nat)
  {
  }

  lemma DoubledPlusOne(x: bv64)
    requires x < 0x8000_0000_0000_0000
    ensures ((x << 1) | 1) as nat == 2 * (x as nat) + 1
  {
  }

  lemma BelowHalf(x: bv64)
    requires x as nat < 0x8000_0000_0000_0000
    ensures x < 0x8000_0000_0000_0000
  {
  }

  // Every number below 2^64 is that of a word.
  lemma {:induction false} WordOf(n: nat) returns (b: bv64)
    requires n < 0x1_0000_0000_0000_0000
    ensures b as nat == n
  {
    b := 0;
    if n > 0 {
      var h := WordOf(n / 2);
      BelowHalf(h);
      if n % 2 == 0 {
        b := h << 1;
        Doubled(h);
      } else {
        b := (h << 1) | 1;
        DoubledPlusOne(h);
      }
    }
  }

  lemma PageAddress(q: bv64)
    requires q < 0x10_0000_0000_0000
    ensures (q << 12) as nat == 4096 * (q as nat)
  {
  }

  lemma PageNumberBelow(q: bv64)
    requires q as nat < 0x100_0000_0000
    ensures q < 0x100_0000_0000
  {
  }

  lemma PageMasked(q: bv64)
    requires q < 0x100_0000_0000
    ensures (q << 12) & 0x000F_FFFF_FFFF_F000 == q << 12
  {
  }

  lemma RoundTrip(b: bv64)
    ensures (b as nat) as bv64 == b
  {
  }

  lemma SameNumber(b: bv64, c: bv64)
    requires b as nat == c as nat
    ensures b == c
  {
    RoundTrip(b);
    RoundTrip(c);
  }

  // No bit below 12 and none above 51.
  predicate Aligned(b: bv64) {
    b & 0x000F_FFFF_FFFF_F000 == b
  }

  lemma PageWord(n: nat) returns (b: bv64)
    requires n < 0x100_0000_0000
    ensures b as nat == 4096 * n && Aligned(b)
  {
    hide Aligned;
    var q := WordOf(n);
    PageNumberBelow(q);
    b := ShiftedPage(q);
  }

  lemma ShiftedPage(q: bv64) returns (b: bv64)
    requires q < 0x100_0000_0000
    ensures b as nat == 4096 * (q as nat) && Aligned(b)
  {
    b := q << 12;
    PageAddress(q);
    PageMasked(q);
  }

  // A multiple of 4096 below 2^52 is aligned.
  lemma AlignedWord(b: bv64)
    requires b as nat % 4096 == 0 && b as nat < 0x10_0000_0000_0000
    ensures Aligned(b)
  {
    hide Aligned;
    var c := PageWord(b as nat / 4096);
    SameNumber(b, c);
  }

  // ----- rounding down

  function Twice(x: bv64): bv64 {
    x << 1
  }

  function TwiceAndOne(x: bv64): bv64 {
    (x << 1) | 1
  }

  function Half(x: bv64): bv64 {
    x >> 1
  }

  lemma HalfOfTwice(x: bv64)
    requires x < 0x8000_0000_0000_0000
    ensures Half(Twice(x)) == x && Half(TwiceAndOne(x)) == x
  {
  }

  lemma TwiceNumber(x: bv64)
    requires x as nat < 0x8000_0000_0000_0000
    ensures Half(Twice(x)) == x && Half(TwiceAndOne(x)) == x
    ensures Twice(x) as nat == 2 * (x as nat) && TwiceAndOne(x) as nat == 2 * (x as nat) + 1
  {
    hide Half;
    BelowHalf(x);
    HalfOfTwice(x);
    Doubled(x);
    DoubledPlusOne(x);
  }

  function Value(b: bv64): (n: nat)
    ensures n < 0x1_0000_0000_0000_0000
  {
    b as nat
  }

  lemma ValueOf(n: nat) returns (b: bv64)
    requires n < 0x1_0000_0000_0000_0000
    ensures Value(b) == n
  {
    b := WordOf(n);
  }

  lemma SameValue(b: bv64, c: bv64)
    requires Value(b) == Value(c)
    ensures b == c
  {
    SameNumber(b, c);
  }

  lemma TwiceValue(x: bv64)
    requires Value(x) < 0x8000_0000_0000_0000
    ensures Half(Twice(x)) == x && Half(TwiceAndOne(x)) == x
    ensures Value(Twice(x)) == 2 * Value(x) && Value(TwiceAndOne(x)) == 2 * Value(x) + 1
  {
    hide Half;
    TwiceNumber(x);
  }

  lemma HalfValue(b: bv64)
    ensures Value(Half(b)) == Value(b) / 2
  {
    hide Half, Value, Twice, TwiceAndOne;
    var h := ValueOf(Value(b) / 2);
    TwiceValue(h);
    SameValue(b, if Value(b) % 2 == 0 then Twice(h) else TwiceAndOne(h));
  }

  lemma QuarterValue(b: bv64)
    ensures Value(Half(Half(b))) == Value(b) / 4
  {
    hide Half, Value;
    HalfValue(b);
    HalfValue(Half(b));
  }

  // The page number of an address.
  lemma PageNumber(b: bv64)
    ensures Value(b >> 12) == Value(b) / 4096
  {
    hide Half, Value;
    var b2 := Half(Half(b));
    var b4 := Half(Half(b2));
    var b6 := Half(Half(b4));
    var b8 := Half(Half(b6));
    var b10 := Half(Half(b8));
    QuarterValue(b);
    QuarterValue(b2);
    QuarterValue(b4);
    QuarterValue(b6);
    QuarterValue(b8);
    QuarterValue(b10);
    TwelveHalves(b);
  }

  lemma TwelveHalves(b: bv64)
    ensures Half(Half(Half(Half(Half(Half(Half(Half(Half(Half(Half(Half(b)))))))))))) == b >> 12
  {
  }

  // The frame below an address: its low bits are cut off by the address mask.
  lemma FrameBelow(b: bv64)
    requires Value(b) < 0x10_0000_0000_0000
    ensures Value((b | 0x1 | 0x2) & 0x000F_FFFF_FFFF_F000) == Value(b) / 4096 * 4096
  {
    hide Value;
    PageNumber(b);
    BelowPhysicalEnd(b);
    MaskedPage(b);
    PageValue(b >> 12);
  }

  lemma BelowPhysicalEnd(b: bv64)
    requires Value(b) < 0x10_0000_0000_0000
    ensures b < 0x10_0000_0000_0000
  {
  }

  lemma MaskedPage(b: bv64)
    requires b < 0x10_0000_0000_0000
    ensures (b | 0x1 | 0x2) & 0x000F_FFFF_FFFF_F000 == (b >> 12) << 12 && b >> 12 < 0x10_0000_0000_0000
  {
  }

  lemma PageValue(q: bv64)
    requires q < 0x10_0000_0000_0000
    ensures Value(q << 12) == 4096 * Value(q)
  {
    PageAddress(q);
  }
}
