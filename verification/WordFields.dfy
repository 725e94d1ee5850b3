// Shifts, masks and bit tests of words, in numbers.
module WordFields {
  import opened Numbers
  import opened Bits

  // ----- the low bits

  lemma LowestBit(b: bv64)
    ensures b & 1 == 0 <==> Value(b) % 2 == 0
  {
    hide Value, Twice, TwiceAndOne;
    var h := ValueOf(Value(b) / 2);
    TwiceValue(h);
    LowestBitOfTwice(h);
    SameValue(b, if Value(b) % 2 == 0 then Twice(h) else TwiceAndOne(h));
  }

  lemma LowestBitOfTwice(h: bv64)
    ensures Twice(h) & 1 == 0 && TwiceAndOne(h) & 1 == 1
  {
  }

  function Power(k: nat): (n: nat)
    ensures n > 0
  {
    if k == 0 then 1 else 2 * Power(k - 1)
  }

  // k ones.
  function Ones(k: nat): bv64 {
    if k == 0 then 0 else TwiceAndOne(Ones(k - 1))
  }

  function And(b: bv64, m: bv64): bv64 {
    b & m
  }

  lemma AndOfEven(b: bv64, m: bv64)
    requires b & 1 == 0
    ensures And(b, TwiceAndOne(m)) == Twice(And(Half(b), m))
  {
  }

  lemma AndOfOdd(b: bv64, m: bv64)
    requires b & 1 != 0
    ensures And(b, TwiceAndOne(m)) == TwiceAndOne(And(Half(b), m))
  {
  }

  lemma RemainderSplits(n: nat, d: nat)
    requires d > 0
    ensures n % (2 * d) == 2 * (n / 2 % d) + n % 2
  {
    var q, r := n / 2 / d, n / 2 % d;
    assert n / 2 == q * d + r;
    assert n == q * (2 * d) + (2 * r + n % 2);
    Remainder(q, 2 * d, 2 * r + n % 2);
  }

  lemma {:induction false} LowBits(b: bv64, k: nat)
    requires k <= 63
    ensures Value(And(b, Ones(k))) == Value(b) % Power(k)
    decreases k
  {
    hide Value, Half, Twice, TwiceAndOne, And;
    if k == 0 {
      NoBits(b);
    } else {
      var y := And(Half(b), Ones(k - 1));
      LowBits(Half(b), k - 1);
      HalfValue(b);
      RemainderSplits(Value(b), Power(k - 1));
      LowestBit(b);
      RemainderBelow(Value(Half(b)), k - 1);
      TwiceValue(y);
      if b & 1 == 0 {
        AndOfEven(b, Ones(k - 1));
      } else {
        AndOfOdd(b, Ones(k - 1));
      }
    }
  }

  lemma {:induction false} RemainderBelow(n: nat, k: nat)
    requires k <= 62
    ensures n % Power(k) < 0x8000_0000_0000_0000
  {
    PowerBelow(k, 62);
    assert Power(62) == 0x4000_0000_0000_0000 by {
      OnesAre();
      MorePower(52);
      MorePower(55);
      MorePower(58);
      assert Power(62) == 2 * Power(61);
    }
  }

  lemma {:induction false} PowerBelow(k: nat, n: nat)
    requires k <= n
    ensures Power(k) <= Power(n)
  {
    if k < n {
      PowerBelow(k, n - 1);
    }
  }

  lemma NoBits(b: bv64)
    ensures Value(And(b, 0)) == 0
  {
  }

  lemma OnesAre()
    ensures Ones(9) == 0x1FF && Power(9) == 0x200
    ensures Ones(12) == 0xFFF && Power(12) == 0x1000
    ensures Ones(21) == 0x1F_FFFF && Power(21) == 0x20_0000
    ensures Ones(30) == 0x3FFF_FFFF && Power(30) == 0x4000_0000
    ensures Ones(52) == 0xF_FFFF_FFFF_FFFF && Power(52) == 0x10_0000_0000_0000
  {
    MoreOnes(0);
    MoreOnes(3);
    MoreOnes(6);
    MoreOnes(9);
    MoreOnes(12);
    MoreOnes(15);
    MoreOnes(18);
    MoreOnes(21);
    MoreOnes(24);
    MoreOnes(27);
    MoreOnes(30);
    MoreOnes(33);
    MoreOnes(36);
    MoreOnes(39);
    MoreOnes(42);
    MoreOnes(45);
    MoreOnes(48);
    assert Ones(52) == TwiceAndOne(Ones(51));
  }

  function ThreeMore(x: bv64): bv64 {
    (x << 3) | 7
  }

  lemma MoreOnes(k: nat)
    ensures Ones(k + 3) == ThreeMore(Ones(k)) && Power(k + 3) == 8 * Power(k)
  {
    hide TwiceAndOne, ThreeMore;
    assert Ones(k + 1) == TwiceAndOne(Ones(k));
    assert Ones(k + 2) == TwiceAndOne(Ones(k + 1));
    assert Ones(k + 3) == TwiceAndOne(Ones(k + 2));
    ThreeOnes(Ones(k));
    MorePower(k);
  }

  lemma ThreeOnes(x: bv64)
    ensures TwiceAndOne(TwiceAndOne(TwiceAndOne(x))) == ThreeMore(x)
  {
  }

  lemma MorePower(k: nat)
    ensures Power(k + 3) == 8 * Power(k)
  {
    assert Power(k + 1) == 2 * Power(k);
    assert Power(k + 2) == 2 * Power(k + 1);
    assert Power(k + 3) == 2 * Power(k + 2);
  }

  // The low bits of the offsets and of the address field.
  lemma Offsets(b: bv64)
    ensures Value(b & 0x1FF) == Value(b) % 0x200 && Value(b & 0xFFF) == Value(b) % 0x1000
    ensures Value(b & 0x1F_FFFF) == Value(b) % 0x20_0000 && Value(b & 0x3FFF_FFFF) == Value(b) % 0x4000_0000
    ensures Value(b & 0xF_FFFF_FFFF_FFFF) == Value(b) % 0x10_0000_0000_0000
  {
    hide Value, Ones, Power;
    OnesAre();
    LowBits(b, 9);
    LowBits(b, 12);
    LowBits(b, 21);
    LowBits(b, 30);
    LowBits(b, 52);
  }

  // ----- shifts

  function Shifted(b: bv64, k: nat): bv64
    requires k == 3 || k == 6 || k == 9 || k == 12 || k == 21 || k == 30 || k == 39
  {
    match k
    case 3 => b >> 3
    case 6 => b >> 6
    case 9 => b >> 9
    case 12 => b >> 12
    case 21 => b >> 21
    case 30 => b >> 30
    case _ => b >> 39
  }

  lemma EighthValue(b: bv64)
    ensures Value(Shifted(b, 3)) == Value(b) / 8
  {
    hide Value, Half, Shifted;
    HalfValue(b);
    HalfValue(Half(b));
    HalfValue(Half(Half(b)));
    ThreeHalves(b);
  }

  lemma ThreeHalves(b: bv64)
    ensures Half(Half(Half(b))) == Shifted(b, 3)
  {
  }

  lemma Shift6(b: bv64)
    ensures Shifted(Shifted(b, 3), 3) == Shifted(b, 6)
  {
    assert (b >> 3) >> 3 == b >> 6;
  }

  lemma Shift9(b: bv64)
    ensures Shifted(Shifted(b, 6), 3) == Shifted(b, 9)
  {
    assert (b >> 6) >> 3 == b >> 9;
  }

  lemma Shift21(b: bv64)
    ensures Shifted(Shifted(b, 12), 9) == Shifted(b, 21)
  {
    assert (b >> 12) >> 9 == b >> 21;
  }

  lemma Shift30(b: bv64)
    ensures Shifted(Shifted(b, 21), 9) == Shifted(b, 30)
  {
    assert (b >> 21) >> 9 == b >> 30;
  }

  lemma Shift39(b: bv64)
    ensures Shifted(Shifted(b, 30), 9) == Shifted(b, 39)
  {
    assert (b >> 30) >> 9 == b >> 39;
  }

  lemma ShiftedBy9(b: bv64)
    ensures Value(Shifted(b, 6)) == Value(b) / 0x40 && Value(Shifted(b, 9)) == Value(b) / 0x200
  {
    hide Value, Shifted;
    EighthValue(b);
    EighthValue(Shifted(b, 3));
    EighthValue(Shifted(b, 6));
    Shift6(b);
    Shift9(b);
  }

  lemma ShiftedBy12(b: bv64)
    ensures Value(Shifted(b, 12)) == Value(b) / 0x1000
  {
    PageNumber(b);
  }

  lemma Quotients(n: nat)
    ensures n / 0x1000 / 0x200 == n / 0x20_0000 && n / 0x20_0000 / 0x200 == n / 0x4000_0000
  {
  }

  lemma LastQuotient(n: nat)
    ensures n / 0x4000_0000 / 0x200 == n / 0x80_0000_0000
  {
  }

  lemma ShiftValues(b: bv64)
    ensures Value(Shifted(b, 12)) == Value(b) / 0x1000 && Value(Shifted(b, 21)) == Value(b) / 0x20_0000
    ensures Value(Shifted(b, 30)) == Value(b) / 0x4000_0000 && Value(Shifted(b, 39)) == Value(b) / 0x80_0000_0000
  {
    hide Value, Shifted;
    ShiftedBy12(b);
    ShiftedBy9(Shifted(b, 12));
    ShiftedBy9(Shifted(b, 21));
    ShiftedBy9(Shifted(b, 30));
    Shift21(b);
    Shift30(b);
    Shift39(b);
    Quotients(Value(b));
    LastQuotient(Value(b));
  }

  // ----- words made of two parts

  lemma Joined(x: bv64, n: nat, high: nat, low: nat)
    requires n > 0 && Value(x) / n == high && Value(x) % n == low
    ensures Value(x) == high * n + low
  {
  }

  // ----- bit tests

  lemma Bit7(b: bv64)
    ensures b & 0x80 != 0 <==> Value(b) / 0x80 % 2 == 1
  {
    hide Value, Half, Shifted;
    ShiftedBy9(b);
    HalfValue(Shifted(b, 6));
    LowestBit(Half(Shifted(b, 6)));
    Bit7Shifted(b);
  }

  lemma Bit7Shifted(b: bv64)
    ensures b & 0x80 != 0 <==> Half(Shifted(b, 6)) & 1 != 0
  {
  }

  lemma Bit21(b: bv64)
    ensures b & 0x20_0000 != 0 <==> Value(b) / 0x20_0000 % 2 == 1
  {
    hide Value, Shifted;
    ShiftValues(b);
    LowestBit(Shifted(b, 21));
    Bit21Shifted(b);
  }

  lemma Bit21Shifted(b: bv64)
    ensures b & 0x20_0000 != 0 <==> Shifted(b, 21) & 1 != 0
  {
  }
}
