// One 64-bit word of an allocation bitmap. A set bit is a free page.
module BitWords {
  datatype Word = Word(bits: bv64)

  const ALL_FREE: Word := Word(0xFFFF_FFFF_FFFF_FFFF)

  // A number below 64 as a word.
  function Number(k: nat): (b: bv64)
    requires k < 64
    ensures b as nat == k && b < 64
  {
    if k == 0 then 0
    else
      NextNumber(Number(k - 1));
      BelowWord(Number(k - 1) + 1);
      Number(k - 1) + 1
  }

  lemma NextNumber(b: bv64)
    requires b < 64
    ensures (b + 1) as nat == b as nat + 1
  {
  }

  lemma BelowWord(b: bv64)
    ensures b < 64 <==> b as nat < 64
  {
  }

  // 1ULL << k
  function Mask(k: nat): Word
    requires k < 64
  {
    Word(1 << Number(k))
  }

  const NONE: Word := Word(0)

  function Common(w: Word, m: Word): Word {
    Word(w.bits & m.bits)
  }

  predicate Meets(w: Word, m: Word) {
    Common(w, m) != NONE
  }

  function Without(w: Word, m: Word): Word {
    Word(w.bits & !m.bits)
  }

  function With(w: Word, m: Word): Word {
    Word(w.bits | m.bits)
  }

  predicate Bit(w: Word, k: nat)
    requires k < 64
  {
    Meets(w, Mask(k))
  }

  function ClearBit(w: Word, k: nat): Word
    requires k < 64
  {
    Without(w, Mask(k))
  }

  function SetBit(w: Word, k: nat): Word
    requires k < 64
  {
    With(w, Mask(k))
  }

  // ----- masks

  lemma MasksApart(j: nat, k: nat)
    requires j < 64 && k < 64 && j != k
    ensures !Meets(Mask(j), Mask(k))
  {
    hide Number;
    ShiftsApart(Number(j), Number(k));
  }

  lemma ShiftsApart(a: bv64, b: bv64)
    requires a < 64 && b < 64 && a != b
    ensures (1 << a) & (1 << b) == 0 as bv64
  {
  }

  // A mask is met by a word in its only bit.
  predicate Single(m: Word, w: Word) {
    m.bits != 0 && (w.bits & m.bits == 0 || w.bits & m.bits == m.bits)
  }

  lemma MaskSingle(k: nat, w: Word)
    requires k < 64
    ensures Single(Mask(k), w)
  {
    hide Number;
    ShiftSingle(Number(k), w.bits);
  }

  lemma ShiftSingle(a: bv64, x: bv64)
    requires a < 64
    ensures (1 << a) != 0 as bv64
    ensures x & (1 << a) == 0 || x & (1 << a) == 1 << a
  {
  }

  // ----- any masks

  lemma WithoutApart(w: Word, m: Word, n: Word)
    requires !Meets(m, n)
    ensures Meets(Without(w, m), n) == Meets(w, n)
  {
    hide Common, Without;
    WithoutCommon(w, m, n);
  }

  lemma WithoutCommon(w: Word, m: Word, n: Word)
    requires Common(m, n) == NONE
    ensures Common(Without(w, m), n) == Common(w, n)
  {
    ApartBits(w.bits, m.bits, n.bits);
  }

  lemma ApartBits(x: bv64, m: bv64, n: bv64)
    requires m & n == 0
    ensures (x & !m) & n == x & n
  {
  }

  lemma WithoutSame(w: Word, m: Word)
    ensures !Meets(Without(w, m), m)
  {
  }

  lemma WithApart(w: Word, m: Word, n: Word)
    requires !Meets(m, n)
    ensures Meets(With(w, m), n) == Meets(w, n)
  {
    hide Common, With;
    WithCommon(w, m, n);
  }

  lemma WithCommon(w: Word, m: Word, n: Word)
    requires Common(m, n) == NONE
    ensures Common(With(w, m), n) == Common(w, n)
  {
    JoinedBits(w.bits, m.bits, n.bits);
  }

  lemma JoinedBits(x: bv64, m: bv64, n: bv64)
    requires m & n == 0
    ensures (x | m) & n == x & n
  {
  }

  lemma WithSame(w: Word, m: Word)
    requires Single(m, w)
    ensures Meets(With(w, m), m)
  {
  }

  lemma WithAfterWithout(w: Word, m: Word)
    requires Single(m, w) && Meets(w, m)
    ensures With(Without(w, m), m) == w
  {
  }

  lemma Commute(w: Word, m: Word, n: Word)
    requires !Meets(m, n)
    ensures With(Without(w, m), n) == Without(With(w, n), m)
  {
  }

  lemma AllMeets(m: Word)
    requires Single(m, ALL_FREE)
    ensures Meets(ALL_FREE, m)
  {
  }

  // ----- single bits

  lemma ClearBitOnly(w: Word, j: nat, k: nat)
    requires j < 64 && k < 64
    ensures Bit(ClearBit(w, j), k) <==> j != k && Bit(w, k)
  {
    hide Mask, Meets, Without;
    if j != k {
      MasksApart(j, k);
      WithoutApart(w, Mask(j), Mask(k));
    } else {
      WithoutSame(w, Mask(j));
    }
  }

  lemma SetBitOnly(w: Word, j: nat, k: nat)
    requires j < 64 && k < 64
    ensures Bit(SetBit(w, j), k) <==> j == k || Bit(w, k)
  {
    hide Mask, Meets, With, Single;
    if j != k {
      MasksApart(j, k);
      WithApart(w, Mask(j), Mask(k));
    } else {
      MaskSingle(j, w);
      WithSame(w, Mask(j));
    }
  }

  lemma SetAfterClear(w: Word, k: nat)
    requires k < 64 && Bit(w, k)
    ensures SetBit(ClearBit(w, k), k) == w
  {
    hide Mask, Meets, With, Without, Single;
    MaskSingle(k, w);
    WithAfterWithout(w, Mask(k));
  }

  lemma SetClearCommute(w: Word, j: nat, k: nat)
    requires j < 64 && k < 64 && j != k
    ensures SetBit(ClearBit(w, j), k) == ClearBit(SetBit(w, k), j)
  {
    hide Mask, Meets, With, Without, Single;
    MasksApart(j, k);
    Commute(w, Mask(j), Mask(k));
  }

  lemma AllFreeBit(k: nat)
    requires k < 64
    ensures Bit(ALL_FREE, k)
  {
    hide Mask, Meets, Single;
    MaskSingle(k, ALL_FREE);
    AllMeets(Mask(k));
  }
}
