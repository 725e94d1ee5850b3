// The fields of entries and addresses as numbers, and the walk of section 4.5 of the Intel SDM, Volume 3A, in numbers.
module PageNumbers {
  import opened Wrappers
  import opened Numbers
  import opened WordFields
  import opened PageEntry
  import opened Paging

  // The bytes that one entry of a level-k table covers.
  function Span(k: nat): (n: nat)
    ensures n > 0
  {
    match k
    case 1 => 0x1000
    case 2 => 0x20_0000
    case 3 => 0x4000_0000
    case _ => 0x80_0000_0000
  }

  // ----- the fields of an entry

  lemma PresentNumber(e: Entry)
    ensures Present(e) <==> Value(e.bits) % 2 == 1
  {
    hide Value;
    LowestBit(e.bits);
  }

  lemma HugeNumber(e: Entry)
    ensures Huge(e) <==> Value(e.bits) / 0x80 % 2 == 1
  {
    hide Value;
    Bit7(e.bits);
  }

  lemma LargeNumber(e: Entry)
    ensures Large(e) <==> Value(e.bits) / 0x20_0000 % 2 == 1
  {
    hide Value;
    Bit21(e.bits);
  }

  function LowWord(b: bv64): bv64 {
    b & 0xF_FFFF_FFFF_FFFF
  }

  function PageOf(b: bv64): bv64 {
    b >> 12
  }

  function AtPage(q: bv64): bv64 {
    q << 12
  }

  lemma PageParts(b: bv64)
    ensures Value(LowWord(b)) == Value(b) % 0x10_0000_0000_0000
    ensures Value(PageOf(b)) == Value(b) / 0x1000
  {
    hide Value;
    Offsets(b);
    PageNumber(b);
  }

  lemma AtPageNumber(q: bv64)
    requires q < 0x10_0000_0000_0000
    ensures Value(AtPage(q)) == 0x1000 * Value(q)
  {
    PageValue(q);
  }

  lemma PageOfSmall(b: bv64)
    ensures PageOf(b) < 0x10_0000_0000_0000
  {
  }

  lemma AtPageValue(b: bv64)
    ensures Value(AtPage(PageOf(b))) == Value(b) / 0x1000 * 0x1000
  {
    hide Value, AtPage, PageOf;
    PageOfSmall(b);
    AtPageNumber(PageOf(b));
    PageParts(b);
  }

  lemma AddrParts(b: bv64)
    ensures Addr(Entry(b)).base == AtPage(PageOf(LowWord(b)))
  {
  }

  function HighPart(b: bv64): bv64 {
    b & 0xFFFF_FFFF_FFFF_F000
  }

  lemma HighPartIs(b: bv64)
    ensures HighPart(b) == AtPage(PageOf(b))
  {
  }

  lemma PointerParts(b: bv64)
    ensures Pointer(Entry(b)).base == HighPart(b)
  {
  }

  // The address field: bits 12-51.
  lemma AddrNumber(e: Entry)
    ensures Value(Addr(e).base) == AddressIn(Value(e.bits))
  {
    hide Value, Addr, AtPage, PageOf, LowWord;
    AddrParts(e.bits);
    assert e == Entry(e.bits);
    PageParts(e.bits);
    AtPageValue(LowWord(e.bits));
  }

  lemma PointerNumber(e: Entry)
    ensures Value(Pointer(e).base) == Value(e.bits) / 0x1000 * 0x1000
  {
    hide Value, Pointer, AtPage, PageOf, HighPart;
    PointerParts(e.bits);
    assert e == Entry(e.bits);
    HighPartIs(e.bits);
    AtPageValue(e.bits);
  }

  // ----- the fields of an address

  function NineBits(b: bv64): bv64 {
    b & 0x1FF
  }

  lemma NineNumber(b: bv64)
    ensures Value(NineBits(b)) == Value(b) % 512
  {
    hide Value;
    Offsets(b);
  }

  lemma Slots(v: bv64)
    ensures Slot(v, 1) == NineBits(Shifted(v, 12)) && Slot(v, 2) == NineBits(Shifted(v, 21))
    ensures Slot(v, 3) == NineBits(Shifted(v, 30)) && Slot(v, 4) == NineBits(Shifted(v, 39))
  {
  }

  lemma IndexIsValue(v: bv64, k: nat)
    requires 1 <= k <= 4
    ensures Index(v, k) == Value(Slot(v, k))
  {
    hide Slot;
  }

  // Nine bits for each level, above twelve bits of offset.
  lemma IndexNumber(v: bv64, k: nat)
    requires 1 <= k <= 4
    ensures Index(v, k) == Value(v) / Span(k) % 512
  {
    hide Value, Slot, Shifted, Index, NineBits;
    Slots(v);
    IndexIsValue(v, k);
    ShiftValues(v);
    NineNumber(Shifted(v, 12));
    NineNumber(Shifted(v, 21));
    NineNumber(Shifted(v, 30));
    NineNumber(Shifted(v, 39));
  }

  // ----- pages

  function Low12(b: bv64): bv64 {
    b & 0xFFF
  }

  function Low21(b: bv64): bv64 {
    b & 0x1F_FFFF
  }

  function Low30(b: bv64): bv64 {
    b & 0x3FFF_FFFF
  }

  lemma LowNumbers(b: bv64)
    ensures Value(Low12(b)) == Value(b) % Span(1) && Value(Low21(b)) == Value(b) % Span(2)
    ensures Value(Low30(b)) == Value(b) % Span(3)
  {
    hide Value;
    Offsets(b);
  }

  lemma SmallHigh(f: bv64, v: bv64)
    ensures Shifted(SmallPage(Frame(f), v), 12) == Shifted(f, 12)
  {
  }

  lemma SmallLow(f: bv64, v: bv64)
    requires IsFrame(Frame(f))
    ensures Low12(SmallPage(Frame(f), v)) == Low12(v)
  {
  }

  lemma MegaHigh(f: bv64, v: bv64)
    ensures Shifted(MegaPage(Frame(f), v), 21) == Shifted(f, 21)
  {
  }

  lemma MegaLow(f: bv64, v: bv64)
    ensures Low21(MegaPage(Frame(f), v)) == Low21(v)
  {
  }

  lemma GigaHigh(f: bv64, v: bv64)
    ensures Shifted(GigaPage(Frame(f), v), 30) == Shifted(f, 30)
  {
  }

  lemma GigaLow(f: bv64, v: bv64)
    ensures Low30(GigaPage(Frame(f), v)) == Low30(v)
  {
  }

  lemma SmallNumber(f: Frame, v: bv64)
    requires IsFrame(f)
    ensures Value(SmallPage(f, v)) == Value(f.base) / Span(1) * Span(1) + Value(v) % Span(1)
  {
    hide Value, SmallPage, Shifted, IsFrame, Low12, Low21, Low30;
    var x := SmallPage(f, v);
    assert f == Frame(f.base);
    SmallHigh(f.base, v);
    SmallLow(f.base, v);
    ShiftValues(x);
    ShiftValues(f.base);
    LowNumbers(x);
    LowNumbers(v);
    Joined(x, Span(1), Value(f.base) / Span(1), Value(v) % Span(1));
  }

  lemma MegaNumber(f: Frame, v: bv64)
    ensures Value(MegaPage(f, v)) == Value(f.base) / Span(2) * Span(2) + Value(v) % Span(2)
  {
    hide Value, MegaPage, Shifted, IsFrame, Low12, Low21, Low30;
    var x := MegaPage(f, v);
    assert f == Frame(f.base);
    MegaHigh(f.base, v);
    MegaLow(f.base, v);
    ShiftValues(x);
    ShiftValues(f.base);
    LowNumbers(x);
    LowNumbers(v);
    Joined(x, Span(2), Value(f.base) / Span(2), Value(v) % Span(2));
  }

  lemma GigaNumber(f: Frame, v: bv64)
    ensures Value(GigaPage(f, v)) == Value(f.base) / Span(3) * Span(3) + Value(v) % Span(3)
  {
    hide Value, GigaPage, Shifted, IsFrame, Low12, Low21, Low30;
    var x := GigaPage(f, v);
    assert f == Frame(f.base);
    GigaHigh(f.base, v);
    GigaLow(f.base, v);
    ShiftValues(x);
    ShiftValues(f.base);
    LowNumbers(x);
    LowNumbers(v);
    Joined(x, Span(3), Value(f.base) / Span(3), Value(v) % Span(3));
  }

  // ----- the words that the code builds

  lemma FlagsNumber(e: Entry)
    ensures Value(Flags(e)) == Value(e.bits) % Span(1)
  {
    hide Value;
    Offsets(e.bits);
  }

  lemma FrameLow(f: bv64)
    requires IsFrame(Frame(f))
    ensures Low12(f) == 0
  {
  }

  function WithLow(f: bv64, e: bv64): bv64 {
    f | (e & 0xFFF)
  }

  lemma WithLowHigh(f: bv64, e: bv64)
    ensures Shifted(WithLow(f, e), 12) == Shifted(f, 12)
  {
  }

  lemma WithLowLow(f: bv64, e: bv64)
    requires Low12(f) == 0
    ensures Low12(WithLow(f, e)) == Low12(e)
  {
    assert (f | (e & 0xFFF)) & 0xFFF == (f & 0xFFF) | (e & 0xFFF);
  }

  lemma RelinkParts(f: bv64, e: bv64)
    ensures Relink(Frame(f), Entry(e)).bits == WithLow(f, e)
  {
  }

  // A word with the page number of f and the low bits n.
  lemma PagePlus(x: bv64, f: bv64, n: nat)
    requires Shifted(x, 12) == Shifted(f, 12) && Value(Low12(x)) == n && Low12(f) == 0
    ensures Value(x) == Value(f) + n
  {
    hide Value, Shifted, Low12, Low21, Low30;
    ShiftValues(x);
    ShiftValues(f);
    LowNumbers(x);
    LowNumbers(f);
    ZeroValue();
  }

  lemma ZeroValue()
    ensures Value(0) == 0 && Value(3) == 3
  {
  }

  // A rewritten entry is the frame's address plus the flags of the old entry.
  lemma RelinkNumber(f: Frame, e: Entry)
    requires IsFrame(f)
    ensures Value(Relink(f, e).bits) == Value(f.base) + Value(e.bits) % Span(1)
  {
    hide Value, Relink, WithLow, Shifted, IsFrame, Low12, Low21, Low30;
    assert f == Frame(f.base);
    assert e == Entry(e.bits);
    RelinkParts(f.base, e.bits);
    FrameLow(f.base);
    WithLowHigh(f.base, e.bits);
    WithLowLow(f.base, e.bits);
    LowNumbers(e.bits);
    PagePlus(Relink(f, e).bits, f.base, Value(e.bits) % Span(1));
  }

  lemma LinkParts(f: bv64)
    ensures LinkTo(Frame(f)).bits == WithLow(f, 3) && Low12(3) == 3
  {
  }

  // The entry for a new table is its address, present and writable.
  lemma LinkNumber(f: Frame)
    requires IsFrame(f)
    ensures Value(LinkTo(f).bits) == Value(f.base) + 3
  {
    hide Value, LinkTo, WithLow, Shifted, IsFrame, Low12, Low21, Low30;
    assert f == Frame(f.base);
    LinkParts(f.base);
    FrameLow(f.base);
    WithLowHigh(f.base, 3);
    WithLowLow(f.base, 3);
    ZeroValue();
    PagePlus(LinkTo(f).bits, f.base, 3);
  }

  // ----- the walk

  function AddBit(h: bv64, one: bool): (b: bv64)
    requires Value(h) < 0x8000_0000_0000_0000
    ensures Value(b) == 2 * Value(h) + if one then 1 else 0
  {
    TwiceValue(h);
    if one then TwiceAndOne(h) else Twice(h)
  }

  // The word of a number, bit by bit.
  function WordOfNumber(n: nat): (b: bv64)
    requires n < 0x1_0000_0000_0000_0000
    ensures Value(b) == n
  {
    if n == 0 then
      ZeroValue();
      0
    else AddBit(WordOfNumber(n / 2), n % 2 == 1)
  }

  // The frame at an address.
  function FrameAt(n: nat): (f: Frame)
    requires n < 0x1_0000_0000_0000_0000
    ensures Value(f.base) == n
  {
    Frame(WordOfNumber(n))
  }

  // Bits 12 to 51.
  function AddressIn(e: nat): (a: nat)
    ensures a < 0x10_0000_0000_0000
  {
    e % 0x10_0000_0000_0000 / 0x1000 * 0x1000
  }

  // Slot i of the table at address f, as a number.
  function NumberAt(m: Memory, f: nat, i: nat): (e: nat)
    requires f < 0x1_0000_0000_0000_0000
    ensures e < 0x1_0000_0000_0000_0000
  {
    Value(Load(m, FrameAt(f), i).bits)
  }

  // The walk from the level-k table at address f for the address v, in arithmetic: an entry is present if it is odd; it
  // maps a page at level 1, and at levels 2 and 3 if bit 7 is set; its address is in bits 12 to 51.
  function Translation(m: Memory, k: nat, f: nat, v: nat): Option<nat>
    requires 1 <= k <= 4 && f < 0x1_0000_0000_0000_0000
    decreases k
  {
    var e := NumberAt(m, f, v / Span(k) % 512);
    var a := AddressIn(e);
    if e % 2 == 0 then None
    else if k == 1 || (k <= 3 && e / 0x80 % 2 == 1) then Some(RoundDown(a, Span(k)) + v % Span(k))
    else Translation(m, k - 1, a, v)
  }

  function RoundDown(a: nat, n: nat): (r: nat)
    requires n > 0
    ensures r <= a
  {
    a / n * n
  }

  ghost predicate SameResult(x: Option<bv64>, y: Option<nat>) {
    match (x, y)
    case (Some(b), Some(n)) => Value(b) == n
    case (None, None) => true
    case _ => false
  }

  lemma FrameIs(f: Frame)
    ensures FrameAt(Value(f.base)) == f
  {
    hide Value, FrameAt;
    SameValue(f.base, FrameAt(Value(f.base)).base);
  }

  lemma NumberIs(m: Memory, f: Frame, i: nat)
    ensures NumberAt(m, Value(f.base), i) == Value(Load(m, f, i).bits)
  {
    hide Value, FrameAt, Load;
    FrameIs(f);
  }

  lemma PageReads(k: nat, e: Entry, v: bv64)
    requires 1 <= k <= 3
    ensures
      var a := AddressIn(Value(e.bits));
      var p := if k == 1 then SmallPage(Addr(e), v) else if k == 2 then MegaPage(Addr(e), v) else GigaPage(Addr(e), v);
      Value(p) == a / Span(k) * Span(k) + Value(v) % Span(k)
  {
    hide Value, Addr, SmallPage, MegaPage, GigaPage, Span, IsFrame;
    AddrNumber(e);
    if k == 1 {
      AddrIsFrame(e);
      SmallNumber(Addr(e), v);
    } else if k == 2 {
      MegaNumber(Addr(e), v);
    } else {
      GigaNumber(Addr(e), v);
    }
  }

  lemma AddrIsFrame(e: Entry)
    ensures IsFrame(Addr(e))
  {
  }

  lemma {:induction false} WalkReads(m: Memory, k: nat, f: Frame, v: bv64)
    requires 1 <= k <= 4
    ensures SameResult(WalkEntry(k, m, Load(m, f, Index(v, k)), v), Translation(m, k, Value(f.base), Value(v)))
    decreases k
  {
    hide Value, Addr, SmallPage, MegaPage, GigaPage, Span, Present, Huge, Index, Load, NumberAt, FrameAt,
      AddressIn;
    var e := Load(m, f, Index(v, k));
    IndexNumber(v, k);
    PresentNumber(e);
    HugeNumber(e);
    AddrNumber(e);
    NumberIs(m, f, Index(v, k));
    if k <= 3 {
      PageReads(k, e, v);
    }
    if k > 1 && Present(e) && !(k <= 3 && Huge(e)) {
      WalkReads(m, k - 1, Addr(e), v);
    }
  }

  // The walk is the walk in arithmetic.
  lemma WalkIsArithmetic(m: Memory, root: Frame, v: bv64)
    ensures SameResult(Walk(m, root, v), Translation(m, 4, Value(root.base), Value(v)))
  {
    hide WalkEntry, Translation, Index, Load, Value;
    WalkReads(m, 4, root, v);
  }

  // The same from the root register, with 0 for nothing.
  lemma ReadsFromRegister(m: Memory, cr3: bv64, v: bv64)
    ensures Value(Walk(m, Pointer(Entry(cr3)), v).GetOr(0)) ==
            Translation(m, 4, RoundDown(Value(cr3), 0x1000), Value(v)).GetOr(0)
  {
    hide Value, Walk, Translation, Pointer;
    ZeroValue();
    PointerNumber(Entry(cr3));
    WalkIsArithmetic(m, Pointer(Entry(cr3)), v);
  }

  // What the walk reads where it ends at a present entry of the level-k table on it.
  lemma WalkEnds(m: Memory, root: Frame, v: bv64, k: nat)
    requires 1 <= k <= 4 && TableAt(m, root, v, k).Some?
    requires !Descends(k, Load(m, TableAt(m, root, v, k).value, Index(v, k)))
    ensures
      var e := Load(m, TableAt(m, root, v, k).value, Index(v, k));
      if Present(e) then
        && k <= 3 && Walk(m, root, v).Some?
        && Value(Walk(m, root, v).value) == Value(Addr(e).base) / Span(k) * Span(k) + Value(v) % Span(k)
      else Walk(m, root, v) == None
  {
    hide Value, Addr, SmallPage, MegaPage, GigaPage, Span, Present, Huge, Index, Load, TableAt, Walk;
    var e := Load(m, TableAt(m, root, v, k).value, Index(v, k));
    WalkFromTable(m, root, v, k);
    if Present(e) {
      assert k <= 3;
      PageReads(k, e, v);
      AddrNumber(e);
    }
  }
}
