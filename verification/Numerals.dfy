// What the printers of the C library print, and how to read it back.
module Numerals {
  function Digit(d: nat): char
    requires d < 10
  {
    '0' + d as char
  }

  function DigitValue(c: char): nat {
    if '0' <= c <= '9' then (c - '0') as nat else 0
  }

  // The decimal digits of n, most significant first.
  function Decimal(n: nat): string {
    if n < 10 then [Digit(n)] else Decimal(n / 10) + [Digit(n % 10)]
  }

  function Signed(v: int): string {
    if v < 0 then "-" + Decimal(-v) else Decimal(v)
  }

  // ----- decoding

  function ReadDecimal(s: string): nat {
    if s == "" then 0 else 10 * ReadDecimal(s[..|s| - 1]) + DigitValue(s[|s| - 1])
  }

  function ReadSigned(s: string): int {
    if s != "" && s[0] == '-' then -(ReadDecimal(s[1..]) as int) else ReadDecimal(s)
  }

  // Digits only, and no leading zero but in "0" itself.
  predicate Canonical(s: string) {
    s != "" && (forall i :: 0 <= i < |s| ==> '0' <= s[i] <= '9') && (|s| > 1 ==> s[0] != '0')
  }

  lemma DigitReads(d: nat)
    requires d < 10
    ensures '0' <= Digit(d) <= '9' && DigitValue(Digit(d)) == d
  {
  }

  lemma DigitChar(d: nat)
    requires d < 10
    ensures Digit(d) == "0123456789"[d]
  {
  }

  lemma {:induction false} DecimalReads(n: nat)
    ensures ReadDecimal(Decimal(n)) == n && Canonical(Decimal(n)) && (n > 0 ==> Decimal(n)[0] != '0')
  {
    var s := Decimal(n);
    if n < 10 {
      DigitReads(n);
      assert s[..0] == "";
    } else {
      DecimalReads(n / 10);
      DigitReads(n % 10);
      assert s[..|s| - 1] == Decimal(n / 10);
    }
  }

  // The printed form is the only canonical numeral of its value.
  lemma {:induction false} DecimalUnique(s: string)
    requires Canonical(s)
    ensures Decimal(ReadDecimal(s)) == s
    decreases |s|
  {
    var last := s[|s| - 1];
    var d := DigitValue(last);
    assert Digit(d) == last;
    if |s| == 1 {
      assert s[..0] == "";
      assert s == [last];
    } else {
      var rest := s[..|s| - 1];
      assert Canonical(rest);
      DecimalUnique(rest);
      var n := ReadDecimal(rest);
      assert ReadDecimal(s) / 10 == n && ReadDecimal(s) % 10 == d;
      assert s == rest + [last];
    }
  }

  // int_to_string round-trips.
  lemma SignedReads(v: int)
    ensures ReadSigned(Signed(v)) == v
  {
    if v < 0 {
      DecimalReads(-v);
      assert Signed(v)[1..] == Decimal(-v);
    } else {
      DecimalReads(v);
    }
  }

  function Pow10(k: nat): nat {
    if k == 0 then 1 else 10 * Pow10(k - 1)
  }

  lemma {:induction false} DecimalLength(n: nat, k: nat)
    requires k >= 1 && n < Pow10(k)
    ensures |Decimal(n)| <= k
  {
    if n >= 10 {
      DecimalLength(n / 10, k - 1);
    }
  }

  // An int takes at most 11 characters, an unsigned long at most 20, before the terminator.
  lemma SignedFits(v: int)
    requires -0x8000_0000 < v < 0x8000_0000
    ensures |Signed(v)| <= 11
  {
    assert Pow10(5) == 100000;
    DecimalLength(if v < 0 then -v else v, 10);
  }

  lemma UnsignedFits(n: nat)
    requires n < 0x1_0000_0000_0000_0000
    ensures |Decimal(n)| <= 20
  {
    assert Pow10(5) == 100000;
    assert Pow10(10) == 10000000000;
    assert Pow10(15) == 1000000000000000;
    DecimalLength(n, 20);
  }

  // ----- hexadecimal

  const HEX_DIGITS: string := "0123456789ABCDEF"

  // The low n hexadecimal digits of v, most significant first.
  function Hex(v: nat, n: nat): (s: string)
    ensures |s| == n
    decreases n
  {
    if n == 0 then "" else Hex(v / 16, n - 1) + [HEX_DIGITS[v % 16]]
  }

  function HexValue(c: char): nat {
    if '0' <= c <= '9' then (c - '0') as nat else if 'A' <= c <= 'F' then (c - 'A') as nat + 10 else 0
  }

  function ReadHex(s: string): nat {
    if s == "" then 0 else 16 * ReadHex(s[..|s| - 1]) + HexValue(s[|s| - 1])
  }

  // (v >> (4 * i)) & 0xF
  function Nibble(v: nat, i: nat): (d: nat)
    ensures d < 16
    decreases i
  {
    if i == 0 then v % 16 else Nibble(v / 16, i - 1)
  }

  function Pow16(n: nat): nat {
    if n == 0 then 1 else 16 * Pow16(n - 1)
  }

  lemma HexDigitReads(d: nat)
    requires d < 16
    ensures HexValue(HEX_DIGITS[d]) == d
  {
  }

  lemma {:induction false} HexReads(v: nat, n: nat)
    requires v < Pow16(n)
    ensures ReadHex(Hex(v, n)) == v
    decreases n
  {
    if n > 0 {
      var s := Hex(v, n);
      HexReads(v / 16, n - 1);
      HexDigitReads(v % 16);
      assert s[..n - 1] == Hex(v / 16, n - 1);
    }
  }

  // The digit at place k is the nibble that the printer extracts by shifting.
  lemma {:induction false} HexIsNibbles(v: nat, n: nat, k: nat)
    requires k < n
    ensures Hex(v, n)[k] == HEX_DIGITS[Nibble(v, n - 1 - k)]
    decreases n
  {
    if k < n - 1 {
      HexIsNibbles(v / 16, n - 1, k);
    }
  }

  lemma PointerReads(v: nat)
    requires v < 0x1_0000_0000_0000_0000
    ensures ReadHex(Hex(v, 16)) == v
  {
    assert Pow16(4) == 0x1_0000;
    assert Pow16(8) == 0x1_0000_0000;
    assert Pow16(12) == 0x1_0000_0000_0000;
    HexReads(v, 16);
  }
}
