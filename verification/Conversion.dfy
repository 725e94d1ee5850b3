// The printers of the C library, writing into a caller's buffer.
module Conversion {
  import opened Numerals

  const NUL: char := '\0'

  function Reverse(s: string): (r: string)
    ensures |r| == |s| && forall i :: 0 <= i < |s| ==> r[i] == s[|s| - 1 - i]
  {
    if s == "" then "" else [s[|s| - 1]] + Reverse(s[..|s| - 1])
  }

  // buffer holds s and its terminator, and is as before behind it.
  twostate predicate Printed(buffer: array<char>, s: string)
    reads buffer
  {
    && |s| < buffer.Length && buffer[..|s|] == s && buffer[|s|] == NUL
    && buffer[|s| + 1..] == old(buffer[|s| + 1..])
  }

  // The digits printed so far, in reverse, after those still to print.
  ghost predicate DigitsLeft(n: nat, value: nat, done: string) {
    Decimal(n) == (if value == 0 && done != "" then "" else Decimal(value)) + Reverse(done)
  }

  lemma ReverseAppend(s: string, c: char)
    ensures Reverse(s + [c]) == [c] + Reverse(s)
  {
    assert (s + [c])[..|s|] == s;
  }

  lemma Regroup(a: string, c: char, b: string)
    ensures (a + [c]) + b == a + ([c] + b)
  {
  }

  lemma DigitStep(n: nat, value: nat, done: string)
    requires DigitsLeft(n, value, done) && (value > 0 || done == "")
    ensures DigitsLeft(n, value / 10, done + [Digit(value % 10)])
    ensures |done| < |Decimal(n)|
  {
    hide Reverse, Digit;
    var d := Digit(value % 10);
    ReverseAppend(done, d);
    if value < 10 {
      assert Decimal(value) == [d];
      assert "" + ([d] + Reverse(done)) == [d] + Reverse(done);
    } else {
      Regroup(Decimal(value / 10), d, Reverse(done));
    }
  }

  // The loop over the digits of value that are still to print, in reverse, from place start of the buffer on.
  method PutDigits(ghost n: nat, value: nat, start: nat, buffer: array<char>) returns (pos: nat)
    requires |Decimal(n)| < buffer.Length && start <= |Decimal(n)| && (value > 0 || start > 0)
    requires DigitsLeft(n, value, buffer[..start])
    modifies buffer
    ensures pos == |Decimal(n)| && Reverse(buffer[..pos]) == Decimal(n)
    ensures buffer[pos..] == old(buffer[pos..])
  {
    hide Digit, Decimal;
    pos := start;
    var v: nat := value;
    while v > 0
      invariant start <= pos <= |Decimal(n)| && (v > 0 || pos > 0)
      invariant DigitsLeft(n, v, buffer[..pos])
      invariant buffer[pos..] == old(buffer[pos..])
    {
      DigitStep(n, v, buffer[..pos]);
      ghost var done, rest := buffer[..pos], buffer[pos..];
      buffer[pos] := Digit(v % 10);
      pos := pos + 1;
      assert buffer[..pos] == done + [Digit(v % 10)];
      assert buffer[pos..] == rest[1..];
      assert old(buffer[pos..]) == old(buffer[pos - 1..])[1..];
      v := v / 10;
    }
    assert buffer[..pos] != "";
    assert "" + Reverse(buffer[..pos]) == Reverse(buffer[..pos]);
  }

  lemma NothingDone(n: nat)
    ensures DigitsLeft(n, n, "")
  {
    assert Decimal(n) + "" == Decimal(n);
  }

  // All ints but the least, which has no negation.
  method IntToString(value: int, str: array<char>)
    requires -0x8000_0000 < value < 0x8000_0000 && |Signed(value)| < str.Length
    modifies str
    ensures Printed(str, Signed(value))
  {
    hide Reverse, Digit, Decimal;
    var buffer := new char[12](_ => NUL);
    var pos := 0;
    var neg, v := value < 0, if value < 0 then -value else value;
    SignedFits(value);
    if v == 0 {
      buffer[0] := '0';
      pos := 1;
      ZeroPrinted(buffer[..1]);
    } else {
      NothingDone(v);
      assert buffer[..0] == "";
      pos := PutDigits(v, v, 0, buffer);
    }
    assert Reverse(buffer[..pos]) == Decimal(v);
    if neg {
      ReverseAppend(buffer[..pos], '-');
      ghost var digits := buffer[..pos];
      buffer[pos] := '-';
      pos := pos + 1;
      assert buffer[..pos] == digits + ['-'];
    }
    assert Reverse(buffer[..pos]) == Signed(value);
    CopyReversed(buffer, pos, str);
  }

  lemma ZeroPrinted(s: string)
    requires s == "0"
    ensures Reverse(s) == Decimal(0)
  {
  }

  // The reversing copy of int_to_string.
  method CopyReversed(buffer: array<char>, pos: nat, str: array<char>)
    requires pos <= buffer.Length && pos < str.Length && buffer != str
    modifies str
    ensures Printed(str, Reverse(buffer[..pos]))
  {
    var i := 0;
    while i < pos
      invariant 0 <= i <= pos && forall k :: 0 <= k < i ==> str[k] == buffer[pos - 1 - k]
      invariant forall k :: i <= k < str.Length ==> str[k] == old(str[k])
    {
      str[i] := buffer[pos - 1 - i];
      i := i + 1;
    }
    str[pos] := NUL;
    assert str[..pos] == Reverse(buffer[..pos]);
  }

  // Two pointers, from both ends to the middle.
  method ReverseInPlace(buffer: array<char>, n: nat)
    requires n <= buffer.Length
    modifies buffer
    ensures buffer[..n] == Reverse(old(buffer[..n]))
    ensures buffer[n..] == old(buffer[n..])
  {
    var start, p := 0, n - 1;
    while start < p
      invariant 0 <= start <= n && start + p == n - 1 && p >= start - 1
      invariant forall k :: 0 <= k < start ==> buffer[k] == old(buffer[n - 1 - k])
      invariant forall k :: 0 <= k < start ==> buffer[n - 1 - k] == old(buffer[k])
      invariant forall k :: start <= k <= p ==> buffer[k] == old(buffer[k])
      invariant buffer[n..] == old(buffer[n..])
    {
      var temp := buffer[start];
      buffer[start] := buffer[p];
      buffer[p] := temp;
      start, p := start + 1, p - 1;
    }
    forall k | 0 <= k < n
      ensures buffer[k] == old(buffer[n - 1 - k])
    {
      assert k < start || start <= k <= p || n - 1 - k < start;
    }
    assert buffer[..n] == Reverse(old(buffer[..n]));
  }

  // The digits are put into the caller's buffer in reverse, and turned around there.
  method UnsignedLongToString(value: nat, buffer: array<char>)
    requires value < 0x1_0000_0000_0000_0000 && |Decimal(value)| < buffer.Length
    modifies buffer
    ensures Printed(buffer, Decimal(value))
  {
    hide Reverse, Digit, Decimal;
    NothingDone(value);
    DigitStep(value, value, "");
    buffer[0] := Digit(value % 10);
    assert buffer[..1] == "" + [Digit(value % 10)];
    var p := PutDigits(value, value / 10, 1, buffer);
    buffer[p] := NUL;
    ReverseTwice(buffer[..p], Decimal(value));
    ghost var tail := buffer[p..];
    ReverseInPlace(buffer, p);
    assert buffer[p..] == tail;
  }

  lemma ReverseTwice(s: string, t: string)
    requires Reverse(s) == t
    ensures |s| == |t|
  {
  }

  // "0x" and the sixteen digits of an address.
  method PointerToHexString(value: nat, buffer: array<char>)
    requires value < 0x1_0000_0000_0000_0000 && buffer.Length >= 19
    modifies buffer
    ensures Printed(buffer, "0x" + Hex(value, 16))
  {
    hide Nibble, Hex;
    buffer[0] := '0';
    buffer[1] := 'x';
    var at, i := 2, 15;
    while i >= 0
      invariant -1 <= i <= 15 && at == 17 - i
      invariant buffer[0] == '0' && buffer[1] == 'x'
      invariant forall k :: 0 <= k < at - 2 ==> buffer[2 + k] == Hex(value, 16)[k]
      invariant forall k :: at <= k < buffer.Length ==> buffer[k] == old(buffer[k])
    {
      HexIsNibbles(value, 16, at - 2);
      buffer[at] := HEX_DIGITS[Nibble(value, i)];
      at, i := at + 1, i - 1;
    }
    buffer[at] := NUL;
    assert buffer[..18] == "0x" + Hex(value, 16);
  }
}
