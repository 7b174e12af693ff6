/** Hexadecimal text as `sprintf("%X")` prints it and as DebugTool.c reads it back. */
module Hex {
  import opened Words

  const HEX_DIGITS: seq<byte> := [
    0x30, 0x31, 0x32, 0x33, 0x34, 0x35, 0x36, 0x37,
    0x38, 0x39, 0x41, 0x42, 0x43, 0x44, 0x45, 0x46
  ]

  /** The value of a `char` that stands for -1. */
  const NOT_HEX: byte := 0xFF

  predicate IsDecimal(c: byte) {
    0x30 <= c <= 0x39
  }

  predicate IsHex(c: byte) {
    IsDecimal(c) || 0x41 <= c <= 0x46 || 0x61 <= c <= 0x66
  }

  /** `HexCharToNibble`: the value of a hex digit of either case, -1 for anything else. */
  function HexCharToNibble(c: byte): (n: byte)
    ensures IsHex(c) <==> n < 0x80
    ensures IsHex(c) <==> n < 16
  {
    if 0x30 <= c && c <= 0x39 then
      c - 0x30
    else if 0x41 <= c && c <= 0x46 then
      c - 0x41 + 10
    else if 0x61 <= c && c <= 0x66 then
      c - 0x61 + 10
    else
      NOT_HEX
  }

  /** The digit `%X` prints for a nibble. */
  function HexDigit(n: int): byte
    requires 0 <= n < 16
  {
    HEX_DIGITS[n]
  }

  /** Reading a printed digit gives back the nibble. */
  lemma HexDigitRoundTrip(n: int)
    requires 0 <= n < 16
    ensures IsHex(HexDigit(n)) && HexCharToNibble(HexDigit(n)) as int == n
  {
  }

  const UPPER_DIGITS: string := "0123456789ABCDEF"
  const LOWER_DIGITS: string := "0123456789abcdef"

  /** The character code of digit `n`, in either letter case. */
  function DigitCode(n: int, lower: bool): int
    requires 0 <= n < 16
  {
    (if lower then LOWER_DIGITS[n] else UPPER_DIGITS[n]) as int
  }

  /** What is printed is the upper-case digit. */
  lemma PrintedDigit(n: int)
    requires 0 <= n < 16
    ensures HexDigit(n) as int == DigitCode(n, false)
  {
  }

  /** What is read: the sixteen digits in either case, each with its own value, and nothing else. */
  lemma DigitsRead(c: byte, n: int)
    requires 0 <= n < 16
    ensures HexCharToNibble(c) as int == n <==> c as int == DigitCode(n, false) || c as int == DigitCode(n, true)
  {
  }

  lemma OnlyDigitsRead(c: byte)
    ensures HexCharToNibble(c) < 0x80 <==>
              exists n :: 0 <= n < 16 && (c as int == DigitCode(n, false) || c as int == DigitCode(n, true))
  {
    if HexCharToNibble(c) < 0x80 {
      DigitsRead(c, HexCharToNibble(c) as int);
    }
    if n :| 0 <= n < 16 && (c as int == DigitCode(n, false) || c as int == DigitCode(n, true)) {
      DigitsRead(c, n);
    }
  }

  lemma NibblesOfByte(b: byte)
    ensures (b >> 4) as int == b as int / 16 && (b & 0x0F) as int == b as int % 16
  {
  }

  /** `%02X` of a byte. */
  function Hex2(b: byte): (text: seq<byte>)
    ensures |text| == 2
  {
    [HexDigit((b >> 4) as int), HexDigit((b & 0x0F) as int)]
  }

  /** The `digits` low hex digits of `w`, most significant first; `%08X` is `HexN(w, 8)`. */
  function HexN(w: nat, digits: nat): (text: seq<byte>)
    ensures |text| == digits
  {
    if digits == 0 then [] else HexN(w / 16, digits - 1) + [HexDigit(w % 16)]
  }

  lemma {:induction false} HexNIsHex(w: nat, digits: nat)
    ensures forall i :: 0 <= i < digits ==> IsHex(HexN(w, digits)[i])
  {
    if digits > 0 {
      HexNIsHex(w / 16, digits - 1);
      HexDigitRoundTrip(w % 16);
    }
  }
}
