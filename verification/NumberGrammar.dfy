/** The numbers DebugTool.c lets a user type: their spelling, their value, and a reader for them. */
module NumberGrammar {
  import opened Bits
  import opened Words
  import opened Hex

  const DOLLAR: byte := 0x24
  const BANG: byte := 0x21
  const PLUS: byte := 0x2B
  const ZERO: byte := 0x30
  const LOWER_X: byte := 0x78
  const UPPER_X: byte := 0x58

  datatype Option<+T> = None | Some(value: T)

  /** `marker` is the letter of a `0x` prefix. */
  datatype Literal = Literal(bang: bool, marker: Option<byte>, digits: seq<byte>, plus: bool)

  predicate IsDigit(hex: bool, c: byte) {
    if hex then IsHex(c) else IsDecimal(c)
  }

  ghost predicate AllDigits(hex: bool, digits: seq<byte>) {
    forall i :: 0 <= i < |digits| ==> IsDigit(hex, digits[i])
  }

  predicate IsX(c: byte) {
    c == LOWER_X || c == UPPER_X
  }

  /** Any number of digits, even none; a `+` only without a `!`. */
  ghost predicate IsLiteral(l: Literal) {
    && AllDigits(l.marker.Some?, l.digits)
    && (l.marker.Some? ==> IsX(l.marker.value))
    && !(l.bang && l.plus)
  }

  function Prefix(marker: Option<byte>): seq<byte> {
    match marker
    case None => []
    case Some(x) => [ZERO, x]
  }

  function Spelling(l: Literal): seq<byte> {
    (if l.bang then [BANG] else []) + (Prefix(l.marker) + (l.digits + if l.plus then [PLUS] else []))
  }

  // ----- Value -----

  function DigitValue(c: byte): int {
    HexCharToNibble(c) as int
  }

  function Base(hex: bool): int {
    if hex then 16 else 10
  }

  /** The mathematical value, however long the text. */
  function Value(hex: bool, digits: seq<byte>): int {
    if digits == [] then 0
    else Value(hex, digits[..|digits| - 1]) * Base(hex) + DigitValue(digits[|digits| - 1])
  }

  function PowerOf16(n: nat): int {
    if n == 0 then 1 else 16 * PowerOf16(n - 1)
  }

  lemma {:induction false} PrintedValue(w: nat, n: nat)
    requires w < PowerOf16(n)
    ensures Value(true, HexN(w, n)) == w
  {
    if n > 0 {
      PrintedValue(w / 16, n - 1);
      HexDigitRoundTrip(w % 16);
      assert HexN(w, n)[..n - 1] == HexN(w / 16, n - 1);
    }
  }

  // ----- Reading -----

  /** The length of the longest run of digits at the front. */
  function DigitRun(hex: bool, t: seq<byte>): (n: nat)
    ensures n <= |t| && AllDigits(hex, t[..n]) && (n < |t| ==> !IsDigit(hex, t[n]))
  {
    if t == [] || !IsDigit(hex, t[0]) then 0 else
      var n := DigitRun(hex, t[1..]);
      assert forall i :: 0 <= i < n ==> t[1..][..n][i] == t[..n + 1][i + 1];
      1 + n
  }

  function StripBang(t: seq<byte>): (bool, seq<byte>) {
    if t != [] && t[0] == BANG then (true, t[1..]) else (false, t)
  }

  function StripPrefix(t: seq<byte>): (Option<byte>, seq<byte>) {
    if |t| >= 2 && t[0] == ZERO && IsX(t[1]) then (Some(t[1]), t[2..]) else (None, t)
  }

  function Read(t: seq<byte>): Option<Literal> {
    var (bang, u) := StripBang(t);
    var (marker, v) := StripPrefix(u);
    var n := DigitRun(marker.Some?, v);
    var plus := !bang && n < |v| && v[n] == PLUS;
    if n + (if plus then 1 else 0) == |v| then Some(Literal(bang, marker, v[..n], plus)) else None
  }

  lemma StrippedBang(t: seq<byte>)
    ensures var (bang, u) := StripBang(t); (if bang then [BANG] else []) + u == t
  {
  }

  lemma StrippedPrefix(u: seq<byte>)
    ensures var (marker, v) := StripPrefix(u); Prefix(marker) + v == u && (marker.Some? ==> IsX(marker.value))
  {
  }

  /** What the reader accepts is a literal, spelt like that. */
  lemma ReadIsSound(t: seq<byte>)
    ensures Read(t).Some? ==> IsLiteral(Read(t).value) && Spelling(Read(t).value) == t
  {
    hide StripBang, StripPrefix, DigitRun;
    StrippedBang(t);
    var (bang, u) := StripBang(t);
    StrippedPrefix(u);
    var (marker, v) := StripPrefix(u);
    if Read(t).Some? {
      assert v == Read(t).value.digits + if Read(t).value.plus then [PLUS] else [];
    }
  }

  lemma {:induction false} DigitRunOfDigits(hex: bool, digits: seq<byte>, rest: seq<byte>)
    requires AllDigits(hex, digits) && (rest == [] || !IsDigit(hex, rest[0]))
    ensures DigitRun(hex, digits + rest) == |digits|
  {
    if digits == [] {
      assert digits + rest == rest;
    } else {
      DigitRunOfDigits(hex, digits[1..], rest);
      assert (digits + rest)[1..] == digits[1..] + rest;
    }
  }

  lemma PrefixIsRead(marker: Option<byte>, digits: seq<byte>, tail: seq<byte>)
    requires AllDigits(marker.Some?, digits) && (marker.Some? ==> IsX(marker.value)) && (tail == [] || tail == [PLUS])
    ensures StripPrefix(Prefix(marker) + (digits + tail)) == (marker, digits + tail)
  {
    var u := Prefix(marker) + (digits + tail);
    if marker.Some? {
      assert u[0] == ZERO && u[1] == marker.value && u[2..] == digits + tail;
    } else {
      assert u == digits + tail;
      if |digits| >= 2 {
        assert u[1] == digits[1];
      } else if |u| == 2 {
        assert u[1] == PLUS;
      }
    }
  }

  lemma BangIsRead(bang: bool, u: seq<byte>)
    requires !bang ==> u == [] || u[0] != BANG
    ensures StripBang((if bang then [BANG] else []) + u) == (bang, u)
  {
    if bang {
      assert ([BANG] + u)[1..] == u;
    } else {
      assert [] + u == u;
    }
  }

  /** Every literal is accepted, and read in the only way it can be. */
  lemma ReadIsComplete(l: Literal)
    requires IsLiteral(l)
    ensures Read(Spelling(l)) == Some(l)
  {
    var tail := if l.plus then [PLUS] else [];
    var v := l.digits + tail;
    var u := Prefix(l.marker) + v;
    assert u != [] ==> u[0] != BANG by {
      if l.marker.None? && l.digits != [] {
        assert u[0] == l.digits[0];
      }
    }
    BangIsRead(l.bang, u);
    PrefixIsRead(l.marker, l.digits, tail);
    DigitRunOfDigits(l.marker.Some?, l.digits, tail);
    assert v[..|l.digits|] == l.digits;
  }

  /** Accepted text is exactly the spelling of a literal. */
  lemma AcceptedIff(t: seq<byte>)
    ensures Read(t).Some? <==> exists l :: IsLiteral(l) && Spelling(l) == t
  {
    ReadIsSound(t);
    if l :| IsLiteral(l) && Spelling(l) == t {
      ReadIsComplete(l);
    }
  }

  /** The grammar in character codes. */
  ghost predicate Grammatical(t: seq<byte>, bang: bool, prefix: seq<byte>, digits: seq<byte>, plus: bool) {
    && t == (if bang then [0x21] else []) + (prefix + (digits + if plus then [0x2B] else []))
    && !(bang && plus)
    && (prefix == [] || prefix == [0x30, 0x78] || prefix == [0x30, 0x58])
    && forall i :: 0 <= i < |digits| ==>
         || 0x30 <= digits[i] <= 0x39
         || (prefix != [] && (0x41 <= digits[i] <= 0x46 || 0x61 <= digits[i] <= 0x66))
  }

  /** What is accepted, code by code. */
  lemma AcceptedExactly(t: seq<byte>)
    ensures Read(t).Some? <==> exists bang, prefix, digits, plus :: Grammatical(t, bang, prefix, digits, plus)
  {
    AcceptedIff(t);
    if l :| IsLiteral(l) && Spelling(l) == t {
      assert Grammatical(t, l.bang, Prefix(l.marker), l.digits, l.plus);
    }
    if bang, prefix, digits, plus :| Grammatical(t, bang, prefix, digits, plus) {
      var l := Literal(bang, if prefix == [] then None else Some(prefix[1]), digits, plus);
      assert IsLiteral(l) && Spelling(l) == t;
    }
  }

  // ----- Meaning -----

  /** The number a literal stands for, where the applet's buffers lie at the given addresses. */
  function Meaning(l: Literal, scratch: word32, rawSysCallAt: word32): word32 {
    var n := Word(Value(l.marker.Some?, l.digits));
    if l.bang then rawSysCallAt else if l.plus then Word(n + scratch) else n
  }

  /** The A-line opcode that `DEFINE_SYSCALL` gives to index `value` modulo 512. */
  function Opcode(value: int): int {
    0xA000 + 4 * (value % 512)
  }

  lemma QuarterOfShifted(n: word32)
    ensures 0 <= Word(4 * n) / 4 && Word(4 * n) / 4 % 0x200 == n % 0x200
  {
  }

  /** `0xA000 | ((n << 2) & 0x7fc)` is that opcode. */
  lemma OpcodeBits(n: word32)
    ensures Or(0xA000, And(Shl(n, 2), 0x7FC)) == Opcode(n)
  {
    hide Or, And, Shl, IsPowerOfTwo, Word;
    Powers();
    ShlIsProduct(n);
    QuarterOfShifted(n);
    var k := Shl(n, 2) / 4;
    AndHighBits(Shl(n, 2), k, 0x1FF, 4, 0x7FC);
    AndLowBits(k, 0x200);
    JoinBits(0xA000, 0x2000, 4 * (n % 0x200));
  }

  lemma RoomForDigit(n: word32, d: int)
    requires 0 <= d < 16
    ensures Word(16 * n) % 16 == 0 && Word(16 * n) + d == Word(n * 16 + d)
  {
  }

  /** `(n << 4) | c` appends a hex digit. */
  lemma AppendHexDigitBits(n: word32, c: byte)
    requires c < 16
    ensures Or(Shl(n, 4), c as int) == Word(n * 16 + c as int)
  {
    var d := c as int;
    assert 0 <= d < 16;
    AppendNibbleBits(n, d);
  }

  lemma AppendNibbleBits(n: word32, d: int)
    requires 0 <= d < 16
    ensures Or(Shl(n, 4), d) == Word(n * 16 + d)
  {
    hide Or, Shl, IsPowerOfTwo, Word;
    Powers();
    ShlIsProduct(n);
    RoomForDigit(n, d);
    JoinBits(Shl(n, 4), 16, d);
  }

  /** Which digits of a text are read as its number, and in which base. */
  function NumberPart(t: seq<byte>): (bool, seq<byte>) {
    var (marker, v) := StripPrefix(StripBang(t).1);
    (marker.Some?, v[..DigitRun(marker.Some?, v)])
  }

  /** In a literal, those are its digits. */
  lemma NumberPartOfLiteral(l: Literal)
    requires IsLiteral(l)
    ensures NumberPart(Spelling(l)) == (l.marker.Some?, l.digits)
  {
    ReadIsComplete(l);
  }

  lemma EightDigits()
    ensures PowerOf16(8) == 0x1_0000_0000
  {
    assert PowerOf16(4) == 0x1_0000;
  }

  /** The text `0x%08X` of any 32-bit number reads back as that number. */
  lemma PrintReadRoundTrip(w: word32, scratch: word32, rawSysCallAt: word32)
    ensures var r := Read([ZERO, LOWER_X] + HexN(w, 8)); r.Some? && Meaning(r.value, scratch, rawSysCallAt) == w
  {
    hide Read, HexN, PowerOf16, Value;
    var l := Literal(false, Some(LOWER_X), HexN(w, 8), false);
    HexNIsHex(w, 8);
    assert Spelling(l) == [ZERO, LOWER_X] + HexN(w, 8);
    ReadIsComplete(l);
    EightDigits();
    PrintedValue(w, 8);
  }

  // ----- Decimal text, and hexadecimal text in small letters -----

  /** The decimal text of a number, by division by ten. */
  function DecimalText(n: nat): (text: seq<byte>)
    ensures |text| >= 1
  {
    (if n < 10 then [] else DecimalText(n / 10)) + [HexDigit(n % 10)]
  }

  lemma {:induction false} DecimalTextIsDigits(n: nat)
    ensures AllDigits(false, DecimalText(n))
  {
    DecimalDigit(n % 10);
    if n >= 10 {
      DecimalTextIsDigits(n / 10);
    }
  }

  lemma DecimalDigit(d: int)
    requires 0 <= d < 10
    ensures IsDecimal(HexDigit(d)) && DigitValue(HexDigit(d)) == d
  {
    HexDigitRoundTrip(d);
  }

  lemma DecimalStep(n: nat)
    ensures DecimalText(n) == (if n < 10 then [] else DecimalText(n / 10)) + [HexDigit(n % 10)]
  {
  }

  lemma ValueStep(hex: bool, digits: seq<byte>, c: byte)
    ensures Value(hex, []) == 0 && Value(hex, digits + [c]) == Value(hex, digits) * Base(hex) + DigitValue(c)
  {
    assert (digits + [c])[..|digits|] == digits;
  }

  /** Its value is the number, whatever its length. */
  lemma {:induction false} DecimalValue(n: nat)
    ensures Value(false, DecimalText(n)) == n
  {
    hide HexDigit, DigitValue, Value, DecimalText;
    DecimalStep(n);
    DecimalDigit(n % 10);
    if n >= 10 {
      DecimalValue(n / 10);
      ValueStep(false, DecimalText(n / 10), HexDigit(n % 10));
    } else {
      ValueStep(false, [], HexDigit(n % 10));
    }
  }

  /** Decimal text alone, with a `+` behind it, and with a `!` before it. */
  lemma DecimalReadRoundTrip(n: nat, scratch: word32, rawSysCallAt: word32)
    ensures Read(DecimalText(n)) == Some(Literal(false, None, DecimalText(n), false))
    ensures Meaning(Read(DecimalText(n)).value, scratch, rawSysCallAt) == n % 0x1_0000_0000
    ensures var r := Read(DecimalText(n) + [0x2B]);
            r.Some? && Meaning(r.value, scratch, rawSysCallAt) == (n + scratch) % 0x1_0000_0000
    ensures var r := Read([0x21] + DecimalText(n));
            r.Some? && Meaning(r.value, scratch, rawSysCallAt) == rawSysCallAt
  {
    hide Read, Value, DecimalText, IsDigit;
    var text := DecimalText(n);
    DecimalTextIsDigits(n);
    DecimalValue(n);
    var plain, plus, bang := Literal(false, None, text, false), Literal(false, None, text, true), Literal(true, None, text, false);
    assert Spelling(plain) == text && Spelling(plus) == text + [0x2B] && Spelling(bang) == [0x21] + text;
    ReadIsComplete(plain);
    ReadIsComplete(plus);
    ReadIsComplete(bang);
    SumOfWords(n, scratch);
  }

  lemma SumOfWords(n: nat, m: nat)
    ensures Word(Word(n) + m) == (n + m) % 0x1_0000_0000
  {
  }

  /** What a `!` and decimal text leave as the opcode. */
  lemma DecimalSystemCall(n: nat)
    ensures NumberPart([0x21] + DecimalText(n)) == (false, DecimalText(n))
    ensures Opcode(Value(false, DecimalText(n))) == 0xA000 + 4 * (n % 512)
  {
    hide Value, DecimalText, NumberPart, IsDigit;
    var l := Literal(true, None, DecimalText(n), false);
    DecimalTextIsDigits(n);
    DecimalValue(n);
    assert Spelling(l) == [0x21] + DecimalText(n);
    NumberPartOfLiteral(l);
  }

  /** A letter digit in small. */
  function Small(c: byte): byte {
    if 0x41 <= c <= 0x46 then c + 0x20 else c
  }

  function SmallText(text: seq<byte>): (small: seq<byte>)
    ensures |small| == |text| && forall i :: 0 <= i < |text| ==> small[i] == Small(text[i])
  {
    seq(|text|, i requires 0 <= i < |text| => Small(text[i]))
  }

  /** The letter case of a digit does not change its value. */
  lemma CaseKeepsDigit(c: byte)
    requires IsHex(c)
    ensures IsHex(Small(c)) && DigitValue(Small(c)) == DigitValue(c)
  {
  }

  lemma {:induction false} CaseKeepsValue(text: seq<byte>)
    requires AllDigits(true, text)
    ensures AllDigits(true, SmallText(text)) && Value(true, SmallText(text)) == Value(true, text)
  {
    hide DigitValue, Small;
    if text != [] {
      var front, c := text[..|text| - 1], text[|text| - 1];
      CaseKeepsValue(front);
      CaseKeepsDigit(c);
      assert SmallText(text)[..|text| - 1] == SmallText(front);
      forall i | 0 <= i < |text| ensures IsDigit(true, SmallText(text)[i]) {
        CaseKeepsDigit(text[i]);
      }
    }
  }

  /** `0x%08x` of any 32-bit number reads back as that number too, also after a large X. */
  lemma SmallReadRoundTrip(w: word32, marker: byte, scratch: word32, rawSysCallAt: word32)
    requires marker == 0x78 || marker == 0x58
    ensures var r := Read([0x30, marker] + SmallText(HexN(w, 8))); r.Some? && Meaning(r.value, scratch, rawSysCallAt) == w
  {
    hide Read, HexN, PowerOf16, Value, SmallText;
    var text := HexN(w, 8);
    HexNIsHex(w, 8);
    CaseKeepsValue(text);
    var l := Literal(false, Some(marker), SmallText(text), false);
    assert Spelling(l) == [0x30, marker] + SmallText(text);
    ReadIsComplete(l);
    EightDigits();
    PrintedValue(w, 8);
  }
}
