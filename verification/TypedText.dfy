/** What typing does, in character codes: digits of either letter case, other characters, and the codes that are not text. */
module TypedText {
  import opened Words
  import opened Hex
  import opened Editor
  import opened NibbleTape

  /** The message for digit `n`, in either letter case. */
  predicate TypesDigit(m: Message, n: int) {
    0 <= n < 16 && m.Char? && (m.param == DigitCode(n, false) || m.param == DigitCode(n, true))
  }

  /** Two digits for each byte, the high one first. */
  ghost predicate TypesBytes(ms: seq<Message>, bytes: seq<byte>) {
    |ms| == 2 * |bytes|
    && forall j :: 0 <= j < |bytes| ==> TypesDigit(ms[2 * j], bytes[j] as int / 16) && TypesDigit(ms[2 * j + 1], bytes[j] as int % 16)
  }

  lemma CodesAreSmall(n: int, lower: bool)
    requires 0 <= n < 16
    ensures 0x30 <= DigitCode(n, lower) < 0x80
  {
  }

  lemma SmallCode(param: word32, c: byte)
    requires param == c as int
    ensures LowByte(param) == c
  {
    hide LowByte, AsByte;
    ByteRange(c);
    LowByteOfSmall(param);
    CodeRoundTrip(c);
  }

  lemma ByteRange(c: byte)
    ensures 0 <= c as int < 256
  {
  }

  lemma LowByteOfSmall(v: word32)
    requires v < 256
    ensures LowByte(v) == AsByte(v)
  {
  }

  lemma CodeRoundTrip(c: byte)
    ensures AsByte(c as int) == c
  {
  }

  lemma DigitMessage(m: Message, n: int)
    requires TypesDigit(m, n)
    ensures IsTapeMessage(m) && DigitOf(m) as int == n
  {
    hide LowByte, HexCharToNibble, DigitCode;
    CodesAreSmall(n, false);
    CodesAreSmall(n, true);
    var c := m.param as byte;
    SmallCode(m.param, c);
    DigitsRead(c, n);
    assert HexCharToNibble(c) as int == n;
    NibbleIsHex(c);
  }

  lemma NibbleIsHex(c: byte)
    requires HexCharToNibble(c) as int < 16
    ensures IsHex(c)
  {
  }

  lemma JoinedNibbles(b: byte, hi: byte, lo: byte)
    requires hi as int == b as int / 16 && lo as int == b as int % 16
    ensures (hi << 4) | lo == b
  {
    NibblesOfByte(b);
    assert hi == b >> 4 && lo == b & 0x0F;
    ByteOfNibbles(b, hi, lo);
  }

  /** Typing the digits of any bytes, in any mixture of cases, from a high nibble stores exactly these bytes. */
  lemma HexTextStoresBytes(s: Setup, e: Core, ms: seq<Message>, bytes: seq<byte>, a: word32)
    requires InWindow(s, e) && e.mode == NibbleHi && TypesBytes(ms, bytes) && |bytes| <= TWO32
    ensures var f, j := Session(s, e, ms), (a - e.Position()) % TWO32;
            && f.mem[a] == (if j < |bytes| then bytes[j] else e.mem[a])
            && f.Position() == (e.Position() + |bytes|) % 0x1_0000_0000 && f.mode == NibbleHi
  {
    hide Session, TypesDigit, DigitOf, IsTapeMessage;
    forall i | 0 <= i < |ms| ensures ms[i].Char? && IsTapeMessage(ms[i]) {
      var j := i / 2;
      assert i == 2 * j || i == 2 * j + 1;
      assert TypesDigit(ms[2 * j], bytes[j] as int / 16) && TypesDigit(ms[2 * j + 1], bytes[j] as int % 16);
      if i == 2 * j {
        DigitIsChar(ms[i], bytes[j] as int / 16);
      } else {
        DigitIsChar(ms[i], bytes[j] as int % 16);
      }
    }
    var j := (a - e.Position()) % TWO32;
    TypingStoresBytes(s, e, ms, |bytes|, a);
    TypingAdvances(s, e, ms, |bytes|);
    if j < |bytes| {
      DigitIsChar(ms[2 * j], bytes[j] as int / 16);
      DigitIsChar(ms[2 * j + 1], bytes[j] as int % 16);
      JoinedNibbles(bytes[j], DigitOf(ms[2 * j]), DigitOf(ms[2 * j + 1]));
    }
  }

  lemma DigitIsChar(m: Message, n: int)
    requires TypesDigit(m, n)
    ensures m.Char? && IsTapeMessage(m) && DigitOf(m) as int == n
  {
    hide IsTapeMessage, DigitOf;
    DigitMessage(m, n);
  }

  /** In particular, typing back what the hex pane prints for some bytes stores these bytes. */
  lemma PrintedBytesAreTyped(ms: seq<Message>, bytes: seq<byte>)
    requires |ms| == 2 * |bytes|
    requires forall j :: 0 <= j < |bytes| ==>
               ms[2 * j] == Char(Hex2(bytes[j])[0] as int) && ms[2 * j + 1] == Char(Hex2(bytes[j])[1] as int)
    ensures TypesBytes(ms, bytes)
  {
    hide Hex2, HexDigit, DigitCode;
    forall j | 0 <= j < |bytes|
      ensures TypesDigit(ms[2 * j], bytes[j] as int / 16) && TypesDigit(ms[2 * j + 1], bytes[j] as int % 16)
    {
      var b := bytes[j] as int;
      Hex2Digits(bytes[j]);
      PrintedDigit(b / 16);
      PrintedDigit(b % 16);
    }
  }

  /** In the ASCII pane any text without the codes 9 and 13 is stored code by code. */
  lemma AsciiCodesAreStored(s: Setup, e: Core, ms: seq<Message>, bytes: seq<byte>, a: word32)
    requires InWindow(s, e) && e.mode == Ascii && |ms| == |bytes| <= TWO32
    requires forall i :: 0 <= i < |ms| ==> ms[i] == Char(bytes[i] as int) && bytes[i] != 9 && bytes[i] != 13
    ensures var f, j := Session(s, e, ms), (a - e.Position()) % TWO32;
            && f.mem[a] == (if j < |bytes| then bytes[j] else e.mem[a])
            && f.Position() == (e.Position() + |bytes|) % 0x1_0000_0000 && f.mode == Ascii
  {
    hide Session, LowByte;
    forall i | 0 <= i < |ms| ensures ms[i].Char? && ms[i].param != TAB && ms[i].param != CR {
      assert bytes[i] as int != 9 && bytes[i] as int != 13;
    }
    AsciiTextIsStored(s, e, ms, a);
    var j := (a - e.Position()) % TWO32;
    if j < |bytes| {
      SmallCode(ms[j].param, bytes[j]);
    }
  }

  lemma DigitCodeIsTyped(c: byte, m: Message)
    requires HexCharToNibble(c) < 0x80 && m == Char(c as int)
    ensures exists n :: 0 <= n < 16 && TypesDigit(m, n)
  {
    hide HexCharToNibble, DigitCode;
    OnlyDigitsRead(c);
    var n :| 0 <= n < 16 && (c as int == DigitCode(n, false) || c as int == DigitCode(n, true));
    assert TypesDigit(m, n);
  }

  /** Code 9 switches panes, 13 does nothing, and in the hex pane no character does but the digits. */
  lemma OtherCodes(s: Setup, e: Core, param: word32)
    requires s.Valid()
    ensures Step(s, e, Char(9)) == e.(mode := if e.mode == Ascii then NibbleHi else Ascii)
    ensures Step(s, e, Char(13)) == e
    ensures e.mode != Ascii && param < 0x100 && param != 9 && (forall n :: 0 <= n < 16 ==> !TypesDigit(Char(param), n)) ==>
              Step(s, e, Char(param)) == e
  {
    hide HexCharToNibble, LowByte, DigitCode;
    if e.mode != Ascii && param < 0x100 && (forall n :: 0 <= n < 16 ==> !TypesDigit(Char(param), n)) {
      var c := param as byte;
      SmallCode(param, c);
      OnlyDigitsRead(c);
      if HexCharToNibble(c) < 0x80 {
        DigitCodeIsTyped(c, Char(param));
      }
    }
  }
}
