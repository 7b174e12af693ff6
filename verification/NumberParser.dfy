/** `NumberFromString` of DebugTool.c: one pass over a C string, against the grammar of NumberGrammar. */
module NumberParser {
  import opened Bits
  import opened Words
  import opened Hex
  import opened NumberGrammar

  /** The text before the terminating NUL. */
  function Text(buffer: seq<byte>): (t: seq<byte>)
    requires 0 in buffer
    ensures |t| < |buffer| && t == buffer[..|t|] && buffer[|t|] == 0 && 0 !in t
  {
    if buffer[0] == 0 then [] else
      assert 0 in buffer[1..];
      [buffer[0]] + Text(buffer[1..])
  }

  lemma DigitRunIs(hex: bool, t: seq<byte>, n: nat)
    requires n <= |t| && NumberGrammar.AllDigits(hex, t[..n]) && (n < |t| ==> !IsDigit(hex, t[n]))
    ensures DigitRun(hex, t) == n
  {
    assert t == t[..n] + t[n..];
    DigitRunOfDigits(hex, t[..n], t[n..]);
  }

  lemma WordOfMultiple(v: int, base: int, d: int)
    requires base == 10 || base == 16
    ensures Word(Word(v) * base + d) == Word(v * base + d)
  {
    var k := v / TWO32;
    assert v == k * TWO32 + Word(v);
    if base == 10 {
      assert v * 10 + d == (Word(v) * 10 + d) + (10 * k) * TWO32;
    } else {
      assert v * 16 + d == (Word(v) * 16 + d) + (16 * k) * TWO32;
    }
  }

  lemma AppendDigit(hex: bool, digits: seq<byte>, n: word32, c: byte)
    requires n == Word(Value(hex, digits))
    ensures Word(n * Base(hex) + DigitValue(c)) == Word(Value(hex, digits + [c]))
  {
    hide Word, DigitValue;
    assert (digits + [c])[..|digits|] == digits;
    WordOfMultiple(Value(hex, digits), Base(hex), DigitValue(c));
  }

  lemma ValueOfNothing(hex: bool)
    ensures Value(hex, []) == 0
  {
  }

  lemma BangComesFirst(l: Literal)
    requires l.bang
    ensures Spelling(l) != [] && Spelling(l)[0] == BANG
  {
  }

  /** The reader, once its three steps are known. */
  lemma ReadOutcome(t: seq<byte>, bang: bool, u: seq<byte>, marker: Option<byte>, v: seq<byte>, run: int)
    requires StripBang(t) == (bang, u) && StripPrefix(u) == (marker, v) && run == DigitRun(marker.Some?, v)
    ensures var plus := !bang && run < |v| && v[run] == PLUS;
            Read(t) == if run + (if plus then 1 else 0) == |v| then Some(Literal(bang, marker, v[..run], plus)) else None
  {
  }

  lemma BangIs(buffer: seq<byte>)
    requires 0 in buffer
    ensures var bang := buffer[0] == BANG;
            (bang ==> Text(buffer) != []) && StripBang(Text(buffer)) == (bang, Text(buffer)[if bang then 1 else 0..])
  {
  }

  lemma PrefixIs(buffer: seq<byte>, p: nat)
    requires 0 in buffer && p <= |Text(buffer)|
    ensures var hex := buffer[p] == ZERO && IsX(buffer[p + 1]);
            && (hex ==> p + 2 <= |Text(buffer)|)
            && StripPrefix(Text(buffer)[p..])
                 == (if hex then Some(buffer[p + 1]) else None, Text(buffer)[if hex then p + 2 else p..])
  {
    var u := Text(buffer)[p..];
    assert |u| >= 2 ==> u[2..] == Text(buffer)[p + 2..];
  }

  lemma OpcodeIgnoresHighBits(value: int)
    ensures Opcode(Word(value)) == Opcode(value)
  {
    var q := value / TWO32;
    assert value == q * TWO32 + Word(value);
    assert value == (q * 0x80_0000) * 512 + Word(value);
  }

  class Reader {
    /** Where g_scratch and g_rawSysCall lie. */
    const scratch: word32
    const rawSysCallAt: word32
    var rawSysCall: int

    constructor (scratch: word32, rawSysCallAt: word32)
      ensures this.scratch == scratch && this.rawSysCallAt == rawSysCallAt
    {
      this.scratch, this.rawSysCallAt, rawSysCall := scratch, rawSysCallAt, 0;
    }

    /** The two digit loops: `start` is where the digits begin in `t`, `i` the first character that is none. */
    method ReadDigits(t: seq<byte>, hex: bool, start: nat) returns (i: nat, n: word32)
      requires 0 in t && start <= |Text(t)|
      ensures start <= i <= |Text(t)| && i - start == DigitRun(hex, Text(t)[start..])
      ensures n == Word(Value(hex, Text(t)[start..i]))
    {
      hide Value, HexCharToNibble, Or, Shl;
      ghost var text := Text(t);
      ValueOfNothing(hex);
      assert text[start..start] == [];
      i, n := start, 0;
      while t[i] != 0
        invariant start <= i <= |text| && AllDigits(hex, text[start..i])
        invariant n == Word(Value(hex, text[start..i]))
        decreases |text| - i
      {
        if !IsDigit(hex, t[i]) {
          break;
        }
        AppendDigit(hex, text[start..i], n, t[i]);
        assert text[start..i] + [t[i]] == text[start..i + 1];
        if hex {
          AppendHexDigitBits(n, HexCharToNibble(t[i]));
          n := Or(Shl(n, 4), HexCharToNibble(t[i]) as int);
        } else {
          n := Word(n * 10 + DigitValue(t[i]));
        }
        i := i + 1;
      }
      assert text[start..][..i - start] == text[start..i];
      assert i < |text| ==> text[i] != 0;
      DigitRunIs(hex, text[start..], i - start);
    }

    /** Everything but a `$` literal; `bufferAt` is not needed, `former` is what *pNumber held before. */
    method ReadNumber(buffer: seq<byte>, former: word32) returns (ok: bool, number: word32)
      requires 0 in buffer
      modifies this
      ensures var r := Read(Text(buffer));
              && ok == r.Some?
              && number == if ok then Meaning(r.value, scratch, rawSysCallAt) else former
      ensures var (hex, digits) := NumberPart(Text(buffer));
              rawSysCall == if buffer[0] == BANG then Opcode(Value(hex, digits)) else old(rawSysCall)
    {
      hide Value, DigitRun, Read, StripBang, StripPrefix, IsX, Text, Or, And, Shl;
      ghost var text := Text(buffer);
      BangIs(buffer);
      var syscall, p := false, 0;
      if buffer[0] == BANG {
        syscall := true;
        p := p + 1;
      }
      ghost var u := text[p..];
      PrefixIs(buffer, p);
      ghost var (marker, v) := StripPrefix(u);
      var hex := false;
      if buffer[p] == ZERO && IsX(buffer[p + 1]) {
        hex := true;
        p := p + 2;
      }
      assert hex == marker.Some? && v == text[p..];
      ghost var start := p;
      var n;
      p, n := ReadDigits(buffer, hex, p);
      ghost var run := p - start;
      assert v[..run] == text[start..p] && (run < |v| ==> v[run] == buffer[p]);
      ReadOutcome(text, syscall, u, marker, v, run);
      OpcodeIgnoresHighBits(Value(hex, v[..run]));

      if syscall {
        OpcodeBits(n);
        rawSysCall := Or(0xA000, And(Shl(n, 2), 0x7FC));
        n := rawSysCallAt;
      } else if buffer[p] == PLUS {
        n := Word(n + scratch);
        p := p + 1;
      }
      if buffer[p] != 0 {
        return false, former;
      }
      return true, n;
    }

    /** `bufferAt` is the address of `buffer`. */
    method NumberFromString(buffer: seq<byte>, bufferAt: word32, former: word32) returns (ok: bool, number: word32)
      requires 0 in buffer
      modifies this
      ensures buffer[0] == DOLLAR ==> ok && number == Word(bufferAt + 1) && rawSysCall == old(rawSysCall)
      ensures buffer[0] != DOLLAR ==> (ok <==> exists l :: IsLiteral(l) && Spelling(l) == Text(buffer))
      ensures forall l :: buffer[0] != DOLLAR && IsLiteral(l) && Spelling(l) == Text(buffer) ==>
                number == Meaning(l, scratch, rawSysCallAt) && (l.bang ==> rawSysCall == Opcode(Value(l.marker.Some?, l.digits)))
      ensures !ok ==> number == former
      ensures var (hex, digits) := NumberPart(Text(buffer));
              rawSysCall == if buffer[0] == BANG then Opcode(Value(hex, digits)) else old(rawSysCall)
    {
      hide Read, IsLiteral, Spelling, NumberPart;
      if buffer[0] == DOLLAR {
        // A string literal stands for its own address.
        return true, Word(bufferAt + 1);
      }
      AcceptedIff(Text(buffer));
      forall l | IsLiteral(l) && Spelling(l) == Text(buffer) ensures Read(Text(buffer)) == Some(l) {
        ReadIsComplete(l);
      }
      forall l | IsLiteral(l) && Spelling(l) == Text(buffer)
        ensures NumberPart(Text(buffer)) == (l.marker.Some?, l.digits) && (l.bang ==> buffer[0] == BANG)
      {
        NumberPartOfLiteral(l);
        if l.bang {
          BangComesFirst(l);
          assert Text(buffer)[0] == buffer[0];
        }
      }
      ok, number := ReadNumber(buffer, former);
    }
  }
}
