/** The hex pane is a flat tape of 2^33 nibbles: windows, rows and modes do not show in what gets written where. */
module NibbleTape {
  import opened Words
  import opened Hex
  import opened Editor

  const TAPE: int := 0x2_0000_0000

  datatype Tape = Tape(head: int, cells: seq<byte>)

  datatype TapeKey = Type(n: byte) | Rewind | Advance

  function Nibble(mem: Memory, i: int): byte
    requires 0 <= i < TAPE
  {
    if i % 2 == 0 then mem[i / 2] >> 4 else mem[i / 2] & 0x0F
  }

  function Nibbles(mem: Memory): (cells: seq<byte>)
    ensures |cells| == TAPE
    ensures forall i :: 0 <= i < TAPE ==> cells[i] == Nibble(mem, i)
  {
    seq(TAPE, i requires 0 <= i < TAPE => Nibble(mem, i))
  }

  function Head(e: Core): (h: int)
    ensures 0 <= h < TAPE
  {
    2 * e.Position() + if e.mode == NibbleLo then 1 else 0
  }

  function TapeOf(e: Core): (t: Tape)
    ensures 0 <= t.head < TAPE && |t.cells| == TAPE
  {
    Tape(Head(e), Nibbles(e.mem))
  }

  function TapeStep(t: Tape, k: TapeKey): (u: Tape)
    requires 0 <= t.head < TAPE && |t.cells| == TAPE
    ensures 0 <= u.head < TAPE && |u.cells| == TAPE
  {
    match k
    case Type(n) => Tape((t.head + 1) % TAPE, t.cells[t.head := n])
    case Rewind => t.(head := (t.head - 1) % TAPE)
    case Advance => t.(head := (t.head + 1) % TAPE)
  }

  /** Hex digits and the Left and Right keys. */
  predicate IsTapeMessage(m: Message) {
    match m
    case Char(param) => IsHex(LowByte(param)) && param != TAB && param != CR
    case KeyDown(param) => KeyOf(param) == Left || KeyOf(param) == Right
  }

  function TapeKeyOf(m: Message): TapeKey
    requires IsTapeMessage(m)
  {
    match m
    case Char(param) => Type(HexCharToNibble(LowByte(param)))
    case KeyDown(param) => if KeyOf(param) == Left then Rewind else Advance
  }

  lemma MergedNibbles(b: byte, n: byte)
    requires n < 16
    ensures Merge(b, n << 4, 0x0F) >> 4 == n && Merge(b, n << 4, 0x0F) & 0x0F == b & 0x0F
    ensures Merge(b, n, 0xF0) >> 4 == b >> 4 && Merge(b, n, 0xF0) & 0x0F == n
  {
  }

  lemma StoreWritesOneNibble(e: Core, n: byte)
    requires n < 16 && e.mode != Ascii
    ensures var stored := if e.mode == NibbleHi then Store(e, n << 4, 0x0F) else Store(e, n, 0xF0);
            Nibbles(stored.mem) == Nibbles(e.mem)[Head(e) := n]
  {
    hide Merge, Word;
    var stored := if e.mode == NibbleHi then Store(e, n << 4, 0x0F) else Store(e, n, 0xF0);
    MergedNibbles(e.mem[e.Position()], n);
    forall i | 0 <= i < TAPE ensures Nibbles(stored.mem)[i] == Nibbles(e.mem)[Head(e) := n][i] {
    }
  }

  lemma HeadMoves(s: Setup, e: Core, d: int)
    requires InWindow(s, e) && -1 <= d <= 1 && e.mode != Ascii
    requires (d == 1 ==> e.mode == NibbleHi) && (d == -1 ==> e.mode == NibbleLo)
    ensures MoveCursor(s, e, e.cursor + d).mem == e.mem && MoveCursor(s, e, e.cursor + d).mode == e.mode
    ensures Head(MoveCursor(s, e, e.cursor + d)) == (2 * (e.Position() + d) + if e.mode == NibbleLo then 1 else 0) % TAPE
  {
    MoveIsExact(s, e, e.cursor + d);
    WordAbsorbs(e.address + e.cursor, d);
    DoubledWord(e.Position() + d, if e.mode == NibbleLo then 1 else 0);
  }

  /** Nibble positions wrap where byte positions do. */
  lemma DoubledWord(x: int, low: int)
    requires 0 <= low < 2
    ensures 2 * Word(x) + low == (2 * x + low) % TAPE
  {
  }

  lemma DigitIsTapeStep(s: Setup, e: Core, param: word32)
    requires InWindow(s, e) && e.mode != Ascii && IsTapeMessage(Char(param))
    ensures TapeOf(OnChar(s, e, param)) == TapeStep(TapeOf(e), TapeKeyOf(Char(param)))
    ensures OnChar(s, e, param).mode != Ascii
  {
    hide Merge, LowByte, HexCharToNibble;
    var n := HexCharToNibble(LowByte(param));
    StoreWritesOneNibble(e, n);
    if e.mode == NibbleLo {
      HeadMoves(s, Store(e, n, 0xF0).(mode := NibbleHi), 1);
    }
  }

  lemma WindowIgnoresMode(s: Setup, e: Core)
    requires InWindow(s, e)
    ensures s.Valid() && InWindow(s, e.(mode := NibbleLo)) && InWindow(s, e.(mode := NibbleHi))
  {
  }

  lemma ArrowIsTapeStep(s: Setup, e: Core, param: word32)
    requires InWindow(s, e) && e.mode != Ascii && IsTapeMessage(KeyDown(param))
    ensures TapeOf(OnKey(s, e, KeyOf(param))) == TapeStep(TapeOf(e), TapeKeyOf(KeyDown(param)))
    ensures OnKey(s, e, KeyOf(param)).mode != Ascii
  {
    hide KeyOf, MoveCursor, Nibbles, Word, InWindow;
    WindowIgnoresMode(s, e);
    if KeyOf(param) == Left && e.mode == NibbleHi {
      HeadMoves(s, e.(mode := NibbleLo), -1);
    } else if KeyOf(param) == Right && e.mode == NibbleLo {
      HeadMoves(s, e.(mode := NibbleHi), 1);
    }
  }

  /** One keystroke, whichever half of which byte of whichever window it falls on. */
  lemma StepIsTapeStep(s: Setup, e: Core, m: Message)
    requires InWindow(s, e) && e.mode != Ascii && IsTapeMessage(m)
    ensures TapeOf(Step(s, e, m)) == TapeStep(TapeOf(e), TapeKeyOf(m))
    ensures InWindow(s, Step(s, e, m)) && Step(s, e, m).mode != Ascii
  {
    hide OnChar, OnKey, KeyOf, TapeOf, TapeStep, InWindow;
    StepStaysInWindow(s, e, m);
    match m
    case Char(param) => DigitIsTapeStep(s, e, param);
    case KeyDown(param) => ArrowIsTapeStep(s, e, param);
  }

  ghost predicate AllTapeMessages(ms: seq<Message>) {
    forall i :: 0 <= i < |ms| ==> IsTapeMessage(ms[i])
  }

  function TapeRun(t: Tape, ms: seq<Message>): (u: Tape)
    requires 0 <= t.head < TAPE && |t.cells| == TAPE && AllTapeMessages(ms)
    ensures 0 <= u.head < TAPE && |u.cells| == TAPE
  {
    if ms == [] then t else TapeStep(TapeRun(t, ms[..|ms| - 1]), TapeKeyOf(ms[|ms| - 1]))
  }

  /** The refinement over every run of hex digits and Left and Right keys. */
  lemma {:induction false} SessionIsTapeRun(s: Setup, e: Core, ms: seq<Message>)
    requires InWindow(s, e) && e.mode != Ascii && AllTapeMessages(ms)
    ensures TapeOf(Session(s, e, ms)) == TapeRun(TapeOf(e), ms)
    ensures InWindow(s, Session(s, e, ms)) && Session(s, e, ms).mode != Ascii
  {
    if ms != [] {
      SessionIsTapeRun(s, e, ms[..|ms| - 1]);
      StepIsTapeStep(s, Session(s, e, ms[..|ms| - 1]), ms[|ms| - 1]);
    }
  }

  // ----- Typing bytes -----

  ghost predicate AllDigits(ms: seq<Message>) {
    forall i :: 0 <= i < |ms| ==> ms[i].Char? && IsTapeMessage(ms[i])
  }

  function DigitOf(m: Message): byte
    requires m.Char?
  {
    HexCharToNibble(LowByte(m.param))
  }

  /** A tape position is the `n`-th from the head exactly when it lies `n` ahead of it. */
  lemma DistanceFromHead(head: int, i: int, n: int)
    requires 0 <= head < TAPE && 0 <= i < TAPE && 0 <= n < TAPE
    ensures (i - head) % TAPE == n <==> i == (head + n) % TAPE
  {
    assert (i - head) % TAPE == if i >= head then i - head else i - head + TAPE;
    assert (head + n) % TAPE == if head + n < TAPE then head + n else head + n - TAPE;
  }

  lemma NextHead(head: int, n: int)
    ensures ((head + n) % TAPE + 1) % TAPE == (head + n + 1) % TAPE
  {
  }

  /** Typing up to a tapeful of digits writes them in order from the head, and nothing else. */
  lemma {:induction false} TypingFillsTape(t: Tape, ms: seq<Message>, i: int)
    requires 0 <= t.head < TAPE && |t.cells| == TAPE && AllDigits(ms) && |ms| <= TAPE && 0 <= i < TAPE
    ensures TapeRun(t, ms).head == (t.head + |ms|) % TAPE
    ensures var j := (i - t.head) % TAPE;
            TapeRun(t, ms).cells[i] == if j < |ms| then DigitOf(ms[j]) else t.cells[i]
  {
    hide TapeRun, DigitOf;
    if ms == [] {
      TapeRunNone(t);
    } else {
      var front := ms[..|ms| - 1];
      TypingFillsTape(t, front, i);
      DistanceFromHead(t.head, i, |front|);
      NextHead(t.head, |front|);
      TapeRunStep(t, ms);
    }
  }

  lemma TapeRunNone(t: Tape)
    requires 0 <= t.head < TAPE && |t.cells| == TAPE
    ensures TapeRun(t, []) == t
  {
  }

  lemma TapeRunStep(t: Tape, ms: seq<Message>)
    requires 0 <= t.head < TAPE && |t.cells| == TAPE && AllDigits(ms) && ms != []
    ensures var u := TapeRun(t, ms[..|ms| - 1]);
            TapeRun(t, ms) == Tape((u.head + 1) % TAPE, u.cells[u.head := DigitOf(ms[|ms| - 1])])
  {
  }

  lemma ByteOfNibbles(b: byte, hi: byte, lo: byte)
    requires b >> 4 == hi && b & 0x0F == lo
    ensures b == (hi << 4) | lo
  {
  }

  lemma NibbleDistances(p: word32, a: word32)
    ensures (2 * a - 2 * p) % TAPE == 2 * ((a - p) % TWO32)
    ensures (2 * a + 1 - 2 * p) % TAPE == 2 * ((a - p) % TWO32) + 1
  {
  }

  /** Where an even number of digits leaves the head. */
  lemma HeadOfBytes(p: word32, q: word32, k: int, low: bool)
    requires 0 <= k && (2 * p + 2 * k) % TAPE == 2 * q + if low then 1 else 0
    ensures q == Word(p + k) && !low
  {
  }

  /** The two nibbles of one address after typing. */
  lemma TypedNibbles(s: Setup, e: Core, ms: seq<Message>, k: int, a: word32)
    requires InWindow(s, e) && e.mode == NibbleHi && AllDigits(ms) && |ms| == 2 * k && k <= TWO32
    ensures var j, mem := (a - e.Position()) % TWO32, Session(s, e, ms).mem;
            && Nibble(mem, 2 * a) == (if j < k then DigitOf(ms[2 * j]) else Nibble(e.mem, 2 * a))
            && Nibble(mem, 2 * a + 1) == (if j < k then DigitOf(ms[2 * j + 1]) else Nibble(e.mem, 2 * a + 1))
  {
    hide TapeRun, Session;
    var t, f := TapeOf(e), Session(s, e, ms);
    SessionIsTapeRun(s, e, ms);
    TypingFillsTape(t, ms, 2 * a);
    TypingFillsTape(t, ms, 2 * a + 1);
    NibbleDistances(e.Position(), a);
    assert Nibble(f.mem, 2 * a) == Nibbles(f.mem)[2 * a] && Nibble(f.mem, 2 * a + 1) == Nibbles(f.mem)[2 * a + 1];
    assert Nibble(e.mem, 2 * a) == Nibbles(e.mem)[2 * a] && Nibble(e.mem, 2 * a + 1) == Nibbles(e.mem)[2 * a + 1];
  }

  /** Typing 2k digits from a high nibble stores exactly their k bytes at consecutive addresses modulo 2^32. */
  lemma TypingStoresBytes(s: Setup, e: Core, ms: seq<Message>, k: int, a: word32)
    requires InWindow(s, e) && e.mode == NibbleHi && AllDigits(ms) && |ms| == 2 * k && k <= TWO32
    ensures var j := (a - e.Position()) % TWO32;
            Session(s, e, ms).mem[a] == if j < k then (DigitOf(ms[2 * j]) << 4) | DigitOf(ms[2 * j + 1]) else e.mem[a]
  {
    hide Session, HexCharToNibble, LowByte;
    var mem := Session(s, e, ms).mem;
    TypedNibbles(s, e, ms, k, a);
    ByteOfNibbles(mem[a], Nibble(mem, 2 * a), Nibble(mem, 2 * a + 1));
    ByteOfNibbles(e.mem[a], Nibble(e.mem, 2 * a), Nibble(e.mem, 2 * a + 1));
  }

  /** And it leaves the cursor k bytes on, on a high nibble. */
  lemma TypingAdvances(s: Setup, e: Core, ms: seq<Message>, k: int)
    requires InWindow(s, e) && e.mode == NibbleHi && AllDigits(ms) && |ms| == 2 * k && k <= TWO32
    ensures Session(s, e, ms).Position() == Word(e.Position() + k) && Session(s, e, ms).mode == NibbleHi
  {
    hide Session, TapeRun;
    var f := Session(s, e, ms);
    SessionIsTapeRun(s, e, ms);
    TypingFillsTape(TapeOf(e), ms, 0);
    HeadOfBytes(e.Position(), f.Position(), k, f.mode == NibbleLo);
  }
}
