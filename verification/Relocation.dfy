/** Patching 32-bit words in a byte memory, and the fix-up of crt0.S. */
module Relocation {
  import opened Bits
  import opened Words

  const TWO31: int := 0x8000_0000

  /** A byte as a number: the loader only ever puts bytes together into words. */
  type octet = x: int | 0 <= x < 256

  /** All of the 32-bit address space, as a program image and the loader see it. */
  type Image = m: seq<octet> | |m| == TWO32 witness seq(TWO32, _ => 0)

  ghost predicate IsSlot(a: int) {
    0 <= a && a + 4 <= TWO32
  }

  function Compose(b0: int, b1: int, b2: int, b3: int): int {
    b0 * 0x100_0000 + b1 * 0x1_0000 + b2 * 0x100 + b3
  }

  /** The big-endian word at `a`. */
  function Long(m: Image, a: int): word32
    requires IsSlot(a)
  {
    Compose(m[a], m[a + 1], m[a + 2], m[a + 3])
  }

  /** Byte `k` of a big-endian word. */
  function Octet(w: word32, k: int): octet
    requires 0 <= k < 4
  {
    if k == 0 then w / 0x100_0000 else if k == 1 then w / 0x1_0000 % 0x100 else if k == 2 then w / 0x100 % 0x100 else w % 0x100
  }

  predicate Within(slot: int, b: int) {
    slot <= b < slot + 4
  }

  function Patch(m: Image, a: int, w: word32): (p: Image)
    requires IsSlot(a)
    ensures forall b :: 0 <= b < TWO32 ==> p[b] == if a <= b < a + 4 then Octet(w, b - a) else m[b]
  {
    m[a := Octet(w, 0)][a + 1 := Octet(w, 1)][a + 2 := Octet(w, 2)][a + 3 := Octet(w, 3)]
  }

  lemma OctetsOfWord(w: word32)
    ensures Compose(Octet(w, 0), Octet(w, 1), Octet(w, 2), Octet(w, 3)) == w
  {
    assert w / 0x1_0000 == w / 0x100_0000 * 0x100 + w / 0x1_0000 % 0x100;
    assert w / 0x100 == w / 0x1_0000 * 0x100 + w / 0x100 % 0x100;
  }

  lemma ComposeIsInjective(a0: octet, a1: octet, a2: octet, a3: octet, b0: octet, b1: octet, b2: octet, b3: octet)
    requires Compose(a0, a1, a2, a3) == Compose(b0, b1, b2, b3)
    ensures a0 == b0 && a1 == b1 && a2 == b2 && a3 == b3
  {
  }

  /** Equal words are equal byte by byte. */
  lemma LongDeterminesBytes(m: Image, n: Image, a: int, b: int)
    requires IsSlot(a) && Long(m, a) == Long(n, a) && Within(a, b)
    ensures m[b] == n[b]
  {
    ComposeIsInjective(m[a], m[a + 1], m[a + 2], m[a + 3], n[a], n[a + 1], n[a + 2], n[a + 3]);
  }

  predicate Overlap(a: int, b: int) {
    a - 4 < b < a + 4
  }

  lemma LongAfterPatch(m: Image, a: int, w: word32, b: int)
    requires IsSlot(a) && IsSlot(b)
    ensures b == a ==> Long(Patch(m, a, w), b) == w
    ensures !Overlap(a, b) ==> Long(Patch(m, a, w), b) == Long(m, b)
  {
    OctetsOfWord(w);
  }

  // ----- .L_do_fixup -----

  /** The two bases: A5 for RAM, A6 for ROM. */
  datatype Bases = Bases(a5: word32, a6: word32)

  /** `.L_do_fixup`: null stays null; bit 31 of a link address tells RAM from ROM and is cleared. */
  function Fixup(bases: Bases, v: word32): word32 {
    if v == 0 then 0
    else if v < TWO31 then (v + bases.a6) % TWO32
    else (v - TWO31 + bases.a5) % TWO32
  }

  /** test.lds links ROM at 0 and RAM at 0x80000000. */
  const LINK_BASES := Bases(0x8000_0000, 0)

  /** The A5 that crt0.S derives from the program counter. */
  function A5FromPc(pc: word32): word32 {
    pc / 0x1000_0000 % 2 * 0x2000_0000 + 0x8000_0000
  }

  /** `((pc & 0x10000000) << 1) | 0x80000000` is what the instructions compute. */
  lemma A5FromPcBits(pc: word32)
    ensures Or(Shl(And(pc, 0x1000_0000), 1), 0x8000_0000) == A5FromPc(pc)
  {
    hide Or, And, Shl, IsPowerOfTwo;
    Powers();
    OneBit(pc, 0x1000_0000, pc / 0x1000_0000);
    ShlIsProduct(And(pc, 0x1000_0000));
    JoinBits(0x8000_0000, 0x8000_0000, Shl(And(pc, 0x1000_0000), 1));
  }

  /** The sign test and `bclr` of `.L_do_fixup` single out bit 31. */
  lemma FixupBits(bases: Bases, v: word32)
    ensures Fixup(bases, v) ==
              if v == 0 then 0
              else if And(v, TWO31) == 0 then Word(v + bases.a6) else Word(AndNot(v, TWO31) + bases.a5)
  {
    hide And, AndNot, IsPowerOfTwo;
    Powers();
    OneBit(v, TWO31, v / TWO31);
  }

  /** Each test image finds the RAM base its sections were placed at. */
  lemma A5MatchesImages(pc: word32)
    ensures pc < 0x100_0000 ==> A5FromPc(pc) == LINK_BASES.a5
    ensures 0x1000_0000 <= pc < 0x1100_0000 ==> A5FromPc(pc) == LINK_BASES.a5 + 0x2000_0000
  {
  }

  lemma FixupIsIdentityAtLinkBases(v: word32)
    ensures Fixup(LINK_BASES, v) == v
  {
  }

  /** What a fix-up makes null, besides null. */
  lemma FixupIsNullIff(bases: Bases, v: word32)
    ensures Fixup(bases, v) == 0 <==>
              v == 0 || (v < TWO31 && v + bases.a6 == TWO32)
              || (v >= TWO31 && (v - TWO31 + bases.a5 == 0 || v - TWO31 + bases.a5 == TWO32))
  {
  }

  // ----- Byte order -----

  /** The top bit of the first byte is the sign of the word. */
  lemma FirstByteHasSign(m: Image, a: int)
    requires IsSlot(a)
    ensures Long(m, a) >= 0x8000_0000 <==> m[a] >= 0x80
  {
  }

  /** Words compare as their bytes do, the first byte first. */
  lemma WordsOrderAsBytes(m: Image, a: int, n: Image, b: int)
    requires IsSlot(a) && IsSlot(b)
    ensures Long(m, a) < Long(n, b) <==>
              || m[a] < n[b]
              || (m[a] == n[b] && m[a + 1] < n[b + 1])
              || (m[a] == n[b] && m[a + 1] == n[b + 1] && m[a + 2] < n[b + 2])
              || (m[a] == n[b] && m[a + 1] == n[b + 1] && m[a + 2] == n[b + 2] && m[a + 3] < n[b + 3])
  {
  }

  lemma BytesOfLong(m: Image, a: int)
    requires IsSlot(a)
    ensures m[a] == Long(m, a) / 0x100_0000 && m[a + 1] == Long(m, a) / 0x1_0000 % 0x100
    ensures m[a + 2] == Long(m, a) / 0x100 % 0x100 && m[a + 3] == Long(m, a) % 0x100
  {
    OctetsOfWord(Long(m, a));
    ComposeIsInjective(m[a], m[a + 1], m[a + 2], m[a + 3],
                       Octet(Long(m, a), 0), Octet(Long(m, a), 1), Octet(Long(m, a), 2), Octet(Long(m, a), 3));
  }

  function Target(bases: Bases, b0: int, b1: int, b2: int, b3: int): int {
    var low := b1 * 0x1_0000 + b2 * 0x100 + b3;
    if b0 == 0 && low == 0 then 0
    else if b0 < 0x80 then (b0 * 0x100_0000 + low + bases.a6) % 0x1_0000_0000
    else ((b0 - 0x80) * 0x100_0000 + low + bases.a5) % 0x1_0000_0000
  }

  /** In bytes: a null word stays; otherwise base and offset are added, by the top bit of the first byte. */
  ghost predicate RelocatedBytes(bases: Bases, m: Image, p: Image, a: int)
    requires IsSlot(a)
  {
    var t := Target(bases, m[a], m[a + 1], m[a + 2], m[a + 3]);
    p[a] == t / 0x100_0000 && p[a + 1] == t / 0x1_0000 % 0x100 && p[a + 2] == t / 0x100 % 0x100 && p[a + 3] == t % 0x100
  }

  lemma FixupInBytes(bases: Bases, m: Image, p: Image, a: int)
    requires IsSlot(a) && Long(p, a) == Fixup(bases, Long(m, a))
    ensures RelocatedBytes(bases, m, p, a)
  {
    BytesOfLong(p, a);
  }

  // ----- Regions -----

  /** Region sizes, as the linker script allots them. */
  datatype Layout = Layout(rom: int, ram: int) {
    /** A non-null address of the link image. */
    predicate Linked(v: int) {
      0 < v < rom || TWO31 <= v < TWO31 + ram
    }

    /** Bases at which both regions fit without wrapping, without sharing an address and without containing null. */
    ghost predicate Admits(bases: Bases) {
      && 0 <= rom <= TWO31 && 0 <= ram <= TWO31
      && bases.a6 + rom <= TWO32 && 0 < bases.a5 && bases.a5 + ram <= TWO32
      && (bases.a6 + rom <= bases.a5 || bases.a5 + ram <= bases.a6)
    }
  }

  lemma LinkBasesAreAdmissible(l: Layout)
    requires 0 <= l.rom <= TWO31 && 0 <= l.ram <= TWO31
    ensures l.Admits(LINK_BASES)
  {
  }

  /** The moved test image: ROM up by 0x10000000, RAM where the loader will look for it. */
  lemma MovedImageIsAdmissible(l: Layout, pc: word32)
    requires 0 <= l.rom <= 0x100_0000 && 0 <= l.ram <= 0x100_0000 && 0x1000_0000 <= pc < 0x1100_0000
    ensures l.Admits(Bases(A5FromPc(pc), 0x1000_0000))
  {
    A5MatchesImages(pc);
  }

  /** Regions go to regions, offsets are kept, and nothing becomes null. */
  lemma FixupMapsRegions(l: Layout, bases: Bases, v: word32)
    requires l.Admits(bases) && l.Linked(v)
    ensures v < TWO31 ==> Fixup(bases, v) == bases.a6 + v < bases.a6 + l.rom
    ensures v >= TWO31 ==> Fixup(bases, v) == bases.a5 + (v - TWO31) < bases.a5 + l.ram
    ensures Fixup(bases, v) != 0
  {
  }

  lemma FixupIsInjective(l: Layout, bases: Bases, v: word32, w: word32)
    requires l.Admits(bases) && l.Linked(v) && l.Linked(w)
    ensures Fixup(bases, v) == Fixup(bases, w) ==> v == w
  {
    FixupMapsRegions(l, bases, v);
    FixupMapsRegions(l, bases, w);
  }

  // ----- Fixing a list of slots in place -----

  ghost predicate AreSlots(slots: seq<word32>) {
    forall i :: 0 <= i < |slots| ==> IsSlot(slots[i])
  }

  ghost predicate Apart(slots: seq<word32>) {
    forall i, j :: 0 <= i < j < |slots| ==> !Overlap(slots[i], slots[j])
  }

  ghost predicate Disjoint(a: seq<word32>, b: seq<word32>) {
    forall i, j :: 0 <= i < |a| && 0 <= j < |b| ==> !Overlap(a[i], b[j])
  }

  function FixSlots(bases: Bases, m: Image, slots: seq<word32>): Image
    requires AreSlots(slots)
  {
    if slots == [] then m
    else
      var front, last := FixSlots(bases, m, slots[..|slots| - 1]), slots[|slots| - 1];
      Patch(front, last, Fixup(bases, Long(front, last)))
  }

  lemma FixNextSlot(bases: Bases, m: Image, slots: seq<word32>, i: int)
    requires AreSlots(slots) && 0 <= i < |slots|
    ensures var front := FixSlots(bases, m, slots[..i]);
            FixSlots(bases, m, slots[..i + 1]) == Patch(front, slots[i], Fixup(bases, Long(front, slots[i])))
  {
    assert slots[..i + 1][..i] == slots[..i];
  }

  ghost predicate Touches(slots: seq<word32>, b: int) {
    exists i :: 0 <= i < |slots| && Within(slots[i], b)
  }

  /** Nothing outside the listed slots changes. */
  lemma {:induction false} FixSlotsFrame(bases: Bases, m: Image, slots: seq<word32>, b: int)
    requires AreSlots(slots) && 0 <= b < TWO32 && !Touches(slots, b)
    ensures FixSlots(bases, m, slots)[b] == m[b]
  {
    if slots != [] {
      var front, n := slots[..|slots| - 1], |slots| - 1;
      forall i | 0 <= i < |front| ensures !Within(front[i], b) {
        assert front[i] == slots[i] && !Within(slots[i], b);
      }
      FixSlotsFrame(bases, m, front, b);
      assert !Within(slots[n], b);
    }
  }

  lemma FixSlotsFrameLong(bases: Bases, m: Image, slots: seq<word32>, a: int)
    requires AreSlots(slots) && IsSlot(a) && forall i :: 0 <= i < |slots| ==> !Overlap(slots[i], a)
    ensures Long(FixSlots(bases, m, slots), a) == Long(m, a)
  {
    FixSlotsFrame(bases, m, slots, a);
    FixSlotsFrame(bases, m, slots, a + 1);
    FixSlotsFrame(bases, m, slots, a + 2);
    FixSlotsFrame(bases, m, slots, a + 3);
  }

  /** Slots that do not overlap are each fixed up exactly once. */
  lemma {:induction false} FixedOnce(bases: Bases, m: Image, slots: seq<word32>, i: int)
    requires AreSlots(slots) && Apart(slots) && 0 <= i < |slots|
    ensures Long(FixSlots(bases, m, slots), slots[i]) == Fixup(bases, Long(m, slots[i]))
  {
    var front, n := slots[..|slots| - 1], |slots| - 1;
    var fixed := FixSlots(bases, m, front);
    if i == n {
      FixSlotsFrameLong(bases, m, front, slots[n]);
      LongAfterPatch(fixed, slots[n], Fixup(bases, Long(fixed, slots[n])), slots[n]);
    } else {
      FixedOnce(bases, m, front, i);
      LongAfterPatch(fixed, slots[n], Fixup(bases, Long(fixed, slots[n])), slots[i]);
    }
  }

  lemma {:induction false} FixSlotsConcat(bases: Bases, m: Image, a: seq<word32>, b: seq<word32>)
    requires AreSlots(a) && AreSlots(b)
    ensures AreSlots(a + b) && FixSlots(bases, m, a + b) == FixSlots(bases, FixSlots(bases, m, a), b)
  {
    if b == [] {
      assert a + b == a;
    } else {
      FixSlotsConcat(bases, m, a, b[..|b| - 1]);
      assert (a + b)[..|a + b| - 1] == a + b[..|b| - 1];
    }
  }

  /** The order of the list does not matter. */
  lemma OrderDoesNotMatter(bases: Bases, m: Image, a: seq<word32>, b: seq<word32>)
    requires AreSlots(a) && Apart(a) && AreSlots(b) && Apart(b)
    requires forall s :: s in a <==> s in b
    ensures FixSlots(bases, m, a) == FixSlots(bases, m, b)
  {
    var fixedA, fixedB := FixSlots(bases, m, a), FixSlots(bases, m, b);
    forall x | 0 <= x < TWO32 ensures fixedA[x] == fixedB[x] {
      if i :| 0 <= i < |a| && Within(a[i], x) {
        assert a[i] in b;
        var j :| 0 <= j < |b| && b[j] == a[i];
        FixedOnce(bases, m, a, i);
        FixedOnce(bases, m, b, j);
        LongDeterminesBytes(fixedA, fixedB, a[i], x);
      } else {
        assert !Touches(b, x) by {
          if j :| 0 <= j < |b| && Within(b[j], x) {
            assert b[j] in a;
          }
        }
        FixSlotsFrame(bases, m, a, x);
        FixSlotsFrame(bases, m, b, x);
      }
    }
  }

  lemma PatchInPlace(m: Image, a: int)
    requires IsSlot(a)
    ensures Patch(m, a, Long(m, a)) == m
  {
    var p := Patch(m, a, Long(m, a));
    LongAfterPatch(m, a, Long(m, a), a);
    forall b | 0 <= b < TWO32 ensures p[b] == m[b] {
      if Within(a, b) {
        LongDeterminesBytes(p, m, a, b);
      }
    }
  }

  /** At the addresses it was linked for, a program needs no fix-up. */
  lemma {:induction false} LinkBasesChangeNothing(m: Image, slots: seq<word32>)
    requires AreSlots(slots)
    ensures FixSlots(LINK_BASES, m, slots) == m
  {
    if slots != [] {
      var last := slots[|slots| - 1];
      LinkBasesChangeNothing(m, slots[..|slots| - 1]);
      FixupIsIdentityAtLinkBases(Long(m, last));
      PatchInPlace(m, last);
    }
  }
}
