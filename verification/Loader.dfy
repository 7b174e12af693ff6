/** The relocating start-up code of crt0.S: two zero-terminated loops that patch memory in place. */
module Loader {
  import opened Bits
  import opened Words
  import opened Relocation

  // ----- Tables -----

  function TableSlots(base: int, n: nat): (slots: seq<word32>)
    requires 0 <= base && base + 4 * n <= TWO32
    ensures |slots| == n && AreSlots(slots) && forall i :: 0 <= i < n ==> slots[i] == base + 4 * i
  {
    seq(n, i requires 0 <= i < n => base + 4 * i)
  }

  function Entry(m: Image, base: int, i: int): word32
    requires IsSlot(base + 4 * i)
  {
    Long(m, base + 4 * i)
  }

  /** `n` non-null words at `base`, then a null one. */
  ghost predicate ZeroTerminated(m: Image, base: int, n: nat) {
    && 0 <= base && base + 4 * n + 4 <= TWO32
    && (forall i :: 0 <= i < n ==> Entry(m, base, i) != 0)
    && Entry(m, base, n) == 0
  }

  /** The first entry from `i` on whose fix-up is null, or `n`. */
  function Stop(bases: Bases, m: Image, base: int, i: nat, n: nat): (k: nat)
    requires 0 <= base && base + 4 * n <= TWO32 && i <= n
    ensures i <= k <= n && (k < n ==> Fixup(bases, Entry(m, base, k)) == 0)
    ensures forall j :: i <= j < k ==> Fixup(bases, Entry(m, base, j)) != 0
    decreases n - i
  {
    if i == n || Fixup(bases, Entry(m, base, i)) == 0 then i else Stop(bases, m, base, i + 1, n)
  }

  /** Where the listed slots are once the list's own entries are fixed up. */
  function ListedSlots(bases: Bases, m: Image, base: int, n: nat): (slots: seq<word32>)
    requires 0 <= base && base + 4 * n <= TWO32
    ensures |slots| == n && forall j :: 0 <= j < n ==> slots[j] == Fixup(bases, Entry(m, base, j))
  {
    seq(n, j requires 0 <= j < n => Fixup(bases, Entry(m, base, j)))
  }

  lemma NullStaysNull(bases: Bases)
    ensures Fixup(bases, 0) == 0
  {
  }

  lemma NoSlotsFixed(bases: Bases, m: Image, slots: seq<word32>)
    requires AreSlots(slots)
    ensures FixSlots(bases, m, slots[..0]) == m
  {
  }

  // ----- The code -----

  method Fetch(mem: array<octet>, a: int) returns (d: word32)
    requires mem.Length == TWO32 && IsSlot(a)
    ensures d == Long(mem[..], a)
  {
    d := Compose(mem[a], mem[a + 1], mem[a + 2], mem[a + 3]);
  }

  method Put(mem: array<octet>, a: int, d: word32)
    requires mem.Length == TWO32 && IsSlot(a)
    modifies mem
    ensures mem[..] == Patch(old(mem[..]), a, d)
  {
    mem[a] := Octet(d, 0);
    mem[a + 1] := Octet(d, 1);
    mem[a + 2] := Octet(d, 2);
    mem[a + 3] := Octet(d, 3);
  }

  /** `.L_do_fixup`. */
  method DoFixup(bases: Bases, v: word32) returns (d0: word32)
    ensures d0 == Fixup(bases, v)
  {
    hide And, AndNot, Fixup;
    FixupBits(bases, v);
    d0 := v;
    if d0 != 0 {
      if And(d0, TWO31) == 0 {
        d0 := Word(d0 + bases.a6);
      } else {
        d0 := AndNot(d0, TWO31);
        d0 := Word(d0 + bases.a5);
      }
    }
  }

  /** `.L_got_loop`: leaves A0 behind the terminator, unless an entry that fixes up to null stops it early. */
  method GotLoop(mem: array<octet>, bases: Bases, ghost n: nat) returns (a0: int)
    requires mem.Length == TWO32 && ZeroTerminated(mem[..], bases.a5, n)
    modifies mem
    ensures var k := Stop(bases, old(mem[..]), bases.a5, 0, n);
            && mem[..] == FixSlots(bases, old(mem[..]), TableSlots(bases.a5, if k < n then k + 1 else n))
            && a0 == bases.a5 + if k < n then 4 * (k + 2) else 4 * (n + 1)
  {
    hide FixSlots, Long, Fixup;
    ghost var m0: Image := mem[..];
    ghost var i := 0;
    a0 := bases.a5;
    NoSlotsFixed(bases, m0, TableSlots(bases.a5, n));
    assert TableSlots(bases.a5, n)[..0] == TableSlots(bases.a5, 0);
    while true
      invariant 0 <= i <= n && a0 == bases.a5 + 4 * i
      invariant mem[..] == FixSlots(bases, m0, TableSlots(bases.a5, i))
      invariant Stop(bases, m0, bases.a5, 0, n) == Stop(bases, m0, bases.a5, i, n)
      decreases n - i
    {
      FixSlotsFrameLong(bases, m0, TableSlots(bases.a5, i), a0);
      assert Entry(m0, bases.a5, i) == Long(m0, a0);
      var d0 := Fetch(mem, a0);
      if d0 == 0 {
        assert i == n;
        break;
      }
      d0 := DoFixup(bases, d0);
      Put(mem, a0, d0);
      FixNextSlot(bases, m0, TableSlots(bases.a5, i + 1), i);
      assert TableSlots(bases.a5, i + 1)[..i] == TableSlots(bases.a5, i);
      assert TableSlots(bases.a5, i + 1)[..i + 1] == TableSlots(bases.a5, i + 1);
      a0 := a0 + 4;
      i := i + 1;
      if d0 == 0 {
        break;
      }
    }
    a0 := a0 + 4;
  }

  /** `.L_rela_loop`: every listed slot, up to the first entry that fixes up to null. */
  method RelaLoop(mem: array<octet>, list: int, bases: Bases, ghost n: nat, ghost slots: seq<word32>)
    requires mem.Length == TWO32 && ZeroTerminated(mem[..], list, n)
    requires slots == ListedSlots(bases, mem[..], list, Stop(bases, mem[..], list, 0, n))
    requires AreSlots(slots) && Disjoint(slots, TableSlots(list, n + 1))
    modifies mem
    ensures mem[..] == FixSlots(bases, old(mem[..]), slots)
  {
    hide FixSlots, Long, Fixup;
    ghost var m0: Image := mem[..];
    ghost var i := 0;
    var a0 := list;
    NullStaysNull(bases);
    NoSlotsFixed(bases, m0, slots);
    while true
      invariant 0 <= i <= |slots| && a0 == list + 4 * i
      invariant mem[..] == FixSlots(bases, m0, slots[..i])
      decreases |slots| - i
    {
      assert TableSlots(list, n + 1)[i] == a0;
      FixSlotsFrameLong(bases, m0, slots[..i], a0);
      assert Entry(m0, list, i) == Long(m0, a0);
      var d0 := Fetch(mem, a0);
      a0 := a0 + 4;
      d0 := DoFixup(bases, d0);
      if d0 == 0 {
        assert i == |slots|;
        break;
      }
      assert i < |slots| && d0 == slots[i];
      var a1 := d0;
      d0 := Fetch(mem, a1);
      d0 := DoFixup(bases, d0);
      Put(mem, a1, d0);
      FixNextSlot(bases, m0, slots, i);
      i := i + 1;
    }
    assert slots[..i] == slots;
  }

  /** Both tables, one behind the other, and slots clear of them; no entry is cut short by a null fix-up. */
  ghost predicate Loadable(bases: Bases, m: Image, got: nat, n: nat) {
    var list := bases.a5 + 4 * (got + 1);
    && ZeroTerminated(m, bases.a5, got) && ZeroTerminated(m, list, n)
    && (forall i :: 0 <= i < got - 1 ==> Fixup(bases, Entry(m, bases.a5, i)) != 0)
    && (forall j :: 0 <= j < n ==> Fixup(bases, Entry(m, list, j)) != 0)
    && var slots := ListedSlots(bases, m, list, n);
       AreSlots(slots) && Disjoint(slots, TableSlots(bases.a5, got)) && Disjoint(slots, TableSlots(list, n + 1))
  }

  function AllSlots(bases: Bases, m: Image, got: nat, n: nat): (slots: seq<word32>)
    requires 0 <= bases.a5 && bases.a5 + 4 * (got + 1) + 4 * n <= TWO32
    ensures |slots| == got + n && forall i :: 0 <= i < got ==> slots[i] == bases.a5 + 4 * i
  {
    TableSlots(bases.a5, got) + ListedSlots(bases, m, bases.a5 + 4 * (got + 1), n)
  }

  /** Fixing up the GOT does not disturb the list behind it. */
  lemma ListSurvivesGot(bases: Bases, m: Image, got: nat, n: nat)
    requires Loadable(bases, m, got, n)
    ensures var list := bases.a5 + 4 * (got + 1);
            var m1 := FixSlots(bases, m, TableSlots(bases.a5, got));
            && ZeroTerminated(m1, list, n)
            && ListedSlots(bases, m1, list, n) == ListedSlots(bases, m, list, n)
            && Stop(bases, m1, list, 0, n) == n
  {
    var list, table := bases.a5 + 4 * (got + 1), TableSlots(bases.a5, got);
    var m1 := FixSlots(bases, m, table);
    hide FixSlots, Entry, Fixup;
    forall i | 0 <= i <= n ensures Entry(m1, list, i) == Entry(m, list, i) {
      EntryBehindGot(bases, m, bases.a5, got, list, i);
    }
  }

  lemma EntryBehindGot(bases: Bases, m: Image, base: int, got: nat, list: int, i: int)
    requires 0 <= base && base + 4 * (got + 1) == list && 0 <= i && IsSlot(list + 4 * i)
    ensures Entry(FixSlots(bases, m, TableSlots(base, got)), list, i) == Entry(m, list, i)
  {
    FixSlotsFrameLong(bases, m, TableSlots(base, got), list + 4 * i);
  }

  lemma GotLoopRunsThrough(bases: Bases, m: Image, got: nat)
    requires ZeroTerminated(m, bases.a5, got)
    requires forall i :: 0 <= i < got - 1 ==> Fixup(bases, Entry(m, bases.a5, i)) != 0
    ensures Stop(bases, m, bases.a5, 0, got) >= got - 1
  {
  }

  /** Every GOT entry is relocated once, even if listed slots should overlap each other. */
  lemma GotEntryInBytes(bases: Bases, m: Image, got: nat, n: nat, i: int)
    requires Loadable(bases, m, got, n) && 0 <= i < got
    ensures AreSlots(AllSlots(bases, m, got, n))
    ensures RelocatedBytes(bases, m, FixSlots(bases, m, AllSlots(bases, m, got, n)), bases.a5 + 4 * i)
  {
    hide FixSlots, Long, Fixup, Entry, RelocatedBytes;
    var table, listed := TableSlots(bases.a5, got), ListedSlots(bases, m, bases.a5 + 4 * (got + 1), n);
    TableIsApart(bases.a5, got);
    FixedOnce(bases, m, table, i);
    FixSlotsConcat(bases, m, table, listed);
    FixSlotsFrameLong(bases, FixSlots(bases, m, table), listed, table[i]);
    FixupInBytes(bases, m, FixSlots(bases, m, table + listed), table[i]);
  }

  lemma TableIsApart(base: int, n: nat)
    requires 0 <= base && base + 4 * n <= TWO32
    ensures Apart(TableSlots(base, n))
  {
  }

  /** `_start` up to the call of main. */
  method Start(mem: array<octet>, pc: word32, codeStart: word32, ghost got: nat, ghost n: nat)
    requires mem.Length == TWO32 && Loadable(Bases(A5FromPc(pc), codeStart), mem[..], got, n)
    modifies mem
    ensures var bases := Bases(A5FromPc(pc), codeStart);
            && mem[..] == FixSlots(bases, old(mem[..]), AllSlots(bases, old(mem[..]), got, n))
            && forall i :: 0 <= i < got ==> RelocatedBytes(bases, old(mem[..]), mem[..], bases.a5 + 4 * i)
  {
    hide FixSlots, Entry, Fixup, Long, A5FromPc, And, Or, Shl, RelocatedBytes;
    ghost var m0: Image := mem[..];
    A5FromPcBits(pc);
    var d0 := And(pc, 0x1000_0000);
    d0 := Shl(d0, 1);
    d0 := Or(d0, 0x8000_0000);
    var bases := Bases(d0, codeStart);
    GotLoopRunsThrough(bases, m0, got);
    ghost var list := bases.a5 + 4 * (got + 1);
    ghost var slots := ListedSlots(bases, m0, list, n);
    ListSurvivesGot(bases, m0, got, n);
    var a0 := GotLoop(mem, bases, got);
    RelaLoop(mem, a0, bases, n, slots);
    FixSlotsConcat(bases, m0, TableSlots(bases.a5, got), slots);
    forall i | 0 <= i < got ensures RelocatedBytes(bases, m0, mem[..], bases.a5 + 4 * i) {
      GotEntryInBytes(bases, m0, got, n, i);
    }
  }

  // ----- When the loops see all of their tables -----

  /** The GOT loop fixes every entry and finds the list behind the terminator exactly when only the last entry may fix up to null. */
  lemma GotLoopCompleteIff(bases: Bases, m: Image, n: nat)
    requires ZeroTerminated(m, bases.a5, n)
    ensures var k := Stop(bases, m, bases.a5, 0, n);
            (k >= n - 1 <==> forall i :: 0 <= i < n - 1 ==> Fixup(bases, Entry(m, bases.a5, i)) != 0)
            && ((if k < n then k + 1 else n) == n <==> k >= n - 1)
            && ((if k < n then 4 * (k + 2) else 4 * (n + 1)) == 4 * (n + 1) <==> k >= n - 1)
  {
  }

  /** A linked GOT value that the ROM base carries to 2^32 hides all entries behind it; such bases are not admissible. */
  lemma NullFixupHidesEntries(m: Image, a5: word32)
    requires ZeroTerminated(m, a5, 2) && Entry(m, a5, 0) == 0x10_0000
    ensures Stop(Bases(a5, 0xFFF0_0000), m, a5, 0, 2) == 0
    ensures var l := Layout(0x100_0000, 0x100_0000); l.Linked(Entry(m, a5, 0)) && !l.Admits(Bases(a5, 0xFFF0_0000))
  {
    hide Entry, Fixup;
    FixupIsNullIff(Bases(a5, 0xFFF0_0000), 0x10_0000);
  }

  /** At admissible bases a table of linked addresses is never cut short. */
  lemma LinkedTableIsComplete(l: Layout, bases: Bases, m: Image, got: nat)
    requires l.Admits(bases) && ZeroTerminated(m, bases.a5, got)
    requires forall i :: 0 <= i < got ==> l.Linked(Entry(m, bases.a5, i))
    ensures Stop(bases, m, bases.a5, 0, got) == got
  {
    hide Entry, Fixup;
    forall i | 0 <= i < got ensures Fixup(bases, Entry(m, bases.a5, i)) != 0 {
      FixupMapsRegions(l, bases, Entry(m, bases.a5, i));
    }
  }

  /** The list loop reaches its terminator exactly when no entry fixes up to null. */
  lemma RelaLoopCompleteIff(bases: Bases, m: Image, list: int, n: nat)
    requires ZeroTerminated(m, list, n)
    ensures Stop(bases, m, list, 0, n) == n <==> forall j :: 0 <= j < n ==> Fixup(bases, Entry(m, list, j)) != 0
  {
  }

  /** Over the whole loader: every GOT entry and every listed slot once, everything else untouched. */
  lemma LoaderFixesEachOnce(bases: Bases, m: Image, got: nat, n: nat, a: word32)
    requires Loadable(bases, m, got, n) && Apart(ListedSlots(bases, m, bases.a5 + 4 * (got + 1), n)) && IsSlot(a)
    ensures var slots := AllSlots(bases, m, got, n);
            && AreSlots(slots) && Apart(slots)
            && (a in slots ==> Long(FixSlots(bases, m, slots), a) == Fixup(bases, Long(m, a)))
            && (a in slots ==> RelocatedBytes(bases, m, FixSlots(bases, m, slots), a))
            && ((forall s :: s in slots ==> !Overlap(s, a)) ==> Long(FixSlots(bases, m, slots), a) == Long(m, a))
  {
    hide FixSlots, Long, Fixup, Entry, RelocatedBytes;
    var table, listed := TableSlots(bases.a5, got), ListedSlots(bases, m, bases.a5 + 4 * (got + 1), n);
    var slots := AllSlots(bases, m, got, n);
    forall i, j | 0 <= i < j < |slots| ensures !Overlap(slots[i], slots[j]) {
      if i < got <= j {
        assert !Overlap(listed[j - got], table[i]);
      }
    }
    if a in slots {
      var i :| 0 <= i < |slots| && slots[i] == a;
      FixedOnce(bases, m, slots, i);
      FixupInBytes(bases, m, FixSlots(bases, m, slots), a);
    }
    if forall s :: s in slots ==> !Overlap(s, a) {
      FixSlotsFrameLong(bases, m, slots, a);
    }
  }

  /** Outside the list's own entries. */
  ghost predicate AgreeOutsideList(m: Image, m': Image, list: int, n: nat) {
    forall x :: 0 <= x < TWO32 && !(list <= x < list + 4 * n) ==> m[x] == m'[x]
  }

  lemma AgreeOnWord(m: Image, m': Image, list: int, n: nat, a: int)
    requires AgreeOutsideList(m, m', list, n) && IsSlot(a) && (a + 4 <= list || list + 4 * n <= a)
    ensures Long(m, a) == Long(m', a)
  {
  }

  /** A slot clear of the list lies wholly below or above it. */
  lemma ClearOfList(slots: seq<word32>, list: int, n: nat, s: word32)
    requires 0 <= list && list + 4 * (n + 1) <= TWO32 && Disjoint(slots, TableSlots(list, n + 1)) && s in slots
    ensures s + 4 <= list || list + 4 * n + 4 <= s
  {
    var i :| 0 <= i < |slots| && slots[i] == s;
    var j := if s < list then 0 else if (s - list) / 4 > n then n else (s - list) / 4;
    assert !Overlap(slots[i], TableSlots(list, n + 1)[j]);
  }

  lemma SameSlots(bases: Bases, m: Image, m': Image, got: nat, n: nat)
    requires Loadable(bases, m, got, n) && Loadable(bases, m', got, n)
    requires var list := bases.a5 + 4 * (got + 1);
             forall s :: s in ListedSlots(bases, m, list, n) <==> s in ListedSlots(bases, m', list, n)
    ensures forall s :: s in AllSlots(bases, m, got, n) <==> s in AllSlots(bases, m', got, n)
  {
  }

  /** Each slot of the whole loader is clear of the list. */
  lemma AllClearOfList(bases: Bases, m: Image, got: nat, n: nat, s: word32)
    requires Loadable(bases, m, got, n) && s in AllSlots(bases, m, got, n)
    ensures var list := bases.a5 + 4 * (got + 1); IsSlot(s) && (s + 4 <= list || list + 4 * n <= s)
  {
    var list := bases.a5 + 4 * (got + 1);
    var listed := ListedSlots(bases, m, list, n);
    if s in listed {
      ClearOfList(listed, list, n, s);
    }
  }

  lemma AllSlotsAreApart(bases: Bases, m: Image, got: nat, n: nat)
    requires Loadable(bases, m, got, n) && Apart(ListedSlots(bases, m, bases.a5 + 4 * (got + 1), n))
    ensures AreSlots(AllSlots(bases, m, got, n)) && Apart(AllSlots(bases, m, got, n))
  {
    hide Entry, Fixup;
    LoaderFixesEachOnce(bases, m, got, n, 0);
  }

  /** Two images that differ only in the order of their lists are the same when main is called, but for the lists. */
  lemma ListOrderDoesNotMatter(bases: Bases, m: Image, m': Image, got: nat, n: nat)
    requires Loadable(bases, m, got, n) && Loadable(bases, m', got, n)
    requires AgreeOutsideList(m, m', bases.a5 + 4 * (got + 1), n)
    requires var list := bases.a5 + 4 * (got + 1);
             && Apart(ListedSlots(bases, m, list, n)) && Apart(ListedSlots(bases, m', list, n))
             && forall s :: s in ListedSlots(bases, m, list, n) <==> s in ListedSlots(bases, m', list, n)
    ensures AgreeOutsideList(FixSlots(bases, m, AllSlots(bases, m, got, n)),
                             FixSlots(bases, m', AllSlots(bases, m', got, n)), bases.a5 + 4 * (got + 1), n)
  {
    hide FixSlots, Long, Fixup, Entry, AllSlots;
    var a, b := AllSlots(bases, m, got, n), AllSlots(bases, m', got, n);
    var list := bases.a5 + 4 * (got + 1);
    AllSlotsAreApart(bases, m, got, n);
    AllSlotsAreApart(bases, m', got, n);
    SameSlots(bases, m, m', got, n);
    var fixed, fixed' := FixSlots(bases, m, a), FixSlots(bases, m', b);
    forall x | 0 <= x < TWO32 && !(list <= x < list + 4 * n) ensures fixed[x] == fixed'[x] {
      if i :| 0 <= i < |a| && Within(a[i], x) {
        assert a[i] in a && a[i] in b;
        var j :| 0 <= j < |b| && b[j] == a[i];
        AllClearOfList(bases, m, got, n, a[i]);
        AgreeOnWord(m, m', list, n, a[i]);
        FixedOnce(bases, m, a, i);
        FixedOnce(bases, m', b, j);
        LongDeterminesBytes(fixed, fixed', a[i], x);
      } else {
        assert !Touches(b, x) by {
          if j :| 0 <= j < |b| && Within(b[j], x) {
            assert b[j] in b && b[j] in a;
          }
        }
        FixSlotsFrame(bases, m, a, x);
        FixSlotsFrame(bases, m', b, x);
      }
    }
  }
}
