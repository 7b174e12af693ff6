/** A program behaves the same wherever it is loaded: the loaded image is the relocation of the link image. */
module LoadedImage {
  import opened Words
  import opened Relocation
  import opened Loader

  /** The program as linked: its memory at the link addresses, and the lengths of its two tables. */
  datatype Program = Program(link: Image, got: nat, relocs: nat) {
    function ListBase(): int {
      TWO31 + 4 * (got + 1)
    }
  }

  /** A word that lies wholly inside one region. */
  ghost predicate LinkedWord(l: Layout, a: int) {
    l.Linked(a) && l.Linked(a + 3) && IsSlot(a) && (a + 3 < TWO31 || TWO31 <= a)
  }

  /** The link addresses the loader is to fix up: the GOT's entries, then the listed slots. */
  function LinkSlots(p: Program): (slots: seq<word32>)
    requires p.ListBase() + 4 * p.relocs <= TWO32
    ensures |slots| == p.got + p.relocs
    ensures slots[p.got..] == ListedAddresses(p)
  {
    TableSlots(TWO31, p.got) + ListedAddresses(p)
  }

  function ListedAddresses(p: Program): (listed: seq<word32>)
    requires p.ListBase() + 4 * p.relocs <= TWO32
    ensures |listed| == p.relocs && forall j :: 0 <= j < p.relocs ==> listed[j] == Entry(p.link, p.ListBase(), j)
  {
    seq(p.relocs, j requires 0 <= j < p.relocs => Entry(p.link, p.ListBase(), j))
  }

  /** What the linker and build script provide; all of it is about link addresses only. */
  ghost predicate WellLinked(l: Layout, p: Program) {
    && 0 <= l.rom <= TWO31 && 0 <= l.ram <= TWO31
    && p.ListBase() + 4 * (p.relocs + 1) <= TWO31 + l.ram
    && ZeroTerminated(p.link, TWO31, p.got) && ZeroTerminated(p.link, p.ListBase(), p.relocs)
    && (forall i :: 0 <= i < p.got ==> l.Linked(Entry(p.link, TWO31, i)))
    && var slots := LinkSlots(p);
       && (forall i :: 0 <= i < |slots| ==> LinkedWord(l, slots[i]))
       && Apart(slots)
       && Disjoint(ListedAddresses(p), TableSlots(p.ListBase(), p.relocs + 1))
       && Disjoint(ListedAddresses(p), TableSlots(TWO31, p.got))
  }

  /** The raw program copied to its load addresses, before `_start`. */
  ghost predicate Copied(l: Layout, bases: Bases, link: Image, loaded: Image) {
    forall v: word32 :: l.Linked(v) ==> loaded[Fixup(bases, v)] == link[v]
  }

  lemma WordMoves(l: Layout, bases: Bases, a: word32)
    requires l.Admits(bases) && LinkedWord(l, a)
    ensures IsSlot(Fixup(bases, a))
    ensures Fixup(bases, a + 1) == Fixup(bases, a) + 1
    ensures Fixup(bases, a + 2) == Fixup(bases, a) + 2
    ensures Fixup(bases, a + 3) == Fixup(bases, a) + 3
    ensures l.Linked(a + 1) && l.Linked(a + 2)
  {
    FixupMapsRegions(l, bases, a);
    FixupMapsRegions(l, bases, a + 3);
  }

  lemma CopiedWord(l: Layout, bases: Bases, link: Image, loaded: Image, a: word32)
    requires l.Admits(bases) && Copied(l, bases, link, loaded) && LinkedWord(l, a)
    ensures IsSlot(Fixup(bases, a)) && Long(loaded, Fixup(bases, a)) == Long(link, a)
  {
    WordMoves(l, bases, a);
    assert loaded[Fixup(bases, a)] == link[a] && loaded[Fixup(bases, a + 1)] == link[a + 1];
    assert loaded[Fixup(bases, a + 2)] == link[a + 2] && loaded[Fixup(bases, a + 3)] == link[a + 3];
  }

  /** Moving the regions neither makes words overlap nor pulls overlapping words apart. */
  lemma OverlapMoves(l: Layout, bases: Bases, a: word32, b: word32)
    requires l.Admits(bases) && LinkedWord(l, a) && LinkedWord(l, b)
    ensures Overlap(Fixup(bases, a), Fixup(bases, b)) <==> Overlap(a, b)
  {
    FixupMapsRegions(l, bases, a);
    FixupMapsRegions(l, bases, b);
    FixupMapsRegions(l, bases, a + 3);
    FixupMapsRegions(l, bases, b + 3);
  }

  /** The RAM tables, wherever RAM is. */
  lemma TableMoves(l: Layout, bases: Bases, p: Program, loaded: Image, base: int, i: int)
    requires l.Admits(bases) && Copied(l, bases, p.link, loaded)
    requires TWO31 <= base && 0 <= i && base + 4 * (i + 1) <= TWO31 + l.ram
    ensures Fixup(bases, base + 4 * i) == bases.a5 + (base - TWO31) + 4 * i
    ensures LinkedWord(l, base + 4 * i)
    ensures Entry(loaded, bases.a5 + (base - TWO31), i) == Entry(p.link, base, i)
  {
    FixupMapsRegions(l, bases, base + 4 * i);
    CopiedWord(l, bases, p.link, loaded, base + 4 * i);
  }

  function MovedSlots(bases: Bases, slots: seq<word32>): (moved: seq<word32>)
    ensures |moved| == |slots| && forall i :: 0 <= i < |slots| ==> moved[i] == Fixup(bases, slots[i])
  {
    seq(|slots|, i requires 0 <= i < |slots| => Fixup(bases, slots[i]))
  }

  lemma TableMovesWhole(l: Layout, bases: Bases, p: Program, loaded: Image, base: int, to: int, n: nat)
    requires l.Admits(bases) && Copied(l, bases, p.link, loaded)
    requires TWO31 <= base && base + 4 * (n + 1) <= TWO31 + l.ram && ZeroTerminated(p.link, base, n)
    requires to == bases.a5 + (base - TWO31)
    ensures ZeroTerminated(loaded, to, n)
    ensures forall i :: 0 <= i < n ==> Entry(loaded, to, i) == Entry(p.link, base, i)
  {
    hide Entry, Fixup;
    forall i | 0 <= i <= n ensures Entry(loaded, to, i) == Entry(p.link, base, i) {
      TableMoves(l, bases, p, loaded, base, i);
    }
  }

  lemma TablesMove(l: Layout, bases: Bases, p: Program, loaded: Image)
    requires l.Admits(bases) && WellLinked(l, p) && Copied(l, bases, p.link, loaded)
    ensures var list := bases.a5 + 4 * (p.got + 1);
            ZeroTerminated(loaded, bases.a5, p.got) && ZeroTerminated(loaded, list, p.relocs)
    ensures forall i :: 0 <= i < p.got ==> Entry(loaded, bases.a5, i) == Entry(p.link, TWO31, i)
    ensures forall j :: 0 <= j < p.relocs ==> Entry(loaded, bases.a5 + 4 * (p.got + 1), j) == Entry(p.link, p.ListBase(), j)
  {
    hide Entry, Fixup, ZeroTerminated;
    TableMovesWhole(l, bases, p, loaded, TWO31, bases.a5, p.got);
    TableMovesWhole(l, bases, p, loaded, p.ListBase(), bases.a5 + 4 * (p.got + 1), p.relocs);
  }

  lemma ListMoves(l: Layout, bases: Bases, p: Program, loaded: Image)
    requires l.Admits(bases) && WellLinked(l, p) && Copied(l, bases, p.link, loaded)
    ensures ListedSlots(bases, loaded, bases.a5 + 4 * (p.got + 1), p.relocs) == MovedSlots(bases, ListedAddresses(p))
  {
    hide Entry, Fixup, ZeroTerminated;
    TablesMove(l, bases, p, loaded);
  }

  /** The loader's slots are the link image's slots, moved. */
  lemma SlotsMove(l: Layout, bases: Bases, p: Program, loaded: Image)
    requires l.Admits(bases) && WellLinked(l, p) && Copied(l, bases, p.link, loaded)
    ensures AllSlots(bases, loaded, p.got, p.relocs) == MovedSlots(bases, LinkSlots(p))
  {
    TablesMove(l, bases, p, loaded);
    var moved, slots := MovedSlots(bases, LinkSlots(p)), AllSlots(bases, loaded, p.got, p.relocs);
    forall i | 0 <= i < |slots| ensures slots[i] == moved[i] {
      if i < p.got {
        TableMoves(l, bases, p, loaded, TWO31, i);
        assert LinkSlots(p)[i] == TWO31 + 4 * i;
      } else {
        assert LinkSlots(p)[i] == Entry(p.link, p.ListBase(), i - p.got);
      }
    }
  }

  lemma MovedSlotsAreApart(l: Layout, bases: Bases, slots: seq<word32>)
    requires l.Admits(bases) && Apart(slots) && forall i :: 0 <= i < |slots| ==> LinkedWord(l, slots[i])
    ensures AreSlots(MovedSlots(bases, slots)) && Apart(MovedSlots(bases, slots))
  {
    var moved := MovedSlots(bases, slots);
    forall i | 0 <= i < |moved| ensures IsSlot(moved[i]) {
      WordMoves(l, bases, slots[i]);
    }
    forall i, j | 0 <= i < j < |moved| ensures !Overlap(moved[i], moved[j]) {
      OverlapMoves(l, bases, slots[i], slots[j]);
    }
  }

  /** Slots clear of a RAM table in the link image are clear of it in memory. */
  lemma MovedSlotsClearTable(l: Layout, bases: Bases, slots: seq<word32>, base: int, n: nat)
    requires l.Admits(bases) && TWO31 <= base && base + 4 * n <= TWO31 + l.ram
    requires Disjoint(slots, TableSlots(base, n)) && forall i :: 0 <= i < |slots| ==> LinkedWord(l, slots[i])
    ensures Disjoint(MovedSlots(bases, slots), TableSlots(bases.a5 + (base - TWO31), n))
  {
    var moved, table := MovedSlots(bases, slots), TableSlots(bases.a5 + (base - TWO31), n);
    forall i, j | 0 <= i < |moved| && 0 <= j < |table| ensures !Overlap(moved[i], table[j]) {
      var t := TableSlots(base, n)[j];
      FixupMapsRegions(l, bases, t);
      OverlapMoves(l, bases, slots[i], t);
    }
  }

  /** A well-linked program copied to any admissible bases meets everything the loader asks of its caller. */
  lemma CopyIsLoadable(l: Layout, bases: Bases, p: Program, loaded: Image)
    requires l.Admits(bases) && WellLinked(l, p) && Copied(l, bases, p.link, loaded)
    ensures Loadable(bases, loaded, p.got, p.relocs)
  {
    hide Entry, ZeroTerminated, Fixup, FixSlots, LinkSlots, Apart;
    var list, slots, listed := bases.a5 + 4 * (p.got + 1), LinkSlots(p), ListedAddresses(p);
    TablesMove(l, bases, p, loaded);
    ListMoves(l, bases, p, loaded);
    forall j | 0 <= j < p.relocs
      ensures LinkedWord(l, listed[j]) && Fixup(bases, listed[j]) != 0 && IsSlot(Fixup(bases, listed[j]))
    {
      assert slots[p.got..][j] == slots[p.got + j];
      FixupMapsRegions(l, bases, listed[j]);
      WordMoves(l, bases, listed[j]);
    }
    MovedSlotsClearTable(l, bases, listed, p.ListBase(), p.relocs + 1);
    MovedSlotsClearTable(l, bases, listed, TWO31, p.got);
    forall i | 0 <= i < p.got ensures Fixup(bases, Entry(loaded, bases.a5, i)) != 0 {
      FixupMapsRegions(l, bases, Entry(p.link, TWO31, i));
    }
  }

  /** Image when main is called. */
  function Running(l: Layout, bases: Bases, p: Program, loaded: Image): Image
    requires l.Admits(bases) && WellLinked(l, p) && Copied(l, bases, p.link, loaded)
  {
    CopyIsLoadable(l, bases, p, loaded);
    FixSlots(bases, loaded, AllSlots(bases, loaded, p.got, p.relocs))
  }

  /** Every listed pointer now holds the load address of what it pointed to when linked. */
  lemma PointersAreRelocated(l: Layout, bases: Bases, p: Program, loaded: Image, a: word32)
    requires l.Admits(bases) && WellLinked(l, p) && Copied(l, bases, p.link, loaded) && a in LinkSlots(p)
    ensures LinkedWord(l, a) && IsSlot(Fixup(bases, a))
    ensures Long(Running(l, bases, p, loaded), Fixup(bases, a)) == Fixup(bases, Long(p.link, a))
  {
    var slots := LinkSlots(p);
    var i :| 0 <= i < |slots| && slots[i] == a;
    SlotsMove(l, bases, p, loaded);
    MovedSlotsAreApart(l, bases, slots);
    CopiedWord(l, bases, p.link, loaded, a);
    FixedOnce(bases, loaded, MovedSlots(bases, slots), i);
  }

  /** Every other byte of the program is as linked. */
  lemma RestIsUnchanged(l: Layout, bases: Bases, p: Program, loaded: Image, v: word32)
    requires l.Admits(bases) && WellLinked(l, p) && Copied(l, bases, p.link, loaded)
    requires l.Linked(v) && !Touches(LinkSlots(p), v)
    ensures Running(l, bases, p, loaded)[Fixup(bases, v)] == p.link[v]
  {
    var slots := LinkSlots(p);
    var moved := MovedSlots(bases, slots);
    SlotsMove(l, bases, p, loaded);
    MovedSlotsAreApart(l, bases, slots);
    FixupMapsRegions(l, bases, v);
    forall i | 0 <= i < |moved| ensures !Within(moved[i], Fixup(bases, v)) {
      assert !Within(slots[i], v);
      FixupMapsRegions(l, bases, slots[i]);
      FixupMapsRegions(l, bases, slots[i] + 3);
    }
    FixSlotsFrame(bases, loaded, moved, Fixup(bases, v));
  }

  /** Run where it was linked, the program is its own copy and stays as it is. */
  lemma RunsInPlace(l: Layout, p: Program)
    requires WellLinked(l, p)
    ensures l.Admits(LINK_BASES) && Copied(l, LINK_BASES, p.link, p.link)
    ensures Running(l, LINK_BASES, p, p.link) == p.link
  {
    LinkBasesAreAdmissible(l);
    forall v: word32 | l.Linked(v) ensures p.link[Fixup(LINK_BASES, v)] == p.link[v] {
      FixupIsIdentityAtLinkBases(v);
    }
    CopyIsLoadable(l, LINK_BASES, p, p.link);
    SlotsMove(l, LINK_BASES, p, p.link);
    MovedSlotsAreApart(l, LINK_BASES, LinkSlots(p));
    LinkBasesChangeNothing(p.link, AllSlots(LINK_BASES, p.link, p.got, p.relocs));
  }

  // ----- Load-address independence -----

  /** Following pointers `k` times from `a` in the link image stays on listed slots. */
  ghost predicate IsChain(p: Program, a: word32, k: nat)
    requires p.ListBase() + 4 * p.relocs <= TWO32
    decreases k
  {
    k > 0 ==> a in LinkSlots(p) && IsSlot(a) && IsChain(p, Long(p.link, a), k - 1)
  }

  ghost function Deref(m: Image, a: word32, k: nat): word32
    decreases k
  {
    if k == 0 || !IsSlot(a) then a else Deref(m, Long(m, a), k - 1)
  }

  /** A chain of any length, followed in the loaded program, ends at the relocation of where it ends in the link image. */
  lemma {:induction false} ChainsAreIndependentOfBases(
      l: Layout, bases: Bases, p: Program, loaded: Image, a: word32, k: nat)
    requires l.Admits(bases) && WellLinked(l, p) && Copied(l, bases, p.link, loaded) && IsChain(p, a, k)
    ensures Deref(Running(l, bases, p, loaded), Fixup(bases, a), k) == Fixup(bases, Deref(p.link, a, k))
    decreases k
  {
    if k > 0 {
      PointersAreRelocated(l, bases, p, loaded, a);
      ChainsAreIndependentOfBases(l, bases, p, loaded, Long(p.link, a), k - 1);
    }
  }

  /** What following pointers means, step by step. */
  lemma DerefIs(m: Image, a: word32, k: nat)
    ensures Deref(m, a, 0) == a
    ensures IsSlot(a) ==> Deref(m, a, k + 1) == Deref(m, Long(m, a), k)
  {
  }

  /** The pointer to a pointer of test case 16, without counting: two loads in the loaded program end where they should. */
  lemma TwoLoads(l: Layout, bases: Bases, p: Program, loaded: Image, a: word32)
    requires l.Admits(bases) && WellLinked(l, p) && Copied(l, bases, p.link, loaded)
    requires a in LinkSlots(p) && IsSlot(a) && Long(p.link, a) in LinkSlots(p) && IsSlot(Long(p.link, a))
    ensures var m := Running(l, bases, p, loaded);
            && IsSlot(Fixup(bases, a)) && IsSlot(Long(m, Fixup(bases, a)))
            && Long(m, Long(m, Fixup(bases, a))) == Fixup(bases, Long(p.link, Long(p.link, a)))
  {
    hide WellLinked, Copied, Running, LinkSlots, Fixup, Long;
    PointersAreRelocated(l, bases, p, loaded, a);
    PointersAreRelocated(l, bases, p, loaded, Long(p.link, a));
  }
}
