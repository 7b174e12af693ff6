/** FileSetFolder as documented, and the probe applet that checks it. */
module FolderProbe {
  import opened Bits

  const SLOTS: int := 32
  const UNINSTALLED: int := 0xFFFF
  const INVALID_APPLET: int := -64
  const NO_FILE_NAMESPACE: int := -7

  const ALPHA_WORD: int := 0xA000
  const ALPHA_QUIZ: int := 0xA001
  const CALCULATOR: int := 0xA002

  /** One runtime applet slot: its id, its header's flags, and the file count of its file group. */
  datatype Slot = Slot(id: int, flags: nat, fileCount: int)

  /** `flags & 0x40`. */
  predicate Flag40(flags: nat): (isSet: bool)
    ensures isSet <==> flags / 64 % 2 == 1
  {
    Powers();
    OneBit(flags, 0x40, flags / 0x40);
    And(flags, 0x40) != 0
  }

  predicate HasNamespace(slot: Slot) {
    Flag40(slot.flags) || slot.fileCount != 0
  }

  predicate Selectable(slots: seq<Slot>, index: int)
    requires |slots| == SLOTS
  {
    0 <= index < SLOTS && slots[index].id != UNINSTALLED && HasNamespace(slots[index])
  }

  /** The status of selecting `index`, short of success. */
  function Refusal(slots: seq<Slot>, index: int): int
    requires |slots| == SLOTS && !Selectable(slots, index)
  {
    if index < 0 || index >= SLOTS || slots[index].id == UNINSTALLED then INVALID_APPLET else NO_FILE_NAMESPACE
  }

  /** The first slot from `i` on with the id, or 0. */
  function FindFrom(slots: seq<Slot>, id: int, i: int): (r: int)
    requires |slots| == SLOTS && 0 <= i <= SLOTS
    ensures 0 <= r < SLOTS && (r != 0 ==> slots[r].id == id)
    decreases SLOTS - i
  {
    if i == SLOTS then 0 else if slots[i].id == id then i else FindFrom(slots, id, i + 1)
  }

  /** The first slot with the id, if there is one. */
  lemma {:induction false} FindsFirst(slots: seq<Slot>, id: int, i: int)
    requires |slots| == SLOTS && 0 <= i <= SLOTS
    ensures var r := FindFrom(slots, id, i);
            if forall j :: i <= j < SLOTS ==> slots[j].id != id then r == 0
            else i <= r < SLOTS && slots[r].id == id && forall j :: i <= j < r ==> slots[j].id != id
    decreases SLOTS - i
  {
    if i < SLOTS && slots[i].id != id {
      FindsFirst(slots, id, i + 1);
    }
  }

  class System {
    const slots: seq<Slot>
    var currentFolder: int
    var fileOpen: bool

    ghost predicate Valid()
      reads this
    {
      |slots| == SLOTS && 0 <= currentFolder < SLOTS
    }

    constructor (slots: seq<Slot>, folder: int)
      requires |slots| == SLOTS && 0 <= folder < SLOTS
      ensures Valid() && this.slots == slots && currentFolder == folder && !fileOpen
    {
      this.slots, currentFolder, fileOpen := slots, folder, false;
    }

    method AppletFindById(id: int) returns (index: int)
      requires Valid()
      ensures index == FindFrom(slots, id, 0)
      ensures if forall j :: 0 <= j < 32 ==> slots[j].id != id then index == 0
              else 0 <= index < 32 && slots[index].id == id && forall j :: 0 <= j < index ==> slots[j].id != id
    {
      FindsFirst(slots, id, 0);
      index := 0;
      while index < SLOTS
        invariant 0 <= index <= SLOTS && FindFrom(slots, id, 0) == FindFrom(slots, id, index)
      {
        if slots[index].id == id {
          return;
        }
        index := index + 1;
      }
      index := 0;
    }

    /** `flags` is what the caller's output variable holds afterwards. */
    method FileSetFolder(index: int) returns (status: int, flags: nat)
      requires Valid() && 0 <= index
      modifies this
      ensures Valid()
      ensures index >= 32 || slots[index].id == 0xFFFF ==> status == -64
      ensures index < 32 && slots[index].id != 0xFFFF && slots[index].flags / 64 % 2 == 0 && slots[index].fileCount == 0 ==>
                status == -7
      ensures status >= 0 <==>
                && index < 32 && slots[index].id != 0xFFFF
                && (slots[index].flags / 64 % 2 == 1 || slots[index].fileCount != 0)
      ensures status >= 0 ==>
                status == old(currentFolder) && currentFolder == index && flags == slots[index].flags && !fileOpen
      ensures status < 0 ==> currentFolder == old(currentFolder) && flags == 0 && fileOpen == old(fileOpen)
    {
      flags := 0;
      if index >= 32 {
        return -64, flags;
      }
      if slots[index].id == 0xFFFF {
        return -64, flags;
      }
      if !Flag40(slots[index].flags) && slots[index].fileCount == 0 {
        return -7, flags;
      }
      fileOpen := false;
      status := currentFolder;
      currentFolder := index;
      flags := slots[index].flags;
    }
  }

  /** The stock applets are installed, with the flags and file counts of their headers. */
  ghost predicate Documented(slots: seq<Slot>) {
    && |slots| == SLOTS
    && var aw, aq, cal := FindFrom(slots, 0xA000, 0), FindFrom(slots, 0xA001, 0), FindFrom(slots, 0xA002, 0);
       && aw != 0 && aq != 0 && cal != 0
       && Flag40(slots[aw].flags)
       && !Flag40(slots[aq].flags) && slots[aq].fileCount != 0
       && !Flag40(slots[cal].flags) && slots[cal].fileCount == 0
  }

  class Probe {
    const system: System
    var alphaWord: int
    var alphaQuiz: int
    var calculator: int
    var missingMask: int
    var checks: int
    var failures: int

    constructor (system: System)
      ensures this.system == system
    {
      this.system := system;
      alphaWord, alphaQuiz, calculator, missingMask, checks, failures := 0, 0, 0, 0, 0, 0;
    }

    ghost predicate Ready()
      reads this, system
    {
      system.Valid() && 0 < alphaWord < SLOTS && 0 < alphaQuiz < SLOTS && 0 < calculator < SLOTS
    }

    method Check(condition: bool)
      modifies this`checks, this`failures
      ensures checks == old(checks) + 1 && failures == old(failures) + if condition then 0 else 1
    {
      checks := checks + 1;
      if !condition {
        failures := failures + 1;
      }
    }

    method RunAlphaWordCase()
      requires Ready()
      modifies this`checks, this`failures, system
      ensures system.Valid()
      ensures Selectable(system.slots, alphaWord) && Flag40(system.slots[alphaWord].flags) ==>
                var back := Selectable(system.slots, old(system.currentFolder));
                && checks == old(checks) + 3
                && failures == old(failures) + (if back then 0 else 1)
                && system.currentFolder == if back then old(system.currentFolder) else alphaWord
    {
      var previous, flags := system.FileSetFolder(alphaWord);
      Check(previous >= 0);
      Check(Flag40(flags));
      if previous >= 0 {
        var restored, _ := system.FileSetFolder(previous);
        Check(restored == alphaWord);
      }
    }

    method RunAlphaQuizCase()
      requires Ready()
      modifies this`checks, this`failures, system
      ensures system.Valid()
      ensures Selectable(system.slots, alphaQuiz) && !Flag40(system.slots[alphaQuiz].flags)
                && Selectable(system.slots, old(system.currentFolder)) ==>
                checks == old(checks) + 3 && failures == old(failures) && system.currentFolder == old(system.currentFolder)
    {
      var previous, flags := system.FileSetFolder(alphaQuiz);
      Check(previous >= 0);
      Check(!Flag40(flags));
      if previous >= 0 {
        var restored, _ := system.FileSetFolder(previous);
        Check(restored == alphaQuiz);
      }
    }

    /** The last two cases: from AlphaQuiz, a selection that must fail with `expected`, then back. */
    method RunRefusedCase(index: int, expected: int)
      requires Ready() && 0 <= index
      modifies this`checks, this`failures, system
      ensures system.Valid()
      ensures Selectable(system.slots, alphaQuiz) && Selectable(system.slots, old(system.currentFolder))
                && !Selectable(system.slots, index) && Refusal(system.slots, index) == expected ==>
                checks == old(checks) + 4 && failures == old(failures) && system.currentFolder == old(system.currentFolder)
    {
      var original, _ := system.FileSetFolder(alphaQuiz);
      Check(original >= 0);
      if original < 0 {
        return;
      }
      var result, flags := system.FileSetFolder(index);
      Check(result == expected);
      Check(flags == 0);
      var restored, _ := system.FileSetFolder(original);
      Check(restored == alphaQuiz);
    }

    /** Fourteen checks; they fail only if the folder the user came from cannot be selected again. */
    method RunProbe()
      requires system.Valid()
      modifies this, system
      ensures system.Valid()
      ensures missingMask != 0 <==> alphaWord == 0 || alphaQuiz == 0 || calculator == 0
      ensures missingMask != 0 ==> checks == 0 && failures == 0 && system.currentFolder == old(system.currentFolder)
      ensures Documented(system.slots) ==> checks == 14
      ensures Documented(system.slots) && Selectable(system.slots, old(system.currentFolder)) ==>
                failures == 0 && system.currentFolder == old(system.currentFolder)
      ensures Documented(system.slots) && !Selectable(system.slots, old(system.currentFolder)) ==>
                failures == 1 && system.currentFolder == FindFrom(system.slots, 0xA000, 0)
    {
      checks, failures, missingMask := 0, 0, 0;
      alphaWord := system.AppletFindById(ALPHA_WORD);
      alphaQuiz := system.AppletFindById(ALPHA_QUIZ);
      calculator := system.AppletFindById(CALCULATOR);
      if alphaWord == 0 {
        missingMask := missingMask + 1;
      }
      if alphaQuiz == 0 {
        missingMask := missingMask + 2;
      }
      if calculator == 0 {
        missingMask := missingMask + 4;
      }
      if missingMask == 0 {
        RunAlphaWordCase();
        RunAlphaQuizCase();
        RunRefusedCase(calculator, NO_FILE_NAMESPACE);
        RunRefusedCase(32, INVALID_APPLET);
      }
    }
  }
}
