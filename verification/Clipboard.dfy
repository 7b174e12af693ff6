/** Copy, cut and paste between the active file and the clipboard of System 3. */
module Clipboard {
  import opened Words
  import opened ByteMoves

  const NO_ACTIVE_FILE: int := -3
  const BAD_COUNT: int := -128
  const NO_TAG: int := -129

  const APPEND: int := 1
  const INSERT: int := 2
  const OVERWRITE: int := 3

  const BAD_MODE: int := -5

  /** Only the status for a bad mode is known. */
  datatype WriteResult = Written | Failed(status: int)

  function Min(a: int, b: int): int {
    if a < b then a else b
  }

  /** What copy and cut check when a file is active: the raw status, or 0 to go on. */
  function Refusal(count: int, available: int, newTag: int): int {
    if count > 0x7FFF_FFFF then BAD_COUNT
    else if count > available then BAD_COUNT
    else if newTag == 0 then NO_TAG
    else 0
  }

  // ----- Texts -----

  function Removed(text: seq<byte>, at: int, n: int): seq<byte>
    requires 0 <= at && 0 <= n && at + n <= |text|
  {
    text[..at] + text[at + n..]
  }

  function Inserted(text: seq<byte>, at: int, piece: seq<byte>): seq<byte>
    requires 0 <= at <= |text|
  {
    text[..at] + piece + text[at..]
  }

  /** May run past the end. */
  function Overwritten(text: seq<byte>, at: int, piece: seq<byte>): seq<byte>
    requires 0 <= at <= |text|
  {
    text[..at] + piece + if at + |piece| <= |text| then text[at + |piece|..] else []
  }

  /** The three edits, position by position. */
  lemma EditedAt(text: seq<byte>, at: int, n: int, piece: seq<byte>, k: int)
    requires 0 <= at && 0 <= n && at + n <= |text| && 0 <= k
    ensures |Removed(text, at, n)| == |text| - n
    ensures k < |text| - n ==> Removed(text, at, n)[k] == if k < at then text[k] else text[k + n]
    ensures |Inserted(text, at, piece)| == |text| + |piece|
    ensures k < |text| + |piece| ==>
              Inserted(text, at, piece)[k] ==
              if k < at then text[k] else if k < at + |piece| then piece[k - at] else text[k - |piece|]
    ensures |Overwritten(text, at, piece)| == if at + |piece| > |text| then at + |piece| else |text|
    ensures k < |Overwritten(text, at, piece)| ==>
              Overwritten(text, at, piece)[k] ==
              if at <= k < at + |piece| then piece[k - at] else text[k]
  {
  }

  /** What is removed, put back where it came from, is the original text. */
  lemma InsertUndoesRemove(text: seq<byte>, at: int, n: int)
    requires 0 <= at && 0 <= n && at + n <= |text|
    ensures Inserted(Removed(text, at, n), at, text[at..at + n]) == text
  {
  }

  /** Insertion on the storage itself: the suffix moved up, the gap filled. */
  lemma MovedMakesRoom(storage: seq<byte>, at: int, size: int, piece: seq<byte>, after: seq<byte>)
    requires 0 <= at <= size && size + |piece| <= |storage|
    requires var gap := Moved(storage, at + |piece|, at, size - at); after == gap[..at] + piece + gap[at + |piece|..]
    ensures |after| == |storage| && after[..size + |piece|] == Inserted(storage[..size], at, piece)
  {
  }

  /** Deletion on the storage itself: the suffix moved down. */
  lemma MovedClosesGap(storage: seq<byte>, at: int, size: int, n: int)
    requires 0 <= at && 0 <= n && at + n <= size <= |storage|
    ensures var after := Moved(storage, at, at + n, size - at - n);
            after[..size - n] == Removed(storage[..size], at, n) && after[size - n..] == storage[size - n..]
  {
  }

  /** And overwriting, as far as the new end of the file. */
  lemma OverwritesStorage(storage: seq<byte>, at: int, size: int, piece: seq<byte>, after: seq<byte>)
    requires 0 <= at <= size <= |storage| && at + |piece| <= |storage|
    requires after == storage[..at] + piece + storage[at + |piece|..]
    ensures |after| == |storage|
    ensures after[..if at + |piece| > size then at + |piece| else size] == Overwritten(storage[..size], at, piece)
  {
  }

  /** The two moves of an insertion. */
  method InsertBytes(storage: array<byte>, at: int, size: int, from: array<byte>, n: int) returns (ghost after: seq<byte>)
    requires storage != from && 0 <= at <= size && 0 <= n <= from.Length && size + n <= storage.Length
    modifies storage
    ensures after == storage[..] && |after| == |old(storage[..])|
    ensures after[..size + n] == Inserted(old(storage[..size]), at, from[..n])
  {
    hide Inserted, Moved;
    ghost var before := storage[..];
    MoveBytes(storage, at + n, at, size - at);
    ghost var gap := storage[..];
    CopyBytes(storage, at, from, 0, n);
    after := storage[..];
    assert after == gap[..at] + from[..n] + gap[at + n..];
    MovedMakesRoom(before, at, size, from[..n], after);
    assert before[..size] == old(storage[..size]);
  }

  lemma NothingRemoved(text: seq<byte>, at: int)
    requires 0 <= at <= |text|
    ensures Removed(text, at, 0) == text
  {
  }

  lemma SplitText(text: seq<byte>, at: int, n: int)
    requires 0 <= at && 0 <= n && at + n <= |text|
    ensures Removed(text, at, n)[..at] + text[at..at + n] + Removed(text, at, n)[at..] == text
  {
  }

  // ----- Files -----

  class File {
    /** The bytes allotted to the file, and its descriptor fields. */
    const storage: array<byte>
    var currentSize: int
    var recoverable: int
    var maxSize: int
    var cursor: int
    /** Bit 2 of the state byte at +0x23. */
    var stateBit2: bool

    constructor (capacity: nat)
      ensures Valid() && Contents() == [] && fresh(storage) && storage.Length == maxSize == capacity
    {
      storage := new byte[capacity];
      currentSize, recoverable, maxSize, cursor, stateBit2 := 0, 0, capacity, 0, false;
    }

    /** All that is known of the clipboard descriptor, whose cursor is not kept inside its contents. */
    ghost predicate Sized()
      reads this
    {
      0 <= currentSize <= maxSize <= storage.Length
    }

    ghost predicate Valid()
      reads this
    {
      Sized() && 0 <= cursor <= currentSize
    }

    function Contents(): seq<byte>
      requires Sized()
      reads this, storage
    {
      storage[..currentSize]
    }

    /** `FileDeleteChars` on the resolved file: from the cursor on, as many bytes as there are. */
    method DeleteChars(count: int) returns (actual: int)
      requires Valid() && 0 <= count
      modifies this`currentSize, storage
      ensures Valid() && actual == if count < old(currentSize) - cursor then count else old(currentSize) - cursor
      ensures Contents() == Removed(old(Contents()), cursor, actual)
      ensures storage[currentSize..] == old(storage[currentSize - Min(count, currentSize - cursor)..])
    {
      hide Moved, Removed;
      ghost var before, size := storage[..], currentSize;
      var available := currentSize - cursor;
      actual := Min(count, available);
      MovedClosesGap(before, cursor, size, actual);
      NothingRemoved(before[..size], cursor);
      if actual != 0 {
        MoveBytes(storage, cursor, cursor + actual, available - actual);
        currentSize := currentSize - actual;
      }
      assert storage[..currentSize] == storage[..][..currentSize] && storage[currentSize..] == storage[..][currentSize..];
    }

    method Append(from: array<byte>, n: int)
      requires Valid() && from != storage && 0 <= n <= from.Length && currentSize + n <= maxSize
      modifies this`currentSize, storage
      ensures Valid() && Contents() == old(Contents()) + from[..n]
    {
      CopyBytes(storage, currentSize, from, 0, n);
      currentSize := currentSize + n;
    }

    /** The suffix moves right, then the bytes fill the gap. */
    method Insert(from: array<byte>, n: int)
      requires Valid() && from != storage && 0 <= n <= from.Length && currentSize + n <= maxSize
      modifies this`currentSize, this`cursor, storage
      ensures Valid() && Contents() == Inserted(old(Contents()), old(cursor), from[..n]) && cursor == old(cursor) + n
    {
      hide Inserted;
      ghost var after := InsertBytes(storage, cursor, currentSize, from, n);
      currentSize := currentSize + n;
      cursor := cursor + n;
      assert storage[..currentSize] == after[..currentSize];
    }

    method Overwrite(from: array<byte>, n: int)
      requires Valid() && from != storage && 0 <= n <= from.Length && cursor + n <= maxSize
      modifies this`currentSize, this`cursor, storage
      ensures Valid() && Contents() == Overwritten(old(Contents()), old(cursor), from[..n]) && cursor == old(cursor) + n
    {
      hide Overwritten;
      ghost var before, size, at := storage[..], currentSize, cursor;
      CopyBytes(storage, cursor, from, 0, n);
      assert storage[..] == before[..at] + from[..n] + before[at + n..];
      OverwritesStorage(before, at, size, from[..n], storage[..]);
      cursor := cursor + n;
      if cursor > currentSize {
        currentSize := cursor;
      }
      assert storage[..currentSize] == storage[..][..currentSize];
    }

    /** The raw path of the A198 writer. */
    method Write(mode: int, from: array<byte>, n: int) returns (r: WriteResult)
      requires Valid() && from != storage && 0 <= n <= from.Length
      requires mode == 1 || mode == 2 ==> currentSize + n <= maxSize
      requires mode == 3 ==> cursor + n <= maxSize
      modifies this`currentSize, this`cursor, storage
      ensures Valid() && (r == if 1 <= mode <= 3 then Written else Failed(-5))
      ensures r.Failed? ==> Contents() == old(Contents()) && cursor == old(cursor)
      ensures mode == 1 ==> Contents() == old(Contents()) + from[..n] && cursor == old(cursor)
      ensures mode == 2 ==> Contents() == Inserted(old(Contents()), old(cursor), from[..n]) && cursor == old(cursor) + n
      ensures mode == 3 ==> Contents() == Overwritten(old(Contents()), old(cursor), from[..n]) && cursor == old(cursor) + n
    {
      r := Written;
      if mode == APPEND {
        Append(from, n);
      } else if mode == INSERT {
        Insert(from, n);
      } else if mode == OVERWRITE {
        Overwrite(from, n);
      } else {
        r := Failed(BAD_MODE);
      }
    }
  }

  class FileSystem {
    var active: File?
    const clipboard: File
    var tag: int

    constructor (clipboard: File)
      requires clipboard.Sized()
      ensures Valid() && this.clipboard == clipboard && active == null && tag == 0
    {
      this.clipboard, active, tag := clipboard, null, 0;
    }

    ghost predicate Valid()
      reads this, clipboard, active
    {
      clipboard.Sized()
      && (active != null ==> active.Valid() && active != clipboard && active.storage != clipboard.storage)
    }

    /** The validation that copy and cut share: the raw status, or 0 to go on. */
    function Check(count: int, newTag: int): int
      reads this, active
    {
      if active == null then NO_ACTIVE_FILE else Refusal(count, active.currentSize - active.cursor, newTag)
    }

    /** `SYS_A200`. `room` and `activeRoom` are the capacities that the allocator leaves the clipboard and the active file. */
    method Copy(count: int, newTag: int, room: int, activeRoom: int) returns (status: int)
      requires Valid() && 0 <= count && 0 <= newTag < 256 && 0 <= room <= clipboard.storage.Length
      requires active != null ==> active.currentSize <= activeRoom <= active.storage.Length
      modifies this`tag, clipboard, clipboard.storage
      modifies if active != null then {active} else {}
      ensures Valid() && active == old(active)
      ensures status >= 0 <==>
                active != null && count <= 0x7FFF_FFFF && count <= active.currentSize - active.cursor && newTag != 0
      ensures active == null ==> status == -3
      ensures active != null && (count > 0x7FFF_FFFF || count > active.currentSize - active.cursor) ==> status == -128
      ensures active != null && count <= 0x7FFF_FFFF && count <= active.currentSize - active.cursor && newTag == 0 ==>
                status == -129
      ensures active != null ==>
                && unchanged(active.storage) && active.currentSize == old(active.currentSize)
                && active.cursor == old(active.cursor) && active.recoverable == old(active.recoverable)
      ensures status < 0 ==>
                && unchanged(clipboard) && unchanged(clipboard.storage) && tag == old(tag)
                && (active != null ==> unchanged(active))
      ensures status >= 0 ==>
                && status == (if count < room then count else room) && tag == newTag && clipboard.maxSize == room && !clipboard.stateBit2
                && active.maxSize == activeRoom
                && clipboard.Contents() == active.Contents()[active.cursor..active.cursor + status]
                && clipboard.recoverable == clipboard.currentSize && clipboard.cursor == old(clipboard.cursor)
    {
      status := Check(count, newTag);
      if status != 0 {
        return;
      }
      clipboard.stateBit2 := false;
      active.maxSize := activeRoom;
      clipboard.maxSize := room;
      var actual := Min(count, clipboard.maxSize);
      tag := newTag;
      CopyBytes(clipboard.storage, 0, active.storage, active.cursor, actual);
      clipboard.currentSize := actual;
      clipboard.recoverable := actual;
      status := actual;
    }

    /** `SYS_A204`: only what was copied is deleted, so nothing is lost even when the clipboard is too small. */
    method Cut(count: int, newTag: int, room: int, activeRoom: int) returns (status: int)
      requires Valid() && 0 <= count && 0 <= newTag < 256 && 0 <= room <= clipboard.storage.Length
      requires active != null ==> active.currentSize <= activeRoom <= active.storage.Length
      modifies this`tag, clipboard, clipboard.storage
      modifies if active != null then {active, active.storage} else {}
      ensures Valid() && active == old(active)
      ensures status >= 0 <==>
                active != null && count <= 0x7FFF_FFFF && count <= old(active.currentSize - active.cursor) && newTag != 0
      ensures active == null ==> status == -3
      ensures active != null && (count > 0x7FFF_FFFF || count > old(active.currentSize - active.cursor)) ==> status == -128
      ensures active != null && count <= 0x7FFF_FFFF && count <= old(active.currentSize - active.cursor) && newTag == 0 ==>
                status == -129
      ensures status < 0 ==>
                && tag == old(tag) && unchanged(clipboard) && unchanged(clipboard.storage)
                && (active != null ==> unchanged(active) && unchanged(active.storage))
      ensures status >= 0 ==>
                && status == (if count < room then count else room) && tag == newTag && |clipboard.Contents()| == status
                && active.cursor == old(active.cursor) && active.recoverable == old(active.recoverable)
                && active.maxSize == activeRoom
                && active.Contents() == Removed(old(active.Contents()), active.cursor, status)
                && active.Contents()[..active.cursor] + clipboard.Contents() + active.Contents()[active.cursor..]
                     == old(active.Contents())
    {
      hide Removed;
      ghost var text := if active != null then active.Contents() else [];
      status := Copy(count, newTag, room, activeRoom);
      if status >= 0 {
        assert active.Contents() == text;
        SplitText(text, active.cursor, status);
        var deleted := active.DeleteChars(status);
        assert deleted == status;
      }
    }

    /** `SYS_A208` with an unfiltered `read_variant`. */
    method Paste(mode: int) returns (r: WriteResult)
      requires Valid() && active != null
      requires mode == 1 || mode == 2 ==> active.currentSize + clipboard.currentSize <= active.maxSize
      requires mode == 3 ==> active.cursor + clipboard.currentSize <= active.maxSize
      modifies active, active.storage
      ensures Valid() && (r == if 1 <= mode <= 3 then Written else Failed(-5))
      ensures r.Failed? ==> active.Contents() == old(active.Contents()) && active.cursor == old(active.cursor)
      ensures mode == 1 ==>
                active.Contents() == old(active.Contents()) + clipboard.Contents() && active.cursor == old(active.cursor)
      ensures mode == 2 ==>
                && active.Contents() == Inserted(old(active.Contents()), old(active.cursor), clipboard.Contents())
                && active.cursor == old(active.cursor) + |clipboard.Contents()|
      ensures mode == 3 ==>
                && active.Contents() == Overwritten(old(active.Contents()), old(active.cursor), clipboard.Contents())
                && active.cursor == old(active.cursor) + |clipboard.Contents()|
    {
      r := active.Write(mode, clipboard.storage, clipboard.currentSize);
    }

    /**
      * Cutting and pasting back in insert mode restores the text, with the cursor behind what was pasted,
      * even when the clipboard took its capacity from the file.
      */
    method CutAndPaste(count: int, newTag: int, room: int, activeRoom: int) returns (status: int)
      requires Valid() && 0 <= count <= 0x7FFF_FFFF && 0 < newTag < 256 && 0 <= room <= clipboard.storage.Length
      requires active != null && count <= active.currentSize - active.cursor
      requires active.currentSize <= activeRoom <= active.storage.Length
      modifies this`tag, clipboard, clipboard.storage, active, active.storage
      ensures Valid() && active == old(active) && status == if count < room then count else room
      ensures active.Contents() == old(active.Contents()) && active.cursor == old(active.cursor) + status
    {
      ghost var text, at := active.Contents(), active.cursor;
      status := Cut(count, newTag, room, activeRoom);
      assert clipboard.Contents() == text[at..at + status] by {
        assert active.Contents()[..at] + clipboard.Contents() + active.Contents()[at..] == text;
        assert (active.Contents()[..at] + clipboard.Contents() + active.Contents()[at..])[at..at + status] == clipboard.Contents();
      }
      var r := Paste(INSERT);
      InsertUndoesRemove(text, at, status);
    }
  }
}
