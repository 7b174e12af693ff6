/** Cut and paste in the arena itself: active file and clipboard are neighbours in one SRAM, and one gives the other capacity. */
module ArenaEdit {
  import opened Words
  import opened ByteMoves
  import opened Arena
  import opened Clipboard

  /** The first `n` bytes of a file. */
  function Leading(ram: seq<byte>, d: Descriptor, n: int): (text: seq<byte>)
    requires 0 <= d.storage && 0 <= n && d.storage + n <= |ram|
    ensures |text| == n
  {
    ram[d.storage..d.storage + n]
  }

  /** Preserving a file preserves its text, as far as its watermark reaches. */
  lemma TextIsPreserved(d: Descriptor, ram: seq<byte>, q: Descriptor, after: seq<byte>, n: int)
    requires PreservesOne(d, ram, q, after) && 0 <= n <= d.Watermark()
    ensures q.Watermark() == d.Watermark() && Leading(after, q, n) == Leading(ram, d, n)
  {
    assert Leading(ram, d, n) == Payload(ram, d)[..n] && Leading(after, q, n) == Payload(after, q)[..n];
  }

  /** Two files of a table never share a byte. */
  lemma FilesAreDisjoint(ds: seq<Descriptor>, base: int, limit: int, i: int, j: int)
    requires Tiled(ds, base, limit) && 0 <= i < |ds| && 0 <= j < |ds| && i != j
    ensures ds[i].End() <= ds[j].storage || ds[j].End() <= ds[i].storage
  {
    hide Tiled;
    if i < j {
      TilesAreOrdered(ds, base, limit, i, j);
    } else {
      TilesAreOrdered(ds, base, limit, j, i);
    }
  }

  lemma FileBounds(ds: seq<Descriptor>, base: int, limit: int, i: int)
    requires Tiled(ds, base, limit) && 0 <= i < |ds|
    ensures ds[i].Holds() && base <= ds[i].storage && ds[i].storage + ds[i].maxSize <= limit
  {
  }

  /** Noting a new recoverable size that fits the capacity. */
  lemma RecoverableKeepsTiling(ds: seq<Descriptor>, base: int, limit: int, i: int, n: int)
    requires Tiled(ds, base, limit) && 0 <= i < |ds| && 0 <= n <= ds[i].maxSize
    ensures Tiled(ds[i := ds[i].(recoverable := n)], base, limit)
    ensures Total(ds[i := ds[i].(recoverable := n)]) == Total(ds)
  {
    var qs := ds[i := ds[i].(recoverable := n)];
    forall j | 0 <= j < |qs| ensures qs[j].Holds() && qs[j].storage == ds[j].storage && qs[j].End() == ds[j].End() {
      assert ds[j].Holds();
    }
    TotalIsSpan(ds, base, limit);
    TotalIsSpan(qs, base, limit);
  }

  /** Bytes outside two stretches of RAM. */
  ghost predicate OnlyTwoTouched(ram: seq<byte>, after: seq<byte>, a: int, m: int, b: int, n: int) {
    |after| == |ram| && forall x :: 0 <= x < |ram| && !(a <= x < a + m) && !(b <= x < b + n) ==> after[x] == ram[x]
  }

  /** What lies clear of both stretches is as it was. */
  lemma ClearIsPreserved(ram: seq<byte>, after: seq<byte>, a: int, m: int, b: int, n: int, d: Descriptor)
    requires OnlyTwoTouched(ram, after, a, m, b, n) && InRam(d, ram)
    requires d.storage + d.Watermark() <= a || a + m <= d.storage
    requires d.storage + d.Watermark() <= b || b + n <= d.storage
    ensures PreservesOne(d, ram, d, after)
  {
  }

  /** The bystanders of an edit of files `i` and `j` keep their bytes. */
  lemma BystandersArePreserved(
      ds: seq<Descriptor>, base: int, limit: int, i: int, j: int, k: int, ram: seq<byte>, after: seq<byte>)
    requires Tiled(ds, base, limit) && 0 <= base && limit <= |ram|
    requires 0 <= i < |ds| && 0 <= j < |ds| && 0 <= k < |ds| && k != i && k != j
    requires OnlyTwoTouched(ram, after, ds[i].storage, ds[i].maxSize, ds[j].storage, ds[j].maxSize)
    ensures PreservesOne(ds[k], ram, ds[k], after)
  {
    hide Tiled, OnlyTwoTouched, PreservesOne;
    FileBounds(ds, base, limit, k);
    FilesAreDisjoint(ds, base, limit, k, i);
    FilesAreDisjoint(ds, base, limit, k, j);
    TiledIsInRam(ds, base, limit, ram, k);
    ClearIsPreserved(ram, after, ds[i].storage, ds[i].maxSize, ds[j].storage, ds[j].maxSize, ds[k]);
  }

  lemma MovedAt(ram: seq<byte>, dst: int, src: int, n: int, x: int)
    requires 0 <= n && 0 <= dst && dst + n <= |ram| && 0 <= src && src + n <= |ram| && 0 <= x < |ram|
    ensures Moved(ram, dst, src, n)[x] == if dst <= x < dst + n then ram[x - dst + src] else ram[x]
  {
  }

  lemma SliceIs(ram: seq<byte>, at: int, piece: seq<byte>)
    requires 0 <= at && at + |piece| <= |ram| && forall k :: 0 <= k < |piece| ==> piece[k] == ram[at + k]
    ensures ram[at..at + |piece|] == piece
  {
  }

  /** RAM after copying `n` bytes to the clipboard and closing the gap they leave. */
  function CutRam(ram: seq<byte>, at: int, size: int, cursor: int, to: int, n: int): (closed: seq<byte>)
    requires 0 <= at && 0 <= cursor && 0 <= n && cursor + n <= size && at + size <= |ram| && 0 <= to && to + n <= |ram|
    ensures |closed| == |ram|
  {
    Moved(Moved(ram, to, at + cursor, n), at + cursor, at + cursor + n, size - cursor - n)
  }

  lemma CutRamAt(ram: seq<byte>, at: int, size: int, cursor: int, to: int, n: int, x: int)
    requires 0 <= at && 0 <= cursor && 0 <= n && cursor + n <= size && at + size <= |ram| && 0 <= to && to + n <= |ram|
    requires at + size <= to || to + n <= at
    requires 0 <= x < |ram|
    ensures CutRam(ram, at, size, cursor, to, n)[x] ==
              if to <= x < to + n then ram[at + cursor + (x - to)]
              else if at + cursor <= x < at + size - n then ram[x + n] else ram[x]
  {
    hide Moved;
    var copied := Moved(ram, to, at + cursor, n);
    MovedAt(copied, at + cursor, at + cursor + n, size - cursor - n, x);
    MovedAt(ram, to, at + cursor, n, x);
    if at + cursor <= x < at + size - n {
      MovedAt(ram, to, at + cursor, n, x + n);
    }
  }

  lemma CutOnRam(ram: seq<byte>, at: int, size: int, cursor: int, to: int, n: int)
    requires 0 <= at && 0 <= cursor && 0 <= n && cursor + n <= size && at + size <= |ram| && 0 <= to && to + n <= |ram|
    requires at + size <= to || to + n <= at
    ensures var closed, text := CutRam(ram, at, size, cursor, to, n), ram[at..at + size];
            && closed[at..at + (size - n)] == Removed(text, cursor, n)
            && closed[to..to + n] == text[cursor..cursor + n]
            && OnlyTwoTouched(ram, closed, at, size, to, n)
  {
    hide CutRam;
    var closed, text := CutRam(ram, at, size, cursor, to, n), ram[at..at + size];
    forall x | 0 <= x < |ram| && !(at <= x < at + size) && !(to <= x < to + n) ensures closed[x] == ram[x] {
      CutRamAt(ram, at, size, cursor, to, n, x);
    }
    var left, piece := Removed(text, cursor, n), text[cursor..cursor + n];
    assert |text| == size && |piece| == n && |closed| == |ram|;
    forall k | 0 <= k < |left| ensures left[k] == closed[at + k] {
      CutRamAt(ram, at, size, cursor, to, n, at + k);
    }
    SliceIs(closed, at, left);
    forall k | 0 <= k < |piece| ensures piece[k] == closed[to + k] {
      CutRamAt(ram, at, size, cursor, to, n, to + k);
    }
    SliceIs(closed, to, piece);
  }

  /** The two moves of a cut. */
  method CutBytes(ram: array<byte>, at: int, size: int, cursor: int, to: int, n: int)
    requires 0 <= at && 0 <= cursor && 0 <= n && cursor + n <= size && at + size <= ram.Length && 0 <= to && to + n <= ram.Length
    modifies ram
    ensures ram[..] == CutRam(old(ram[..]), at, size, cursor, to, n)
  {
    hide Moved;
    MoveBytes(ram, to, at + cursor, n);
    MoveBytes(ram, at + cursor, at + cursor + n, size - cursor - n);
  }

  lemma CutTexts(ram: seq<byte>, file: Descriptor, size: int, cursor: int, board: Descriptor, n: int, noted: Descriptor)
    requires 0 <= file.storage && 0 <= cursor && 0 <= n && cursor + n <= size && file.storage + size <= |ram|
    requires 0 <= board.storage && board.storage + n <= |ram| && noted.storage == board.storage
    requires file.storage + size <= board.storage || board.storage + n <= file.storage
    ensures var closed, text := CutRam(ram, file.storage, size, cursor, board.storage, n), Leading(ram, file, size);
            && Leading(closed, file, size - n) == Removed(text, cursor, n)
            && Leading(closed, noted, n) == text[cursor..cursor + n]
            && OnlyTwoTouched(ram, closed, file.storage, size, board.storage, n)
  {
    hide CutRam, OnlyTwoTouched, Removed;
    CutOnRam(ram, file.storage, size, cursor, board.storage, n);
  }

  /** RAM after opening a gap and filling it from the clipboard. */
  function PasteRam(ram: seq<byte>, at: int, size: int, cursor: int, from: int, n: int): (filled: seq<byte>)
    requires 0 <= at && 0 <= cursor <= size && 0 <= n && at + size + n <= |ram| && 0 <= from && from + n <= |ram|
    ensures |filled| == |ram|
  {
    Moved(Moved(ram, at + cursor + n, at + cursor, size - cursor), at + cursor, from, n)
  }

  lemma PasteRamAt(ram: seq<byte>, at: int, size: int, cursor: int, from: int, n: int, x: int)
    requires 0 <= at && 0 <= cursor <= size && 0 <= n && at + size + n <= |ram| && 0 <= from && from + n <= |ram|
    requires at + size + n <= from || from + n <= at
    requires 0 <= x < |ram|
    ensures PasteRam(ram, at, size, cursor, from, n)[x] ==
              if at + cursor <= x < at + cursor + n then ram[from + (x - (at + cursor))]
              else if at + cursor + n <= x < at + size + n then ram[x - n] else ram[x]
  {
    hide Moved;
    var gap := Moved(ram, at + cursor + n, at + cursor, size - cursor);
    MovedAt(gap, at + cursor, from, n, x);
    MovedAt(ram, at + cursor + n, at + cursor, size - cursor, x);
    if at + cursor <= x < at + cursor + n {
      MovedAt(ram, at + cursor + n, at + cursor, size - cursor, from + (x - (at + cursor)));
    }
  }

  lemma PasteOnRam(ram: seq<byte>, at: int, size: int, cursor: int, from: int, n: int)
    requires 0 <= at && 0 <= cursor <= size && 0 <= n && at + size + n <= |ram| && 0 <= from && from + n <= |ram|
    requires at + size + n <= from || from + n <= at
    ensures var filled := PasteRam(ram, at, size, cursor, from, n);
            && filled[at..at + (size + n)] == Inserted(ram[at..at + size], cursor, ram[from..from + n])
            && filled[from..from + n] == ram[from..from + n]
            && OnlyTwoTouched(ram, filled, at, size + n, from, 0)
  {
    hide PasteRam;
    var filled := PasteRam(ram, at, size, cursor, from, n);
    forall x | 0 <= x < |ram| && !(at <= x < at + (size + n)) ensures filled[x] == ram[x] {
      PasteRamAt(ram, at, size, cursor, from, n, x);
    }
    var longer, piece := Inserted(ram[at..at + size], cursor, ram[from..from + n]), ram[from..from + n];
    forall k | 0 <= k < |longer| ensures longer[k] == filled[at + k] {
      PasteRamAt(ram, at, size, cursor, from, n, at + k);
    }
    SliceIs(filled, at, longer);
    forall k | 0 <= k < |piece| ensures piece[k] == filled[from + k] {
      PasteRamAt(ram, at, size, cursor, from, n, from + k);
    }
    SliceIs(filled, from, piece);
  }

  method PasteBytes(ram: array<byte>, at: int, size: int, cursor: int, from: int, n: int)
    requires 0 <= at && 0 <= cursor <= size && 0 <= n && at + size + n <= ram.Length && 0 <= from && from + n <= ram.Length
    modifies ram
    ensures ram[..] == PasteRam(old(ram[..]), at, size, cursor, from, n)
  {
    hide Moved;
    MoveBytes(ram, at + cursor + n, at + cursor, size - cursor);
    MoveBytes(ram, at + cursor, from, n);
  }

  lemma PasteTexts(ram: seq<byte>, file: Descriptor, size: int, cursor: int, board: Descriptor, n: int)
    requires 0 <= file.storage && 0 <= cursor <= size && 0 <= n && file.storage + size + n <= |ram|
    requires 0 <= board.storage && board.storage + n <= |ram|
    requires file.storage + size + n <= board.storage || board.storage + n <= file.storage
    ensures var filled, text := PasteRam(ram, file.storage, size, cursor, board.storage, n), Leading(ram, file, size);
            && Leading(filled, file, size + n) == Inserted(text, cursor, Leading(ram, board, n))
            && Leading(filled, board, n) == Leading(ram, board, n)
            && OnlyTwoTouched(ram, filled, file.storage, size + n, board.storage, 0)
  {
    hide PasteRam, OnlyTwoTouched, Inserted;
    PasteOnRam(ram, file.storage, size, cursor, board.storage, n);
  }

  /** All files but `i` and `j` keep their bytes. */
  ghost predicate OthersPreserved(
      ds: seq<Descriptor>, ram: seq<byte>, qs: seq<Descriptor>, after: seq<byte>, i: int, j: int)
  {
    |qs| == |ds| && forall k :: 0 <= k < |ds| && k != i && k != j ==> PreservesOne(ds[k], ram, qs[k], after)
  }

  lemma OthersTransitive(
      a: seq<Descriptor>, m: seq<byte>, b: seq<Descriptor>, n: seq<byte>, c: seq<Descriptor>, o: seq<byte>, i: int, j: int)
    requires OthersPreserved(a, m, b, n, i, j) && OthersPreserved(b, n, c, o, i, j)
    ensures OthersPreserved(a, m, c, o, i, j)
  {
    forall k | 0 <= k < |a| && k != i && k != j ensures PreservesOne(a[k], m, c[k], o) {
      assert PreservesOne(a[k], m, b[k], n) && PreservesOne(b[k], n, c[k], o);
    }
  }

  lemma NothingEdited(ds: seq<Descriptor>, base: int, limit: int, i: int, j: int, ram: seq<byte>)
    requires Tiled(ds, base, limit) && 0 <= base && limit <= |ram|
    ensures OthersPreserved(ds, ram, ds, ram, i, j) && OutsideUntouched(ram, ram, base, limit)
  {
    hide Tiled, PreservesOne;
    PreservesReflexive(ds, base, limit, ram);
    UntouchedReflexive(ram, base, limit);
  }

  lemma AllAndOthers(ds: seq<Descriptor>, ram: seq<byte>, qs: seq<Descriptor>, after: seq<byte>, i: int, j: int)
    requires Preserves(ds, ram, qs, after)
    ensures OthersPreserved(ds, ram, qs, after, i, j)
  {
    hide PreservesOne;
  }

  /** An edit inside two files leaves the other files and all RAM outside the arena alone, whatever it notes about the two. */
  lemma EditIsLocal(
      ds: seq<Descriptor>, qs: seq<Descriptor>, base: int, limit: int, i: int, j: int, ram: seq<byte>, after: seq<byte>)
    requires Tiled(ds, base, limit) && 0 <= base && limit <= |ram| && 0 <= i < |ds| && 0 <= j < |ds|
    requires OnlyTwoTouched(ram, after, ds[i].storage, ds[i].maxSize, ds[j].storage, ds[j].maxSize)
    requires |qs| == |ds| && forall k :: 0 <= k < |ds| && k != i && k != j ==> qs[k] == ds[k]
    ensures OthersPreserved(ds, ram, qs, after, i, j) && OutsideUntouched(ram, after, base, limit)
  {
    hide Tiled, PreservesOne;
    forall k | 0 <= k < |ds| && k != i && k != j ensures PreservesOne(ds[k], ram, qs[k], after) {
      BystandersArePreserved(ds, base, limit, i, j, k, ram, after);
    }
    FileBounds(ds, base, limit, i);
    FileBounds(ds, base, limit, j);
  }

  lemma WiderStretches(ram: seq<byte>, after: seq<byte>, a: int, m: int, b: int, n: int, m': int, n': int)
    requires OnlyTwoTouched(ram, after, a, m, b, n) && m <= m' && n <= n'
    ensures OnlyTwoTouched(ram, after, a, m', b, n')
  {
  }

  class EditStore {
    const disk: FileStore
    /** Where the active file and the clipboard stand in the table. */
    const active: int
    const clip: int
    var size: int
    var cursor: int
    var clipSize: int
    var tag: int

    constructor (disk: FileStore, active: int, clip: int)
      requires disk.Valid() && 0 <= active < |disk.files| && 0 <= clip < |disk.files| && active != clip
      ensures Valid() && this.disk == disk && this.active == active && this.clip == clip && size == 0 && clipSize == 0
    {
      this.disk, this.active, this.clip := disk, active, clip;
      size, cursor, clipSize, tag := 0, 0, 0, 0;
      new;
      FileBounds(disk.files, disk.base, disk.limit, active);
      FileBounds(disk.files, disk.base, disk.limit, clip);
    }

    ghost predicate Valid()
      reads this, disk, disk.ram
    {
      && disk.Valid()
      && 0 <= active < |disk.files| && 0 <= clip < |disk.files| && active != clip
      && 0 <= cursor <= size <= disk.files[active].maxSize
      && 0 <= clipSize <= disk.files[clip].maxSize
    }

    /** The allocator preserves no more of a file than its watermark. */
    ghost predicate Covered()
      requires Valid()
      reads this, disk, disk.ram
    {
      size <= disk.files[active].Watermark()
    }

    ghost predicate InBounds()
      reads this, disk, disk.ram
    {
      && 0 <= active < |disk.files| && 0 <= clip < |disk.files| && active != clip && 0 <= cursor <= size && 0 <= clipSize
      && 0 <= disk.files[active].storage && disk.files[active].storage + size <= disk.ram.Length
      && 0 <= disk.files[clip].storage && disk.files[clip].storage + clipSize <= disk.ram.Length
    }

    lemma ValidIsInBounds()
      requires Valid()
      ensures InBounds()
    {
      assert disk.files[active].End() <= disk.limit && disk.files[clip].End() <= disk.limit;
    }

    ghost function Text(): seq<byte>
      requires InBounds()
      reads this, disk, disk.ram
    {
      Leading(disk.ram[..], disk.files[active], size)
    }

    ghost function ClipText(): seq<byte>
      requires InBounds()
      reads this, disk, disk.ram
    {
      Leading(disk.ram[..], disk.files[clip], clipSize)
    }

    /** The allocator's part of copy and cut: the active file gives the clipboard what it can of what is asked for. */
    method GiveRoom(requested: nat)
      requires Valid() && Covered()
      modifies disk, disk.ram
      ensures Valid() && Covered() && InBounds() && old(InBounds())
      ensures Text() == old(Text()) && disk.files[active].Watermark() == old(disk.files)[active].Watermark()
      ensures disk.files == Transferred(old(disk.files), active, clip, Given(old(disk.files)[active], requested))
      ensures Total(disk.files) == Total(old(disk.files))
      ensures Preserves(old(disk.files), old(disk.ram[..]), disk.files, disk.ram[..])
      ensures OutsideUntouched(old(disk.ram[..]), disk.ram[..], disk.base, disk.limit)
    {
      hide Tiled, Total, Descriptor.Floor, OutsideUntouched, PreservesOne, Payload;
      ghost var ds, before := disk.files, disk.ram[..];
      ValidIsInBounds();
      var given := disk.Reclaim(active, clip, requested);
      assert PreservesOne(ds[active], before, disk.files[active], disk.ram[..]);
      TextIsPreserved(ds[active], before, disk.files[active], disk.ram[..], size);
      FileBounds(disk.files, disk.base, disk.limit, active);
      ValidIsInBounds();
    }

    /** Copies `n` bytes from the cursor on to the clipboard and deletes them from the file. */
    method TakeText(n: nat)
      requires Valid() && Covered() && cursor + n <= size && n <= disk.files[clip].maxSize
      modifies this`size, this`clipSize, disk`files, disk.ram
      ensures Valid() && Covered() && InBounds() && old(InBounds())
      ensures size == old(size) - n && clipSize == n
      ensures Text() == Removed(old(Text()), cursor, n) && ClipText() == old(Text())[cursor..cursor + n]
      ensures disk.files == old(disk.files)[clip := old(disk.files)[clip].(recoverable := n)]
      ensures Total(disk.files) == Total(old(disk.files))
      ensures OthersPreserved(old(disk.files), old(disk.ram[..]), disk.files, disk.ram[..], active, clip)
      ensures OutsideUntouched(old(disk.ram[..]), disk.ram[..], disk.base, disk.limit)
    {
      hide Tiled, Total, CutRam, OnlyTwoTouched, Removed, Leading, OthersPreserved, OutsideUntouched;
      ghost var ds, before := disk.files, disk.ram[..];
      ValidIsInBounds();
      var file, board := disk.files[active], disk.files[clip];
      FileBounds(disk.files, disk.base, disk.limit, active);
      FileBounds(disk.files, disk.base, disk.limit, clip);
      FilesAreDisjoint(disk.files, disk.base, disk.limit, active, clip);
      RecoverableKeepsTiling(disk.files, disk.base, disk.limit, clip, n);
      CutTexts(before, file, size, cursor, board, n, board.(recoverable := n));
      CutBytes(disk.ram, file.storage, size, cursor, board.storage, n);
      WiderStretches(before, disk.ram[..], file.storage, size, board.storage, n, file.maxSize, board.maxSize);
      disk.files := disk.files[clip := board.(recoverable := n)];
      EditIsLocal(ds, disk.files, disk.base, disk.limit, active, clip, before, disk.ram[..]);
      size := size - n;
      clipSize := n;
    }

    /** `SYS_A204`. `requested` is what the firmware asks its allocator for. */
    method Cut(count: nat, newTag: int, requested: nat) returns (status: int)
      requires Valid() && Covered() && 0 <= newTag < 256
      modifies this`size, this`clipSize, this`tag, disk, disk.ram
      ensures Valid() && Covered() && InBounds() && old(InBounds())
      ensures status >= 0 <==> count <= 0x7FFF_FFFF && count <= old(size) - cursor && newTag != 0
      ensures count > 0x7FFF_FFFF || count > old(size) - cursor ==> status == -128
      ensures count <= 0x7FFF_FFFF && count <= old(size) - cursor && newTag == 0 ==> status == -129
      ensures status < 0 ==> unchanged(this) && unchanged(disk) && unchanged(disk.ram)
      ensures status >= 0 ==>
                && disk.files[clip].maxSize == old(disk.files)[clip].maxSize + Given(old(disk.files)[active], requested)
                && status == (if count < disk.files[clip].maxSize then count else disk.files[clip].maxSize) && tag == newTag
                && size == old(size) - status && clipSize == status
                && Text() == Removed(old(Text()), cursor, status)
                && ClipText() == old(Text())[cursor..cursor + status]
                && disk.files[active].Watermark() == old(disk.files)[active].Watermark()
      ensures Total(disk.files) == Total(old(disk.files))
      ensures OthersPreserved(old(disk.files), old(disk.ram[..]), disk.files, disk.ram[..], active, clip)
      ensures OutsideUntouched(old(disk.ram[..]), disk.ram[..], disk.base, disk.limit)
    {
      hide Tiled, Total, Preserves, OthersPreserved, OutsideUntouched, Removed, Leading, Descriptor.Floor;
      ghost var ds, before := disk.files, disk.ram[..];
      ValidIsInBounds();
      status := Refusal(count, size - cursor, newTag);
      if status != 0 {
        NothingEdited(ds, disk.base, disk.limit, active, clip, before);
        return;
      }
      GiveRoom(requested);
      ghost var given, between := disk.files, disk.ram[..];
      AllAndOthers(ds, before, given, between, active, clip);
      status := Min(count, disk.files[clip].maxSize);
      tag := newTag;
      TakeText(status);
      OthersTransitive(ds, before, given, between, disk.files, disk.ram[..], active, clip);
      UntouchedTransitive(before, between, disk.ram[..], disk.base, disk.limit);
    }

    /** `SYS_A208` in insert mode, unfiltered. */
    method PasteInsert()
      requires Valid() && size + clipSize <= disk.files[active].maxSize
      modifies this`size, this`cursor, disk.ram
      ensures Valid() && InBounds() && old(InBounds())
      ensures size == old(size) + clipSize && cursor == old(cursor) + clipSize
      ensures Text() == Inserted(old(Text()), old(cursor), old(ClipText())) && ClipText() == old(ClipText())
      ensures OthersPreserved(disk.files, old(disk.ram[..]), disk.files, disk.ram[..], active, clip)
      ensures OutsideUntouched(old(disk.ram[..]), disk.ram[..], disk.base, disk.limit)
    {
      hide Tiled, PasteRam, OnlyTwoTouched, Inserted, Leading, OthersPreserved, OutsideUntouched;
      ghost var before := disk.ram[..];
      ValidIsInBounds();
      var file, board := disk.files[active], disk.files[clip];
      FileBounds(disk.files, disk.base, disk.limit, active);
      FileBounds(disk.files, disk.base, disk.limit, clip);
      FilesAreDisjoint(disk.files, disk.base, disk.limit, active, clip);
      PasteTexts(before, file, size, cursor, board, clipSize);
      PasteBytes(disk.ram, file.storage, size, cursor, board.storage, clipSize);
      WiderStretches(before, disk.ram[..], file.storage, size + clipSize, board.storage, 0, file.maxSize, board.maxSize);
      EditIsLocal(disk.files, disk.files, disk.base, disk.limit, active, clip, before, disk.ram[..]);
      size := size + clipSize;
      cursor := cursor + clipSize;
    }

    /**
      * Cut and paste back: whatever capacity moved and whatever the clipboard could hold, the text is as before,
      * the cursor stands behind what was pasted, and no other file and nothing outside the arena has changed.
      */
    method CutAndPaste(count: nat, newTag: int, requested: nat) returns (status: int)
      requires Valid() && Covered() && count <= 0x7FFF_FFFF && count <= size - cursor && 0 < newTag < 256
      modifies this, disk, disk.ram
      ensures Valid() && Covered() && InBounds() && old(InBounds())
      ensures status == if count < disk.files[clip].maxSize then count else disk.files[clip].maxSize
      ensures Text() == old(Text()) && cursor == old(cursor) + status && size == old(size)
      ensures Total(disk.files) == Total(old(disk.files))
      ensures OthersPreserved(old(disk.files), old(disk.ram[..]), disk.files, disk.ram[..], active, clip)
      ensures OutsideUntouched(old(disk.ram[..]), disk.ram[..], disk.base, disk.limit)
    {
      hide Tiled, Total, OthersPreserved, OutsideUntouched, Removed, Inserted, Leading, Descriptor.Floor;
      ValidIsInBounds();
      ghost var ds, before, text, at := disk.files, disk.ram[..], Text(), cursor;
      status := Cut(count, newTag, requested);
      FileBounds(disk.files, disk.base, disk.limit, active);
      ghost var between := disk.ram[..];
      PasteInsert();
      InsertUndoesRemove(text, at, status);
      OthersTransitive(ds, before, disk.files, between, disk.files, disk.ram[..], active, clip);
      UntouchedTransitive(before, between, disk.ram[..], disk.base, disk.limit);
    }
  }
}
