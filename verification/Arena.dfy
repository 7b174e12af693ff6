/** The System 3 file arena: descriptors that tile SRAM, and the steps that move capacity between them. */
module Arena {
  import opened Words
  import opened ByteMoves

  const UNIT: int := 0x200
  /** What the guarded mover of the NEO images accepts. */
  const LOWEST: int := 0x400
  const HIGHEST: int := 0x8_0000

  datatype Descriptor = Descriptor(storage: int, maxSize: int, minSize: int, recoverable: int) {
    function End(): int {
      storage + maxSize
    }

    /** How many leading bytes of the file must survive. */
    function Watermark(): (w: int)
      ensures w >= recoverable && w >= minSize && (w == recoverable || w == minSize)
    {
      if recoverable > minSize then recoverable else minSize
    }

    /** What redistribution leaves a descriptor: its watermark in whole units, and at least one. */
    function Floor(): (f: int)
      ensures f >= Watermark() && f >= UNIT && f % UNIT == 0
      ensures f == UNIT || f - UNIT < Watermark()
    {
      var rounded := (Watermark() + UNIT - 1) / UNIT * UNIT;
      if rounded > UNIT then rounded else UNIT
    }

    ghost predicate Holds() {
      0 <= minSize && 0 <= recoverable && Watermark() <= maxSize
    }
  }

  /** `next.storage == current.storage + current.max_size`, from the arena's base, inside the arena. */
  ghost predicate Tiled(ds: seq<Descriptor>, base: int, limit: int) {
    && base <= limit
    && (forall i :: 0 <= i < |ds| ==> ds[i].Holds())
    && (forall i :: 0 <= i < |ds| ==> base <= ds[i].storage && ds[i].End() <= limit)
    && (ds != [] ==> ds[0].storage == base)
    && forall i :: 0 < i < |ds| ==> ds[i].storage == ds[i - 1].End()
  }

  function Total(ds: seq<Descriptor>): int {
    if ds == [] then 0 else Total(ds[..|ds| - 1]) + ds[|ds| - 1].maxSize
  }

  lemma {:induction false} TotalIsSpan(ds: seq<Descriptor>, base: int, limit: int)
    requires Tiled(ds, base, limit)
    ensures Total(ds) == if ds == [] then 0 else ds[|ds| - 1].End() - base
  {
    if ds != [] {
      TotalIsSpan(ds[..|ds| - 1], base, limit);
    }
  }

  /** Earlier descriptors lie wholly below later ones. */
  lemma {:induction false} TilesAreOrdered(ds: seq<Descriptor>, base: int, limit: int, i: int, j: int)
    requires Tiled(ds, base, limit) && 0 <= i < j < |ds|
    ensures ds[i].End() <= ds[j].storage
    decreases j
  {
    if i < j - 1 {
      TilesAreOrdered(ds, base, limit, i, j - 1);
    }
  }

  // ----- Capacity -----

  /** `k` bytes of capacity across the boundary between `i` and `i + 1`: to the right if positive, to the left if negative. */
  function Pass(ds: seq<Descriptor>, i: int, k: int): (qs: seq<Descriptor>)
    requires 0 <= i && i + 1 < |ds|
    ensures |qs| == |ds|
  {
    ds[i := ds[i].(maxSize := ds[i].maxSize - k)]
      [i + 1 := ds[i + 1].(storage := ds[i + 1].storage - k, maxSize := ds[i + 1].maxSize + k)]
  }

  lemma PassTiles(ds: seq<Descriptor>, base: int, limit: int, i: int, k: int)
    requires Tiled(ds, base, limit) && 0 <= i && i + 1 < |ds|
    requires ds[i].Watermark() <= ds[i].maxSize - k && ds[i + 1].Watermark() <= ds[i + 1].maxSize + k
    ensures Tiled(Pass(ds, i, k), base, limit)
  {
    var qs := Pass(ds, i, k);
    forall j | 0 <= j < |ds|
      ensures qs[j].Holds() && base <= qs[j].storage && qs[j].End() <= limit
      ensures qs[j].storage == (if j == i + 1 then ds[j].storage - k else ds[j].storage)
      ensures qs[j].End() == if j == i then ds[j].End() - k else ds[j].End()
    {
      assert ds[j].Holds();
      assert ds[i + 1].storage == ds[i].End() && ds[i].Holds() && base <= ds[i].storage;
    }
  }

  lemma PassKeepsTiling(ds: seq<Descriptor>, base: int, limit: int, i: int, k: int)
    requires Tiled(ds, base, limit) && 0 <= i && i + 1 < |ds|
    requires ds[i].Watermark() <= ds[i].maxSize - k && ds[i + 1].Watermark() <= ds[i + 1].maxSize + k
    ensures Tiled(Pass(ds, i, k), base, limit) && Total(Pass(ds, i, k)) == Total(ds)
  {
    hide Tiled, Total;
    PassTiles(ds, base, limit, i, k);
    TotalIsSpan(ds, base, limit);
    TotalIsSpan(Pass(ds, i, k), base, limit);
  }

  /** The whole chain's effect: the donor shrinks, the receiver grows, and every boundary between them moves by `k`. */
  function Transferred(ds: seq<Descriptor>, from: int, to: int, k: int): (qs: seq<Descriptor>)
    requires 0 <= from < |ds| && 0 <= to < |ds|
    ensures |qs| == |ds|
  {
    seq(|ds|, j requires 0 <= j < |ds| =>
      ds[j].(
        maxSize := ds[j].maxSize + (if j == to then k else 0) - (if j == from then k else 0),
        storage := ds[j].storage + (if to < j <= from then k else 0) - (if from < j <= to then k else 0)))
  }

  lemma NoneTransferred(ds: seq<Descriptor>, from: int, to: int)
    requires 0 <= from < |ds| && 0 <= to < |ds|
    ensures Transferred(ds, from, to, 0) == ds
  {
  }

  lemma NothingTransferred(ds: seq<Descriptor>, from: int, k: int)
    requires 0 <= from < |ds|
    ensures Transferred(ds, from, from, k) == ds
  {
  }

  // ----- Payload -----

  ghost predicate InRam(d: Descriptor, ram: seq<byte>) {
    0 <= d.storage && 0 <= d.Watermark() && d.storage + d.Watermark() <= |ram|
  }

  /** The preserved bytes of a file. */
  function Payload(ram: seq<byte>, d: Descriptor): seq<byte>
    requires InRam(d, ram)
  {
    ram[d.storage..d.storage + d.Watermark()]
  }

  lemma PayloadElsewhere(ram: seq<byte>, dst: int, src: int, n: int, d: Descriptor)
    requires 0 <= n && 0 <= dst && dst + n <= |ram| && 0 <= src && src + n <= |ram| && InRam(d, ram)
    requires d.storage + d.Watermark() <= dst || dst + n <= d.storage
    ensures Payload(Moved(ram, dst, src, n), d) == Payload(ram, d)
  {
  }

  /** The same file with the same preserved bytes, wherever they now are. */
  ghost predicate PreservesOne(d: Descriptor, ram: seq<byte>, q: Descriptor, after: seq<byte>) {
    && InRam(d, ram) && InRam(q, after) && Payload(after, q) == Payload(ram, d)
    && q.minSize == d.minSize && q.recoverable == d.recoverable
  }

  ghost predicate ByteKept(ram: seq<byte>, from: int, after: seq<byte>, to: int, k: int) {
    0 <= from + k < |ram| && 0 <= to + k < |after| && after[to + k] == ram[from + k]
  }

  /** Byte for byte: what the file had in its first `recoverable` and its first `minSize` bytes it still has. */
  ghost predicate KeepsBytes(d: Descriptor, ram: seq<byte>, q: Descriptor, after: seq<byte>) {
    && q.minSize == d.minSize && q.recoverable == d.recoverable
    && (forall k :: 0 <= k < d.recoverable ==> ByteKept(ram, d.storage, after, q.storage, k))
    && forall k :: 0 <= k < d.minSize ==> ByteKept(ram, d.storage, after, q.storage, k)
  }

  lemma PreservedByBytes(d: Descriptor, ram: seq<byte>, q: Descriptor, after: seq<byte>)
    requires PreservesOne(d, ram, q, after)
    ensures KeepsBytes(d, ram, q, after)
  {
    forall k | 0 <= k < d.Watermark() ensures ByteKept(ram, d.storage, after, q.storage, k) {
      assert Payload(after, q)[k] == Payload(ram, d)[k];
    }
  }

  /** Every file does. */
  ghost predicate AllKeepBytes(ds: seq<Descriptor>, ram: seq<byte>, qs: seq<Descriptor>, after: seq<byte>) {
    |qs| == |ds| && forall j :: 0 <= j < |ds| ==> KeepsBytes(ds[j], ram, qs[j], after)
  }

  lemma AllPreservedByBytes(ds: seq<Descriptor>, ram: seq<byte>, qs: seq<Descriptor>, after: seq<byte>)
    requires Preserves(ds, ram, qs, after)
    ensures AllKeepBytes(ds, ram, qs, after)
  {
    hide PreservesOne, KeepsBytes;
    forall j | 0 <= j < |ds| ensures KeepsBytes(ds[j], ram, qs[j], after) {
      PreservedByBytes(ds[j], ram, qs[j], after);
    }
  }

  /** One file gives `k` bytes of capacity, one gets them, and each begins where the one before it ends. */
  ghost predicate CapacityMoved(ds: seq<Descriptor>, qs: seq<Descriptor>, from: int, to: int, k: int) {
    && |qs| == |ds|
    && (forall j :: 0 <= j < |ds| ==>
          qs[j].maxSize == if j == from then ds[j].maxSize - k else if j == to then ds[j].maxSize + k else ds[j].maxSize)
    && (ds != [] ==> qs[0].storage == ds[0].storage)
    && forall j :: 0 < j < |qs| ==> qs[j].storage == qs[j - 1].storage + qs[j - 1].maxSize
  }

  lemma TransferMovesCapacity(ds: seq<Descriptor>, base: int, limit: int, from: int, to: int, k: int)
    requires Tiled(ds, base, limit) && 0 <= from < |ds| && 0 <= to < |ds| && from != to
    requires Tiled(Transferred(ds, from, to, k), base, limit)
    ensures CapacityMoved(ds, Transferred(ds, from, to, k), from, to, k)
  {
  }

  ghost predicate Preserves(ds: seq<Descriptor>, ram: seq<byte>, qs: seq<Descriptor>, after: seq<byte>) {
    |qs| == |ds| && forall j :: 0 <= j < |ds| ==> PreservesOne(ds[j], ram, qs[j], after)
  }

  /** Both the old and the new place of the moved payload lie in the arena, so the guard lets the move through. */
  lemma PassStaysInArena(ds: seq<Descriptor>, base: int, limit: int, i: int, k: int)
    requires Tiled(ds, base, limit) && 0 <= i && i + 1 < |ds| && Tiled(Pass(ds, i, k), base, limit)
    ensures var d := ds[i + 1];
            && 0 <= d.Watermark() && base <= d.storage && d.storage + d.Watermark() <= limit
            && base <= d.storage - k && d.storage - k + d.Watermark() <= limit
  {
    var q, d := Pass(ds, i, k)[i + 1], ds[i + 1];
    assert q.Holds() && d.Holds() && q.Watermark() == d.Watermark();
    assert q.End() <= limit && d.End() <= limit;
  }

  lemma TiledIsInRam(ds: seq<Descriptor>, base: int, limit: int, ram: seq<byte>, j: int)
    requires Tiled(ds, base, limit) && 0 <= base && limit <= |ram| && 0 <= j < |ds|
    ensures InRam(ds[j], ram) && ds[j].Watermark() <= ds[j].maxSize
  {
    assert ds[j].Holds();
  }

  lemma PassKeepsPayloadAt(ds: seq<Descriptor>, base: int, limit: int, i: int, k: int, ram: seq<byte>, j: int)
    requires Tiled(ds, base, limit) && 0 <= base && limit <= |ram| && 0 <= i && i + 1 < |ds| && 0 <= j < |ds|
    requires Tiled(Pass(ds, i, k), base, limit)
    ensures var d := ds[i + 1];
            && InRam(d, ram) && 0 <= d.storage - k && d.storage - k + d.Watermark() <= |ram|
            && PreservesOne(ds[j], ram, Pass(ds, i, k)[j], Moved(ram, d.storage - k, d.storage, d.Watermark()))
  {
    hide Tiled, Moved;
    var qs, d := Pass(ds, i, k), ds[i + 1];
    TiledIsInRam(ds, base, limit, ram, i + 1);
    TiledIsInRam(qs, base, limit, ram, i + 1);
    TiledIsInRam(ds, base, limit, ram, j);
    TiledIsInRam(qs, base, limit, ram, j);
    if j < i + 1 {
      TilesAreOrdered(qs, base, limit, j, i + 1);
    } else if j > i + 1 {
      TilesAreOrdered(qs, base, limit, i + 1, j);
    }
    if j != i + 1 {
      PayloadElsewhere(ram, d.storage - k, d.storage, d.Watermark(), ds[j]);
    }
  }

  lemma PassKeepsPayload(ds: seq<Descriptor>, base: int, limit: int, i: int, k: int, ram: seq<byte>)
    requires Tiled(ds, base, limit) && 0 <= base && limit <= |ram| && 0 <= i && i + 1 < |ds|
    requires Tiled(Pass(ds, i, k), base, limit)
    ensures var d := ds[i + 1];
            && InRam(d, ram) && 0 <= d.storage - k && d.storage - k + d.Watermark() <= |ram|
            && Preserves(ds, ram, Pass(ds, i, k), Moved(ram, d.storage - k, d.storage, d.Watermark()))
  {
    hide Tiled, PreservesOne;
    var d := ds[i + 1];
    PassKeepsPayloadAt(ds, base, limit, i, k, ram, i);
    forall j | 0 <= j < |ds|
      ensures PreservesOne(ds[j], ram, Pass(ds, i, k)[j], Moved(ram, d.storage - k, d.storage, d.Watermark()))
    {
      PassKeepsPayloadAt(ds, base, limit, i, k, ram, j);
    }
  }

  lemma TransferKeepsTotal(ds: seq<Descriptor>, qs: seq<Descriptor>, base: int, limit: int, from: int, to: int, k: int)
    requires Tiled(ds, base, limit) && Tiled(qs, base, limit) && 0 <= from < |ds| && 0 <= to < |ds| && from != to
    requires qs == Transferred(ds, from, to, k)
    ensures Total(qs) == Total(ds)
  {
    hide Tiled, Total;
    TotalIsSpan(ds, base, limit);
    TotalIsSpan(qs, base, limit);
    assert qs[|ds| - 1].End() == ds[|ds| - 1].End();
  }

  /** RAM below and above the arena. */
  ghost predicate OutsideUntouched(ram: seq<byte>, after: seq<byte>, base: int, limit: int) {
    |after| == |ram| && forall x :: 0 <= x < |ram| && !(base <= x < limit) ==> after[x] == ram[x]
  }

  lemma MoveInsideArena(ram: seq<byte>, dst: int, src: int, n: int, base: int, limit: int)
    requires 0 <= n && 0 <= dst && dst + n <= |ram| && 0 <= src && src + n <= |ram| && base <= dst && dst + n <= limit
    ensures OutsideUntouched(ram, Moved(ram, dst, src, n), base, limit)
  {
  }

  lemma UntouchedTransitive(m: seq<byte>, n: seq<byte>, o: seq<byte>, base: int, limit: int)
    requires OutsideUntouched(m, n, base, limit) && OutsideUntouched(n, o, base, limit)
    ensures OutsideUntouched(m, o, base, limit)
  {
  }

  lemma UntouchedReflexive(m: seq<byte>, base: int, limit: int)
    ensures OutsideUntouched(m, m, base, limit)
  {
  }

  lemma PreservesTransitive(
      a: seq<Descriptor>, m: seq<byte>, b: seq<Descriptor>, n: seq<byte>, c: seq<Descriptor>, o: seq<byte>)
    requires Preserves(a, m, b, n) && Preserves(b, n, c, o)
    ensures Preserves(a, m, c, o)
  {
    forall j | 0 <= j < |a| ensures PreservesOne(a[j], m, c[j], o) {
      assert PreservesOne(a[j], m, b[j], n) && PreservesOne(b[j], n, c[j], o);
    }
  }

  lemma PreservesReflexive(ds: seq<Descriptor>, base: int, limit: int, ram: seq<byte>)
    requires Tiled(ds, base, limit) && 0 <= base && limit <= |ram|
    ensures Preserves(ds, ram, ds, ram)
  {
    forall j | 0 <= j < |ds| ensures PreservesOne(ds[j], ram, ds[j], ram) {
      assert ds[j].Holds();
    }
  }

  /** The next step of a chain to the right, and why it may be taken. */
  lemma StepRight(ds: seq<Descriptor>, base: int, limit: int, from: int, m: int, k: int)
    requires Tiled(ds, base, limit) && 0 <= from <= m && m + 1 < |ds|
    requires 0 <= k <= ds[from].maxSize - ds[from].Watermark()
    ensures var qs := Transferred(ds, from, m, k);
            && Pass(qs, m, k) == Transferred(ds, from, m + 1, k)
            && qs[m].Watermark() <= qs[m].maxSize - k && qs[m + 1].Watermark() <= qs[m + 1].maxSize + k
  {
    var qs, next := Transferred(ds, from, m, k), Transferred(ds, from, m + 1, k);
    assert ds[m].Holds() && ds[m + 1].Holds();
    forall j | 0 <= j < |ds| ensures Pass(qs, m, k)[j] == next[j] {
    }
  }

  /** And to the left. */
  lemma StepLeft(ds: seq<Descriptor>, base: int, limit: int, from: int, m: int, k: int)
    requires Tiled(ds, base, limit) && 0 < m <= from < |ds|
    requires 0 <= k <= ds[from].maxSize - ds[from].Watermark()
    ensures var qs := Transferred(ds, from, m, k);
            && Pass(qs, m - 1, -k) == Transferred(ds, from, m - 1, k)
            && qs[m - 1].Watermark() <= qs[m - 1].maxSize + k && qs[m].Watermark() <= qs[m].maxSize - k
  {
    var qs, next := Transferred(ds, from, m, k), Transferred(ds, from, m - 1, k);
    assert ds[m].Holds() && ds[m - 1].Holds();
    forall j | 0 <= j < |ds| ensures Pass(qs, m - 1, -k)[j] == next[j] {
    }
  }

  /** The floor is the least multiple of 512 that is at least 512 and covers both the recoverable and the minimum size. */
  lemma FloorIsLeast(d: Descriptor, f: int)
    ensures d.Floor() % 512 == 0 && d.Floor() >= 512 && d.Floor() >= d.recoverable && d.Floor() >= d.minSize
    ensures f % 512 == 0 && f >= 512 && f >= d.recoverable && f >= d.minSize ==> d.Floor() <= f
  {
  }

  lemma FloorCoversWatermark(d: Descriptor)
    ensures d.Watermark() <= d.Floor()
  {
  }

  lemma TransferKeepsFloor(ds: seq<Descriptor>, from: int, to: int, k: int)
    requires 0 <= from < |ds| && 0 <= to < |ds| && from != to && k <= ds[from].maxSize - ds[from].Floor()
    ensures Transferred(ds, from, to, k)[from].maxSize >= Transferred(ds, from, to, k)[from].Floor()
  {
  }

  // ----- How much a donor gives -----

  /** The aligned capacity that a descriptor can give up. */
  function Reclaimable(d: Descriptor): (k: int)
    ensures k >= 0 && k % UNIT == 0
  {
    if d.maxSize <= d.Floor() then 0 else (d.maxSize - d.Floor()) / UNIT * UNIT
  }

  /** What is given of what is asked for. */
  function Given(d: Descriptor, requested: nat): nat {
    if requested < Reclaimable(d) then requested else Reclaimable(d)
  }

  /** A donor is never taken below its floor, and asked for enough it keeps less than a unit above it. */
  lemma DonorKeepsFloor(ds: seq<Descriptor>, from: int, to: int, requested: nat)
    requires 0 <= from < |ds| && 0 <= to < |ds| && from != to
    ensures var d, q := ds[from], Transferred(ds, from, to, Given(ds[from], requested))[from];
            && q.Floor() == d.Floor()
            && (d.maxSize >= d.Floor() ==> q.maxSize >= q.Floor())
            && (d.maxSize >= d.Floor() && requested >= Reclaimable(d) ==> q.maxSize < q.Floor() + UNIT)
            && (d.maxSize < d.Floor() ==> q.maxSize == d.maxSize)
  {
    hide Descriptor.Floor;
    SameFloor(ds[from], Transferred(ds, from, to, Given(ds[from], requested))[from]);
  }

  /** A floor depends on what is to be preserved, not on storage and capacity. */
  lemma SameFloor(d: Descriptor, q: Descriptor)
    requires d.minSize == q.minSize && d.recoverable == q.recoverable
    ensures d.Floor() == q.Floor()
  {
  }

  // ----- Deletion -----

  /** The predecessor absorbs the deleted capacity. */
  function DeletedLater(ds: seq<Descriptor>, i: int): seq<Descriptor>
    requires 0 < i < |ds|
  {
    ds[..i - 1] + [ds[i - 1].(maxSize := ds[i - 1].maxSize + ds[i].maxSize)] + ds[i + 1..]
  }

  /** The successor inherits the deleted storage and absorbs the deleted capacity. */
  function DeletedFirst(ds: seq<Descriptor>): seq<Descriptor>
    requires ds != []
  {
    if |ds| == 1 then []
    else [ds[1].(storage := ds[0].storage, maxSize := ds[1].maxSize + ds[0].maxSize)] + ds[2..]
  }

  function Deleted(ds: seq<Descriptor>, i: int): seq<Descriptor>
    requires 0 <= i < |ds|
  {
    if i > 0 then DeletedLater(ds, i) else DeletedFirst(ds)
  }

  lemma DeletedLaterKeepsTiling(ds: seq<Descriptor>, base: int, limit: int, i: int)
    requires Tiled(ds, base, limit) && 0 < i < |ds|
    ensures Tiled(DeletedLater(ds, i), base, limit)
  {
    var qs := DeletedLater(ds, i);
    forall j | 0 <= j < |qs|
      ensures qs[j].Holds() && base <= qs[j].storage && qs[j].End() <= limit
      ensures qs[j].storage == (if j < i then ds[j].storage else ds[j + 1].storage)
      ensures qs[j].End() == if j < i - 1 then ds[j].End() else ds[j + 1].End()
    {
      assert ds[j].Holds() && ds[j + 1].Holds();
      assert ds[i].storage == ds[i - 1].End();
    }
  }

  lemma DeletedFirstKeepsTiling(ds: seq<Descriptor>, base: int, limit: int)
    requires Tiled(ds, base, limit) && ds != []
    ensures Tiled(DeletedFirst(ds), base, limit)
  {
    var qs := DeletedFirst(ds);
    forall j | 0 <= j < |qs|
      ensures qs[j].Holds() && base <= qs[j].storage && qs[j].End() == ds[j + 1].End()
      ensures j > 0 ==> qs[j] == ds[j + 1]
    {
      assert ds[j].Holds() && ds[j + 1].Holds();
      assert ds[1].storage == ds[0].End();
    }
  }

  lemma LastEndSurvives(ds: seq<Descriptor>, base: int, limit: int, i: int)
    requires Tiled(ds, base, limit) && 0 <= i < |ds| && |ds| > 1
    ensures |Deleted(ds, i)| == |ds| - 1 && Deleted(ds, i)[|ds| - 2].End() == ds[|ds| - 1].End()
  {
    if i > 0 {
      assert ds[i].storage == ds[i - 1].End();
      assert DeletedLater(ds, i)[|ds| - 2] ==
             if i == |ds| - 1 then ds[i - 1].(maxSize := ds[i - 1].maxSize + ds[i].maxSize) else ds[|ds| - 1];
    } else {
      assert ds[1].storage == ds[0].End();
      assert DeletedFirst(ds)[|ds| - 2] ==
             if |ds| == 2 then ds[1].(storage := ds[0].storage, maxSize := ds[1].maxSize + ds[0].maxSize) else ds[|ds| - 1];
    }
  }

  lemma DeletedKeepsTiling(ds: seq<Descriptor>, base: int, limit: int, i: int)
    requires Tiled(ds, base, limit) && 0 <= i < |ds|
    ensures Tiled(Deleted(ds, i), base, limit)
    ensures |ds| > 1 ==> Total(Deleted(ds, i)) == Total(ds)
  {
    hide Tiled, Total;
    if i > 0 {
      DeletedLaterKeepsTiling(ds, base, limit, i);
    } else {
      DeletedFirstKeepsTiling(ds, base, limit);
    }
    if |ds| > 1 {
      LastEndSurvives(ds, base, limit, i);
      TotalIsSpan(ds, base, limit);
      TotalIsSpan(Deleted(ds, i), base, limit);
    }
  }

  /** Where each survivor stands after the table is compacted. */
  function Survivor(i: int, j: int): int {
    if j < i then j else j - 1
  }

  lemma DeletedLaterKeepsPayload(ds: seq<Descriptor>, base: int, limit: int, i: int, ram: seq<byte>, j: int)
    requires Tiled(ds, base, limit) && 0 <= base && limit <= |ram| && 0 < i < |ds| && 0 <= j < |ds| && j != i
    ensures PreservesOne(ds[j], ram, DeletedLater(ds, i)[Survivor(i, j)], ram)
  {
    assert ds[j].Holds();
  }

  lemma SurvivorsStay(ds: seq<Descriptor>, base: int, limit: int, i: int, ram: seq<byte>)
    requires Tiled(ds, base, limit) && 0 <= base && limit <= |ram| && 0 < i < |ds|
    ensures forall j :: 0 <= j < |ds| && j != i ==> PreservesOne(ds[j], ram, DeletedLater(ds, i)[Survivor(i, j)], ram)
  {
    hide PreservesOne, Tiled;
    forall j | 0 <= j < |ds| && j != i
      ensures PreservesOne(ds[j], ram, DeletedLater(ds, i)[Survivor(i, j)], ram)
    {
      DeletedLaterKeepsPayload(ds, base, limit, i, ram, j);
    }
  }

  lemma DeletedFirstKeepsPayload(ds: seq<Descriptor>, base: int, limit: int, ram: seq<byte>, j: int)
    requires Tiled(ds, base, limit) && 0 <= base && limit <= |ram| && 0 < j < |ds|
    ensures InRam(ds[1], ram) && 0 <= ds[0].storage && ds[0].storage + ds[1].Watermark() <= |ram|
    ensures PreservesOne(ds[j], ram, DeletedFirst(ds)[j - 1], Moved(ram, ds[0].storage, ds[1].storage, ds[1].Watermark()))
  {
    assert ds[0].Holds() && ds[1].Holds() && ds[j].Holds() && ds[1].storage == ds[0].End();
    var d := ds[1];
    if j == 1 {
      assert DeletedFirst(ds)[0].Watermark() == d.Watermark();
    } else {
      TilesAreOrdered(ds, base, limit, 1, j);
      PayloadElsewhere(ram, ds[0].storage, d.storage, d.Watermark(), ds[j]);
    }
  }

  /** Each survivor keeps its bytes, in its place among the survivors. */
  ghost predicate SurvivorsKeepBytes(ds: seq<Descriptor>, ram: seq<byte>, qs: seq<Descriptor>, after: seq<byte>, i: int) {
    && |qs| == |ds| - 1 && 0 <= i < |ds|
    && forall j :: 0 <= j < |ds| && j != i ==> KeepsBytes(ds[j], ram, qs[if j < i then j else j - 1], after)
  }

  /** One neighbour is larger by what was deleted; together the survivors lie where all files lay. */
  ghost predicate CapacityAbsorbed(ds: seq<Descriptor>, qs: seq<Descriptor>, i: int) {
    var heir := if i > 0 then i - 1 else 1;
    && 0 <= i < |ds| && |ds| > 1 && |qs| == |ds| - 1
    && (forall j :: 0 <= j < |ds| && j != i ==>
          qs[if j < i then j else j - 1].maxSize == ds[j].maxSize + if j == heir then ds[i].maxSize else 0)
    && qs[0].storage == ds[0].storage
    && forall j :: 0 < j < |qs| ==> qs[j].storage == qs[j - 1].storage + qs[j - 1].maxSize
  }

  lemma DeletionAbsorbs(ds: seq<Descriptor>, base: int, limit: int, i: int)
    requires Tiled(ds, base, limit) && 0 <= i < |ds| && |ds| > 1 && Tiled(Deleted(ds, i), base, limit)
    ensures CapacityAbsorbed(ds, Deleted(ds, i), i)
  {
    var qs := Deleted(ds, i);
    forall j | 0 <= j < |ds| && j != i
      ensures qs[if j < i then j else j - 1].maxSize == ds[j].maxSize + if j == (if i > 0 then i - 1 else 1) then ds[i].maxSize else 0
    {
    }
  }

  class FileStore {
    const base: int
    const limit: int
    const ram: array<byte>
    var files: seq<Descriptor>

    ghost predicate Valid()
      reads this, ram
    {
      LOWEST <= base <= limit <= HIGHEST <= ram.Length && Tiled(files, base, limit)
    }

    /** The file system's wrapper: ranges outside SRAM are fatal and move nothing. */
    method GuardedMove(dst: int, src: int, n: int) returns (fatal: bool)
      requires 0 <= n && HIGHEST <= ram.Length
      modifies ram
      ensures fatal <==> dst < 0x400 || src < 0x400 || dst + n > 0x8_0000 || src + n > 0x8_0000
      ensures fatal ==> ram[..] == old(ram[..])
      ensures !fatal ==> ram[..] == Moved(old(ram[..]), dst, src, n)
    {
      fatal := dst < LOWEST || src < LOWEST || dst + n > HIGHEST || src + n > HIGHEST;
      if !fatal {
        MoveBytes(ram, dst, src, n);
      }
    }

    /** One step: the file right of the boundary keeps its payload, moved by `k`. */
    method PassCapacity(i: int, k: int)
      requires Valid() && 0 <= i && i + 1 < |files|
      requires files[i].Watermark() <= files[i].maxSize - k && files[i + 1].Watermark() <= files[i + 1].maxSize + k
      modifies this, ram
      ensures Valid() && files == Pass(old(files), i, k) && Preserves(old(files), old(ram[..]), files, ram[..])
      ensures OutsideUntouched(old(ram[..]), ram[..], base, limit)
    {
      hide Preserves, Tiled, Moved, Descriptor.Watermark, OutsideUntouched;
      ghost var ds, qs, before := files, Pass(files, i, k), ram[..];
      PassKeepsTiling(files, base, limit, i, k);
      PassStaysInArena(files, base, limit, i, k);
      PassKeepsPayload(files, base, limit, i, k, ram[..]);
      var left, right := files[i], files[i + 1];
      MoveInsideArena(ram[..], right.storage - k, right.storage, right.Watermark(), base, limit);
      var fatal := GuardedMove(right.storage - k, right.storage, right.Watermark());
      assert !fatal && Preserves(ds, before, qs, ram[..]);
      files := files[i := left.(maxSize := left.maxSize - k)];
      files := files[i + 1 := right.(storage := right.storage - k, maxSize := right.maxSize + k)];
    }

    /** `k` bytes of capacity from one descriptor to any other, step by step along the chain. */
    method Transfer(from: int, to: int, k: int)
      requires Valid() && 0 <= from < |files| && 0 <= to < |files| && from != to
      requires 0 <= k <= files[from].maxSize - files[from].Floor()
      modifies this, ram
      ensures Valid() && files == Transferred(old(files), from, to, k) && Total(files) == Total(old(files))
      ensures CapacityMoved(old(files), files, from, to, k)
      ensures files[from].maxSize >= files[from].Floor()
      ensures Preserves(old(files), old(ram[..]), files, ram[..]) && AllKeepBytes(old(files), old(ram[..]), files, ram[..])
      ensures OutsideUntouched(old(ram[..]), ram[..], base, limit)
    {
      hide Preserves, AllKeepBytes, CapacityMoved, Tiled, Pass, Transferred, Total;
      hide Descriptor.Floor, Descriptor.Watermark, OutsideUntouched;
      ghost var ds, before := files, ram[..];
      FloorCoversWatermark(files[from]);
      NothingTransferred(ds, from, k);
      PreservesReflexive(ds, base, limit, ram[..]);
      UntouchedReflexive(ram[..], base, limit);
      var m := from;
      if from < to {
        while m < to
          invariant from <= m <= to && Valid()
          invariant files == Transferred(ds, from, m, k) && Preserves(ds, before, files, ram[..])
          invariant OutsideUntouched(before, ram[..], base, limit)
        {
          ghost var files0, ram0 := files, ram[..];
          StepRight(ds, base, limit, from, m, k);
          PassCapacity(m, k);
          PreservesTransitive(ds, before, files0, ram0, files, ram[..]);
          UntouchedTransitive(before, ram0, ram[..], base, limit);
          m := m + 1;
        }
      } else {
        while m > to
          invariant to <= m <= from && Valid()
          invariant files == Transferred(ds, from, m, k) && Preserves(ds, before, files, ram[..])
          invariant OutsideUntouched(before, ram[..], base, limit)
        {
          ghost var files0, ram0 := files, ram[..];
          StepLeft(ds, base, limit, from, m, k);
          PassCapacity(m - 1, -k);
          PreservesTransitive(ds, before, files0, ram0, files, ram[..]);
          UntouchedTransitive(before, ram0, ram[..], base, limit);
          m := m - 1;
        }
      }
      TransferKeepsTotal(ds, files, base, limit, from, to, k);
      TransferKeepsFloor(ds, from, to, k);
      TransferMovesCapacity(ds, base, limit, from, to, k);
      AllPreservedByBytes(ds, before, files, ram[..]);
    }

    /** The redistribution step: of what is asked for, the aligned slack above the donor's floor moves to the receiver. */
    method Reclaim(from: int, to: int, requested: nat) returns (given: nat)
      requires Valid() && 0 <= from < |files| && 0 <= to < |files| && from != to
      modifies this, ram
      ensures Valid() && given == Given(old(files)[from], requested) && given <= requested
      ensures CapacityMoved(old(files), files, from, to, given)
      ensures files == Transferred(old(files), from, to, given) && Total(files) == Total(old(files))
      ensures old(files)[from].maxSize >= files[from].Floor() ==> files[from].maxSize >= files[from].Floor()
      ensures given < requested && old(files)[from].maxSize >= files[from].Floor() ==>
                files[from].maxSize < files[from].Floor() + 512
      ensures Preserves(old(files), old(ram[..]), files, ram[..]) && AllKeepBytes(old(files), old(ram[..]), files, ram[..])
      ensures OutsideUntouched(old(ram[..]), ram[..], base, limit)
    {
      hide Preserves, AllKeepBytes, CapacityMoved, Tiled, Transferred, Total, Descriptor.Floor, OutsideUntouched;
      given := Given(files[from], requested);
      DonorKeepsFloor(files, from, to, requested);
      if given > 0 {
        Transfer(from, to, given);
      } else {
        NoneTransferred(files, from, to);
        TransferMovesCapacity(files, base, limit, from, to, 0);
        PreservesReflexive(files, base, limit, ram[..]);
        AllPreservedByBytes(files, ram[..], files, ram[..]);
        UntouchedReflexive(ram[..], base, limit);
      }
    }

    /** The payload of a later file stays where it is: only the predecessor's capacity and the table change. */
    method DeleteLater(i: int)
      requires Valid() && 0 < i < |files|
      modifies this`files
      ensures Valid() && files == DeletedLater(old(files), i)
      ensures forall j :: 0 <= j < |old(files)| && j != i ==>
                PreservesOne(old(files)[j], ram[..], files[Survivor(i, j)], ram[..])
    {
      hide PreservesOne, Tiled, Descriptor.Watermark;
      ghost var ds := files;
      DeletedLaterKeepsTiling(files, base, limit, i);
      SurvivorsStay(ds, base, limit, i, ram[..]);
      files := files[i - 1 := files[i - 1].(maxSize := files[i - 1].maxSize + files[i].maxSize)];
      files := files[..i] + files[i + 1..];
      assert files == DeletedLater(ds, i);
    }

    /** The successor of a deleted first file moves down into its storage. */
    method DeleteFirst()
      requires Valid() && |files| > 1
      modifies this`files, ram
      ensures Valid() && files == DeletedFirst(old(files))
      ensures forall j :: 0 < j < |old(files)| ==>
                PreservesOne(old(files)[j], old(ram[..]), files[Survivor(0, j)], ram[..])
      ensures OutsideUntouched(old(ram[..]), ram[..], base, limit)
    {
      ghost var ds, before := files, ram[..];
      DeletedFirstKeepsTiling(files, base, limit);
      var gone, next := files[0], files[1];
      assert gone.Holds() && next.Holds() && next.storage == gone.End();
      ghost var after := Moved(before, gone.storage, next.storage, next.Watermark());
      forall j | 0 < j < |ds| ensures PreservesOne(ds[j], before, DeletedFirst(ds)[Survivor(0, j)], after) {
        DeletedFirstKeepsPayload(ds, base, limit, before, j);
      }
      assert base <= gone.storage && next.End() <= limit;
      MoveInsideArena(before, gone.storage, next.storage, next.Watermark(), base, limit);
      hide PreservesOne, Tiled, OutsideUntouched;
      var fatal := GuardedMove(gone.storage, next.storage, next.Watermark());
      assert !fatal;
      files := files[1 := next.(storage := gone.storage, maxSize := next.maxSize + gone.maxSize)];
      files := files[1..];
      assert files == DeletedFirst(ds);
    }

    /** Removing descriptor `i`: its capacity goes to the predecessor, or to the successor of the first. */
    method Delete(i: int)
      requires Valid() && 0 <= i < |files|
      modifies this`files, ram
      ensures Valid() && files == Deleted(old(files), i)
      ensures |old(files)| > 1 ==> Total(files) == Total(old(files)) && CapacityAbsorbed(old(files), files, i)
      ensures forall j :: 0 <= j < |old(files)| && j != i ==>
                PreservesOne(old(files)[j], old(ram[..]), files[Survivor(i, j)], ram[..])
      ensures SurvivorsKeepBytes(old(files), old(ram[..]), files, ram[..], i)
      ensures OutsideUntouched(old(ram[..]), ram[..], base, limit)
    {
      hide PreservesOne, KeepsBytes, CapacityAbsorbed, Tiled, Total;
      ghost var ds, before := files, ram[..];
      DeletedKeepsTiling(files, base, limit, i);
      if |files| > 1 {
        DeletionAbsorbs(files, base, limit, i);
      }
      if i > 0 {
        DeleteLater(i);
      } else if |files| > 1 {
        DeleteFirst();
      } else {
        files := [];
      }
      forall j | 0 <= j < |ds| && j != i
        ensures KeepsBytes(ds[j], before, files[if j < i then j else j - 1], ram[..])
      {
        PreservedByBytes(ds[j], before, files[Survivor(i, j)], ram[..]);
      }
    }
  }
}
