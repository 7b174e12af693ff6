/** The overlap-safe byte mover that every file operation of System 3 goes through. */
module ByteMoves {
  import opened Words

  /** `memmove`. */
  function Moved(ram: seq<byte>, dst: int, src: int, n: int): (moved: seq<byte>)
    requires 0 <= n && 0 <= dst && dst + n <= |ram| && 0 <= src && src + n <= |ram|
    ensures |moved| == |ram|
    ensures moved[dst..dst + n] == ram[src..src + n]
    ensures forall x :: 0 <= x < |ram| ==> moved[x] == if dst <= x < dst + n then ram[x - dst + src] else ram[x]
  {
    ram[..dst] + ram[src..src + n] + ram[dst + n..]
  }

  /** Forward when the destination is below the source, backward when it is above. */
  method MoveBytes(ram: array<byte>, dst: int, src: int, n: int)
    requires 0 <= n && 0 <= dst && dst + n <= ram.Length && 0 <= src && src + n <= ram.Length
    modifies ram
    ensures ram[..] == Moved(old(ram[..]), dst, src, n)
  {
    ghost var before := ram[..];
    if dst < src {
      for i := 0 to n
        invariant forall x :: dst <= x < dst + i ==> ram[x] == before[x - dst + src]
        invariant forall x :: 0 <= x < dst || dst + i <= x < ram.Length ==> ram[x] == before[x]
      {
        ram[dst + i] := ram[src + i];
      }
    } else {
      for i := n downto 0
        invariant forall x :: dst + i <= x < dst + n ==> ram[x] == before[x - dst + src]
        invariant forall x :: 0 <= x < dst + i || dst + n <= x < ram.Length ==> ram[x] == before[x]
      {
        ram[dst + i] := ram[src + i];
      }
    }
    assert ram[..] == Moved(before, dst, src, n);
  }

  /** Between different buffers. */
  method CopyBytes(to: array<byte>, dst: int, from: array<byte>, src: int, n: int)
    requires to != from && 0 <= n && 0 <= dst && dst + n <= to.Length && 0 <= src && src + n <= from.Length
    modifies to
    ensures to[..] == old(to[..dst]) + from[src..src + n] + old(to[dst + n..])
  {
    for i := 0 to n
      invariant to[..] == old(to[..dst]) + from[src..src + i] + old(to[dst + i..])
    {
      to[dst + i] := from[src + i];
    }
  }
}
