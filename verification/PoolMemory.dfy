/** BS->AllocatePool as the library sees it, and CopyMem between blocks. */
module PoolMemory {
  /** A fresh block of `size` cells, or NULL. */
  method AllocatePool<T(0)>(size: nat) returns (block: array?<T>)
    ensures block != null ==> fresh(block) && block.Length == size
  {
    if * {
      block := null;
    } else {
      block := new T[size];
    }
  }

  function Overwritten<T>(s: seq<T>, at: nat, cells: seq<T>): (r: seq<T>)
    requires at + |cells| <= |s|
    ensures |r| == |s|
  {
    s[..at] + cells + s[at + |cells|..]
  }

  /** CopyMem: `len` cells, and no others. */
  method CopyMem<T>(dest: array<T>, d: nat, src: array<T>, s: nat, len: nat)
    requires dest != src && d + len <= dest.Length && s + len <= src.Length
    modifies dest
    ensures dest[..] == Overwritten(old(dest[..]), d, src[s..s + len])
  {
    ghost var was := dest[..];
    var i := 0;
    while i < len
      invariant 0 <= i <= len
      invariant forall j :: 0 <= j < dest.Length ==> dest[j] == if d <= j < d + i then src[s + j - d] else was[j]
    {
      dest[d + i] := src[s + i];
      i := i + 1;
    }
    assert dest[..] == Overwritten(was, d, src[s..s + len]);
  }
}
