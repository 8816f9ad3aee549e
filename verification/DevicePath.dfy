/** dpath.c: walking, measuring, unpacking and concatenating packed device paths. */
module DevicePath {
  import opened Basics
  import opened DevicePathNodes
  import DevicePathFormat
  import opened PoolMemory

  /** A pointer into a block of memory, or NULL. */
  datatype Pointer = Null | To(offset: nat)

  predicate NodesAt(mem: seq<Byte>, p: nat, nodes: seq<Node>) {
    p + Size(nodes) <= |mem| && mem[p..p + Size(nodes)] == EncodeAll(nodes)
  }

  /** A complete device path stands at `p`. */
  predicate PathAt(mem: seq<Byte>, p: nat, nodes: seq<Node>) {
    IsPath(nodes) && NodesAt(mem, p, nodes)
  }

  /** There is at most one path at a place. */
  lemma OnePathAt(mem: seq<Byte>, p: nat, x: seq<Node>, y: seq<Node>)
    requires PathAt(mem, p, x) && PathAt(mem, p, y)
    ensures x == y
  {
    hide IsPath, EncodeAll, Size;
    if Size(x) <= Size(y) {
      assert mem[p..p + Size(x)] == mem[p..p + Size(y)][..Size(x)];
      PathDetermined(x, y);
    } else {
      assert mem[p..p + Size(y)] == mem[p..p + Size(x)][..Size(y)];
      PathDetermined(y, x);
    }
  }

  // ---------------------------------------------------------------------------- node macros

  function DevicePathType(mem: array<Byte>, p: nat): nat
    requires p + HEADER <= mem.Length
    reads mem
  {
    mem[p] % 0x80
  }

  function DevicePathSubType(mem: array<Byte>, p: nat): Byte
    requires p + HEADER <= mem.Length
    reads mem
  {
    mem[p + 1]
  }

  function DevicePathNodeLength(mem: array<Byte>, p: nat): nat
    requires p + HEADER <= mem.Length
    reads mem
  {
    mem[p + 2] as int + 256 * (mem[p + 3] as int)
  }

  predicate IsDevicePathEndType(mem: array<Byte>, p: nat)
    requires p + HEADER <= mem.Length
    reads mem
  {
    DevicePathType(mem, p) == END_DEVICE_PATH_TYPE
  }

  predicate IsDevicePathEnd(mem: array<Byte>, p: nat)
    requires p + HEADER <= mem.Length
    reads mem
  {
    IsDevicePathEndType(mem, p) && DevicePathSubType(mem, p) == END_ENTIRE_DEVICE_PATH_SUBTYPE
  }

  /** Reading the header of the first of the nodes at `p`, and going on to the next. */
  lemma FirstNode(mem: array<Byte>, p: nat, nodes: seq<Node>)
    requires NodesAt(mem[..], p, nodes) && nodes != [] && nodes[0].WellFormed()
    ensures p + nodes[0].Length() <= mem.Length
    ensures DevicePathType(mem, p) == nodes[0].MaskedType() && DevicePathSubType(mem, p) == nodes[0].sub
    ensures DevicePathNodeLength(mem, p) == nodes[0].Length()
    ensures mem[p] == nodes[0].typ && mem[..][p..p + nodes[0].Length()] == nodes[0].Encode()
    ensures NodesAt(mem[..], p + nodes[0].Length(), nodes[1..])
  {
    hide EncodeAll, Size;
    var m, node := mem[..], nodes[0];
    var h := node.Encode();
    FirstEncoded(nodes);
    SplitBytes(m, p, h, EncodeAll(nodes[1..]));
    assert h[0] == m[p] && h[1] == m[p + 1] && h[2] == m[p + 2] && h[3] == m[p + 3];
  }

  lemma FirstEncoded(nodes: seq<Node>)
    requires nodes != []
    ensures EncodeAll(nodes) == nodes[0].Encode() + EncodeAll(nodes[1..])
    ensures Size(nodes) == nodes[0].Length() + Size(nodes[1..])
  {
  }

  lemma SplitBytes(m: seq<Byte>, p: nat, a: seq<Byte>, b: seq<Byte>)
    requires p + |a| + |b| <= |m| && m[p..p + (|a| + |b|)] == a + b
    ensures m[p..p + |a|] == a && m[p + |a|..p + |a| + |b|] == b
    ensures forall i :: 0 <= i < |a| ==> m[p + i] == a[i]
  {
    var w := m[p..p + (|a| + |b|)];
    assert m[p..p + |a|] == w[..|a|];
    assert m[p + |a|..p + |a| + |b|] == w[|a|..];
    assert forall i :: 0 <= i < |a| ==> m[p + i] == w[i];
  }

  /** A walk over the nodes at `p` has passed `k` of them and stands at `q`. */
  predicate WalkedTo(mem: array<Byte>, p: nat, nodes: seq<Node>, k: nat, q: nat)
    requires k <= |nodes|
    reads mem
  {
    && q == p + Size(nodes[..k])
    && NodesAt(mem[..], p, nodes[..k])
    && NodesAt(mem[..], q, nodes[k..])
  }

  lemma WalkStart(mem: array<Byte>, p: nat, nodes: seq<Node>)
    requires NodesAt(mem[..], p, nodes)
    ensures WalkedTo(mem, p, nodes, 0, p)
  {
    assert nodes[..0] == [] && nodes[0..] == nodes;
  }

  lemma PathStart(mem: array<Byte>, p: nat, nodes: seq<Node>)
    requires PathAt(mem[..], p, nodes)
    ensures IsPath(nodes) && nodes != [] && WalkedTo(mem, p, nodes, 0, p)
  {
    WalkStart(mem, p, nodes);
  }

  /** NextDevicePathNode passes one node. */
  lemma WalkStep(mem: array<Byte>, p: nat, nodes: seq<Node>, k: nat, q: nat)
    requires k < |nodes| && nodes[k].WellFormed() && WalkedTo(mem, p, nodes, k, q)
    ensures q + HEADER <= q + nodes[k].Length() <= mem.Length
    ensures DevicePathNodeLength(mem, q) == nodes[k].Length() && DevicePathSubType(mem, q) == nodes[k].sub
    ensures IsDevicePathEndType(mem, q) <==> nodes[k].IsEndType()
    ensures IsDevicePathEnd(mem, q) <==> nodes[k].IsEnd()
    ensures mem[q] == nodes[k].typ && mem[..][q..q + nodes[k].Length()] == nodes[k].Encode()
    ensures Size(nodes[..k + 1]) == Size(nodes[..k]) + nodes[k].Length()
    ensures WalkedTo(mem, p, nodes, k + 1, q + nodes[k].Length())
  {
    FirstNode(mem, q, nodes[k..]);
    assert nodes[k..][1..] == nodes[k + 1..];
    var n, run := nodes[k].Length(), nodes[..k];
    assert nodes[..k + 1] == run + [nodes[k]];
    SizeSnoc(run, nodes[k]);
    RunGrows(mem[..], p, run, nodes[k]);
  }

  /** The same for a whole path: the walk knows the end when it stands on it. */
  lemma WalkOver(mem: array<Byte>, p: nat, nodes: seq<Node>, k: nat, q: nat)
    requires IsPath(nodes) && k < |nodes| && WalkedTo(mem, p, nodes, k, q)
    ensures q + HEADER <= mem.Length && DevicePathNodeLength(mem, q) == nodes[k].Length()
    ensures IsDevicePathEnd(mem, q) <==> k == |nodes| - 1
    ensures WalkedTo(mem, p, nodes, k + 1, q + nodes[k].Length())
  {
    PathNodeAt(nodes, k);
    WalkStep(mem, p, nodes, k, q);
  }

  lemma RunGrows(mem: seq<Byte>, p: nat, run: seq<Node>, node: Node)
    requires NodesAt(mem, p, run)
    requires p + Size(run) + node.Length() <= |mem|
    requires mem[p + Size(run)..p + Size(run) + node.Length()] == node.Encode()
    ensures NodesAt(mem, p, run + [node])
  {
    hide Size, EncodeAll, Node.Encode, Node.Length;
    SizeSnoc(run, node);
    EncodeSnoc(run, node);
    var q := p + Size(run);
    assert mem[p..q + node.Length()] == mem[p..q] + mem[q..q + node.Length()];
  }

  // ------------------------------------------------------------------------ walking instances

  /** One instance: where it starts, how many bytes its nodes take, and where the next one starts. */
  method DevicePathInstance(mem: array<Byte>, DevicePath: Pointer, ghost nodes: seq<Node>)
    returns (Start: Pointer, Next: Pointer, InstSize: nat)
    requires DevicePath.To? ==> PathAt(mem[..], DevicePath.offset, nodes)
    ensures Start == DevicePath && (DevicePath.Null? ==> Next.Null?)
    ensures DevicePath.To? ==>
      && InstSize == Size(nodes[..Stop(nodes)])
      && NodesAt(mem[..], DevicePath.offset, nodes[..Stop(nodes)])
      && (Next.Null? <==> nodes[Stop(nodes)].sub == END_ENTIRE_DEVICE_PATH_SUBTYPE)
      && (Next.To? ==> PathAt(mem[..], Next.offset, nodes[Stop(nodes) + 1..]))
    ensures DevicePath.To? ==>
      && Instances(nodes) != []
      && var first := Instances(nodes)[0]; InstSize == Size(if |first| <= 513 then first else first[..513])
  {
    if DevicePath.Null? {
      return Null, Null, 0;
    }
    FirstPiece(nodes);
    var DevPath, next := EndOfInstance(mem, DevicePath.offset, nodes);
    Start := DevicePath;
    Next := if DevicePathSubType(mem, DevPath) == END_ENTIRE_DEVICE_PATH_SUBTYPE then Null else To(next);
    InstSize := DevPath - DevicePath.offset;
  }

  lemma FirstPiece(nodes: seq<Node>)
    requires IsPath(nodes)
    ensures Instances(nodes) != []
    ensures var first := Instances(nodes)[0]; nodes[..Stop(nodes)] == if |first| <= 513 then first else first[..513]
  {
    hide IsPath, Instances, Enumerated, Stop;
    DevicePathFormat.EnumerationLimit(nodes);
    EnumeratedStep(nodes);
    assert Enumerated(nodes)[0] == nodes[..Stop(nodes)];
  }

  /** The counting loop: the node at which it stops, and the position behind that node. */
  method EndOfInstance(mem: array<Byte>, p: nat, ghost nodes: seq<Node>) returns (DevPath: nat, Next: nat)
    requires PathAt(mem[..], p, nodes)
    ensures DevPath + HEADER <= mem.Length && DevPath == p + Size(nodes[..Stop(nodes)])
    ensures DevicePathSubType(mem, DevPath) == nodes[Stop(nodes)].sub
    ensures NodesAt(mem[..], p, nodes[..Stop(nodes)])
    ensures nodes[Stop(nodes)].sub != END_ENTIRE_DEVICE_PATH_SUBTYPE ==>
      PathAt(mem[..], Next, nodes[Stop(nodes) + 1..])
  {
    hide WalkedTo, NodesAt, IsPath, FirstEnd, Stop, Size, EncodeAll, Node.IsEndType, Node.WellFormed;
    var Count: nat := 0;
    DevPath, Next := p, p;
    WalkStart(mem, p, nodes);
    while true
      invariant Count <= FirstEnd(nodes) && Count <= CUTOFF
      invariant WalkedTo(mem, p, nodes, Count, DevPath)
      decreases FirstEnd(nodes) - Count
    {
      PathNode(nodes, Count);
      WalkStep(mem, p, nodes, Count, DevPath);
      Next := DevPath + DevicePathNodeLength(mem, DevPath);
      if IsDevicePathEndType(mem, DevPath) {
        break;
      }
      if Count > 512 {
        break;
      }
      DevPath := Next;
      Count := Count + 1;
    }
    InstanceWalked(mem, p, nodes, Count, DevPath, Next);
  }

  lemma PathNode(nodes: seq<Node>, k: nat)
    requires IsPath(nodes) && k <= FirstEnd(nodes)
    ensures k < |nodes| && nodes[k].WellFormed()
    ensures nodes[k].IsEndType() <==> k == FirstEnd(nodes)
  {
    PathHasEnd(nodes);
  }

  lemma InstanceWalked(mem: array<Byte>, p: nat, nodes: seq<Node>, k: nat, q: nat, next: nat)
    requires IsPath(nodes) && k <= FirstEnd(nodes) && k <= CUTOFF && k < |nodes|
    requires k == FirstEnd(nodes) || k == CUTOFF
    requires WalkedTo(mem, p, nodes, k, q) && WalkedTo(mem, p, nodes, k + 1, next)
    ensures k == Stop(nodes) && q == p + Size(nodes[..k]) && NodesAt(mem[..], p, nodes[..k])
    ensures nodes[k].sub != END_ENTIRE_DEVICE_PATH_SUBTYPE ==> PathAt(mem[..], next, nodes[k + 1..])
  {
    hide IsPath, FirstEnd, Stop, NodesAt, Size;
    StopIs(nodes);
    assert k == Stop(nodes);
  }

  /** Counts the enumerated instances: all of them, when none has more than 513 nodes. */
  method DevicePathInstanceCount(mem: array<Byte>, DevicePath: Pointer, ghost nodes: seq<Node>) returns (Count: nat)
    requires DevicePath.To? ==> PathAt(mem[..], DevicePath.offset, nodes)
    ensures DevicePath.Null? ==> Count == 0
    ensures DevicePath.To? ==> Count == |Enumerated(nodes)|
    ensures DevicePath.To? && (forall i :: 0 <= i < |Instances(nodes)| ==> |Instances(nodes)[i]| <= 513) ==>
      Count == |Instances(nodes)|
  {
    Count := 0;
    var cur := DevicePath;
    ghost var rest := nodes;
    while true
      invariant cur.To? ==> DevicePath.To? && PathAt(mem[..], cur.offset, rest)
      invariant cur.To? ==> Count + |Enumerated(rest)| == |Enumerated(nodes)|
      invariant cur.Null? ==> Count == if DevicePath.To? then |Enumerated(nodes)| else 0
      decreases if cur.To? then 1 + |rest| else 0
    {
      var inst, next, size := DevicePathInstance(mem, cur, rest);
      if inst.Null? {
        break;
      }
      Count := Count + 1;
      rest := rest[Stop(rest) + 1..];
      cur := next;
    }
    if DevicePath.To? {
      DevicePathFormat.EnumerationLimit(nodes);
    }
  }

  method DevicePathSize(mem: array<Byte>, p: nat, ghost nodes: seq<Node>) returns (size: nat)
    requires PathAt(mem[..], p, nodes)
    ensures size == Size(nodes)
  {
    var end := EndOfPath(mem, p, nodes);
    size := end - p + HEADER;
  }

  /** Search for the end of the device path structure. */
  method EndOfPath(mem: array<Byte>, p: nat, ghost nodes: seq<Node>) returns (DevPath: nat)
    requires PathAt(mem[..], p, nodes)
    ensures DevPath + HEADER == p + Size(nodes)
    ensures DevPath + HEADER <= mem.Length && DevicePathNodeLength(mem, DevPath) == HEADER
  {
    hide *;
    DevPath := p;
    ghost var k := 0;
    PathStart(mem, p, nodes);
    WalkOver(mem, p, nodes, 0, p);
    while !IsDevicePathEnd(mem, DevPath)
      invariant k < |nodes| && WalkedTo(mem, p, nodes, k, DevPath)
      invariant DevPath + HEADER <= mem.Length
      invariant IsDevicePathEnd(mem, DevPath) <==> k == |nodes| - 1
      decreases |nodes| - k
    {
      WalkOver(mem, p, nodes, k, DevPath);
      DevPath := DevPath + DevicePathNodeLength(mem, DevPath);
      k := k + 1;
      WalkOver(mem, p, nodes, k, DevPath);
    }
    WalkOver(mem, p, nodes, k, DevPath);
    WalkEnd(mem, p, nodes, DevPath);
  }

  lemma WalkEnd(mem: array<Byte>, p: nat, nodes: seq<Node>, q: nat)
    requires IsPath(nodes) && WalkedTo(mem, p, nodes, |nodes| - 1, q)
    ensures q + HEADER == p + Size(nodes) && nodes[|nodes| - 1].Length() == HEADER
  {
    hide Size, NodesAt;
    PathNodeAt(nodes, |nodes| - 1);
    LastNodeSize(nodes);
  }

  // --------------------------------------------------------------------- copying and building

  method AllocateZeroPool(size: nat) returns (block: array?<Byte>)
    ensures block != null ==> fresh(block) && block[..] == Zeros(size)
  {
    block := AllocatePool(size);
    if block != null {
      var i := 0;
      while i < size
        invariant 0 <= i <= size
        invariant forall j :: 0 <= j < i ==> block[j] == 0
      {
        block[i] := 0;
        i := i + 1;
      }
    }
  }

  /** SetDevicePathNodeLength: the low 16 bits of the length. */
  method SetDevicePathNodeLength(mem: array<Byte>, p: nat, l: nat)
    requires p + HEADER <= mem.Length
    modifies mem
    ensures mem[..] == old(mem[..])[p + 2 := l % 256][p + 3 := l / 256 % 256]
  {
    mem[p + 2] := l % 256;
    mem[p + 3] := l / 256 % 256;
  }

  /** A copy of the path, node for node, in a block of exactly its size. */
  method DuplicateDevicePath(mem: array<Byte>, p: nat, ghost nodes: seq<Node>) returns (copy: array?<Byte>)
    requires PathAt(mem[..], p, nodes)
    ensures copy != null ==> fresh(copy) && copy[..] == EncodeAll(nodes)
  {
    var size := DevicePathSize(mem, p, nodes);
    copy := AllocatePool(size);
    if copy != null {
      CopyMem(copy, 0, mem, p, size);
      assert mem[..][p..p + size] == mem[p..p + size];
    }
  }

  // -------------------------------------------------------------------------------- unpacking

  /** The bytes of the unpacked path: `k` nodes are written, zeros follow. */
  predicate UnpackedSoFar(block: seq<Byte>, nodes: seq<Node>, align: Alignment, k: nat, dest: nat)
    requires k <= |nodes|
  {
    var r := UnpackedAll(nodes, align);
    && |block| == Size(r)
    && dest == Size(r[..k]) <= |block|
    && block == EncodeAll(r[..k]) + Zeros(|block| - dest)
  }

  /** The bytes at `at` when a node is copied there, its length written over and its type marked. */
  function Marked(block: seq<Byte>, at: nat, node: Node, size: nat): (r: seq<Byte>)
    requires at + node.Length() <= |block|
    ensures |r| == |block|
  {
    Overwritten<Byte>(block, at, node.Encode())
      [at + 2 := size % 256][at + 3 := size / 256 % 256][at := MarkedType(node.typ)]
  }

  function MarkedType(t: Byte): Byte {
    if t < EFI_DP_TYPE_UNPACKED then t + EFI_DP_TYPE_UNPACKED else t
  }

  /** Copying a node over zeros, then rounding its length and marking its type, writes the unpacked node. */
  lemma NodeUnpacked(block: seq<Byte>, nodes: seq<Node>, align: Alignment, k: nat, dest: nat)
    requires k < |nodes| && UnpackedSoFar(block, nodes, align, k, dest)
    ensures var node := nodes[k];
      var size := node.Length() + AlignSize(node.Length(), align);
      && dest + size <= |block|
      && UnpackedSoFar(Marked(block, dest, node, size), nodes, align, k + 1, dest + size)
  {
    hide Size, EncodeAll, UnpackedAll, Unpacked, Zeros, AlignSize, Marked;
    var r, all := Unpacked(nodes[k], align), UnpackedAll(nodes, align);
    var head, left := EncodeAll(all[..k]), |block| - dest - r.Length();
    assert all[..k + 1] == all[..k] + [r];
    SizeSnoc(all[..k], r);
    EncodeSnoc(all[..k], r);
    assert all == all[..k + 1] + all[k + 1..];
    SizeAppends(all[..k + 1], all[k + 1..]);
    NodeOverZeros(head, nodes[k], align, left);
  }

  lemma ZerosSplit(m: nat, n: nat)
    ensures Zeros(m + n) == Zeros(m) + Zeros(n)
  {
  }

  lemma UpdateMiddle(head: seq<Byte>, x: seq<Byte>, z: seq<Byte>, i: nat, v: Byte)
    requires i < |x|
    ensures (head + x + z)[|head| + i := v] == head + x[i := v] + z
  {
  }

  lemma NodeOverZeros(head: seq<Byte>, node: Node, align: Alignment, left: nat)
    ensures var r := Unpacked(node, align);
      Marked(head + Zeros(r.Length() + left), |head|, node, r.Length()) == head + r.Encode() + Zeros(left)
  {
    hide Zeros, AlignSize;
    var r, at, x, n := Unpacked(node, align), |head|, node.Encode(), node.Length();
    var pad := Zeros(AlignSize(n, align));
    ZerosSplit(r.Length(), left);
    ZerosSplit(n, AlignSize(n, align));
    var z := pad + Zeros(left);
    assert Zeros(r.Length() + left) == Zeros(n) + z;
    OverwriteZeros(head, x, z);
    var low, high := r.Length() % 256, r.Length() / 256 % 256;
    UpdateMiddle(head, x, z, 2, low);
    UpdateMiddle(head, x[2 := low], z, 3, high);
    UpdateMiddle(head, x[2 := low][3 := high], z, 0, r.typ);
    assert x[2 := low][3 := high][0 := r.typ] + pad == r.Encode();
  }

  lemma OverwriteZeros(head: seq<Byte>, x: seq<Byte>, z: seq<Byte>)
    ensures Overwritten(head + (Zeros(|x|) + z), |head|, x) == head + x + z
  {
  }

  /** Every node moves to an aligned place, its length rounded up, its padding zero and its type marked;
      the block is exactly filled. */
  method UnpackDevicePath(mem: array<Byte>, p: nat, minAlignmentSize: Alignment, ghost nodes: seq<Node>)
    returns (NewPath: array?<Byte>)
    requires PathAt(mem[..], p, nodes)
    ensures NewPath != null ==> fresh(NewPath) && NewPath[..] == EncodeAll(UnpackedAll(nodes, minAlignmentSize))
    ensures NewPath != null ==>
      (PathAt(NewPath[..], 0, UnpackedAll(nodes, minAlignmentSize)) <==>
       RoundedLengthsFit(nodes, minAlignmentSize) && HEADER % minAlignmentSize == 0)
  {
    hide UnpackedAll, RoundedLengthsFit, EncodeAll, Size;
    var size := UnpackedSize(mem, p, minAlignmentSize, nodes);
    WholeSizingPass(nodes, minAlignmentSize);
    NewPath := AllocateZeroPool(size);
    if NewPath != null {
      UnpackInto(mem, p, minAlignmentSize, NewPath, nodes);
      UnpackedIsPath(nodes, minAlignmentSize);
      WholeBlock(NewPath[..], NewPath.Length, UnpackedAll(nodes, minAlignmentSize));
    }
  }

  /** The sizing pass. */
  method UnpackedSize(mem: array<Byte>, p: nat, minAlignmentSize: Alignment, ghost nodes: seq<Node>)
    returns (size: nat)
    requires PathAt(mem[..], p, nodes)
    ensures size == SizingPass(0, nodes, 0, minAlignmentSize)
  {
    hide *;
    var Src: nat := p;
    size := 0;
    ghost var k := 0;
    PathStart(mem, p, nodes);
    while true
      invariant k < |nodes| && WalkedTo(mem, p, nodes, k, Src)
      invariant SizingPass(size, nodes, k, minAlignmentSize) == SizingPass(0, nodes, 0, minAlignmentSize)
      decreases |nodes| - k
    {
      WalkOver(mem, p, nodes, k, Src);
      SizingStep(size, nodes, k, minAlignmentSize);
      size := size + DevicePathNodeLength(mem, Src);
      size := size + AlignSize(size, minAlignmentSize);
      if IsDevicePathEnd(mem, Src) {
        break;
      }
      Src := Src + DevicePathNodeLength(mem, Src);
      k := k + 1;
    }
  }

  /** Copies a node, rounds its length up and marks its type. */
  method UnpackNode(mem: array<Byte>, Src: nat, minAlignmentSize: Alignment, block: array<Byte>, Dest: nat,
                    ghost node: Node) returns (size: nat)
    requires mem != block && Src + node.Length() <= mem.Length && Dest + node.Length() <= block.Length
    requires mem[..][Src..Src + node.Length()] == node.Encode() && DevicePathNodeLength(mem, Src) == node.Length()
    modifies block
    ensures size == node.Length() + AlignSize(node.Length(), minAlignmentSize)
    ensures block[..] == Marked(old(block[..]), Dest, node, size)
  {
    hide AlignSize, Overwritten, Node.Encode;
    FirstOverwritten(block[..], Dest, node);
    size := DevicePathNodeLength(mem, Src);
    CopyNode(mem, Src, block, Dest, node, size);
    size := size + AlignSize(size, minAlignmentSize);
    SetDevicePathNodeLength(block, Dest, size);
    assert block[Dest] == block[..][Dest] == node.typ;
    MarkUnpacked(block, Dest);
  }

  method CopyNode(mem: array<Byte>, Src: nat, block: array<Byte>, Dest: nat, ghost node: Node, size: nat)
    requires mem != block && Src + size <= mem.Length && Dest + size <= block.Length
    requires size == node.Length() && mem[..][Src..Src + size] == node.Encode()
    modifies block
    ensures block[..] == Overwritten(old(block[..]), Dest, node.Encode())
  {
    hide Overwritten, Node.Encode, Node.Length;
    assert mem[..][Src..Src + size] == mem[Src..Src + size];
    CopyMem(block, Dest, mem, Src, size);
  }

  lemma FirstOverwritten(s: seq<Byte>, at: nat, node: Node)
    requires at + node.Length() <= |s|
    ensures Overwritten(s, at, node.Encode())[at] == node.typ
  {
  }

  /** `Dest->Type |= EFI_DP_TYPE_UNPACKED` */
  method MarkUnpacked(block: array<Byte>, Dest: nat)
    requires Dest < block.Length
    modifies block
    ensures block[..] == old(block[..])[Dest := MarkedType(old(block[Dest]))]
  {
    block[Dest] := MarkedType(block[Dest]);
  }

  /** The copying pass. */
  method UnpackInto(mem: array<Byte>, p: nat, minAlignmentSize: Alignment, block: array<Byte>,
                    ghost nodes: seq<Node>)
    requires PathAt(mem[..], p, nodes) && mem != block
    requires block[..] == Zeros(Size(UnpackedAll(nodes, minAlignmentSize)))
    modifies block
    ensures block[..] == EncodeAll(UnpackedAll(nodes, minAlignmentSize))
  {
    hide *;
    var Src: nat, Dest: nat := p, 0;
    ghost var k := 0;
    PathStart(mem, p, nodes);
    UnpackedStart(block[..], nodes, minAlignmentSize);
    while true
      invariant k < |nodes| && WalkedTo(mem, p, nodes, k, Src)
      invariant UnpackedSoFar(block[..], nodes, minAlignmentSize, k, Dest)
      decreases |nodes| - k
    {
      WalkOver(mem, p, nodes, k, Src);
      Dest := UnpackAt(mem, p, minAlignmentSize, block, nodes, k, Src, Dest);
      if IsDevicePathEnd(mem, Src) {
        break;
      }
      Src := Src + DevicePathNodeLength(mem, Src);
      k := k + 1;
    }
    UnpackedEnd(block[..], nodes, minAlignmentSize, Dest);
  }

  /** One turn of the copying pass. */
  method UnpackAt(mem: array<Byte>, ghost p: nat, minAlignmentSize: Alignment, block: array<Byte>,
                  ghost nodes: seq<Node>, ghost k: nat, Src: nat, Dest: nat) returns (next: nat)
    requires IsPath(nodes) && k < |nodes| && WalkedTo(mem, p, nodes, k, Src) && mem != block
    requires UnpackedSoFar(block[..], nodes, minAlignmentSize, k, Dest)
    modifies block
    ensures UnpackedSoFar(block[..], nodes, minAlignmentSize, k + 1, next)
  {
    hide IsPath, WalkedTo, UnpackedSoFar, AlignSize, Marked, Node.Encode, Node.WellFormed, Node.IsEnd, Node.IsEndType;
    PathNodeAt(nodes, k);
    WalkStep(mem, p, nodes, k, Src);
    NodeUnpacked(block[..], nodes, minAlignmentSize, k, Dest);
    var size := UnpackNode(mem, Src, minAlignmentSize, block, Dest, nodes[k]);
    next := Dest + size;
  }

  lemma UnpackedStart(block: seq<Byte>, nodes: seq<Node>, align: Alignment)
    requires block == Zeros(Size(UnpackedAll(nodes, align)))
    ensures UnpackedSoFar(block, nodes, align, 0, 0)
  {
    assert UnpackedAll(nodes, align)[..0] == [];
  }

  lemma UnpackedEnd(block: seq<Byte>, nodes: seq<Node>, align: Alignment, dest: nat)
    requires UnpackedSoFar(block, nodes, align, |nodes|, dest)
    ensures block == EncodeAll(UnpackedAll(nodes, align))
  {
    assert UnpackedAll(nodes, align)[..|nodes|] == UnpackedAll(nodes, align);
  }

  // -------------------------------------------------------------------------------- appending

  lemma WholeBlock(block: seq<Byte>, n: nat, nodes: seq<Node>)
    requires n <= |block| && block[..n] == EncodeAll(nodes)
    ensures NodesAt(block, 0, nodes)
  {
    assert block[0..0 + Size(nodes)] == block[..n];
  }

  /** Copies the nodes at `p` behind the bytes already in the block. */
  method AppendBytes(block: array<Byte>, at: nat, ghost done: seq<Byte>,
                     mem: array<Byte>, p: nat, ghost nodes: seq<Node>, len: nat)
    requires block != mem && NodesAt(mem[..], p, nodes) && len == Size(nodes)
    requires at + len <= block.Length && block[..at] == done
    modifies block
    ensures block[..at + len] == done + EncodeAll(nodes)
    ensures block[at + len..] == old(block[at + len..])
  {
    hide EncodeAll, Size;
    CopyMem(block, at, mem, p, len);
    assert mem[..][p..p + len] == mem[p..p + len];
  }

  /** The instances of Src followed by those of Instance, in a block that is exactly filled.  Enumerated and
      counted by the library they are those of both exactly when its enumeration of Src comes to the end.
      The source asserts that the allocation succeeds. */
  method AppendDevicePathInstance(mem: array<Byte>, Src: Pointer, instMem: array<Byte>, Instance: nat,
                                  ghost x: seq<Node>, ghost y: seq<Node>) returns (Ptr: array?<Byte>)
    requires Src.To? ==> PathAt(mem[..], Src.offset, x)
    requires PathAt(instMem[..], Instance, y)
    ensures Src.Null? && Ptr != null ==> fresh(Ptr) && Ptr[..] == EncodeAll(y)
    ensures Src.To? ==>
      && Ptr != null && fresh(Ptr) && Ptr.Length == Size(x) + Size(y) && Ptr[..] == EncodeAll(Joined(x, y))
      && Size(x) >= 4 && Ptr[..] == EncodeAll(x)[Size(x) - 3 := 0x01] + EncodeAll(y)
      && PathAt(Ptr[..], 0, Joined(x, y))
      && Instances(Joined(x, y)) == Instances(x) + Instances(y)
      && Enumerated(Joined(x, y)) == (if ReachesEnd(x) then Enumerated(x) + Enumerated(y) else Enumerated(x))
  {
    hide Joined, IsPath, Instances, Enumerated, ReachesEnd, EncodeAll, Size, NodesAt;
    if Src.Null? {
      Ptr := DuplicateDevicePath(instMem, Instance, y);
      return;
    }
    JoinedInstances(x, y);
    JoinedEnumerated(x, y);
    JoinedBytes(x, y);
    Ptr := JoinPaths(mem, Src.offset, instMem, Instance, x, y);
  }

  lemma JoinedBytes(x: seq<Node>, y: seq<Node>)
    requires IsPath(x)
    ensures x != [] && Size(x) >= 4
    ensures EncodeAll(Joined(x, y)) == EncodeAll(x)[Size(x) - 3 := 0x01] + EncodeAll(y)
  {
    hide Joined, Opened, IsPath, EncodeAll, Size;
    PathNotEmpty(x);
    OpenedBytes(x);
    JoinedEncoded(x, y);
  }

  method JoinPaths(mem: array<Byte>, Src: nat, instMem: array<Byte>, Instance: nat,
                   ghost x: seq<Node>, ghost y: seq<Node>) returns (block: array<Byte>)
    requires PathAt(mem[..], Src, x) && PathAt(instMem[..], Instance, y)
    ensures fresh(block) && block.Length == Size(x) + Size(y) && block[..] == EncodeAll(Joined(x, y))
    ensures NodesAt(block[..], 0, Joined(x, y))
  {
    hide Joined, Opened, IsPath, EncodeAll, Size, NodesAt;
    PathNotEmpty(x);
    JoinedEncoded(x, y);
    var SrcSize := DevicePathSize(mem, Src, x);
    var InstanceSize := DevicePathSize(instMem, Instance, y);
    block := new Byte[SrcSize + InstanceSize];
    AppendBytes(block, 0, [], mem, Src, x, SrcSize);
    var DevPath := OpenPath(block, x, SrcSize);
    AppendBytes(block, DevPath, EncodeAll(Opened(x)), instMem, Instance, y, InstanceSize);
    WholeBlock(block[..], block.Length, Joined(x, y));
  }

  /** Converts the end of the path to the end of an instance and returns the position behind it. */
  method OpenPath(block: array<Byte>, ghost x: seq<Node>, ghost size: nat) returns (DevPath: nat)
    requires IsPath(x) && size == Size(x) <= block.Length && block[..size] == EncodeAll(x)
    modifies block
    ensures DevPath == size && block[..size] == EncodeAll(Opened(x))
  {
    hide Opened, IsPath, EncodeAll, Size;
    WholeBlock(block[..], size, x);
    DevPath := EndOfPath(block, 0, x);
    OpenedBytes(x);
    block[DevPath + 1] := END_INSTANCE_DEVICE_PATH_SUBTYPE;
    DevPath := DevPath + DevicePathNodeLength(block, DevPath);
  }

  lemma JoinedEncoded(x: seq<Node>, y: seq<Node>)
    requires x != []
    ensures EncodeAll(Joined(x, y)) == EncodeAll(Opened(x)) + EncodeAll(y)
    ensures Size(Joined(x, y)) == Size(x) + Size(y)
  {
    EncodeAllAppends(Opened(x), y);
    JoinedSize(x, y);
  }

  /** What repeated calls of DevicePathInstance will still return. */
  function ToCome(cur: Pointer, rest: seq<Node>): seq<seq<Node>>
    requires cur.To? ==> IsPath(rest)
  {
    if cur.To? then Enumerated(rest) else []
  }

  /** Src2 copied behind every enumerated instance of Src1; a walk finds the first instance and Src2.  When
      what is to be copied does not fit the size computed the copies pass the end of the block: the model
      stops there. */
  method AppendDevicePath(mem1: array<Byte>, Src1: Pointer, mem2: array<Byte>, Src2: Pointer,
                          ghost x: seq<Node>, ghost y: seq<Node>) returns (Dst: array?<Byte>, overran: bool)
    requires Src1.To? ==> PathAt(mem1[..], Src1.offset, x)
    requires Src2.To? ==> PathAt(mem2[..], Src2.offset, y)
    requires Src1.To? || Src2.To?
    ensures Dst != null ==> fresh(Dst)
    ensures Dst != null && Src1.Null? ==> Dst[..] == EncodeAll(y)
    ensures Dst != null && Src1.To? && Src2.Null? ==> Dst[..] == EncodeAll(x)
    ensures Dst == null || Src1.Null? || Src2.Null? ==> !overran
    ensures Dst != null && Src1.To? && Src2.To? ==>
      && Dst.Length == AppendSize(x, y) == Size(x) * |Enumerated(x)| + Size(y)
      && (overran <==> Size(Copied(Enumerated(x), y)) > AppendSize(x, y))
      && (!overran ==> EncodeAll(Ended(Copied(Enumerated(x), y))) <= Dst[..])
      && (!overran ==> PathAt(Dst[..], 0, Enumerated(x)[0] + y))
  {
    hide IsPath, EncodeAll, Size, Enumerated, Copied, Ended, NodesAt, AppendSize;
    overran := false;
    if Src1.To? {
      AppendSizeIs(x, y);
    }
    if Src1.Null? {
      Dst := DuplicateDevicePath(mem2, Src2.offset, y);
    } else if Src2.Null? {
      Dst := DuplicateDevicePath(mem1, Src1.offset, x);
    } else {
      Dst, overran := AppendBoth(mem1, Src1, mem2, Src2.offset, x, y);
    }
  }

  method AppendBoth(mem1: array<Byte>, Src1: Pointer, mem2: array<Byte>, Src2: nat,
                    ghost x: seq<Node>, ghost y: seq<Node>) returns (Dst: array?<Byte>, overran: bool)
    requires Src1.To? && PathAt(mem1[..], Src1.offset, x) && PathAt(mem2[..], Src2, y)
    ensures Dst == null ==> !overran
    ensures Dst != null ==>
      && fresh(Dst) && Dst.Length == AppendSize(x, y)
      && (overran <==> Size(Copied(Enumerated(x), y)) > AppendSize(x, y))
      && (!overran ==> EncodeAll(Ended(Copied(Enumerated(x), y))) <= Dst[..])
      && (!overran ==> PathAt(Dst[..], 0, Enumerated(x)[0] + y))
  {
    hide IsPath, EncodeAll, Size, Enumerated, Copied, Ended, NodesAt, AppendSize;
    var Src1Size := DevicePathSize(mem1, Src1.offset, x);
    var Src1Inst := DevicePathInstanceCount(mem1, Src1, x);
    var Src2Size := DevicePathSize(mem2, Src2, y);
    AppendSizeIs(x, y);
    var size := Src1Size * Src1Inst + Src2Size;
    overran := false;
    Dst := AllocatePool(size);
    if Dst != null {
      overran := AppendInto(mem1, Src1, mem2, Src2, Dst, x, y, Src2Size);
    }
  }

  lemma AppendSizeIs(x: seq<Node>, y: seq<Node>)
    requires IsPath(x)
    ensures AppendSize(x, y) == Size(x) * |Enumerated(x)| + Size(y)
  {
  }

  /** Copies the instances, then changes the last end marker. */
  method AppendInto(mem1: array<Byte>, Src1: Pointer, mem2: array<Byte>, Src2: nat, Dst: array<Byte>,
                    ghost x: seq<Node>, ghost y: seq<Node>, Src2Size: nat) returns (overran: bool)
    requires Src1.To? && PathAt(mem1[..], Src1.offset, x) && PathAt(mem2[..], Src2, y)
    requires Dst != mem1 && Dst != mem2 && Src2Size == Size(y)
    modifies Dst
    ensures overran <==> Size(Copied(Enumerated(x), y)) > Dst.Length
    ensures !overran ==> EncodeAll(Ended(Copied(Enumerated(x), y))) <= Dst[..]
    ensures !overran ==> PathAt(Dst[..], 0, Enumerated(x)[0] + y)
  {
    hide IsPath, EncodeAll, Size, Enumerated, Copied, Ended, NodesAt;
    var DstPos;
    DstPos, overran := CopyInstances(mem1, Src1, mem2, Src2, Dst, x, y, Src2Size);
    if !overran {
      AppendedWalk(x, y);
      CopiedEnds(Enumerated(x), y);
      EndedBytes(Copied(Enumerated(x), y));
      DstPos := DstPos - HEADER;
      WriteNode(Dst, DstPos, END_DEVICE_PATH);
      PrefixIsPath(Dst[..], Enumerated(x)[0] + y);
    }
  }

  lemma PrefixIsPath(block: seq<Byte>, nodes: seq<Node>)
    requires IsPath(nodes) && EncodeAll(nodes) <= block
    ensures PathAt(block, 0, nodes)
  {
    WholeBlock(block, Size(nodes), nodes);
  }

  lemma CopiedNothing(y: seq<Node>)
    ensures EncodeAll(Copied([], y)) == [] && Size(Copied([], y)) == 0
  {
  }

  /** CopyMem from one of the two constant end nodes. */
  method WriteNode(block: array<Byte>, at: nat, node: Node)
    requires node.payload == [] && at + HEADER <= block.Length
    modifies block
    ensures block[..] == Overwritten(old(block[..]), at, node.Encode())
  {
    block[at] := node.typ;
    block[at + 1] := node.sub;
    block[at + 2] := node.Length() % 256;
    block[at + 3] := node.Length() / 256 % 256;
  }

  /** One turn of the copying loop: the instance, Src2, and an end marker. */
  method CopyOne(Dst: array<Byte>, at: nat, ghost done: seq<Byte>,
                 mem1: array<Byte>, p: nat, ghost run: seq<Node>, size: nat,
                 mem2: array<Byte>, q: nat, ghost y: seq<Node>, ySize: nat) returns (DstPos: nat)
    requires Dst != mem1 && Dst != mem2 && NodesAt(mem1[..], p, run) && NodesAt(mem2[..], q, y)
    requires size == Size(run) && ySize == Size(y)
    requires at + size + ySize + HEADER <= Dst.Length && Dst[..at] == done
    modifies Dst
    ensures DstPos == at + size + ySize + HEADER
    ensures Dst[..DstPos] == done + EncodeAll(run) + EncodeAll(y) + END_INSTANCE_DEVICE_PATH.Encode()
  {
    hide EncodeAll, Size, NodesAt;
    AppendBytes(Dst, at, done, mem1, p, run, size);
    DstPos := at + size;
    AppendBytes(Dst, DstPos, done + EncodeAll(run), mem2, q, y, ySize);
    DstPos := DstPos + ySize;
    WriteNode(Dst, DstPos, END_INSTANCE_DEVICE_PATH);
    DstPos := DstPos + HEADER;
  }

  /** What a turn of the copying loop takes from what is to come, and adds to what is done. */
  lemma CopyTurn(x: seq<Node>, done: seq<seq<Node>>, next: Pointer, nodes: seq<Node>, y: seq<Node>)
    requires IsPath(x) && IsPath(nodes) && Enumerated(x) == done + Enumerated(nodes)
    requires next.Null? <==> nodes[Stop(nodes)].sub == END_ENTIRE_DEVICE_PATH_SUBTYPE
    ensures var run, rest := nodes[..Stop(nodes)], nodes[Stop(nodes) + 1..];
      && Enumerated(x) == done + [run] + ToCome(next, rest)
      && Size(Copied(done + [run], y)) <= Size(Copied(Enumerated(x), y))
      && Size(Copied(done + [run], y)) == Size(Copied(done, y)) + Size(run) + Size(y) + HEADER
      && EncodeAll(Copied(done + [run], y)) ==
           EncodeAll(Copied(done, y)) + EncodeAll(run) + EncodeAll(y) + END_INSTANCE_DEVICE_PATH.Encode()
  {
    hide EncodeAll, Size, IsPath, Instances, Enumerated, Stop, Copied;
    EnumeratedStep(nodes);
    var run, rest := nodes[..Stop(nodes)], nodes[Stop(nodes) + 1..];
    assert Enumerated(x) == done + [run] + ToCome(next, rest);
    CopiedPrefix(done + [run], ToCome(next, rest), y);
    CopiedOneMore(done, run, y);
  }

  /** The copying loop: all of it, unless a turn would pass the end of the block. */
  method CopyInstances(mem1: array<Byte>, Src1: Pointer, mem2: array<Byte>, Src2: nat, Dst: array<Byte>,
                       ghost x: seq<Node>, ghost y: seq<Node>, Src2Size: nat) returns (DstPos: nat, overran: bool)
    requires Src1.To? && PathAt(mem1[..], Src1.offset, x) && PathAt(mem2[..], Src2, y)
    requires Dst != mem1 && Dst != mem2 && Src2Size == Size(y)
    modifies Dst
    ensures overran <==> Size(Copied(Enumerated(x), y)) > Dst.Length
    ensures !overran ==>
      DstPos == Size(Copied(Enumerated(x), y)) && Dst[..DstPos] == EncodeAll(Copied(Enumerated(x), y))
  {
    hide EncodeAll, Size, NodesAt, IsPath, Instances, Enumerated, Stop, Copied;
    DstPos, overran := 0, false;
    var cur := Src1;
    ghost var rest, done := x, [];
    CopiedNothing(y);
    while true
      invariant cur.To? ==> PathAt(mem1[..], cur.offset, rest)
      invariant Enumerated(x) == done + ToCome(cur, rest)
      invariant DstPos == Size(Copied(done, y)) <= Dst.Length && Dst[..DstPos] == EncodeAll(Copied(done, y))
      decreases if cur.To? then 1 + |rest| else 0
    {
      var Inst, next, size := DevicePathInstance(mem1, cur, rest);
      if Inst.Null? {
        break;
      }
      ghost var run := rest[..Stop(rest)];
      CopyTurn(x, done, next, rest, y);
      rest := rest[Stop(rest) + 1..];
      if DstPos + size + Src2Size + HEADER > Dst.Length {
        return DstPos, true;
      }
      DstPos := CopyOne(Dst, DstPos, EncodeAll(Copied(done, y)), mem1, Inst.offset, run, size, mem2, Src2, y, Src2Size);
      done := done + [run];
      cur := next;
    }
    assert done + ToCome(cur, rest) == done;
  }

  /** Src2 is a single node without an end: it gets one, and is appended as a path of its own. */
  method AppendDevicePathNode(mem1: array<Byte>, Src1: Pointer, mem2: array<Byte>, Src2: nat,
                              ghost x: seq<Node>, ghost node: Node) returns (Dst: array?<Byte>, overran: bool)
    requires Src1.To? ==> PathAt(mem1[..], Src1.offset, x)
    requires NodesAt(mem2[..], Src2, [node]) && node.WellFormed() && !node.IsEndType()
    ensures Dst != null ==> fresh(Dst)
    ensures Dst == null || Src1.Null? ==> !overran
    ensures Dst != null && Src1.Null? ==> Dst[..] == EncodeAll([node, END_DEVICE_PATH])
    ensures Dst != null && Src1.To? ==>
      && Dst.Length == AppendSize(x, [node, END_DEVICE_PATH])
      && (overran <==> Size(Copied(Enumerated(x), [node, END_DEVICE_PATH])) > AppendSize(x, [node, END_DEVICE_PATH]))
      && (!overran ==> PathAt(Dst[..], 0, Enumerated(x)[0] + [node, END_DEVICE_PATH]))
  {
    hide EncodeAll, Size, Enumerated, Copied, Ended, AppendSize, IsPath, NodesAt, Node.IsEndType, Node.WellFormed;
    ghost var y := [node, END_DEVICE_PATH];
    var Temp := CopyWithEnd(mem2, Src2, node);
    if Temp == null {
      return null, false;
    }
    Dst, overran := AppendDevicePath(mem1, Src1, Temp, To(0), x, y);
  }

  /** Builds a Src2 that has a terminator on it. */
  method CopyWithEnd(mem: array<Byte>, p: nat, ghost node: Node) returns (Temp: array?<Byte>)
    requires NodesAt(mem[..], p, [node]) && node.WellFormed() && !node.IsEndType()
    ensures Temp != null ==> fresh(Temp) && PathAt(Temp[..], 0, [node, END_DEVICE_PATH])
  {
    hide EncodeAll, Size, IsPath, NodesAt, Overwritten, Node.IsEndType, Node.WellFormed, Node.Encode;
    SingleNode(mem, p, node);
    var Length := DevicePathNodeLength(mem, p);
    Temp := AllocatePool(Length + HEADER);
    if Temp != null {
      NodeThenEnd(Temp[..], node);
      CopyMem(Temp, 0, mem, p, Length);
      assert mem[..][p..p + Length] == mem[p..p + Length];
      CopiedNode(Temp, node);
      var Eop := DevicePathNodeLength(Temp, 0);
      WriteNode(Temp, Eop, END_DEVICE_PATH);
      NodeWithEnd(node);
      PrefixIsPath(Temp[..], [node, END_DEVICE_PATH]);
    }
  }

  lemma NodeThenEnd(z: seq<Byte>, node: Node)
    requires |z| == node.Length() + HEADER
    ensures var copied := Overwritten(z, 0, node.Encode());
      && node.Encode() <= copied
      && Overwritten(copied, node.Length(), END_DEVICE_PATH.Encode()) == node.Encode() + END_DEVICE_PATH.Encode()
  {
    hide Node.Encode;
    EndNodesAreBare();
  }

  lemma CopiedNode(block: array<Byte>, node: Node)
    requires node.WellFormed() && node.Length() <= block.Length && node.Encode() <= block[..]
    ensures DevicePathNodeLength(block, 0) == node.Length()
  {
    assert block[..][2] == node.Encode()[2] && block[..][3] == node.Encode()[3];
  }

  lemma SingleNode(mem: array<Byte>, p: nat, node: Node)
    requires NodesAt(mem[..], p, [node]) && node.WellFormed()
    ensures p + node.Length() <= mem.Length && DevicePathNodeLength(mem, p) == node.Length()
    ensures mem[..][p..p + node.Length()] == node.Encode()
  {
    FirstNode(mem, p, [node]);
  }

  lemma NodeWithEnd(node: Node)
    requires node.WellFormed() && !node.IsEndType()
    ensures IsPath([node, END_DEVICE_PATH])
    ensures EncodeAll([node, END_DEVICE_PATH]) == node.Encode() + END_DEVICE_PATH.Encode()
  {
    var y := [node, END_DEVICE_PATH];
    assert y == [node] + [END_DEVICE_PATH];
    EncodeSnoc([node], END_DEVICE_PATH);
    EncodeSnoc([], node);
    assert [] + [node] == [node];
  }

  // --------------------------------------------------------------------------------- matching

  predicate DifferAt(s: seq<Byte>, i: nat, t: seq<Byte>, j: nat, d: nat) {
    i + d < |s| && j + d < |t| && s[i + d] != t[j + d]
  }

  predicate Agree(s: seq<Byte>, i: nat, t: seq<Byte>, j: nat, len: nat) {
    i + len <= |s| && j + len <= |t| && s[i..i + len] == t[j..j + len]
  }

  predicate FirstDifference(s: seq<Byte>, i: nat, t: seq<Byte>, j: nat, d: nat) {
    DifferAt(s, i, t, j, d) && Agree(s, i, t, j, d)
  }

  /** The difference of the first two bytes that are not the same, or 0.  Reading stops there, so only what
      comes before it must be there to read. */
  method CompareMem(a: array<Byte>, i: nat, b: array<Byte>, j: nat, len: nat) returns (order: int)
    requires j + len <= b.Length
    requires i + len <= a.Length || exists d :: 0 <= d < len && DifferAt(a[..], i, b[..], j, d)
    ensures order == 0 <==> Agree(a[..], i, b[..], j, len)
    ensures order == 0 <==> i + len <= a.Length && a[i..i + len] == b[j..j + len]
    ensures order != 0 ==>
      exists d :: 0 <= d < len && FirstDifference(a[..], i, b[..], j, d) &&
                  a[i..i + d] == b[j..j + d] && order == a[i + d] as int - b[j + d] as int != 0
  {
    hide Agree;
    ghost var s, t := a[..], b[..];
    var k := 0;
    while k < len
      invariant 0 <= k <= len
      invariant forall d :: 0 <= d < k ==> !DifferAt(s, i, t, j, d)
      invariant i + k <= a.Length
    {
      if i + len > a.Length {
        ghost var d :| 0 <= d < len && DifferAt(s, i, t, j, d);
        assert d >= k;
      }
      if a[i + k] != b[j + k] {
        assert DifferAt(s, i, t, j, k);
        NoDifference(s, i, t, j, k);
        Difference(s, i, t, j, len, k);
        assert FirstDifference(s, i, t, j, k);
        return a[i + k] as int - b[j + k] as int;
      }
      k := k + 1;
    }
    NoDifference(s, i, t, j, len);
    return 0;
  }

  lemma Difference(s: seq<Byte>, i: nat, t: seq<Byte>, j: nat, len: nat, d: nat)
    requires d < len && DifferAt(s, i, t, j, d)
    ensures !Agree(s, i, t, j, len)
  {
    hide DifferAt;
    if Agree(s, i, t, j, len) {
      AgreeAt(s, i, t, j, len, d);
    }
  }

  lemma NoDifference(s: seq<Byte>, i: nat, t: seq<Byte>, j: nat, len: nat)
    requires i + len <= |s| && j + len <= |t|
    requires forall d :: 0 <= d < len ==> !DifferAt(s, i, t, j, d)
    ensures Agree(s, i, t, j, len)
  {
    var u, v := s[i..i + len], t[j..j + len];
    forall d | 0 <= d < len ensures u[d] == v[d] {
      assert !DifferAt(s, i, t, j, d);
    }
  }

  lemma Mismatch(s: seq<Byte>, t: seq<Byte>)
    requires !(s <= t) && !(t <= s)
    ensures exists d :: 0 <= d < |s| && DifferAt(s, 0, t, 0, d)
  {
    if forall d :: 0 <= d < |s| ==> !DifferAt(s, 0, t, 0, d) {
      var n := if |s| <= |t| then |s| else |t|;
      forall d | 0 <= d < n ensures s[d] == t[d] {
        assert !DifferAt(s, 0, t, 0, d);
      }
    }
  }

  /** Comparing a run of inner nodes with a path never reads past the end of the path. */
  lemma ComparisonIsSafe(m: seq<Byte>, s: nat, y: seq<Node>, mem: seq<Byte>, p: nat, run: seq<Node>)
    requires PathAt(m, s, y) && NodesAt(mem, p, run)
    requires forall i :: 0 <= i < |run| ==> !run[i].IsEndType() && run[i].WellFormed()
    ensures s + Size(run) <= |m| || exists d :: 0 <= d < Size(run) && DifferAt(m, s, mem, p, d)
    ensures Agree(m, s, mem, p, Size(run)) <==> run <= y
  {
    hide EncodeAll, Size, IsPath, Node.IsEndType, Node.WellFormed, Agree, DifferAt;
    var a, b := EncodeAll(run), EncodeAll(y);
    RunBeginsPath(run, y);
    if a <= b {
      SameFront(m, s, b, mem, p, a);
    } else {
      PathNeverInRun(run, y);
      Mismatch(a, b);
      var d :| 0 <= d < |a| && DifferAt(a, 0, b, 0, d);
      DifferenceCarries(m, s, b, mem, p, a, d);
    }
  }

  lemma SameFront(m: seq<Byte>, s: nat, b: seq<Byte>, mem: seq<Byte>, p: nat, a: seq<Byte>)
    requires s + |b| <= |m| && m[s..s + |b|] == b && p + |a| <= |mem| && mem[p..p + |a|] == a && a <= b
    ensures s + |a| <= |m| && Agree(m, s, mem, p, |a|)
  {
    assert m[s..s + |a|] == m[s..s + |b|][..|a|];
  }

  lemma DifferenceCarries(m: seq<Byte>, s: nat, b: seq<Byte>, mem: seq<Byte>, p: nat, a: seq<Byte>, d: nat)
    requires s + |b| <= |m| && m[s..s + |b|] == b && p + |a| <= |mem| && mem[p..p + |a|] == a
    requires DifferAt(a, 0, b, 0, d)
    ensures DifferAt(m, s, mem, p, d) && !Agree(m, s, mem, p, |a|)
  {
    assert m[s + d] == m[s..s + |b|][d] && mem[p + d] == mem[p..p + |a|][d];
    Difference(m, s, mem, p, |a|, d);
  }

  lemma AgreeAt(s: seq<Byte>, i: nat, t: seq<Byte>, j: nat, len: nat, d: nat)
    requires Agree(s, i, t, j, len) && d < len
    ensures s[i + d] == t[j + d] && !DifferAt(s, i, t, j, d)
  {
    assert s[i..i + len][d] == t[j..j + len][d];
  }

  predicate Leads(run: seq<Node>, y: seq<Node>) {
    run <= y
  }

  method CompareInstance(memS: array<Byte>, Single: nat, memM: array<Byte>, Inst: nat, size: nat,
                         ghost y: seq<Node>, ghost run: seq<Node>) returns (same: bool)
    requires PathAt(memS[..], Single, y) && NodesAt(memM[..], Inst, run) && size == Size(run)
    requires forall i :: 0 <= i < |run| ==> !run[i].IsEndType() && run[i].WellFormed()
    ensures same <==> Leads(run, y)
  {
    ComparisonIsSafe(memS[..], Single, y, memM[..], Inst, run);
    var order := CompareMem(memS, Single, memM, Inst, size);
    same := order == 0;
  }

  predicate SomeLeads(runs: seq<seq<Node>>, y: seq<Node>) {
    exists i :: 0 <= i < |runs| && Leads(runs[i], y)
  }

  lemma SomeLeadsIs(runs: seq<seq<Node>>, y: seq<Node>)
    ensures SomeLeads(runs, y) <==> exists i :: 0 <= i < |runs| && runs[i] <= y
  {
    if i :| 0 <= i < |runs| && runs[i] <= y {
      assert Leads(runs[i], y);
    }
  }

  lemma SomeLeadsStep(run: seq<Node>, runs: seq<seq<Node>>, y: seq<Node>)
    ensures SomeLeads([run] + runs, y) <==> Leads(run, y) || SomeLeads(runs, y)
  {
    hide Leads;
    var all := [run] + runs;
    if Leads(run, y) {
      assert Leads(all[0], y);
    }
    if i :| 0 <= i < |runs| && Leads(runs[i], y) {
      assert Leads(all[i + 1], y);
    }
    if i :| 0 <= i < |all| && Leads(all[i], y) {
      assert i > 0 ==> all[i] == runs[i - 1];
    }
  }

  /** TRUE exactly when an enumerated instance of Multi leads Single, node for node. */
  method LibMatchDevicePaths(memM: array<Byte>, Multi: Pointer, memS: array<Byte>, Single: Pointer,
                             ghost x: seq<Node>, ghost y: seq<Node>) returns (matched: bool)
    requires Multi.To? ==> PathAt(memM[..], Multi.offset, x)
    requires Single.To? ==> PathAt(memS[..], Single.offset, y)
    ensures matched <==> Multi.To? && Single.To? && exists i :: 0 <= i < |Enumerated(x)| && Enumerated(x)[i] <= y
  {
    hide EncodeAll, Size, NodesAt, IsPath, Instances, Enumerated, Stop, Leads, SomeLeads, Node.IsEndType, Node.WellFormed;
    if Multi.Null? || Single.Null? {
      return false;
    }
    SomeLeadsIs(Enumerated(x), y);
    var DevicePath := Multi;
    ghost var rest := x;
    while true
      invariant DevicePath.To? ==> PathAt(memM[..], DevicePath.offset, rest)
      invariant SomeLeads(Enumerated(x), y) <==> SomeLeads(ToCome(DevicePath, rest), y)
      decreases if DevicePath.To? then 1 + |rest| else 0
    {
      var Inst, next, size := DevicePathInstance(memM, DevicePath, rest);
      if Inst.Null? {
        break;
      }
      ghost var run := rest[..Stop(rest)];
      EnumeratedStep(rest);
      RunIsInner(rest);
      var same := CompareInstance(memS, Single.offset, memM, Inst.offset, size, y, run);
      rest := rest[Stop(rest) + 1..];
      SomeLeadsStep(run, ToCome(next, rest), y);
      if same {
        return true;
      }
      DevicePath := next;
    }
    NoneLeads(y);
    return false;
  }

  lemma NoneLeads(y: seq<Node>)
    ensures !SomeLeads([], y)
  {
  }
}
