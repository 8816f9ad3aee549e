/** Device paths as sequences of nodes, and their packed bytes (efidevp.h; section 9.3 of the UEFI
    Specification 2.4). */
module DevicePathNodes {
  import opened Basics

  const EFI_DP_TYPE_UNPACKED: Byte := 0x80
  const END_DEVICE_PATH_TYPE: Byte := 0x7F
  const END_ENTIRE_DEVICE_PATH_SUBTYPE: Byte := 0xFF
  const END_INSTANCE_DEVICE_PATH_SUBTYPE: Byte := 0x01
  const HEADER := 4
  const MAX_LENGTH := 0xFFFF

  datatype Node = Node(typ: Byte, sub: Byte, payload: seq<Byte>) {
    function Length(): nat { HEADER + |payload| }

    /** The type without its top bit, which only marks unpacked nodes. */
    function MaskedType(): nat { typ % 0x80 }

    predicate IsEndType() { MaskedType() == END_DEVICE_PATH_TYPE }

    predicate IsEnd() { IsEndType() && sub == END_ENTIRE_DEVICE_PATH_SUBTYPE }

    /** The length is stored in two bytes, low byte first. */
    function Encode(): (bytes: seq<Byte>)
      ensures |bytes| == Length()
    {
      [typ, sub, Length() % 256, Length() / 256 % 256] + payload
    }

    /** The length field tells the whole length, and an end node is either of the two kinds and bare. */
    predicate WellFormed() {
      && Length() <= MAX_LENGTH
      && (IsEndType() ==>
            && payload == []
            && (sub == END_ENTIRE_DEVICE_PATH_SUBTYPE || sub == END_INSTANCE_DEVICE_PATH_SUBTYPE))
    }
  }

  const END_DEVICE_PATH := Node(END_DEVICE_PATH_TYPE, END_ENTIRE_DEVICE_PATH_SUBTYPE, [])
  const END_INSTANCE_DEVICE_PATH := Node(END_DEVICE_PATH_TYPE, END_INSTANCE_DEVICE_PATH_SUBTYPE, [])

  // ------------------------------------------------------------------- paths and their bytes

  function Size(nodes: seq<Node>): (n: nat)
    ensures n >= HEADER * |nodes|
  {
    if nodes == [] then 0 else nodes[0].Length() + Size(nodes[1..])
  }

  function EncodeAll(nodes: seq<Node>): (bytes: seq<Byte>)
    ensures |bytes| == Size(nodes)
  {
    if nodes == [] then [] else nodes[0].Encode() + EncodeAll(nodes[1..])
  }

  predicate AllWellFormed(nodes: seq<Node>) {
    forall i :: 0 <= i < |nodes| ==> nodes[i].WellFormed()
  }

  /** A complete device path: exactly its last node is the end of the entire path. */
  predicate IsPath(nodes: seq<Node>) {
    && nodes != []
    && AllWellFormed(nodes)
    && nodes[|nodes| - 1].IsEnd()
    && forall i :: 0 <= i < |nodes| - 1 ==> !nodes[i].IsEnd()
  }

  lemma {:induction false} EncodeAllAppends(a: seq<Node>, b: seq<Node>)
    ensures EncodeAll(a + b) == EncodeAll(a) + EncodeAll(b)
    ensures Size(a + b) == Size(a) + Size(b)
    decreases |a|
  {
    if a == [] {
      assert a + b == b;
    } else {
      assert (a + b)[1..] == a[1..] + b;
      EncodeAllAppends(a[1..], b);
    }
  }

  lemma SizeAppends(a: seq<Node>, b: seq<Node>)
    ensures Size(a + b) == Size(a) + Size(b)
  {
    EncodeAllAppends(a, b);
  }

  lemma EncodeSnoc(a: seq<Node>, node: Node)
    ensures EncodeAll(a + [node]) == EncodeAll(a) + node.Encode()
  {
    EncodeAllAppends(a, [node]);
    assert EncodeAll([node]) == node.Encode() + EncodeAll([]);
  }

  lemma SizeSnoc(a: seq<Node>, node: Node)
    ensures Size(a + [node]) == Size(a) + node.Length()
  {
    EncodeAllAppends(a, [node]);
    assert [node][1..] == [];
  }

  // -------------------------------------------------------------------------------- instances

  /** Index of the first node of an end type. */
  function FirstEnd(nodes: seq<Node>): (e: nat)
    ensures e <= |nodes|
    ensures forall i :: 0 <= i < e ==> !nodes[i].IsEndType()
    ensures e < |nodes| ==> nodes[e].IsEndType()
  {
    if nodes == [] || nodes[0].IsEndType() then 0 else 1 + FirstEnd(nodes[1..])
  }

  lemma FirstEndIs(nodes: seq<Node>, e: nat)
    requires e < |nodes| && nodes[e].IsEndType()
    requires forall i :: 0 <= i < e ==> !nodes[i].IsEndType()
    ensures FirstEnd(nodes) == e
  {
  }

  lemma PathHasEnd(nodes: seq<Node>)
    requires IsPath(nodes)
    ensures FirstEnd(nodes) < |nodes| && nodes[FirstEnd(nodes)].Length() == HEADER
    ensures nodes[FirstEnd(nodes)].IsEnd() <==> FirstEnd(nodes) == |nodes| - 1
    ensures FirstEnd(nodes) < |nodes| - 1 ==>
      nodes[FirstEnd(nodes)].sub == END_INSTANCE_DEVICE_PATH_SUBTYPE && IsPath(nodes[FirstEnd(nodes) + 1..])
  {
    hide *;
    var e, n := FirstEnd(nodes), |nodes|;
    PathNotEmpty(nodes);
    PathNodeAt(nodes, n - 1);
    PathNodeAt(nodes, e);
    if e < n - 1 {
      TailIsPath(nodes, e + 1);
    }
  }

  lemma PathNotEmpty(nodes: seq<Node>)
    requires IsPath(nodes)
    ensures nodes != []
  {
  }

  lemma PathNodeAt(nodes: seq<Node>, k: nat)
    requires IsPath(nodes) && k < |nodes|
    ensures nodes[k].WellFormed() && (nodes[k].IsEnd() <==> k == |nodes| - 1)
    ensures k == |nodes| - 1 ==> nodes[k].IsEndType()
    ensures nodes[k].IsEndType() ==>
      nodes[k].Length() == HEADER && (!nodes[k].IsEnd() ==> nodes[k].sub == END_INSTANCE_DEVICE_PATH_SUBTYPE)
  {
  }

  lemma TailIsPath(nodes: seq<Node>, k: nat)
    requires IsPath(nodes) && k < |nodes|
    ensures IsPath(nodes[k..])
  {
    hide Node.WellFormed, Node.IsEnd;
  }

  /** Where the first instance of a path ends. */
  function PathEnd(nodes: seq<Node>): (e: nat)
    requires IsPath(nodes)
    ensures e == FirstEnd(nodes) < |nodes| && (e < |nodes| - 1 ==> IsPath(nodes[e + 1..]))
  {
    PathHasEnd(nodes);
    FirstEnd(nodes)
  }

  /** The instances of a path: the runs of nodes between its end nodes. */
  function Instances(nodes: seq<Node>): seq<seq<Node>>
    requires IsPath(nodes)
    decreases |nodes|
  {
    var e := PathEnd(nodes);
    if e == |nodes| - 1 then [nodes[..e]] else [nodes[..e]] + Instances(nodes[e + 1..])
  }

  /** What DevicePathInstance gives up at: the 514th node of an instance (the count is octal). */
  const CUTOFF := 513

  /** The node at which a walk over one instance stops. */
  function Stop(nodes: seq<Node>): (s: nat)
    requires IsPath(nodes)
    ensures s < |nodes|
    ensures nodes[s].sub != END_ENTIRE_DEVICE_PATH_SUBTYPE ==> s < |nodes| - 1 && IsPath(nodes[s + 1..])
  {
    PathHasEnd(nodes);
    if PathEnd(nodes) <= CUTOFF then PathEnd(nodes) else CUTOFF
  }

  /** The pieces that repeated calls of DevicePathInstance return. */
  function Enumerated(nodes: seq<Node>): seq<seq<Node>>
    requires IsPath(nodes)
    decreases |nodes|
  {
    var e := Stop(nodes);
    if nodes[e].sub == END_ENTIRE_DEVICE_PATH_SUBTYPE then [nodes[..e]]
    else [nodes[..e]] + Enumerated(nodes[e + 1..])
  }

  lemma EnumeratedStep(nodes: seq<Node>)
    requires IsPath(nodes)
    ensures var e := Stop(nodes);
      Enumerated(nodes) ==
        [nodes[..e]] + (if nodes[e].sub == END_ENTIRE_DEVICE_PATH_SUBTYPE then [] else Enumerated(nodes[e + 1..]))
  {
  }

  predicate ShortInstances(nodes: seq<Node>)
    requires IsPath(nodes)
  {
    forall i :: 0 <= i < |Instances(nodes)| ==> |Instances(nodes)[i]| <= CUTOFF
  }

  /** The library's enumeration yields the instances exactly when none has more than 513 nodes. */
  lemma {:induction false} EnumeratedIsInstances(nodes: seq<Node>)
    requires IsPath(nodes)
    ensures Enumerated(nodes) == Instances(nodes) <==> ShortInstances(nodes)
    decreases |nodes|
  {
    hide *;
    InstancesStep(nodes);
    EnumeratedStep(nodes);
    StopIs(nodes);
    var e, all := FirstEnd(nodes), Instances(nodes);
    assert all[0] == nodes[..e] && |nodes[..e]| == e;
    if e > CUTOFF {
      assert |Enumerated(nodes)[0]| == CUTOFF;
      LongFirst(nodes);
    } else if e == |nodes| - 1 {
      assert Enumerated(nodes) == [nodes[..e]];
      OneShort(nodes);
    } else {
      var rest := nodes[e + 1..];
      EnumeratedIsInstances(rest);
      assert all[1..] == Instances(rest) && Enumerated(nodes)[1..] == Enumerated(rest);
      ShortBehind(nodes, rest);
    }
  }

  lemma StopIs(nodes: seq<Node>)
    requires IsPath(nodes)
    ensures Stop(nodes) == if FirstEnd(nodes) <= CUTOFF then FirstEnd(nodes) else CUTOFF
    ensures FirstEnd(nodes) <= CUTOFF ==>
      (nodes[FirstEnd(nodes)].sub == END_ENTIRE_DEVICE_PATH_SUBTYPE <==> FirstEnd(nodes) == |nodes| - 1)
  {
    hide FirstEnd, IsPath;
    PathHasEnd(nodes);
  }

  lemma LongFirst(nodes: seq<Node>)
    requires IsPath(nodes) && Instances(nodes) != [] && |Instances(nodes)[0]| > CUTOFF
    ensures !ShortInstances(nodes)
  {
    hide IsPath, Instances;
  }

  lemma OneShort(nodes: seq<Node>)
    requires IsPath(nodes) && |Instances(nodes)| == 1 && |Instances(nodes)[0]| <= CUTOFF
    ensures ShortInstances(nodes)
  {
    hide IsPath, Instances;
  }

  lemma InstancesStep(nodes: seq<Node>)
    requires IsPath(nodes)
    ensures var e := FirstEnd(nodes);
      && e < |nodes|
      && (e < |nodes| - 1 ==> IsPath(nodes[e + 1..]))
      && Instances(nodes) == [nodes[..e]] + (if e == |nodes| - 1 then [] else Instances(nodes[e + 1..]))
  {
    hide IsPath, FirstEnd, PathEnd;
    PathHasEnd(nodes);
  }

  lemma ShortBehind(nodes: seq<Node>, rest: seq<Node>)
    requires IsPath(nodes) && IsPath(rest) && Instances(nodes)[1..] == Instances(rest)
    requires |Instances(nodes)| > 0 && |Instances(nodes)[0]| <= CUTOFF
    ensures ShortInstances(nodes) <==> ShortInstances(rest)
  {
    hide Instances, IsPath;
    assert forall i :: 0 <= i < |Instances(rest)| ==> Instances(rest)[i] == Instances(nodes)[i + 1];
    if ShortInstances(rest) {
      forall i | 0 <= i < |Instances(nodes)| ensures |Instances(nodes)[i]| <= CUTOFF {
        if i > 0 {
          assert Instances(nodes)[i] == Instances(rest)[i - 1];
        }
      }
    }
  }

  function TotalSize(runs: seq<seq<Node>>): nat {
    if runs == [] then 0 else Size(runs[0]) + TotalSize(runs[1..])
  }

  lemma TotalSizeStep(runs: seq<seq<Node>>)
    requires runs != []
    ensures TotalSize(runs) == Size(runs[0]) + TotalSize(runs[1..]) && TotalSize([]) == 0
  {
  }

  lemma SizeFromNode(nodes: seq<Node>, e: nat)
    requires e < |nodes|
    ensures Size(nodes) == Size(nodes[..e]) + nodes[e].Length() + Size(nodes[e + 1..])
  {
    hide Size, Node.Length;
    var a, m, r := nodes[..e], nodes[e], nodes[e + 1..];
    assert nodes == (a + [m]) + r;
    SizeAppends(a + [m], r);
    SizeSnoc(a, m);
  }

  /** Every instance pays for one end node. */
  lemma {:induction false} SizeOfInstances(nodes: seq<Node>)
    requires IsPath(nodes)
    ensures Size(nodes) == TotalSize(Instances(nodes)) + HEADER * |Instances(nodes)|
    decreases |nodes|
  {
    hide IsPath, FirstEnd, Instances, TotalSize, Size;
    PathHasEnd(nodes);
    InstancesStep(nodes);
    TotalSizeStep(Instances(nodes));
    var e := FirstEnd(nodes);
    SizeFromNode(nodes, e);
    assert nodes[..e] == Instances(nodes)[0];
    if e < |nodes| - 1 {
      SizeOfInstances(nodes[e + 1..]);
      assert Instances(nodes)[1..] == Instances(nodes[e + 1..]);
    } else {
      assert nodes[e + 1..] == [] && Instances(nodes)[1..] == [];
      NothingSize();
    }
  }

  lemma NothingSize()
    ensures Size([]) == 0
  {
  }

  // ------------------------------------------------------------------- joining and appending

  /** The end of the path turned into the end of an instance. */
  function Opened(x: seq<Node>): (r: seq<Node>)
    requires x != []
    ensures |r| == |x|
  {
    x[|x| - 1 := x[|x| - 1].(sub := END_INSTANCE_DEVICE_PATH_SUBTYPE)]
  }

  /** The end of `x` becomes the end of an instance, and `y` follows. */
  function Joined(x: seq<Node>, y: seq<Node>): seq<Node>
    requires x != []
  {
    Opened(x) + y
  }

  lemma OpenedNodes(x: seq<Node>)
    requires IsPath(x)
    ensures forall i :: 0 <= i < |x| ==>
      Opened(x)[i].WellFormed() && !Opened(x)[i].IsEnd() && Opened(x)[i].typ == x[i].typ
    ensures forall i :: 0 <= i < |x| - 1 ==> Opened(x)[i] == x[i]
  {
    assert x[|x| - 1].WellFormed();
  }

  lemma JoinedIsPath(x: seq<Node>, y: seq<Node>)
    requires IsPath(x) && IsPath(y)
    ensures IsPath(Joined(x, y))
  {
    hide Opened;
    OpenedNodes(x);
    var z := Joined(x, y);
    assert z[|z| - 1] == y[|y| - 1];
  }

  lemma JoinedFirstEnd(x: seq<Node>, y: seq<Node>)
    requires IsPath(x) && IsPath(y)
    ensures FirstEnd(Joined(x, y)) == FirstEnd(x) < |x|
  {
    hide Opened, FirstEnd;
    OpenedNodes(x);
    PathHasEnd(x);
    FirstEndIs(Joined(x, y), FirstEnd(x));
  }

  lemma JoinedLength(x: seq<Node>, y: seq<Node>)
    requires IsPath(x) && IsPath(y)
    ensures |Joined(x, y)| == |x| + |y| && y != []
  {
  }

  lemma JoinedParts(x: seq<Node>, y: seq<Node>, e: nat)
    requires e < |x|
    ensures Joined(x, y)[..e] == x[..e]
    ensures e < |x| - 1 ==> Joined(x, y)[e + 1..] == Joined(x[e + 1..], y)
    ensures e == |x| - 1 ==> Joined(x, y)[e + 1..] == y
  {
    if e < |x| - 1 {
      assert Opened(x)[e + 1..] == Opened(x[e + 1..]);
    }
  }

  lemma SubtypesDiffer()
    ensures END_INSTANCE_DEVICE_PATH_SUBTYPE != END_ENTIRE_DEVICE_PATH_SUBTYPE
  {
  }

  lemma Regrouped(a: seq<seq<Node>>, b: seq<seq<Node>>, c: seq<seq<Node>>)
    ensures a + b + c == a + (b + c)
  {
  }

  /** Joining two paths gives a path with the instances of both. */
  lemma {:induction false} JoinedInstances(x: seq<Node>, y: seq<Node>)
    requires IsPath(x) && IsPath(y)
    ensures IsPath(Joined(x, y))
    ensures Instances(Joined(x, y)) == Instances(x) + Instances(y)
    decreases |x|
  {
    hide Joined, IsPath, FirstEnd, Instances;
    JoinedIsPath(x, y);
    JoinedLength(x, y);
    JoinedFirstEnd(x, y);
    JoinedParts(x, y, FirstEnd(x));
    var z, e := Joined(x, y), FirstEnd(x);
    InstancesStep(x);
    InstancesStep(z);
    if e < |x| - 1 {
      var rest := x[e + 1..];
      JoinedInstances(rest, y);
      Regrouped([x[..e]], Instances(rest), Instances(y));
    } else {
      assert Instances(x) == [x[..e]];
    }
  }

  /** The library's enumeration comes to the end of the path: it does not give up at the 514th node of an
      instance whose subtype happens to be that of the end of a path. */
  predicate ReachesEnd(nodes: seq<Node>)
    requires IsPath(nodes)
    decreases |nodes|
  {
    var e := Stop(nodes);
    e == |nodes| - 1 || (nodes[e].sub != END_ENTIRE_DEVICE_PATH_SUBTYPE && ReachesEnd(nodes[e + 1..]))
  }

  lemma ReachesEndStep(nodes: seq<Node>)
    requires IsPath(nodes)
    ensures var e := Stop(nodes);
      && (e == |nodes| - 1 ==> ReachesEnd(nodes) && nodes[e].sub == END_ENTIRE_DEVICE_PATH_SUBTYPE)
      && (e < |nodes| - 1 ==>
            (ReachesEnd(nodes) <==> nodes[e].sub != END_ENTIRE_DEVICE_PATH_SUBTYPE && ReachesEnd(nodes[e + 1..])))
  {
  }

  /** A walk over the joined path stops where one over the first path does. */
  lemma JoinedStop(x: seq<Node>, y: seq<Node>)
    requires IsPath(x) && IsPath(y) && IsPath(Joined(x, y))
    ensures Stop(Joined(x, y)) == Stop(x) < |x|
    ensures Joined(x, y)[Stop(x)].sub ==
      if Stop(x) == |x| - 1 then END_INSTANCE_DEVICE_PATH_SUBTYPE else x[Stop(x)].sub
  {
    hide IsPath, FirstEnd;
    JoinedFirstEnd(x, y);
    PathHasEnd(x);
    PathHasEnd(Joined(x, y));
  }

  /** As the library enumerates them, the pieces of the joined path are those of both exactly when the
      enumeration of the first comes to its end; when it does not, the second is never seen. */
  lemma {:induction false} JoinedEnumerated(x: seq<Node>, y: seq<Node>)
    requires IsPath(x) && IsPath(y)
    ensures IsPath(Joined(x, y)) && Enumerated(y) != []
    ensures Enumerated(Joined(x, y)) == if ReachesEnd(x) then Enumerated(x) + Enumerated(y) else Enumerated(x)
    decreases |x|
  {
    hide *;
    SubtypesDiffer();
    JoinedIsPath(x, y);
    JoinedStop(x, y);
    var z, e := Joined(x, y), Stop(x);
    JoinedParts(x, y, e);
    EnumeratedStep(x);
    EnumeratedStep(y);
    EnumeratedStep(z);
    ReachesEndStep(x);
    var rest := x[e + 1..];
    if e == |x| - 1 {
      assert Enumerated(x) == [x[..e]];
    } else if x[e].sub == END_ENTIRE_DEVICE_PATH_SUBTYPE {
      assert Enumerated(x) == [x[..e]];
    } else {
      JoinedEnumerated(rest, y);
      assert Enumerated(x) == [x[..e]] + Enumerated(rest) && Enumerated(z) == [x[..e]] + Enumerated(Joined(rest, y));
      if ReachesEnd(rest) {
        Regrouped([x[..e]], Enumerated(rest), Enumerated(y));
      }
    }
  }

  /** With no instance over the cut-off in either path there is none in the joined one. */
  lemma JoinedShort(x: seq<Node>, y: seq<Node>)
    requires IsPath(x) && IsPath(y)
    ensures IsPath(Joined(x, y))
    ensures ShortInstances(Joined(x, y)) <==> ShortInstances(x) && ShortInstances(y)
  {
    hide Joined, IsPath, Instances;
    PathNotEmpty(x);
    JoinedInstances(x, y);
    var a, b, c := Instances(x), Instances(y), Instances(Joined(x, y));
    assert forall i :: 0 <= i < |a| ==> a[i] == c[i];
    assert forall i :: 0 <= i < |b| ==> b[i] == c[|a| + i];
  }

  lemma {:induction false} ShortReachesEnd(nodes: seq<Node>)
    requires IsPath(nodes) && ShortInstances(nodes)
    ensures ReachesEnd(nodes)
    decreases |nodes|
  {
    hide IsPath, FirstEnd, Instances, ShortInstances, ReachesEnd;
    PathHasEnd(nodes);
    InstancesStep(nodes);
    FirstIsShort(nodes);
    ReachesEndStep(nodes);
    var e := FirstEnd(nodes);
    if e < |nodes| - 1 {
      var rest := nodes[e + 1..];
      assert Instances(nodes)[1..] == Instances(rest);
      ShortBehind(nodes, rest);
      ShortReachesEnd(rest);
    }
  }

  lemma FirstIsShort(nodes: seq<Node>)
    requires IsPath(nodes) && ShortInstances(nodes)
    ensures Instances(nodes) != [] && |Instances(nodes)[0]| == FirstEnd(nodes) <= CUTOFF
  {
    hide IsPath, FirstEnd;
    InstancesStep(nodes);
    assert Instances(nodes)[0] == nodes[..FirstEnd(nodes)];
  }

  /** In the bytes, only the subtype of the end node changes. */
  lemma OpenedBytes(x: seq<Node>)
    requires IsPath(x)
    ensures Size(x) >= 4
    ensures EncodeAll(Opened(x)) == EncodeAll(x)[Size(x) - 3 := 0x01]
  {
    hide EncodeAll, Size;
    var n := |x|;
    var front, last := x[..n - 1], x[n - 1];
    assert last.WellFormed();
    assert x == front + [last] && Opened(x) == front + [Opened(x)[n - 1]];
    EncodeSnoc(front, last);
    EncodeSnoc(front, Opened(x)[n - 1]);
    SizeSnoc(front, last);
  }

  lemma JoinedSize(x: seq<Node>, y: seq<Node>)
    requires x != []
    ensures Size(Joined(x, y)) == Size(x) + Size(y)
  {
    var n := |x|;
    SizeAppends(Opened(x), y);
    SizeSnoc(x[..n - 1], Opened(x)[n - 1]);
    SizeSnoc(x[..n - 1], x[n - 1]);
    assert x == x[..n - 1] + [x[n - 1]];
    assert Opened(x) == x[..n - 1] + [Opened(x)[n - 1]];
  }

  /** Append as AppendDevicePath documents it: Src2 behind every instance of Src1. */
  function Documented(runs: seq<seq<Node>>, y: seq<Node>): (r: seq<Node>)
    requires runs != [] && y != []
    ensures r != []
  {
    if |runs| == 1 then runs[0] + y else Joined(runs[0] + y, Documented(runs[1..], y))
  }

  /** Append as the copying loop lays it out: Src2 keeps its own end behind every run, and an end node
      follows each copy. */
  function Copied(runs: seq<seq<Node>>, y: seq<Node>): seq<Node> {
    if runs == [] then [] else runs[0] + y + [END_INSTANCE_DEVICE_PATH] + Copied(runs[1..], y)
  }

  lemma {:induction false} CopiedAppends(a: seq<seq<Node>>, b: seq<seq<Node>>, y: seq<Node>)
    ensures Copied(a + b, y) == Copied(a, y) + Copied(b, y)
    decreases |a|
  {
    if a == [] {
      assert a + b == b;
    } else {
      assert (a + b)[1..] == a[1..] + b;
      CopiedAppends(a[1..], b, y);
    }
  }

  /** One more turn of the copying loop. */
  lemma CopiedOneMore(runs: seq<seq<Node>>, run: seq<Node>, y: seq<Node>)
    ensures Copied(runs + [run], y) == Copied(runs, y) + run + y + [END_INSTANCE_DEVICE_PATH]
    ensures EncodeAll(Copied(runs + [run], y)) ==
      EncodeAll(Copied(runs, y)) + EncodeAll(run) + EncodeAll(y) + END_INSTANCE_DEVICE_PATH.Encode()
  {
    hide EncodeAll;
    CopiedAppends(runs, [run], y);
    var c := Copied(runs, y);
    assert Copied([run], y) == run + y + [END_INSTANCE_DEVICE_PATH];
    assert Copied(runs + [run], y) == c + run + y + [END_INSTANCE_DEVICE_PATH];
    EncodeSnoc(c + run + y, END_INSTANCE_DEVICE_PATH);
    EncodeAllAppends(c + run, y);
    EncodeAllAppends(c, run);
  }

  lemma CopiedPrefix(a: seq<seq<Node>>, b: seq<seq<Node>>, y: seq<Node>)
    ensures Size(Copied(a, y)) <= Size(Copied(a + b, y))
  {
    hide Copied, Size;
    CopiedAppends(a, b, y);
    SizeAppends(Copied(a, y), Copied(b, y));
  }

  /** The last end marker changed to the end of the entire path. */
  function Ended(nodes: seq<Node>): (r: seq<Node>)
    requires nodes != []
    ensures |r| == |nodes|
  {
    nodes[..|nodes| - 1] + [END_DEVICE_PATH]
  }

  lemma {:induction false} CopiedSize(runs: seq<seq<Node>>, y: seq<Node>)
    ensures Size(Copied(runs, y)) == TotalSize(runs) + Repeated(|runs|, Size(y) + HEADER)
    decreases |runs|
  {
    hide Size;
    if runs == [] {
      NothingSize();
    } else {
      var a := runs[0] + y;
      SizeAppends(a + [END_INSTANCE_DEVICE_PATH], Copied(runs[1..], y));
      SizeSnoc(a, END_INSTANCE_DEVICE_PATH);
      SizeAppends(runs[0], y);
      CopiedSize(runs[1..], y);
    }
  }

  function Repeated(n: nat, c: nat): nat {
    if n == 0 then 0 else c + Repeated(n - 1, c)
  }

  lemma {:induction false} RepeatedIsProduct(n: nat, b: nat, h: nat)
    ensures Repeated(n, b + h) == n * b + n * h
    decreases n
  {
    if n > 0 {
      RepeatedIsProduct(n - 1, b, h);
      assert n * b == (n - 1) * b + b && n * h == (n - 1) * h + h;
    }
  }

  lemma EndedBytes(c: seq<Node>)
    requires c != [] && c[|c| - 1] == END_INSTANCE_DEVICE_PATH
    ensures var front := EncodeAll(c[..|c| - 1]);
      && |front| + HEADER == Size(c)
      && EncodeAll(c) == front + END_INSTANCE_DEVICE_PATH.Encode()
      && EncodeAll(Ended(c)) == front + END_DEVICE_PATH.Encode()
  {
    hide EncodeAll, Size, Node.Encode, Node.Length;
    var front := c[..|c| - 1];
    assert c == front + [END_INSTANCE_DEVICE_PATH];
    EndNodesAreBare();
    EncodeSnoc(front, END_INSTANCE_DEVICE_PATH);
    EncodeSnoc(front, END_DEVICE_PATH);
  }

  lemma EndNodesAreBare()
    ensures END_INSTANCE_DEVICE_PATH.Length() == END_DEVICE_PATH.Length() == HEADER
  {
  }

  lemma CopiedEnds(runs: seq<seq<Node>>, y: seq<Node>)
    requires runs != []
    ensures Copied(runs, y) != [] && Copied(runs, y)[|Copied(runs, y)| - 1] == END_INSTANCE_DEVICE_PATH
  {
    var k := |runs| - 1;
    assert runs == runs[..k] + [runs[k]];
    CopiedOneMore(runs[..k], runs[k], y);
  }

  lemma FirstRunLeads(runs: seq<seq<Node>>, y: seq<Node>)
    requires runs != []
    ensures Copied(runs, y) != [] && runs[0] + y <= Ended(Copied(runs, y))
  {
    CopiedEnds(runs, y);
  }

  /** What a walk finds at the start of the copied bytes. */
  lemma AppendedWalk(x: seq<Node>, y: seq<Node>)
    requires IsPath(x) && IsPath(y)
    ensures Enumerated(x) != [] && IsPath(Enumerated(x)[0] + y) && Copied(Enumerated(x), y) != []
    ensures EncodeAll(Enumerated(x)[0] + y) <= EncodeAll(Ended(Copied(Enumerated(x), y)))
  {
    hide EncodeAll, Copied, Ended;
    var runs := Enumerated(x);
    EnumeratedStep(x);
    assert runs[0] == x[..Stop(x)];
    RunBeforePath(runs[0], y);
    FirstRunLeads(runs, y);
    var c := Ended(Copied(runs, y));
    var n := |runs[0] + y|;
    assert c == (runs[0] + y) + c[n..];
    EncodeAllAppends(runs[0] + y, c[n..]);
  }

  /** The bytes of what the enumeration returns, with an end node for each piece. */
  function Walked(nodes: seq<Node>): nat
    requires IsPath(nodes)
  {
    TotalSize(Enumerated(nodes)) + HEADER * |Enumerated(nodes)|
  }

  /** The enumeration misses nothing of a path whose instances are short; otherwise it may miss the nodes
      it gave up at, and what comes behind the last of them. */
  lemma {:induction false} WalkedAtMost(nodes: seq<Node>)
    requires IsPath(nodes)
    ensures Enumerated(nodes) != [] && Walked(nodes) <= Size(nodes)
    ensures ShortInstances(nodes) ==> Walked(nodes) == Size(nodes)
    decreases |nodes|
  {
    hide IsPath, Instances, ShortInstances, Stop, Enumerated, TotalSize, Size;
    EnumeratedStep(nodes);
    var e := Stop(nodes);
    var rest := nodes[e + 1..];
    SizeFromNode(nodes, e);
    TotalSizeStep(Enumerated(nodes));
    if nodes[e].sub != END_ENTIRE_DEVICE_PATH_SUBTYPE {
      assert Enumerated(nodes)[1..] == Enumerated(rest);
      WalkedAtMost(rest);
    }
    if ShortInstances(nodes) {
      EnumeratedIsInstances(nodes);
      SizeOfInstances(nodes);
    }
  }

  /** The copying loop writes Src1Size + n * Src2Size bytes for n instances. */
  lemma AppendCopies(x: seq<Node>, y: seq<Node>)
    requires IsPath(x)
    ensures Size(Copied(Enumerated(x), y)) == Walked(x) + |Enumerated(x)| * Size(y)
    ensures ShortInstances(x) ==> Size(Copied(Enumerated(x), y)) == Size(x) + |Enumerated(x)| * Size(y)
  {
    hide Copied, Enumerated, Instances, TotalSize, Size, IsPath;
    WalkedAtMost(x);
    CopiedSize(Enumerated(x), y);
    RepeatedIsProduct(|Enumerated(x)|, Size(y), HEADER);
  }

  /** The size the source computes for the result. */
  function AppendSize(x: seq<Node>, y: seq<Node>): nat
    requires IsPath(x)
  {
    Size(x) * |Enumerated(x)| + Size(y)
  }

  /** What is copied stays within the n * Src1Size + Src2Size bytes allocated exactly when all but one copy
      of Src2 are made up for by the copies of Src1 that were paid for and not made.  With no instance over
      the cut-off that is a single instance, or a Src2 no longer than Src1. */
  lemma AppendFits(x: seq<Node>, y: seq<Node>)
    requires IsPath(x)
    ensures var n := |Enumerated(x)|;
      && (Size(Copied(Enumerated(x), y)) <= AppendSize(x, y) <==> (n - 1) * Size(y) <= n * Size(x) - Walked(x))
      && (n == 1 || Size(y) <= Size(x) ==> Size(Copied(Enumerated(x), y)) <= AppendSize(x, y))
      && (ShortInstances(x) ==>
            (Size(Copied(Enumerated(x), y)) <= AppendSize(x, y) <==> n == 1 || Size(y) <= Size(x)))
  {
    hide Copied, Enumerated, Size, IsPath, Walked, ShortInstances;
    AppendCopies(x, y);
    WalkedAtMost(x);
    FitsIff(|Enumerated(x)|, Size(x), Size(y));
    Rearranged(|Enumerated(x)|, Size(x), Size(y), Walked(x));
  }

  /** Two empty instances, and a Src2 of 16 bytes against 8: 40 bytes are copied into 32. */
  lemma AppendOverruns(payload: seq<Byte>)
    requires |payload| == 8
    ensures var x, y := [END_INSTANCE_DEVICE_PATH, END_DEVICE_PATH], [Node(1, 1, payload), END_DEVICE_PATH];
      && IsPath(x) && IsPath(y) && Enumerated(x) == [[], []]
      && Size(Copied(Enumerated(x), y)) == 40 && AppendSize(x, y) == 32
  {
    var x, y := [END_INSTANCE_DEVICE_PATH, END_DEVICE_PATH], [Node(1, 1, payload), END_DEVICE_PATH];
    assert x[1..] == [END_DEVICE_PATH] && y[1..] == [END_DEVICE_PATH] && x[..0] == [] == x[1..][..0];
    FirstEndIs(x, 0);
    FirstEndIs(x[1..], 0);
    EnumeratedStep(x);
    EnumeratedStep(x[1..]);
    assert Enumerated(x) == [[], []];
    TwoNodes(x);
    TwoNodes(y);
    TwoCopies(y);
  }

  lemma TwoNodes(nodes: seq<Node>)
    requires |nodes| == 2
    ensures Size(nodes) == nodes[0].Length() + nodes[1].Length()
  {
    assert nodes == [] + [nodes[0]] + [nodes[1]];
    SizeSnoc([], nodes[0]);
    SizeSnoc([] + [nodes[0]], nodes[1]);
  }

  lemma TwoCopies(y: seq<Node>)
    ensures Size(Copied([[], []], y)) == 2 * (Size(y) + HEADER)
  {
    CopiedSize([[], []], y);
    var none: seq<seq<Node>> := [[], []];
    assert none[1..] == [[]] && none[1..][1..] == [];
    TotalSizeStep(none);
    TotalSizeStep(none[1..]);
    RepeatedIsProduct(2, Size(y), HEADER);
  }

  lemma Rearranged(n: nat, a: nat, b: nat, w: nat)
    ensures w + n * b <= a * n + b <==> (n - 1) * b <= n * a - w
  {
    assert (n - 1) * b == n * b - b;
  }

  lemma FitsIff(n: nat, a: nat, b: nat)
    requires n >= 1
    ensures a + n * b <= a * n + b <==> n == 1 || b <= a
  {
    assert a * n + b - (a + n * b) == (n - 1) * (a - b);
    SameSign(n - 1, a - b);
  }

  lemma SameSign(m: nat, d: int)
    ensures m * d >= 0 <==> m == 0 || d >= 0
  {
  }

  lemma RunBeforePath(run: seq<Node>, y: seq<Node>)
    requires IsPath(y)
    requires forall i :: 0 <= i < |run| ==> !run[i].IsEnd() && run[i].WellFormed()
    ensures IsPath(run + y)
  {
    var z := run + y;
    assert z[|z| - 1] == y[|y| - 1];
  }

  /** What a walk finds is the first instance of Src1 followed by Src2; that is the documented result
      exactly when Src1 has a single instance. */
  lemma WalkMeetsDocumentation(runs: seq<seq<Node>>, y: seq<Node>)
    requires runs != [] && y != []
    ensures runs[0] + y == Documented(runs, y) <==> |runs| == 1
  {
    if |runs| > 1 {
      assert |Documented(runs, y)| > |runs[0] + y|;
    }
  }

  // -------------------------------------------------------------------------------- unpacking

  /** MIN_ALIGNMENT_SIZE: 4 or 8, as the architecture has it. */
  type Alignment = a: int | 0 < a witness 4

  /** ALIGN_SIZE: what is missing to the next multiple of the alignment. */
  function AlignSize(n: nat, align: Alignment): (r: nat)
    ensures r < align
  {
    if n % align != 0 then align - n % align else 0
  }

  lemma Multiple(k: int, align: Alignment)
    ensures k * align % align == 0
  {
    Shifted(0, k, align);
  }

  lemma Shifted(n: int, k: int, align: Alignment)
    ensures (n + k * align) % align == n % align
  {
    var q := n / align;
    assert n + k * align == (q + k) * align + n % align by {
      assert n == q * align + n % align;
    }
    DivMod(n + k * align, align, q + k, n % align);
  }

  lemma RoundedUp(n: nat, align: Alignment)
    ensures (n + AlignSize(n, align)) % align == 0
  {
    var q := n / align;
    assert n == q * align + n % align;
    Multiple(q, align);
    Multiple(q + 1, align);
    assert (q + 1) * align == q * align + align;
  }

  lemma SumAligned(a: nat, b: nat, align: Alignment)
    requires a % align == 0
    ensures (a + b) % align == b % align
  {
    Shifted(b, a / align, align);
    assert a == a / align * align + a % align;
  }

  function Zeros(n: nat): (z: seq<Byte>)
    ensures |z| == n
  {
    seq(n, _ => 0)
  }

  function Unpacked(node: Node, align: Alignment): (r: Node)
    ensures r.MaskedType() == node.MaskedType() && r.sub == node.sub && r.typ >= 0x80
    ensures r.Length() == node.Length() + AlignSize(node.Length(), align)
    ensures node.payload <= r.payload && |r.payload| - |node.payload| < align
    ensures forall i :: |node.payload| <= i < |r.payload| ==> r.payload[i] == 0
  {
    Node(if node.typ < EFI_DP_TYPE_UNPACKED then node.typ + EFI_DP_TYPE_UNPACKED else node.typ,
         node.sub, node.payload + Zeros(AlignSize(node.Length(), align)))
  }

  /** An unpacked node fills whole multiples of the alignment; a bare one stays bare when the alignment
      divides the size of a header. */
  lemma UnpackedRounded(node: Node, align: Alignment)
    ensures Unpacked(node, align).Length() % align == 0
    ensures node.payload == [] ==> (Unpacked(node, align).payload == [] <==> HEADER % align == 0)
  {
    RoundedUp(node.Length(), align);
  }

  function UnpackedAll(nodes: seq<Node>, align: Alignment): (r: seq<Node>)
    ensures |r| == |nodes| && forall i :: 0 <= i < |nodes| ==> r[i] == Unpacked(nodes[i], align)
  {
    seq(|nodes|, i requires 0 <= i < |nodes| => Unpacked(nodes[i], align))
  }

  /** Every node of an unpacked path starts at a multiple of the alignment. */
  lemma {:induction false} UnpackedAligned(nodes: seq<Node>, align: Alignment, k: nat)
    requires k <= |nodes|
    ensures Size(UnpackedAll(nodes, align)[..k]) % align == 0
    decreases k
  {
    hide UnpackedAll, Unpacked, Size, Node.Length;
    var r := UnpackedAll(nodes, align);
    if k == 0 {
      assert r[..0] == [];
      NothingSize();
      Multiple(0, align);
    } else {
      UnpackedAligned(nodes, align, k - 1);
      assert r[..k] == r[..k - 1] + [r[k - 1]];
      SizeSnoc(r[..k - 1], r[k - 1]);
      UnpackedRounded(nodes[k - 1], align);
      SumAligned(Size(r[..k - 1]), r[k - 1].Length(), align);
    }
  }

  /** The sizing pass from node `k` on: a running total, rounded up after every node. */
  function SizingPass(total: nat, nodes: seq<Node>, k: nat, align: Alignment): nat
    requires k <= |nodes|
    decreases |nodes| - k
  {
    if k == |nodes| then total
    else
      var sum := total + nodes[k].Length();
      SizingPass(sum + AlignSize(sum, align), nodes, k + 1, align)
  }

  lemma SizingStep(total: nat, nodes: seq<Node>, k: nat, align: Alignment)
    requires k < |nodes|
    ensures var sum := total + nodes[k].Length();
      && SizingPass(total, nodes, k, align) == SizingPass(sum + AlignSize(sum, align), nodes, k + 1, align)
      && (k + 1 == |nodes| ==> SizingPass(total, nodes, k, align) == sum + AlignSize(sum, align))
  {
  }

  /** Rounding the running total and rounding every node come to the same size. */
  lemma {:induction false} SizingPassExact(total: nat, nodes: seq<Node>, k: nat, align: Alignment)
    requires k <= |nodes| && total % align == 0
    ensures SizingPass(total, nodes, k, align) == total + Size(UnpackedAll(nodes, align)[k..])
    decreases |nodes| - k
  {
    hide Unpacked, UnpackedAll, Size, SizingPass, Node.Length;
    var r := UnpackedAll(nodes, align);
    if k == |nodes| {
      assert r[k..] == [];
      NothingSize();
      SizingEnds(total, nodes, align);
    } else {
      var sum, n := total + nodes[k].Length(), Unpacked(nodes[k], align).Length();
      SumAligned(total, nodes[k].Length(), align);
      assert sum + AlignSize(sum, align) == total + n;
      UnpackedRounded(nodes[k], align);
      SumAligned(total, n, align);
      SizingStep(total, nodes, k, align);
      SizingPassExact(total + n, nodes, k + 1, align);
      FirstNodeSize(r[k..]);
      assert r[k..][1..] == r[k + 1..];
    }
  }

  lemma SizingEnds(total: nat, nodes: seq<Node>, align: Alignment)
    ensures SizingPass(total, nodes, |nodes|, align) == total
  {
  }

  lemma FirstNodeSize(nodes: seq<Node>)
    requires nodes != []
    ensures Size(nodes) == nodes[0].Length() + Size(nodes[1..])
  {
  }

  lemma WholeSizingPass(nodes: seq<Node>, align: Alignment)
    ensures SizingPass(0, nodes, 0, align) == Size(UnpackedAll(nodes, align))
  {
    SizingPassExact(0, nodes, 0, align);
    assert UnpackedAll(nodes, align)[0..] == UnpackedAll(nodes, align);
  }

  predicate RoundedLengthsFit(nodes: seq<Node>, align: Alignment) {
    forall i :: 0 <= i < |nodes| ==> Unpacked(nodes[i], align).Length() <= MAX_LENGTH
  }

  /** The unpacked nodes form a path again exactly when their rounded lengths still fit two bytes and the
      alignment leaves an end node as it is: 4 does, 8 does not. */
  lemma UnpackedIsPath(nodes: seq<Node>, align: Alignment)
    requires IsPath(nodes)
    ensures IsPath(UnpackedAll(nodes, align)) <==> RoundedLengthsFit(nodes, align) && HEADER % align == 0
  {
    var r, n := UnpackedAll(nodes, align), |nodes|;
    hide Unpacked, UnpackedAll;
    forall i | 0 <= i < n
      ensures r[i].WellFormed() <==>
        r[i].Length() <= MAX_LENGTH && (nodes[i].IsEndType() ==> HEADER % align == 0)
      ensures r[i].IsEnd() <==> nodes[i].IsEnd()
    {
      assert nodes[i].WellFormed();
      UnpackedRounded(nodes[i], align);
    }
    assert nodes[n - 1].IsEndType();
  }

  /** Where it does not, the unpacked end node is longer than a header, and a search for the end takes the
      path to be that much shorter than its block. */
  lemma UnpackedMeasured(nodes: seq<Node>, align: Alignment)
    requires IsPath(nodes)
    ensures var r, end := UnpackedAll(nodes, align), |nodes| - 1;
      && FirstEnd(r) == FirstEnd(nodes) && r[end].IsEnd()
      && Size(r) == Size(r[..end]) + HEADER + AlignSize(HEADER, align)
      && (Size(r[..end]) + HEADER == Size(r) <==> HEADER % align == 0)
  {
    hide UnpackedAll, Unpacked, FirstEnd, Size, AlignSize;
    var end := |nodes| - 1;
    PathNodeAt(nodes, end);
    UnpackedRounded(nodes[end], align);
    HeaderRounded(align);
    UnpackedFirstEnd(nodes, align);
    var r := UnpackedAll(nodes, align);
    LastNodeSize(r);
  }

  lemma HeaderRounded(align: Alignment)
    ensures AlignSize(HEADER, align) == 0 <==> HEADER % align == 0
  {
  }

  lemma LastNodeSize(nodes: seq<Node>)
    requires nodes != []
    ensures Size(nodes) == Size(nodes[..|nodes| - 1]) + nodes[|nodes| - 1].Length()
  {
    hide Size;
    assert nodes == nodes[..|nodes| - 1] + [nodes[|nodes| - 1]];
    SizeSnoc(nodes[..|nodes| - 1], nodes[|nodes| - 1]);
  }

  lemma UnpackedPart(nodes: seq<Node>, align: Alignment, i: nat, j: nat)
    requires i <= j <= |nodes|
    ensures UnpackedAll(nodes, align)[i..j] == UnpackedAll(nodes[i..j], align)
  {
    hide Unpacked;
  }

  lemma UnpackedFirstEnd(nodes: seq<Node>, align: Alignment)
    requires IsPath(nodes)
    ensures FirstEnd(UnpackedAll(nodes, align)) == FirstEnd(nodes) < |nodes|
  {
    hide Unpacked;
    PathHasEnd(nodes);
    FirstEndIs(UnpackedAll(nodes, align), FirstEnd(nodes));
  }

  lemma RoundedLengthsFitBehind(nodes: seq<Node>, align: Alignment, k: nat)
    requires RoundedLengthsFit(nodes, align) && k <= |nodes|
    ensures RoundedLengthsFit(nodes[k..], align)
  {
    hide Unpacked;
    forall i | 0 <= i < |nodes| - k
      ensures Unpacked(nodes[k..][i], align).Length() <= MAX_LENGTH
    {
      assert nodes[k..][i] == nodes[k + i];
    }
  }

  /** Unpacking keeps the division into instances and their nodes. */
  lemma {:induction false} UnpackedInstances(nodes: seq<Node>, align: Alignment)
    requires IsPath(nodes) && RoundedLengthsFit(nodes, align) && HEADER % align == 0
    ensures IsPath(UnpackedAll(nodes, align))
    ensures |Instances(UnpackedAll(nodes, align))| == |Instances(nodes)|
    ensures forall i :: 0 <= i < |Instances(nodes)| ==>
      Instances(UnpackedAll(nodes, align))[i] == UnpackedAll(Instances(nodes)[i], align)
    decreases |nodes|
  {
    hide IsPath, FirstEnd, RoundedLengthsFit, UnpackedAll, Instances;
    var r, e, n := UnpackedAll(nodes, align), FirstEnd(nodes), |nodes|;
    UnpackedIsPath(nodes, align);
    PathHasEnd(nodes);
    InstancesStep(nodes);
    InstancesStep(r);
    UnpackedFirstEnd(nodes, align);
    UnpackedPart(nodes, align, 0, e);
    assert r[..e] == r[0..e] && nodes[..e] == nodes[0..e];
    if e < n - 1 {
      UnpackedPart(nodes, align, e + 1, n);
      assert r[e + 1..] == r[e + 1..n] && nodes[e + 1..] == nodes[e + 1..n];
      RoundedLengthsFitBehind(nodes, align, e + 1);
      UnpackedInstances(nodes[e + 1..], align);
    }
  }

  /** Unpacking twice is unpacking once. */
  lemma UnpackedTwice(nodes: seq<Node>, align: Alignment)
    ensures UnpackedAll(UnpackedAll(nodes, align), align) == UnpackedAll(nodes, align)
  {
    var r := UnpackedAll(nodes, align);
    forall i | 0 <= i < |nodes| ensures Unpacked(r[i], align) == r[i] {
      UnpackedRounded(nodes[i], align);
      assert r[i].payload + Zeros(0) == r[i].payload;
    }
  }

  // ------------------------------------------------------------------- encodings are prefix free

  lemma EncodeDetermines(a: Node, b: Node, s: seq<Byte>, t: seq<Byte>)
    requires a.WellFormed() && b.WellFormed()
    requires a.Encode() + s == b.Encode() + t
    ensures a == b && s == t
  {
    var u, v := a.Encode() + s, b.Encode() + t;
    assert u[0] == v[0] && u[1] == v[1] && u[2] == v[2] && u[3] == v[3];
    assert a.Length() == b.Length();
    assert a.payload == u[HEADER..a.Length()];
    assert b.payload == v[HEADER..b.Length()];
    assert s == u[a.Length()..] && t == v[b.Length()..];
  }

  /** The bytes of a run of inner nodes begin the bytes of a path exactly when its nodes begin the path. */
  lemma {:induction false} RunBeginsPath(run: seq<Node>, y: seq<Node>)
    requires IsPath(y)
    requires forall i :: 0 <= i < |run| ==> !run[i].IsEndType() && run[i].WellFormed()
    ensures EncodeAll(run) <= EncodeAll(y) <==> run <= y
    decreases |run|
  {
    hide Node.Encode, Node.WellFormed;
    if run != [] {
      assert y[0].WellFormed();
      if run[0] == y[0] {
        RunBeginsPath(run[1..], y[1..]);
        PrefixBehind(run[0].Encode(), EncodeAll(run[1..]), EncodeAll(y[1..]));
        assert run <= y <==> run[1..] <= y[1..];
      } else if EncodeAll(run) <= EncodeAll(y) {
        FirstNodesAgree(run, y);
      }
    }
  }

  lemma FirstNodesAgree(run: seq<Node>, y: seq<Node>)
    requires run != [] && y != [] && run[0].WellFormed() && y[0].WellFormed()
    requires EncodeAll(run) <= EncodeAll(y)
    ensures run[0] == y[0]
  {
    hide Node.Encode, Node.WellFormed;
    var t := EncodeAll(y)[|EncodeAll(run)|..];
    assert EncodeAll(run) + t == EncodeAll(y);
    assert run[0].Encode() + (EncodeAll(run[1..]) + t) == EncodeAll(run) + t;
    EncodeDetermines(run[0], y[0], EncodeAll(run[1..]) + t, EncodeAll(y[1..]));
  }

  lemma PrefixBehind(h: seq<Byte>, a: seq<Byte>, b: seq<Byte>)
    ensures h + a <= h + b <==> a <= b
  {
    if h + a <= h + b {
      assert a == (h + a)[|h|..] && b == (h + b)[|h|..];
      assert forall i :: 0 <= i < |a| ==> a[i] == (h + a)[|h| + i] == (h + b)[|h| + i] == b[i];
    }
  }

  lemma {:induction false} PathNeverInRun(run: seq<Node>, y: seq<Node>)
    requires IsPath(y)
    requires forall i :: 0 <= i < |run| ==> !run[i].IsEndType() && run[i].WellFormed()
    ensures !(EncodeAll(y) <= EncodeAll(run))
    decreases |run|
  {
    hide Node.Encode, Node.WellFormed;
    assert y[0].WellFormed();
    if run != [] && EncodeAll(y) <= EncodeAll(run) {
      FirstNodesAgree(y, run);
      PathNeverInRun(run[1..], y[1..]);
      PrefixBehind(y[0].Encode(), EncodeAll(y[1..]), EncodeAll(run[1..]));
    }
  }

  lemma RunIsInner(nodes: seq<Node>)
    requires IsPath(nodes)
    ensures forall i :: 0 <= i < Stop(nodes) ==> !nodes[i].IsEndType() && nodes[i].WellFormed()
  {
  }

  /** A path is determined by its bytes, whatever follows them. */
  lemma {:induction false} PathDetermined(x: seq<Node>, y: seq<Node>)
    requires IsPath(x) && IsPath(y) && EncodeAll(x) <= EncodeAll(y)
    ensures x == y
    decreases |x|
  {
    hide Node.Encode, Node.WellFormed;
    assert x[0].WellFormed() && y[0].WellFormed();
    FirstNodesAgree(x, y);
    if |x| == 1 {
      assert x[0].IsEnd();
    } else {
      assert !x[0].IsEnd();
      PrefixBehind(x[0].Encode(), EncodeAll(x[1..]), EncodeAll(y[1..]));
      PathDetermined(x[1..], y[1..]);
      assert x == [x[0]] + x[1..] && y == [y[0]] + y[1..];
    }
  }
}
