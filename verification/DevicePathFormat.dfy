/** Device paths by their numbers: the packed format, what ends an instance and what ends a path, and the
    length at which the enumeration of an instance gives up. */
module DevicePathFormat {
  import opened Basics
  import opened DevicePathNodes

  /** Type, subtype, length with its low byte first, payload. */
  lemma NodeFormat(node: Node)
    requires 4 + |node.payload| <= 0xFFFF
    ensures var e := node.Encode();
      && |e| == 4 + |node.payload| && e[0] == node.typ && e[1] == node.sub
      && e[2] as int + 256 * (e[3] as int) == |e| && e[4..] == node.payload
  {
    var n := node.Length();
    assert n / 256 % 256 == n / 256;
  }

  /** Types 0x7F and 0xFF end an instance, and with subtype 0xFF the path. */
  lemma EndNodes(node: Node)
    ensures node.IsEndType() <==> node.typ == 0x7F || node.typ == 0xFF
    ensures node.IsEnd() <==> (node.typ == 0x7F || node.typ == 0xFF) && node.sub == 0xFF
    ensures END_DEVICE_PATH == Node(0x7F, 0xFF, []) && END_INSTANCE_DEVICE_PATH == Node(0x7F, 0x01, [])
    ensures END_DEVICE_PATH.Encode() == [0x7F, 0xFF, 4, 0] && END_INSTANCE_DEVICE_PATH.Encode() == [0x7F, 0x01, 4, 0]
  {
  }

  /** Nodes that end nothing, with lengths of two bytes. */
  predicate Run(run: seq<Node>) {
    forall i :: 0 <= i < |run| ==> run[i].typ != 0x7F && run[i].typ != 0xFF && 4 + |run[i].payload| <= 0xFFFF
  }

  /** A run and an end of the path are a path of one instance. */
  lemma SinglePath(run: seq<Node>, t: Byte)
    requires Run(run) && (t == 0x7F || t == 0xFF)
    ensures IsPath(run + [Node(t, 0xFF, [])]) && Instances(run + [Node(t, 0xFF, [])]) == [run]
  {
    hide Instances, FirstEnd;
    var nodes, e := run + [Node(t, 0xFF, [])], |run|;
    RunNodes(run);
    assert forall i :: 0 <= i < e ==> nodes[i] == run[i];
    FirstEndIs(nodes, e);
    InstancesStep(nodes);
    assert nodes[..e] == run;
  }

  /** A run and an end of an instance in front of a path give it one instance more. */
  lemma LongerPath(run: seq<Node>, t: Byte, rest: seq<Node>)
    requires Run(run) && (t == 0x7F || t == 0xFF) && IsPath(rest)
    ensures IsPath(run + [Node(t, 0x01, [])] + rest)
    ensures Instances(run + [Node(t, 0x01, [])] + rest) == [run] + Instances(rest)
  {
    hide Instances, FirstEnd, IsPath, Node.IsEnd, Node.IsEndType, Node.WellFormed;
    var front, e := run + [Node(t, 0x01, [])], |run|;
    var nodes := front + rest;
    RunNodes(run);
    InnerEnd(t);
    assert forall i :: 0 <= i < e ==> front[i] == run[i] && nodes[i] == run[i];
    RunBeforePath(front, rest);
    FirstEndIs(nodes, e);
    PathNotEmpty(rest);
    InstancesStep(nodes);
    assert nodes[..e] == run && nodes[e + 1..] == rest;
  }

  lemma InnerEnd(t: Byte)
    requires t == 0x7F || t == 0xFF
    ensures var node := Node(t, 0x01, []); node.IsEndType() && !node.IsEnd() && node.WellFormed()
  {
  }

  lemma RunNodes(run: seq<Node>)
    requires Run(run)
    ensures forall i :: 0 <= i < |run| ==> run[i].WellFormed() && !run[i].IsEndType() && !run[i].IsEnd()
  {
  }

  /** Every path is made in one of these two ways. */
  lemma PathParts(nodes: seq<Node>)
    requires IsPath(nodes)
    ensures exists e :: 0 <= e < |nodes| && EndsAt(nodes, e)
  {
    hide FirstEnd;
    PathHasEnd(nodes);
    var e := FirstEnd(nodes);
    forall i | 0 <= i < e
      ensures nodes[i].typ != 0x7F && nodes[i].typ != 0xFF && 4 + |nodes[i].payload| <= 0xFFFF
    {
      assert nodes[i].WellFormed() && !nodes[i].IsEndType();
    }
    assert nodes[e].WellFormed() && nodes[e].IsEndType();
    assert nodes[e] == Node(nodes[e].typ, nodes[e].sub, []);
    assert EndsAt(nodes, e);
  }

  predicate EndsAt(nodes: seq<Node>, e: nat)
    requires e < |nodes|
  {
    && Run(nodes[..e])
    && (nodes[e].typ == 0x7F || nodes[e].typ == 0xFF) && nodes[e].payload == []
    && (if e == |nodes| - 1 then nodes[e].sub == 0xFF else nodes[e].sub == 0x01 && IsPath(nodes[e + 1..]))
  }

  /** The enumeration yields the instances exactly when none has more than 513 nodes; of a first instance
      that has more it yields the first 513. */
  lemma EnumerationLimit(nodes: seq<Node>)
    requires IsPath(nodes)
    ensures Instances(nodes) != [] && Enumerated(nodes) != []
    ensures Enumerated(nodes) == Instances(nodes) <==>
      forall i :: 0 <= i < |Instances(nodes)| ==> |Instances(nodes)[i]| <= 513
    ensures |Instances(nodes)[0]| <= 513 ==> Enumerated(nodes)[0] == Instances(nodes)[0]
    ensures |Instances(nodes)[0]| >= 514 ==> Enumerated(nodes)[0] == Instances(nodes)[0][..513]
  {
    hide Instances, Enumerated, Stop, FirstEnd, IsPath;
    EnumeratedIsInstances(nodes);
    InstancesStep(nodes);
    EnumeratedStep(nodes);
    StopIs(nodes);
    var e := FirstEnd(nodes);
    assert Instances(nodes)[0] == nodes[..e];
    assert e > 513 ==> nodes[..e][..513] == nodes[..513];
  }

  /** Behind such a piece the enumeration ends if the 514th node has the subtype 0xFF, and otherwise goes on
      behind that node. */
  lemma BehindLimit(nodes: seq<Node>)
    requires IsPath(nodes) && Instances(nodes) != [] && |Instances(nodes)[0]| >= 514
    ensures |nodes| > 514 && (nodes[513].sub != 0xFF ==> IsPath(nodes[514..]))
    ensures Enumerated(nodes) ==
      [nodes[..513]] + (if nodes[513].sub == 0xFF then [] else Enumerated(nodes[514..]))
  {
    hide Instances, Enumerated, Stop, FirstEnd, IsPath;
    InstancesStep(nodes);
    assert Instances(nodes)[0] == nodes[..FirstEnd(nodes)];
    StopIs(nodes);
    EnumeratedStep(nodes);
    TailIsPath(nodes, 514);
  }

  /** PciRoot(0)/Pci(1,2) behind an empty instance, in bytes. */
  lemma SamplePath()
    ensures var root, device := Node(2, 1, [0xD0, 0x41, 0x03, 0x0A, 0, 0, 0, 0]), Node(1, 1, [2, 1]);
      var nodes := [Node(0x7F, 1, []), root, device, Node(0xFF, 0xFF, [])];
      && IsPath(nodes) && Instances(nodes) == Enumerated(nodes) == [[], [root, device]]
      && EncodeAll(nodes) == [0x7F, 1, 4, 0, 2, 1, 12, 0, 0xD0, 0x41, 0x03, 0x0A, 0, 0, 0, 0, 1, 1, 6, 0, 2, 1,
                              0xFF, 0xFF, 4, 0]
  {
    hide IsPath, Instances, Enumerated, EncodeAll, Node.Encode;
    var root, device := Node(2, 1, [0xD0, 0x41, 0x03, 0x0A, 0, 0, 0, 0]), Node(1, 1, [2, 1]);
    SampleInstances(root, device);
    SampleNodes(root, device);
    SampleBytes([Node(0x7F, 1, []), root, device, Node(0xFF, 0xFF, [])]);
  }

  lemma SampleNodes(root: Node, device: Node)
    requires root == Node(2, 1, [0xD0, 0x41, 0x03, 0x0A, 0, 0, 0, 0]) && device == Node(1, 1, [2, 1])
    ensures Node(0x7F, 1, []).Encode() == [0x7F, 1, 4, 0] && Node(0xFF, 0xFF, []).Encode() == [0xFF, 0xFF, 4, 0]
    ensures root.Encode() == [2, 1, 12, 0, 0xD0, 0x41, 0x03, 0x0A, 0, 0, 0, 0]
    ensures device.Encode() == [1, 1, 6, 0, 2, 1]
  {
  }

  lemma SampleInstances(root: Node, device: Node)
    requires Run([root, device])
    ensures var nodes := [Node(0x7F, 1, []), root, device, Node(0xFF, 0xFF, [])];
      IsPath(nodes) && Instances(nodes) == Enumerated(nodes) == [[], [root, device]]
  {
    hide IsPath, Instances, Enumerated, EncodeAll;
    var run, end: seq<Node> := [root, device], [Node(0xFF, 0xFF, [])];
    SinglePath(run, 0xFF);
    LongerPath([], 0x7F, run + end);
    assert [] + [Node(0x7F, 1, [])] + (run + end) == [Node(0x7F, 1, []), root, device, Node(0xFF, 0xFF, [])];
    assert [[]] + [run] == [[], run];
    EnumerationLimit([Node(0x7F, 1, []), root, device, Node(0xFF, 0xFF, [])]);
  }

  lemma SampleBytes(nodes: seq<Node>)
    requires |nodes| == 4
    ensures EncodeAll(nodes) == nodes[0].Encode() + nodes[1].Encode() + nodes[2].Encode() + nodes[3].Encode()
  {
    hide Node.Encode;
    assert nodes == [] + [nodes[0]] + [nodes[1]] + [nodes[2]] + [nodes[3]];
    EncodeSnoc([], nodes[0]);
    EncodeSnoc([] + [nodes[0]], nodes[1]);
    EncodeSnoc([] + [nodes[0]] + [nodes[1]], nodes[2]);
    EncodeSnoc([] + [nodes[0]] + [nodes[1]] + [nodes[2]], nodes[3]);
  }
}
