/** Graphs that are built without an error and whose export is refused: a gate whose
    operands do not fit its operator, a submodule whose output is not used, and a cell that
    nothing drives. */
module RefusedDesign {
  import opened Cells
  import opened PortExpr
  import opened Unroll
  import opened InstanceEdges

  lemma ExactBuilt(nets: seq<Net>, k: nat, consts: set<Bit>, bits: seq<Bit>, enough: bool)
    requires k < |nets| && nets[k].bits == bits
    ensures Built(nets, consts, bits, enough) && |Pieces(Reassembled(nets, consts, bits))| == |bits|
  {
  }

  lemma IdIsNotConstant(id: nat, rest: seq<Bit>)
    ensures HasNonConstant([Id(id)] + rest)
  {
    assert !([Id(id)] + rest)[0].IsConstant();
  }

  /** Ports of the top module on their own nets. */
  lemma InputBuilds(name: Name, bits: seq<Bit>)
    requires bits != []
    ensures Builds(TopInput(name, bits, [Net(name, bits)]))
  {
    var vx := TopInput(name, bits, [Net(name, bits)]);
    ExactBuilt(vx.outNets, 0, NO_CONSTANTS, bits, false);
  }

  lemma OutputBuilds(name: Name, bits: seq<Bit>)
    requires HasNonConstant(bits)
    ensures Builds(TopOutput(name, bits, [Net(name, bits)]))
  {
    var vx := TopOutput(name, bits, [Net(name, bits)]);
    ExactBuilt(vx.inNets, 0, vx.Constants(), bits, false);
  }

  lemma PortBuilds(isInput: bool, inner: Net, outer: Net)
    requires HasNonConstant(inner.bits) && HasNonConstant(outer.bits) && |inner.bits| == |outer.bits|
    ensures Builds(ModulePort(isInput, inner.bits, outer.bits, [inner], [outer]))
  {
    var vx := ModulePort(isInput, inner.bits, outer.bits, [inner], [outer]);
    ExactBuilt(vx.inNets, 0, vx.Constants(), inner.bits, false);
    ExactBuilt(vx.outNets, 0, NO_CONSTANTS, outer.bits, false);
  }

  lemma FirstIs(nets: seq<Net>, k: nat)
    requires k < |nets| && forall j :: 0 <= j < k ==> nets[j].bits != nets[k].bits
    ensures Known(nets, nets[k].bits) && FirstWith(nets, nets[k].bits) == nets[k]
  {
    if k > 0 {
      assert nets[1..][k - 1] == nets[k];
      FirstIs(nets[1..], k - 1);
    }
  }

  // ----- a gate on operands of one and two bits -----

  const NET_A: Net := Net("a", [Id(2)])
  const NET_B: Net := Net("b", [Id(3), Id(4)])
  const NET_Y: Net := Net("y", [Id(5)])

  function Gate(op: BinOp, sa: bool, sb: bool): Vertex {
    CellVertex(Binary(op, sa, sb), [Port(A, NET_A.bits), Port(B, NET_B.bits)], NET_Y.bits, [NET_A, NET_B], [NET_Y])
  }

  function Gated(op: BinOp, sa: bool, sb: bool): Design {
    [TopInput("a", NET_A.bits, [NET_A]), TopInput("b", NET_B.bits, [NET_B]), Gate(op, sa, sb),
     TopOutput("y", NET_Y.bits, [NET_Y])]
  }

  function GatedLinks(): seq<Link> {
    [Link(Edge(0, 2, 0), NET_A), Link(Edge(1, 2, 1), NET_B), Link(Edge(2, 3, 0), NET_Y)]
  }

  function GatedNets(): seq<Net> {
    [NET_A, NET_B, NET_Y]
  }

  lemma GatedVertices(op: BinOp, sa: bool, sb: bool)
    ensures var d := Gated(op, sa, sb);
            |d| == 4 && d[0] == TopInput("a", NET_A.bits, [NET_A]) && d[1] == TopInput("b", NET_B.bits, [NET_B]) &&
            d[2] == Gate(op, sa, sb) && d[3] == TopOutput("y", NET_Y.bits, [NET_Y])
  {
  }

  lemma GatedSends(d: Design, op: BinOp, sa: bool, sb: bool, vi: nat, b: Bit)
    requires d == Gated(op, sa, sb) && vi < 4 && b in Sent(d[vi])
    ensures (vi == 0 && b == Id(2)) || (vi == 1 && (b == Id(3) || b == Id(4))) || (vi == 2 && b == Id(5))
  {
    GatedVertices(op, sa, sb);
  }

  lemma GatedReads(d: Design, op: BinOp, sa: bool, sb: bool, vi: nat, p: nat, b: Bit)
    requires d == Gated(op, sa, sb) && InPorts(d, vi, p) && b in PortAt(d, vi, p)
    ensures (vi == 2 && p == 0 && b == Id(2)) || (vi == 2 && p == 1 && (b == Id(3) || b == Id(4))) ||
            (vi == 3 && p == 0 && b == Id(5))
  {
    GatedVertices(op, sa, sb);
  }

  lemma GatedEdge(d: Design, op: BinOp, sa: bool, sb: bool, e: Edge)
    requires d == Gated(op, sa, sb) && IsEdge(d, e)
    ensures e in EdgesOf(GatedLinks())
  {
    var b := SharedBit(d, e);
    GatedSends(d, op, sa, sb, e.source, b);
    GatedReads(d, op, sa, sb, e.target, e.port, b);
    var edges := EdgesOf(GatedLinks());
    assert edges[0] == Edge(0, 2, 0) && edges[1] == Edge(1, 2, 1) && edges[2] == Edge(2, 3, 0);
  }

  lemma GatedLink(d: Design, op: BinOp, sa: bool, sb: bool, k: nat)
    requires d == Gated(op, sa, sb) && k < 3
    ensures LinkOk(d, GatedNets(), GatedLinks()[k])
  {
    var l := GatedLinks()[k];
    GatedVertices(op, sa, sb);
    assert !Sent(d[l.edge.source])[0].IsConstant() && Sent(d[l.edge.source])[0] in ReadBits(d, l.edge);
    FirstIs(GatedNets(), k);
  }

  lemma GatedEnds(d: Design, op: BinOp, sa: bool, sb: bool, links: seq<Link>, vi: nat)
    requires d == Gated(op, sa, sb) && links == GatedLinks() && vi < 4
    ensures d[vi].EdgesIn() == LinksInto(links, vi) && d[vi].EdgesOut() == LinksFrom(links, vi)
  {
    GatedVertices(op, sa, sb);
    NextLink(links, 0, vi);
    NextLink(links, 1, vi);
    NextLink(links, 2, vi);
  }

  lemma GatedLinksOk(d: Design, op: BinOp, sa: bool, sb: bool, links: seq<Link>, nets: seq<Net>)
    requires d == Gated(op, sa, sb) && links == GatedLinks() && nets == GatedNets()
    ensures forall k :: 0 <= k < |links| ==> LinkOk(d, nets, links[k])
  {
    forall k | 0 <= k < |links|
      ensures LinkOk(d, nets, links[k])
    {
      GatedLink(d, op, sa, sb, k);
    }
  }

  lemma GatedLinksDiffer(links: seq<Link>)
    requires links == GatedLinks()
    ensures forall i, j :: 0 <= i < j < |links| ==> links[i].edge != links[j].edge
  {
  }

  lemma GatedEdges(d: Design, op: BinOp, sa: bool, sb: bool, links: seq<Link>)
    requires d == Gated(op, sa, sb) && links == GatedLinks()
    ensures forall e :: IsEdge(d, e) ==> e in EdgesOf(links)
  {
    forall e | IsEdge(d, e)
      ensures e in EdgesOf(links)
    {
      GatedEdge(d, op, sa, sb, e);
    }
  }

  lemma GatedIsGraph(d: Design, op: BinOp, sa: bool, sb: bool, links: seq<Link>, nets: seq<Net>)
    requires d == Gated(op, sa, sb) && links == GatedLinks() && nets == GatedNets()
    ensures IsGraph(d, links, Flat(d, nets))
  {
    GatedLinksOk(d, op, sa, sb, links, nets);
    GatedLinksDiffer(links);
    GatedEdges(d, op, sa, sb, links);
    forall vi | 0 <= vi < |d|
      ensures d[vi].EdgesIn() == LinksInto(links, vi) && d[vi].EdgesOut() == LinksFrom(links, vi)
    {
      GatedEnds(d, op, sa, sb, links, vi);
    }
    GraphOf(d, links, nets);
  }

  lemma TwoPorts(ports: seq<Port>, x: seq<Bit>, y: seq<Bit>, p: PortName)
    requires ports == [Port(A, x), Port(B, y)]
    ensures HasPort(ports, p) <==> p == A || p == B
    ensures p == A ==> PortBits(ports, p) == x
    ensures p == B ==> PortBits(ports, p) == y
  {
    assert ports[0].name == A && ports[1].name == B;
  }

  lemma WidthAt(vx: Vertex, p: PortName)
    requires vx.CellVertex? && HasPort(vx.ins, p)
    ensures p in ExprWidths(vx.InMap())
    ensures ExprWidths(vx.InMap())[p] == |Pieces(vx.InExpr(PortBits(vx.ins, p)))|
  {
  }

  lemma GateReads(op: BinOp, sa: bool, sb: bool)
    ensures var vx := Gate(op, sa, sb);
            Emits(vx) && |Pieces(vx.OutExpr())| == 1 && ReadsUpTo(vx, 2) &&
            |Pieces(vx.InExpr(NET_A.bits))| == 1 && |Pieces(vx.InExpr(NET_B.bits))| == 2
  {
    var vx := Gate(op, sa, sb);
    ExactBuilt(vx.outNets, 0, NO_CONSTANTS, NET_Y.bits, false);
    ExactBuilt(vx.inNets, 0, vx.Constants(), NET_A.bits, true);
    ExactBuilt(vx.inNets, 1, vx.Constants(), NET_B.bits, true);
    IdIsNotConstant(2, []);
    IdIsNotConstant(3, [Id(4)]);
    assert [Id(2)] + [] == NET_A.bits && [Id(3)] + [Id(4)] == NET_B.bits;
  }

  lemma GateWidths(op: BinOp, sa: bool, sb: bool, vx: Vertex, ws: map<PortName, nat>)
    requires vx == Gate(op, sa, sb) && ws == ExprWidths(vx.InMap())
    ensures A in ws && ws[A] == 1 && B in ws && ws[B] == 2
  {
    GateReads(op, sa, sb);
    TwoPorts(vx.ins, NET_A.bits, NET_B.bits, A);
    TwoPorts(vx.ins, NET_A.bits, NET_B.bits, B);
    WidthAt(vx, A);
    WidthAt(vx, B);
  }

  lemma CellBuildsIff(vx: Vertex, ws: map<PortName, nat>, w: nat)
    requires vx.CellVertex? && Emits(vx) && ReadsUpTo(vx, |vx.ins|) && |vx.ins| == vx.kind.Arity()
    requires ws == ExprWidths(vx.InMap()) && w == |Pieces(vx.OutExpr())|
    ensures Builds(vx) <==> AcceptedWidths(vx.kind, ws, w, if vx.kind.HasEnable() then w else 0)
  {
  }

  lemma BinaryWidths(op: BinOp, sa: bool, sb: bool, ws: map<PortName, nat>, w: nat)
    requires A in ws && B in ws && w > 0
    ensures AcceptedWidths(Binary(op, sa, sb), ws, w, 0) <==> AcceptedBinary(op, ws[A], ws[B], w, sa, sb)
  {
  }

  /** The gate is exported exactly when its operator accepts operands of one and two bits, a
      result of one bit and these signs. */
  lemma GateBuildsIff(op: BinOp, sa: bool, sb: bool, vx: Vertex)
    requires vx == Gate(op, sa, sb)
    ensures Builds(vx) <==> AcceptedBinary(op, 1, 2, 1, sa, sb)
  {
    var ws := ExprWidths(vx.InMap());
    GateReads(op, sa, sb);
    GateWidths(op, sa, sb, vx, ws);
    CellBuildsIff(vx, ws, 1);
    BinaryWidths(op, sa, sb, ws, 1);
  }

  lemma GatedTops(d: Design, op: BinOp, sa: bool, sb: bool, vi: nat)
    requires d == Gated(op, sa, sb) && vi < 4 && vi != 2
    ensures Builds(d[vi])
  {
    GatedVertices(op, sa, sb);
    IdIsNotConstant(5, []);
    assert [Id(5)] + [] == NET_Y.bits;
    InputBuilds("a", NET_A.bits);
    InputBuilds("b", NET_B.bits);
    OutputBuilds("y", NET_Y.bits);
  }

  lemma GatedRefused(d: Design, op: BinOp, sa: bool, sb: bool, vi: nat, steps: nat)
    requires d == Gated(op, sa, sb) && vi < 4
    ensures Refused(d[vi], steps) <==> vi == 2 && steps > 0 && !AcceptedBinary(op, 1, 2, 1, sa, sb)
  {
    GatedVertices(op, sa, sb);
    if vi == 2 {
      GateBuildsIff(op, sa, sb, d[vi]);
    } else {
      GatedTops(d, op, sa, sb, vi);
    }
  }

  /** A comparison of a signed with an unsigned operand is refused, and so is a conjunction
      of operands that differ in width; an addition of the same operands is not. */
  lemma {:induction false} GateIsRefusedIff(d: Design, op: BinOp, sa: bool, sb: bool, steps: nat)
    requires d == Gated(op, sa, sb) && steps > 0
    ensures IsGraph(d, GatedLinks(), Flat(d, GatedNets()))
    ensures (exists vi :: 0 <= vi < |d| && Refused(d[vi], steps)) <==> !AcceptedBinary(op, 1, 2, 1, sa, sb)
    ensures op == LtOp && sa != sb ==> !AcceptedBinary(op, 1, 2, 1, sa, sb)
    ensures op == AndOp ==> !AcceptedBinary(op, 1, 2, 1, sa, sb)
    ensures op == AddOp ==> AcceptedBinary(op, 1, 2, 1, sa, sb)
  {
    GatedIsGraph(d, op, sa, sb, GatedLinks(), GatedNets());
    forall vi | 0 <= vi < |d|
      ensures Refused(d[vi], steps) <==> vi == 2 && !AcceptedBinary(op, 1, 2, 1, sa, sb)
    {
      GatedRefused(d, op, sa, sb, vi, steps);
    }
  }

  // ----- a submodule around an inverter -----

  function Inner(): Vertex {
    CellVertex(Unary(NotOp, false), [Port(A, [Id(10)])], [Id(11)], [Net("i", [Id(10)])], [Net("o", [Id(11)])])
  }

  function InPort(): Vertex {
    ModulePort(true, [Id(1)], [Id(10)], [Net("a", [Id(1)])], [Net("i", [Id(10)])])
  }

  function OutPort(used: bool): Vertex {
    ModulePort(false, [Id(11)], [Id(2)], [Net("o", [Id(11)])], if used then [Net("y", [Id(2)])] else [])
  }

  /** The output of the top module is read from the submodule, or is not there. */
  function Nested(used: bool): Design {
    [TopInput("a", [Id(1)], [Net("a", [Id(1)])]), InPort(), Inner(), OutPort(used)] +
    if used then [TopOutput("y", [Id(2)], [Net("y", [Id(2)])])] else []
  }

  /** The input of the submodule and its inverter send inside. */
  function NestedModules(used: bool): Hierarchy {
    Hierarchy([0, 1, 1, 0] + if used then [0] else [],
              [[Net("a", [Id(1)]), Net("y", [Id(2)])], [Net("i", [Id(10)]), Net("o", [Id(11)])]])
  }

  function NestedLinks(used: bool): seq<Link> {
    [Link(Edge(0, 1, 0), Net("a", [Id(1)])), Link(Edge(1, 2, 0), Net("i", [Id(10)])),
     Link(Edge(2, 3, 0), Net("o", [Id(11)]))] +
    if used then [Link(Edge(3, 4, 0), Net("y", [Id(2)]))] else []
  }

  lemma NestedVertices(used: bool)
    ensures var d := Nested(used);
            |d| == (if used then 5 else 4) && d[0] == TopInput("a", [Id(1)], [Net("a", [Id(1)])]) &&
            d[1] == InPort() && d[2] == Inner() && d[3] == OutPort(used) &&
            (used ==> d[4] == TopOutput("y", [Id(2)], [Net("y", [Id(2)])]))
  {
  }

  lemma NestedSends(d: Design, used: bool, vi: nat, b: Bit)
    requires d == Nested(used) && vi < |d| && b in Sent(d[vi])
    ensures (vi == 0 && b == Id(1)) || (vi == 1 && b == Id(10)) || (vi == 2 && b == Id(11)) || (vi == 3 && b == Id(2))
  {
    NestedVertices(used);
  }

  lemma NestedReads(d: Design, used: bool, vi: nat, p: nat, b: Bit)
    requires d == Nested(used) && InPorts(d, vi, p) && b in PortAt(d, vi, p)
    ensures p == 0
    ensures (vi == 1 && b == Id(1)) || (vi == 2 && b == Id(10)) || (vi == 3 && b == Id(11)) ||
            (used && vi == 4 && b == Id(2))
  {
    NestedVertices(used);
  }

  lemma NestedEdge(d: Design, used: bool, links: seq<Link>, e: Edge)
    requires d == Nested(used) && links == NestedLinks(used) && IsEdge(d, e)
    ensures e in EdgesOf(links)
  {
    var b := SharedBit(d, e);
    NestedSends(d, used, e.source, b);
    NestedReads(d, used, e.target, e.port, b);
    var edges := EdgesOf(links);
    assert edges[0] == Edge(0, 1, 0) && edges[1] == Edge(1, 2, 0) && edges[2] == Edge(2, 3, 0);
    assert used ==> edges[3] == Edge(3, 4, 0);
  }

  lemma SecondOf(m: Net, n: Net)
    requires m.bits != n.bits
    ensures Known([m, n], m.bits) && FirstWith([m, n], m.bits) == m
    ensures Known([m, n], n.bits) && FirstWith([m, n], n.bits) == n
  {
    FirstIs([m, n], 0);
    FirstIs([m, n], 1);
  }

  lemma NestedLink(d: Design, h: Hierarchy, used: bool, links: seq<Link>, k: nat)
    requires d == Nested(used) && h == NestedModules(used) && links == NestedLinks(used) && k < |links|
    ensures LinkOk(d, h.NetsOf(links[k].edge.source), links[k])
  {
    var l := links[k];
    NestedVertices(used);
    assert !Sent(d[l.edge.source])[0].IsConstant() && Sent(d[l.edge.source])[0] in ReadBits(d, l.edge);
    SecondOf(Net("a", [Id(1)]), Net("y", [Id(2)]));
    SecondOf(Net("i", [Id(10)]), Net("o", [Id(11)]));
  }

  lemma NestedEnds(d: Design, used: bool, links: seq<Link>, vi: nat)
    requires d == Nested(used) && links == NestedLinks(used) && vi < |d|
    ensures d[vi].EdgesIn() == LinksInto(links, vi) && d[vi].EdgesOut() == LinksFrom(links, vi)
  {
    NestedVertices(used);
    NextLink(links, 0, vi);
    NextLink(links, 1, vi);
    NextLink(links, 2, vi);
    if used {
      NextLink(links, 3, vi);
    }
  }

  lemma NestedLinksOk(d: Design, h: Hierarchy, used: bool, links: seq<Link>)
    requires d == Nested(used) && h == NestedModules(used) && links == NestedLinks(used)
    ensures LinksOk(d, h, links)
  {
    forall k | 0 <= k < |links|
      ensures LinkOk(d, h.NetsOf(links[k].edge.source), links[k])
    {
      NestedLink(d, h, used, links, k);
    }
  }

  lemma NestedLinksDiffer(used: bool, links: seq<Link>)
    requires links == NestedLinks(used)
    ensures forall i, j :: 0 <= i < j < |links| ==> links[i].edge != links[j].edge
  {
  }

  lemma NestedEdges(d: Design, h: Hierarchy, used: bool, links: seq<Link>)
    requires d == Nested(used) && links == NestedLinks(used) && LinksOk(d, h, links)
    ensures AreEdges(d, |d|, EdgesOf(links))
  {
    var edges := EdgesOf(links);
    NestedLinksDiffer(used, links);
    forall e
      ensures e in edges <==> e.source < |d| && IsEdge(d, e)
    {
      if IsEdge(d, e) {
        NestedEdge(d, used, links, e);
      }
      if e in edges {
        var k :| 0 <= k < |edges| && edges[k] == e;
        assert LinkOk(d, h.NetsOf(links[k].edge.source), links[k]);
      }
    }
  }

  /** The edges on either side of a port of the submodule carry nets of two modules. */
  lemma NestedIsGraph(d: Design, h: Hierarchy, used: bool, links: seq<Link>)
    requires d == Nested(used) && h == NestedModules(used) && links == NestedLinks(used)
    ensures IsGraph(d, links, h)
  {
    NestedLinksOk(d, h, used, links);
    NestedEdges(d, h, used, links);
    forall vi | 0 <= vi < |d|
      ensures d[vi].EdgesIn() == LinksInto(links, vi) && d[vi].EdgesOut() == LinksFrom(links, vi)
    {
      NestedEnds(d, used, links, vi);
    }
  }

  lemma InnerBuilds()
    ensures Builds(Inner())
  {
    var vx := Inner();
    IdIsNotConstant(10, []);
    assert [Id(10)] + [] == [Id(10)];
    ExactBuilt(vx.outNets, 0, NO_CONSTANTS, [Id(11)], false);
    ExactBuilt(vx.inNets, 0, vx.Constants(), [Id(10)], true);
    assert vx.ins[0].name == A && HasPort(vx.ins, A) && PortBits(vx.ins, A) == [Id(10)];
    WidthAt(vx, A);
    var ws := ExprWidths(vx.InMap());
    CellBuildsIff(vx, ws, 1);
    UnaryWidths(NotOp, ws, 1);
  }

  lemma UnaryWidths(op: UnOp, ws: map<PortName, nat>, w: nat)
    requires A in ws && w > 0
    ensures AcceptedWidths(Unary(op, false), ws, w, 0) <==> AcceptedUnary(op, ws[A], w)
  {
  }

  lemma NestedTopsBuild()
    ensures Builds(TopInput("a", [Id(1)], [Net("a", [Id(1)])])) && Builds(TopOutput("y", [Id(2)], [Net("y", [Id(2)])]))
  {
    IdIsNotConstant(2, []);
    assert [Id(2)] + [] == [Id(2)];
    InputBuilds("a", [Id(1)]);
    OutputBuilds("y", [Id(2)]);
  }

  lemma InPortBuilds()
    ensures Builds(InPort())
  {
    IdIsNotConstant(1, []);
    IdIsNotConstant(10, []);
    assert [Id(1)] + [] == [Id(1)] && [Id(10)] + [] == [Id(10)];
    PortBuilds(true, Net("a", [Id(1)]), Net("i", [Id(10)]));
  }

  lemma NestedBuilds(used: bool, vi: nat, vx: Vertex)
    requires vi < |Nested(used)| && vx == Nested(used)[vi] && vi != 3
    ensures Builds(vx)
  {
    NestedIs(used, vi, vx);
    if vi == 1 {
      InPortBuilds();
    } else if vi == 2 {
      InnerBuilds();
    } else {
      NestedTopsBuild();
    }
  }

  lemma NestedIs(used: bool, vi: nat, vx: Vertex)
    requires vi < |Nested(used)| && vx == Nested(used)[vi] && vi != 3
    ensures if vi == 1 then vx == InPort() else if vi == 2 then vx == Inner()
            else if vi == 0 then vx == TopInput("a", [Id(1)], [Net("a", [Id(1)])])
            else vx == TopOutput("y", [Id(2)], [Net("y", [Id(2)])])
  {
    NestedVertices(used);
  }

  lemma OutPortBuildsIff(d: Design, h: Hierarchy, used: bool, links: seq<Link>)
    requires d == Nested(used) && IsGraph(d, links, h)
    ensures Builds(d[3]) <==> used
  {
    NestedVertices(used);
    if used {
      IdIsNotConstant(2, []);
      IdIsNotConstant(11, []);
      assert [Id(2)] + [] == [Id(2)] && [Id(11)] + [] == [Id(11)];
      PortBuilds(false, Net("o", [Id(11)]), Net("y", [Id(2)]));
    } else {
      PortBuildsIff(d, links, h, 3);
    }
  }

  /** An output of a submodule that nothing reads outside makes the export fail; read, it
      does not. */
  lemma {:induction false} NestedIsRefusedIff(d: Design, h: Hierarchy, used: bool, links: seq<Link>, steps: nat)
    requires d == Nested(used) && h == NestedModules(used) && links == NestedLinks(used) && steps > 0
    ensures IsGraph(d, links, h)
    ensures (exists vi :: 0 <= vi < |d| && Refused(d[vi], steps)) <==> !used
  {
    NestedIsGraph(d, h, used, links);
    OutPortBuildsIff(d, h, used, links);
    NestedVertices(used);
    forall vi | 0 <= vi < |d| && vi != 3
      ensures !Refused(d[vi], steps)
    {
      NestedBuilds(used, vi, d[vi]);
    }
    assert Refused(d[3], steps) <==> !used;
  }

  // ----- a cell that nothing drives -----

  /** An inverter whose input bit is on no edge; the net of the bit exists. */
  function Floating(): Design {
    [CellVertex(Unary(NotOp, false), [Port(A, [Id(3)])], [Id(4)], [], [Net("y", [Id(4)])]),
     TopOutput("y", [Id(4)], [Net("y", [Id(4)])])]
  }

  function FloatingLinks(): seq<Link> {
    [Link(Edge(0, 1, 0), Net("y", [Id(4)]))]
  }

  function FloatingNets(): seq<Net> {
    [Net("b", [Id(3)]), Net("y", [Id(4)])]
  }

  lemma FloatingIsGraph(d: Design, links: seq<Link>, nets: seq<Net>)
    requires d == Floating() && links == FloatingLinks() && nets == FloatingNets()
    ensures IsGraph(d, links, Flat(d, nets))
  {
    SecondOf(nets[0], nets[1]);
    assert Sent(d[0])[0] == Id(4) && Readers(d[1])[0].bits == [Id(4)];
    assert LinkOk(d, nets, links[0]);
    forall e | IsEdge(d, e)
      ensures e in EdgesOf(links)
    {
      var b := SharedBit(d, e);
      assert EdgesOf(links)[0] == Edge(0, 1, 0);
    }
    NextLink(links, 0, 0);
    NextLink(links, 0, 1);
    GraphOf(d, links, nets);
  }

  /** There is nothing to concatenate for its input. */
  lemma {:induction false} FloatingIsRefused(d: Design, steps: nat)
    requires d == Floating() && steps > 0
    ensures IsGraph(d, FloatingLinks(), Flat(d, FloatingNets())) && Refused(d[0], steps)
  {
    FloatingIsGraph(d, FloatingLinks(), FloatingNets());
    var vx := d[0];
    assert !Carried(vx.inNets, Id(3));
    IdIsNotConstant(3, []);
    assert [Id(3)] + [] == [Id(3)] && [Id(3)][1..] == [];
    assert Parts(vx.inNets, vx.Constants(), [Id(3)]) == [];
    assert !Reads(vx, vx.Ins()[0].bits);
  }
}
