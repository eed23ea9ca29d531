/** A small sequential design on which the unrolled instance is the simulation: a
    register with enable that is fed its own complement. */
module ToggleDesign {
  import opened Cells
  import opened PortExpr
  import opened Unroll
  import opened UnrollProof
  import opened Simulation
  import opened InstanceEdges

  function Wire(name: Name, id: nat): Net {
    Net(name, [Id(id)])
  }

  function Register(): Vertex {
    CellVertex(Dffe(true), [Port(CLK, [Id(5)]), Port(D, [Id(4)]), Port(EN, [Id(2)])], [Id(3)],
               [Wire("clk", 5), Wire("n", 4), Wire("en", 2)], [Wire("q", 3), Wire("q", 3)])
  }

  function Inverter(): Vertex {
    CellVertex(Unary(NotOp, false), [Port(A, [Id(3)])], [Id(4)], [Wire("q", 3)], [Wire("n", 4)])
  }

  function Clock(): Vertex {
    TopInput("clk", [Id(5)], [Wire("clk", 5)])
  }

  function Enable(): Vertex {
    TopInput("en", [Id(2)], [Wire("en", 2)])
  }

  function Output(): Vertex {
    TopOutput("q", [Id(3)], [Wire("q", 3)])
  }

  function Toggle(): Design {
    [Clock(), Enable(), Register(), Inverter(), Output()]
  }

  const LEVELS: seq<nat> := [0, 0, 0, 1, 1]

  lemma SameBits(nets: seq<Net>, k: nat, id: nat, consts: set<Bit>)
    requires k < |nets| && nets[k] == Wire(nets[k].name, id)
    requires forall j :: 0 <= j < |nets| && nets[j].bits == [Id(id)] ==> nets[j].name == nets[k].name
    ensures Reassembled(nets, consts, [Id(id)]) == Whole(nets[k].name, 1)
    ensures ExactMatch(nets, [Id(id)]) >= 0 && Carried(nets, Id(id)) && HasNonConstant([Id(id)])
  {
    assert Id(id) in nets[k].bits;
    assert ![Id(id)][0].IsConstant();
  }

  lemma RegisterPorts(p: PortName)
    requires HasPort(Register().ins, p)
    ensures p == CLK || p == D || p == EN
    ensures PortBits(Register().ins, p) == [Id(if p == CLK then 5 else if p == D then 4 else 2)]
  {
  }

  lemma RegisterTyped()
    ensures CellTyped(Dffe(true), Register().ins, 1)
  {
    var ports := Register().ins;
    assert ports[1].name == D && ports[2].name == EN;
    forall v: Values, wp: nat | HasWidths(ports, v) && wp == 1
      ensures Typed(Dffe(true), v, 1, wp)
    {
      assert HasPort(ports, D) && HasPort(ports, EN);
      RegisterPorts(D);
      RegisterPorts(EN);
    }
  }

  lemma RegisterReads(k: nat, id: nat)
    requires k < 3 && Register().inNets[k].bits == [Id(id)]
    ensures Readable(Register(), [Id(id)])
  {
    SameBits(Register().inNets, k, id, Register().Constants());
  }

  lemma RegisterOk()
    ensures VertexOk(Register()) && Register().OutExpr() == Whole("q", 1)
  {
    RegisterTyped();
    SameBits(Register().outNets, 0, 3, NO_CONSTANTS);
    RegisterReads(0, 5);
    RegisterReads(1, 4);
    RegisterReads(2, 2);
    forall p | HasPort(Register().Ins(), p)
      ensures Readable(Register(), PortBits(Register().Ins(), p))
    {
      RegisterPorts(p);
    }
  }

  lemma InverterPorts(p: PortName)
    requires HasPort(Inverter().ins, p)
    ensures p == A && PortBits(Inverter().ins, p) == [Id(3)]
  {
  }

  lemma InverterOk()
    ensures VertexOk(Inverter()) && Inverter().OutExpr() == Whole("n", 1)
  {
    var vx := Inverter();
    SameBits(vx.outNets, 0, 4, NO_CONSTANTS);
    SameBits(vx.inNets, 0, 3, vx.Constants());
    assert vx.ins[0].name == A;
    forall v: Values, wp: nat | HasWidths(vx.ins, v)
      ensures Typed(Unary(NotOp, false), v, 1, wp)
    {
      assert HasPort(vx.ins, A);
      InverterPorts(A);
    }
    forall p | HasPort(vx.Ins(), p)
      ensures Readable(vx, PortBits(vx.Ins(), p))
    {
      InverterPorts(p);
    }
  }

  lemma InputOk(name: Name, id: nat)
    ensures VertexOk(TopInput(name, [Id(id)], [Wire(name, id)])) && TopInput(name, [Id(id)], [Wire(name, id)]).Trivial()
  {
    SameBits([Wire(name, id)], 0, id, NO_CONSTANTS);
  }

  lemma OutputOk(name: Name, id: nat)
    ensures VertexOk(TopOutput(name, [Id(id)], [Wire(name, id)])) &&
            TopOutput(name, [Id(id)], [Wire(name, id)]).Trivial()
  {
    var vx := TopOutput(name, [Id(id)], [Wire(name, id)]);
    SameBits(vx.inNets, 0, id, vx.Constants());
    forall p | HasPort(vx.Ins(), p)
      ensures Readable(vx, PortBits(vx.Ins(), p))
    {
      assert PortBits(vx.Ins(), p) == [Id(id)];
    }
  }

  // ----- the graph -----

  function NetsOfToggle(): seq<Net> {
    [Wire("clk", 5), Wire("en", 2), Wire("q", 3), Wire("n", 4)]
  }

  function ToggleLinks(): seq<Link> {
    [Link(Edge(0, 2, 0), Wire("clk", 5)), Link(Edge(3, 2, 1), Wire("n", 4)), Link(Edge(1, 2, 2), Wire("en", 2)),
     Link(Edge(2, 3, 0), Wire("q", 3)), Link(Edge(2, 4, 0), Wire("q", 3))]
  }

  lemma SendsOne(vi: nat, b: Bit)
    requires vi < 5 && b in Sent(Toggle()[vi])
    ensures vi < 4 && b == Id([5, 2, 3, 4][vi])
  {
    ToggleVertices();
  }

  lemma ReadsOne(vi: nat, p: nat, b: Bit)
    requires InPorts(Toggle(), vi, p) && b in PortAt(Toggle(), vi, p)
    ensures (vi == 2 && p < 3 && b == Id([5, 4, 2][p])) || (p == 0 && (vi == 3 || vi == 4) && b == Id(3))
  {
    ToggleVertices();
  }

  lemma OnlyEdges(e: Edge)
    requires IsEdge(Toggle(), e)
    ensures e in EdgesOf(ToggleLinks())
  {
    var b := SharedBit(Toggle(), e);
    SendsOne(e.source, b);
    ReadsOne(e.target, e.port, b);
    var edges := EdgesOf(ToggleLinks());
    assert edges[0] == Edge(0, 2, 0) && edges[1] == Edge(3, 2, 1) && edges[2] == Edge(1, 2, 2);
    assert edges[3] == Edge(2, 3, 0) && edges[4] == Edge(2, 4, 0);
  }

  /** The net of every edge is the one with the bits of its source. */
  lemma NetOfSource(id: nat, k: nat)
    requires k < 4 && NetsOfToggle()[k].bits == [Id(id)]
    ensures Known(NetsOfToggle(), [Id(id)]) && FirstWith(NetsOfToggle(), [Id(id)]) == NetsOfToggle()[k]
  {
    var net := FirstWith(NetsOfToggle(), [Id(id)]);
    var j :| 0 <= j < 4 && NetsOfToggle()[j] == net;
  }

  lemma LinkAt(k: nat)
    requires k < 5
    ensures LinkOk(Toggle(), NetsOfToggle(), ToggleLinks()[k])
  {
    var d, l := Toggle(), ToggleLinks()[k];
    ToggleVertices();
    assert Sent(d[l.edge.source])[0] in ReadBits(d, l.edge);
    assert IsEdge(d, l.edge);
    NetOfSource(5, 0);
    NetOfSource(2, 1);
    NetOfSource(3, 2);
    NetOfSource(4, 3);
  }

  lemma ToggleEndsIn(d: Design, links: seq<Link>, vi: nat)
    requires vi < 5 && d == Toggle() && links == ToggleLinks()
    ensures d[vi].EdgesIn() == LinksInto(links, vi)
  {
    ToggleVertices();
    NextLink(links, 0, vi);
    NextLink(links, 1, vi);
    NextLink(links, 2, vi);
    NextLink(links, 3, vi);
    NextLink(links, 4, vi);
  }

  lemma ToggleEndsOut(d: Design, links: seq<Link>, vi: nat)
    requires vi < 5 && d == Toggle() && links == ToggleLinks()
    ensures d[vi].EdgesOut() == LinksFrom(links, vi)
  {
    ToggleVertices();
    NextLink(links, 0, vi);
    NextLink(links, 1, vi);
    NextLink(links, 2, vi);
    NextLink(links, 3, vi);
    NextLink(links, 4, vi);
  }

  lemma ToggleLinksOk(d: Design, links: seq<Link>, nets: seq<Net>)
    requires d == Toggle() && links == ToggleLinks() && nets == NetsOfToggle()
    ensures forall k :: 0 <= k < |links| ==> LinkOk(d, nets, links[k])
  {
    forall k | 0 <= k < |links|
      ensures LinkOk(d, nets, links[k])
    {
      LinkAt(k);
    }
  }

  lemma ToggleLinksDiffer(links: seq<Link>)
    requires links == ToggleLinks()
    ensures forall i, j :: 0 <= i < j < |links| ==> links[i].edge != links[j].edge
  {
  }

  lemma ToggleEdges(d: Design, links: seq<Link>)
    requires d == Toggle() && links == ToggleLinks()
    ensures forall e :: IsEdge(d, e) ==> e in EdgesOf(links)
  {
    forall e | IsEdge(d, e)
      ensures e in EdgesOf(links)
    {
      OnlyEdges(e);
    }
  }

  lemma ToggleIsGraph(d: Design, links: seq<Link>, nets: seq<Net>)
    requires d == Toggle() && links == ToggleLinks() && nets == NetsOfToggle()
    ensures IsGraph(d, links, Flat(d, nets))
  {
    ToggleLinksOk(d, links, nets);
    ToggleLinksDiffer(links);
    ToggleEdges(d, links);
    forall vi | 0 <= vi < |d|
      ensures d[vi].EdgesIn() == LinksInto(links, vi) && d[vi].EdgesOut() == LinksFrom(links, vi)
    {
      ToggleEndsIn(d, links, vi);
      ToggleEndsOut(d, links, vi);
    }
    GraphOf(d, links, nets);
  }

  // ----- well-formedness -----

  /** What each vertex drives and reads. */
  lemma DrivesOne(vi: nat, id: nat)
    requires vi < 5 && Drives(Toggle()[vi], id)
    ensures vi < 4 && id == [5, 2, 3, 4][vi]
  {
  }

  /** The vertices and the nets they touch, by position. */
  lemma ToggleVertices()
    ensures var d := Toggle();
            |d| == 5 && d[0] == Clock() && d[1] == Enable() && d[2] == Register() && d[3] == Inverter() &&
              d[4] == Output()
  {
  }

  predicate OneOf(net: Net) {
    net == Wire("clk", 5) || net == Wire("en", 2) || net == Wire("q", 3) || net == Wire("n", 4)
  }

  lemma InputNets(net: Net)
    ensures net in VertexNets(Clock()) || net in VertexNets(Enable()) || net in VertexNets(Output()) ==> OneOf(net)
  {
  }

  lemma CellNets(net: Net)
    ensures net in VertexNets(Register()) || net in VertexNets(Inverter()) ==> OneOf(net)
  {
  }

  lemma ToggleNets(net: Net)
    requires IsNet(Toggle(), net)
    ensures OneOf(net)
  {
    ToggleVertices();
    var vi :| 0 <= vi < |Toggle()| && net in VertexNets(Toggle()[vi]);
    InputNets(net);
    CellNets(net);
    assert vi == 0 || vi == 1 || vi == 2 || vi == 3 || vi == 4;
  }

  lemma ToggleNames()
    ensures ConsistentNames(Toggle()) && SingleDriver(Toggle())
  {
    var d := Toggle();
    forall m, n | IsNet(d, m) && IsNet(d, n) && m.name == n.name
      ensures m.bits == n.bits
    {
      ToggleNets(m);
      ToggleNets(n);
    }
    forall vi, vj, id | 0 <= vi < |d| && 0 <= vj < |d| && Drives(d[vi], id) && Drives(d[vj], id)
      ensures vi == vj
    {
      DrivesOne(vi, id);
      DrivesOne(vj, id);
    }
  }

  lemma ToggleLevels()
    ensures Levelled(Toggle(), LEVELS)
  {
    var d := Toggle();
    forall vi, u, p, id | 0 <= vi < |d| && 0 <= u < |d| && !d[vi].IsRegister() && !d[vi].TopInput? &&
                          HasPort(d[vi].Ins(), p) && Id(id) in PortBits(d[vi].Ins(), p) && Drives(d[u], id)
      ensures LEVELS[u] < LEVELS[vi]
    {
      DrivesOne(u, id);
      if vi == 3 {
        InverterPorts(p);
      } else {
        assert d[vi] == Output();
      }
    }
  }

  lemma TopTrivial(vi: nat, vx: Vertex)
    requires vi < 5 && vx == Toggle()[vi] && IsTop(vx)
    ensures vx.Trivial()
  {
    ToggleVertices();
    InputOk("clk", 5);
    InputOk("en", 2);
    OutputOk("q", 3);
    assert vx == Clock() || vx == Enable() || vx == Output();
  }

  lemma TopsApart(vi: nat, vj: nat)
    requires vi < 5 && vj < 5 && IsTop(Toggle()[vi]) && IsTop(Toggle()[vj]) && Toggle()[vi].name == Toggle()[vj].name
    ensures vi == vj
  {
  }

  lemma ToggleTops(d: Design)
    requires d == Toggle()
    ensures TopNames(d)
  {
    forall vi | 0 <= vi < |d| && IsTop(d[vi])
      ensures d[vi].Trivial()
    {
      TopTrivial(vi, d[vi]);
    }
    forall vi, vj | 0 <= vi < |d| && 0 <= vj < |d| && IsTop(d[vi]) && IsTop(d[vj]) && d[vi].name == d[vj].name
      ensures vi == vj
    {
      TopsApart(vi, vj);
    }
  }

  lemma ToggleOk(vi: nat, vx: Vertex)
    requires vi < 5 && vx == Toggle()[vi]
    ensures VertexOk(vx)
  {
    ToggleVertices();
    InputOk("clk", 5);
    InputOk("en", 2);
    RegisterOk();
    InverterOk();
    OutputOk("q", 3);
    assert vi == 0 || vi == 1 || vi == 2 || vi == 3 || vi == 4;
  }

  lemma ToggleDefines(d: Design)
    requires d == Toggle()
    ensures SlotDriven(d, "q", 0) && SlotDriven(d, "n", 0)
  {
    ToggleVertices();
    RegisterOk();
    InverterOk();
    assert Defines(d, 2, 0, ("q", 0));
    assert Defines(d, 3, 0, ("n", 0));
  }

  lemma ToggleInputs(d: Design)
    requires d == Toggle()
    ensures IsInput(d, "clk") && IsInput(d, "en")
  {
    assert d[0].TopInput? && d[1].TopInput?;
  }

  lemma ToggleDriven(d: Design, net: Net, j: nat)
    requires d == Toggle() && OneOf(net) && j < |net.bits|
    ensures SlotDriven(d, net.name, j)
  {
    assert j == 0;
    ToggleDefines(d);
    ToggleInputs(d);
  }

  lemma ToggleForced(d: Design, steps: nat)
    requires d == Toggle()
    ensures PositionsForced(d, steps)
  {
    forall net, j: nat | OnEdge(d, net) && j < |net.bits|
      ensures SlotDriven(d, net.name, j)
    {
      EdgesAreNets(d, net);
      ToggleNets(net);
      ToggleDriven(d, net, j);
    }
  }

  lemma AllOk(d: Design)
    requires ConsistentNames(d) && SingleDriver(d) && Levelled(d, LEVELS) && TopNames(d)
    requires forall vi :: 0 <= vi < |d| ==> VertexOk(d[vi])
    ensures WellFormed(d, LEVELS)
  {
  }

  /** The hypotheses of the unrolling theorem hold of a design with a feedback
      register, for any number of steps. */
  lemma {:induction false} ToggleIsForced(steps: nat, d: Design)
    requires d == Toggle()
    ensures IsGraph(d, ToggleLinks(), Flat(d, NetsOfToggle())) && WellFormed(d, LEVELS) && PositionsForced(d, steps)
  {
    ToggleIsGraph(d, ToggleLinks(), NetsOfToggle());
    ToggleNames();
    ToggleLevels();
    ToggleTops(d);
    forall vi | 0 <= vi < |d|
      ensures VertexOk(d[vi])
    {
      ToggleOk(vi, d[vi]);
    }
    AllOk(d);
    ToggleForced(d, steps);
  }
}
