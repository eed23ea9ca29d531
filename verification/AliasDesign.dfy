/** A design whose unrolled instance is not deterministic: a word w of which bit 0 is the
    input a and bit 1 the complement of the input b, reduced to the output y. The edge from
    the input carries the input's own net and the edge from the inverter carries w, because
    these are the bits that the reader asks for; so the reader uses w, whose bit 0 nothing
    drives. */
module AliasDesign {
  import opened Cells
  import opened PortExpr
  import opened Unroll
  import opened UnrollProof
  import opened Simulation
  import opened InstanceEdges
  import T = ToggleDesign

  function Word(): Net {
    Net("w", [Id(2), Id(5)])
  }

  function Complement(): Vertex {
    CellVertex(Unary(NotOp, false), [Port(A, [Id(3)])], [Id(5)], [T.Wire("b", 3)], [Word()])
  }

  function Reduction(): Vertex {
    CellVertex(Unary(ReduceAndOp, false), [Port(A, [Id(2), Id(5)])], [Id(6)], [T.Wire("a", 2), Word()],
      [T.Wire("y", 6)])
  }

  function InA(): Vertex {
    TopInput("a", [Id(2)], [T.Wire("a", 2)])
  }

  function InB(): Vertex {
    TopInput("b", [Id(3)], [T.Wire("b", 3)])
  }

  function OutY(): Vertex {
    TopOutput("y", [Id(6)], [T.Wire("y", 6)])
  }

  function Aliased(): Design {
    [InA(), InB(), Complement(), Reduction(), OutY()]
  }

  function AliasedNets(): seq<Net> {
    [T.Wire("a", 2), T.Wire("b", 3), Word(), T.Wire("y", 6)]
  }

  function AliasedLinks(): seq<Link> {
    [Link(Edge(0, 3, 0), T.Wire("a", 2)), Link(Edge(1, 2, 0), T.Wire("b", 3)),
     Link(Edge(2, 3, 0), Word()), Link(Edge(3, 4, 0), T.Wire("y", 6))]
  }

  const ALIASED_LEVELS: seq<nat> := [0, 0, 1, 2, 3]

  lemma AliasedVertices()
    ensures var d := Aliased();
            |d| == 5 && d[0] == InA() && d[1] == InB() && d[2] == Complement() && d[3] == Reduction() && d[4] == OutY()
  {
  }

  // ----- the graph -----

  lemma SendsOne(vi: nat, b: Bit)
    requires vi < 5 && b in Sent(Aliased()[vi])
    ensures vi < 4 && b == Id([2, 3, 5, 6][vi])
  {
    AliasedVertices();
  }

  lemma ReadsOne(vi: nat, p: nat, b: Bit)
    requires InPorts(Aliased(), vi, p) && b in PortAt(Aliased(), vi, p)
    ensures p == 0 && ((vi == 2 && b == Id(3)) || (vi == 3 && (b == Id(2) || b == Id(5))) || (vi == 4 && b == Id(6)))
  {
    AliasedVertices();
  }

  lemma OnlyEdges(e: Edge)
    requires IsEdge(Aliased(), e)
    ensures e in EdgesOf(AliasedLinks())
  {
    var d := Aliased();
    var b := SharedBit(d, e);
    SendsOne(e.source, b);
    ReadsOne(e.target, e.port, b);
    var edges := EdgesOf(AliasedLinks());
    assert edges[0] == Edge(0, 3, 0) && edges[1] == Edge(1, 2, 0) && edges[2] == Edge(2, 3, 0) &&
           edges[3] == Edge(3, 4, 0);
  }

  lemma Joined(d: Design, e: Edge, i: nat)
    requires e.source < |d| && InPorts(d, e.target, e.port) && i < |Sent(d[e.source])|
    requires !Sent(d[e.source])[i].IsConstant() && Sent(d[e.source])[i] in ReadBits(d, e)
    ensures IsEdge(d, e)
  {
  }

  /** The edge from the inverter has the net of its reader, every other one that of its source. */
  lemma LinkAt(k: nat)
    requires k < 4
    ensures LinkOk(Aliased(), AliasedNets(), AliasedLinks()[k])
  {
    var d, nets, l := Aliased(), AliasedNets(), AliasedLinks()[k];
    AliasedVertices();
    Joined(d, l.edge, 0);
    assert nets[0].bits == [Id(2)] && nets[1].bits == [Id(3)] && nets[2].bits == [Id(2), Id(5)] &&
           nets[3].bits == [Id(6)];
    if k == 2 {
      assert !Known(nets, [Id(5)]);
      assert nets[1..][0] == nets[1] && nets[1..][1..][0] == nets[2];
    } else {
      assert nets[1..][0] == nets[1] && nets[1..][1..][0] == nets[2] && nets[1..][1..][1..][0] == nets[3];
    }
  }

  lemma AliasedEndsIn(d: Design, links: seq<Link>, vi: nat)
    requires vi < 5 && d == Aliased() && links == AliasedLinks()
    ensures d[vi].EdgesIn() == LinksInto(links, vi)
  {
    AliasedVertices();
    NextLink(links, 0, vi);
    NextLink(links, 1, vi);
    NextLink(links, 2, vi);
    NextLink(links, 3, vi);
  }

  lemma AliasedEndsOut(d: Design, links: seq<Link>, vi: nat)
    requires vi < 5 && d == Aliased() && links == AliasedLinks()
    ensures d[vi].EdgesOut() == LinksFrom(links, vi)
  {
    AliasedVertices();
    NextLink(links, 0, vi);
    NextLink(links, 1, vi);
    NextLink(links, 2, vi);
    NextLink(links, 3, vi);
  }

  lemma AliasedLinksOk(d: Design, links: seq<Link>, nets: seq<Net>)
    requires d == Aliased() && links == AliasedLinks() && nets == AliasedNets()
    ensures forall k :: 0 <= k < |links| ==> LinkOk(d, nets, links[k])
  {
    forall k | 0 <= k < |links|
      ensures LinkOk(d, nets, links[k])
    {
      LinkAt(k);
    }
  }

  lemma AliasedLinksDiffer(links: seq<Link>)
    requires links == AliasedLinks()
    ensures forall i, j :: 0 <= i < j < |links| ==> links[i].edge != links[j].edge
  {
  }

  lemma AliasedEdges(d: Design, links: seq<Link>)
    requires d == Aliased() && links == AliasedLinks()
    ensures forall e :: IsEdge(d, e) ==> e in EdgesOf(links)
  {
    forall e | IsEdge(d, e)
      ensures e in EdgesOf(links)
    {
      OnlyEdges(e);
    }
  }

  lemma AliasedIsGraph(d: Design, links: seq<Link>, nets: seq<Net>)
    requires d == Aliased() && links == AliasedLinks() && nets == AliasedNets()
    ensures IsGraph(d, links, Flat(d, nets))
  {
    AliasedLinksOk(d, links, nets);
    AliasedLinksDiffer(links);
    AliasedEdges(d, links);
    forall vi | 0 <= vi < |d|
      ensures d[vi].EdgesIn() == LinksInto(links, vi) && d[vi].EdgesOut() == LinksFrom(links, vi)
    {
      AliasedEndsIn(d, links, vi);
      AliasedEndsOut(d, links, vi);
    }
    GraphOf(d, links, nets);
  }

  // ----- the vertices -----

  lemma OnePort(k: Kind, bits: seq<Bit>, p: PortName)
    requires HasPort([Port(A, bits)], p)
    ensures p == A && PortBits([Port(A, bits)], p) == bits
  {
  }

  lemma OnePortTyped(k: Kind, bits: seq<Bit>, w: nat)
    requires forall v: Values, wp: nat :: A in v && |v[A]| == |bits| ==> Typed(k, v, w, wp)
    ensures CellTyped(k, [Port(A, bits)], w)
  {
    var ports := [Port(A, bits)];
    assert ports[0].name == A;
    forall v: Values, wp: nat | HasWidths(ports, v)
      ensures Typed(k, v, w, wp)
    {
      assert HasPort(ports, A);
      OnePort(k, bits, A);
    }
  }

  lemma WordPieces()
    ensures Reassembled([Word()], NO_CONSTANTS, [Id(5)]) == Concat([Slice("w", 1)])
    ensures Carried([Word()], Id(5))
  {
    assert [Word()][0].bits[1] == Id(5);
    assert Carried([Word()], Id(5));
    assert Parts([Word()], NO_CONSTANTS, [Id(5)]) == Found([Word()], NO_CONSTANTS, [Id(5)][0]);
  }

  lemma ComplementOk()
    ensures VertexOk(Complement()) && Complement().OutExpr() == Concat([Slice("w", 1)])
  {
    var vx := Complement();
    WordPieces();
    OnePortTyped(vx.kind, [Id(3)], 1);
    T.SameBits(vx.inNets, 0, 3, vx.Constants());
    forall p | HasPort(vx.Ins(), p)
      ensures Readable(vx, PortBits(vx.Ins(), p))
    {
      OnePort(vx.kind, [Id(3)], p);
    }
  }

  lemma ReadsWord()
    ensures Readable(Reduction(), [Id(2), Id(5)]) && Reduction().InExpr([Id(2), Id(5)]) == Whole("w", 2)
  {
    var nets, bits := Reduction().inNets, [Id(2), Id(5)];
    assert nets[0].bits == [Id(2)] && nets[1].bits == bits && nets[1..][0] == nets[1];
    assert ExactMatch(nets, bits) == 1;
    assert !bits[0].IsConstant();
  }

  lemma ReductionOk()
    ensures VertexOk(Reduction()) && Reduction().OutExpr() == Whole("y", 1)
  {
    var vx := Reduction();
    OnePortTyped(vx.kind, [Id(2), Id(5)], 1);
    T.SameBits(vx.outNets, 0, 6, NO_CONSTANTS);
    ReadsWord();
    forall p | HasPort(vx.Ins(), p)
      ensures Readable(vx, PortBits(vx.Ins(), p))
    {
      OnePort(vx.kind, [Id(2), Id(5)], p);
    }
  }

  lemma AliasedOk(vi: nat, vx: Vertex)
    requires vi < 5 && vx == Aliased()[vi]
    ensures VertexOk(vx)
    ensures IsTop(vx) ==> vx.Trivial()
  {
    AliasedVertices();
    T.InputOk("a", 2);
    T.InputOk("b", 3);
    T.OutputOk("y", 6);
    ComplementOk();
    ReductionOk();
    assert vi == 0 || vi == 1 || vi == 2 || vi == 3 || vi == 4;
  }

  // ----- well-formedness -----

  predicate Named(net: Net) {
    net == T.Wire("a", 2) || net == T.Wire("b", 3) || net == Word() || net == T.Wire("y", 6)
  }

  lemma VertexNamed(vi: nat, net: Net)
    requires vi < 5 && net in VertexNets(Aliased()[vi])
    ensures Named(net)
  {
    AliasedVertices();
  }

  lemma AliasedNames()
    ensures ConsistentNames(Aliased())
  {
    var d := Aliased();
    forall m, n | IsNet(d, m) && IsNet(d, n) && m.name == n.name
      ensures m.bits == n.bits
    {
      var vi :| 0 <= vi < |d| && m in VertexNets(d[vi]);
      VertexNamed(vi, m);
      var vj :| 0 <= vj < |d| && n in VertexNets(d[vj]);
      VertexNamed(vj, n);
    }
  }

  lemma AliasedDrivers()
    ensures SingleDriver(Aliased()) && Levelled(Aliased(), ALIASED_LEVELS)
  {
    var d := Aliased();
    forall vi, vj, id | 0 <= vi < |d| && 0 <= vj < |d| && Drives(d[vi], id) && Drives(d[vj], id)
      ensures vi == vj
    {
      SendsOne(vi, Id(id));
      SendsOne(vj, Id(id));
    }
    forall vi, u, p, id | 0 <= vi < |d| && 0 <= u < |d| && !d[vi].IsRegister() && !d[vi].TopInput? &&
                          HasPort(d[vi].Ins(), p) && Id(id) in PortBits(d[vi].Ins(), p) && Drives(d[u], id)
      ensures ALIASED_LEVELS[u] < ALIASED_LEVELS[vi]
    {
      var k :| 0 <= k < |d[vi].Ins()| && d[vi].Ins()[k] == Port(p, PortBits(d[vi].Ins(), p));
      SendsOne(u, Id(id));
      ReadsOne(vi, k, Id(id));
    }
  }

  lemma TopsApart(vi: nat, vj: nat)
    requires vi < 5 && vj < 5 && IsTop(Aliased()[vi]) && IsTop(Aliased()[vj])
    requires Aliased()[vi].name == Aliased()[vj].name
    ensures vi == vj
  {
    AliasedVertices();
  }

  lemma AliasedTops(d: Design)
    requires d == Aliased()
    ensures TopNames(d)
  {
    forall vi | 0 <= vi < |d| && IsTop(d[vi])
      ensures d[vi].Trivial()
    {
      AliasedOk(vi, d[vi]);
    }
    forall vi, vj | 0 <= vi < |d| && 0 <= vj < |d| && IsTop(d[vi]) && IsTop(d[vj]) && d[vi].name == d[vj].name
      ensures vi == vj
    {
      TopsApart(vi, vj);
    }
  }

  lemma AliasedIsWellFormed(d: Design)
    requires d == Aliased()
    ensures WellFormed(d, ALIASED_LEVELS)
  {
    AliasedNames();
    AliasedDrivers();
    AliasedTops(d);
    forall vi | 0 <= vi < |d|
      ensures VertexOk(d[vi])
    {
      AliasedOk(vi, d[vi]);
    }
  }

  // ----- the position that is left free -----

  lemma DefinedName(d: Design, vi: nat, i: nat, s: Slot)
    requires d == Aliased() && Defines(d, vi, i, s)
    ensures s == ("w", 1) || s.0 == "y"
  {
    AliasedVertices();
    AliasedOk(vi, d[vi]);
    ComplementOk();
    ReductionOk();
  }

  lemma WordUndriven(d: Design)
    requires d == Aliased()
    ensures !SlotDriven(d, "w", 0) && OnEdge(d, Word())
  {
    forall vi: nat, i: nat | Defines(d, vi, i, ("w", 0))
      ensures false
    {
      DefinedName(d, vi, i, ("w", 0));
    }
    AliasedVertices();
    assert Word() in d[2].EdgesOut();
  }

  lemma NotRegistered(d: Design, b: Bit)
    requires d == Aliased()
    ensures !RegisterBit(d, b)
  {
    AliasedVertices();
  }

  /** The graph that is built for this module meets all hypotheses, but nothing ties w to
      the input, whatever the number of steps. */
  lemma {:induction false} AliasIsFree(steps: nat, d: Design)
    requires steps > 0 && d == Aliased()
    ensures IsGraph(d, AliasedLinks(), Flat(d, AliasedNets())) && WellFormed(d, ALIASED_LEVELS)
    ensures d[3].InExpr(d[3].ins[0].bits) == Whole("w", 2) && !Deterministic(d, steps)
  {
    AliasedIsGraph(d, AliasedLinks(), AliasedNets());
    AliasedIsWellFormed(d);
    ReadsWord();
    WordUndriven(d);
    NotRegistered(d, Word().bits[0]);
    assert !PositionsForced(d, steps);
    DeterministicIff(d, ALIASED_LEVELS, steps);
  }
}
