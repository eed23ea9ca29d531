/** populate_graph: the vertices and edges of a module, built in three phases. */
module PopulateGraph {
  import opened PortExpr
  import opened ModuleGraph
  import opened SourceSelection
  import opened PopulatePhases

  class Module {
    const ports: seq<Port>
    const nets: seq<Net>
    const cells: seq<Cell>
    var vertices: seq<Vertex>
    var edges: seq<Edge>
    ghost var rank: seq<nat>

    constructor (ports: seq<Port>, nets: seq<Net>, cells: seq<Cell>)
      ensures this.ports == ports && this.nets == nets && this.cells == cells
      ensures vertices == [] && edges == [] && rank == []
    {
      this.ports, this.nets, this.cells := ports, nets, cells;
      vertices, edges, rank := [], [], [];
    }

    /** The wires of the graph have no cycle, and it is wired like its start. */
    ghost predicate Valid()
      reads this
    {
      Ranked(vertices, edges, rank)
    }

    ghost predicate Starting()
      reads this
    {
      |rank| == |vertices| && InRange(vertices, edges) &&
      (forall v :: 0 <= v < |vertices| ==> rank[v] == StartRank(vertices[v])) &&
      forall i :: 0 <= i < |edges| ==> IsPortEdge(vertices, edges[i]) || IsCellEdge(vertices, edges[i])
    }

    method AddVertex(v: Vertex) returns (id: nat)
      requires Starting()
      modifies this`vertices, this`rank
      ensures Starting()
      ensures id == |old(vertices)| && vertices == old(vertices) + [v] && rank == old(rank) + [StartRank(v)]
    {
      id := |vertices|;
      vertices := vertices + [v];
      rank := rank + [StartRank(v)];
    }

    method AddEdge(source: nat, target: nat)
      modifies this`edges
      ensures edges == old(edges) + [Edge(source, target)]
    {
      edges := edges + [Edge(source, target)];
    }

    /** The first port with the bits and the name of the net. */
    method FindPort(net: Net) returns (found: bool, port: Port)
      ensures found <==> HasPort(ports, net)
      ensures found ==> IsFirstPort(ports, net, port)
    {
      found, port := false, Port("", Unknown, []);
      for i := 0 to |ports|
        invariant forall j :: 0 <= j < i ==> !(ports[j].bits == net.bits && ports[j].name == net.name)
      {
        if ports[i].bits == net.bits && ports[i].name == net.name {
          return true, ports[i];
        }
      }
    }

    /** Joins a port net to the plain nets before it that have its bits. */
    method ConnectPortNet(v: nat) returns (status: Status)
      requires Starting() && v + 1 == |vertices| && vertices[v].PortNet?
      modifies this`edges
      ensures status != NoBits
      ensures status == CaseNotManaged <==> vertices[v].port.direction == Unknown && PlainTwin(vertices, v)
      ensures status == Done ==> Starting()
      ensures status == Done ==>
                forall e :: e in edges <==>
                  e in old(edges) || (IsPortEdge(vertices, e) && (e.source == v || e.target == v))
    {
      var direction, range := vertices[v].port.direction, Twins(vertices, v);
      var rest := range;
      while rest != {}
        invariant rest <= range && (direction == Unknown ==> rest == range)
        invariant Added(old(edges), edges, TwinEdges(v, range - rest, direction))
        decreases |rest|
      {
        var n :| n in rest;
        rest := rest - {n};
        OneMoreTwin(old(edges), edges, v, range, rest, n, direction);
        TwinIsPortEdge(vertices, v, n);
        if direction == Input {
          AddEdge(v, n);
        } else if direction == Output || direction == Inout {
          AddEdge(n, v);
        } else {
          return CaseNotManaged;
        }
      }
      assert range - rest == range;
      AllTwins(vertices, v);
      PortEdgesAdded(vertices, old(edges), edges, TwinEdges(v, range, direction));
      status := Done;
    }

    /** Phase one: all nets. */
    method AddNets() returns (status: Status)
      requires vertices == [] && edges == [] && rank == []
      modifies this
      ensures status != NoBits
      ensures status == Done ==> Starting() && |vertices| == |nets|
      ensures status == CaseNotManaged <==> exists i :: UnmanagedNet(ports, nets, i)
      ensures status == Done ==> AreNetVertices(ports, nets, vertices)
      ensures status == Done ==> forall e :: e in edges <==> IsPortEdge(vertices, e)
    {
      for i := 0 to |nets|
        invariant Starting() && |vertices| == i
        invariant AreNetVertices(ports, nets[..i], vertices)
        invariant forall e :: e in edges <==> IsPortEdge(vertices, e)
        invariant forall j :: 0 <= j < i ==> !UnmanagedNet(ports, nets, j)
      {
        var found, port := FindPort(nets[i]);
        ghost var before := vertices;
        var v := AddVertex(if found then PortNet(nets[i], port) else PlainNet(nets[i]));
        forall e: Edge
          ensures IsPortEdge(vertices, e) <==>
                  IsPortEdge(before, e) || (IsPortEdge(vertices, e) && found && (e.source == v || e.target == v))
        {
        }
        assert nets[..i + 1] == nets[..i] + [nets[i]];
        assert AreNetVertices(ports, nets[..i + 1], vertices);
        UnmanagedAt(ports, nets, vertices, v);
        if found {
          status := ConnectPortNet(v);
          if status != Done {
            return;
          }
        }
      }
      assert nets[..|nets|] == nets;
      status := Done;
    }

    /** A vertex that stands for the bits of a cell port, if there is one among the nets. */
    method FindNet(bits: seq<Bit>) returns (matches: seq<nat>)
      ensures |matches| <= 1 && forall v :: v in matches ==>
              v < |vertices| && vertices[v].IsNet() && StandsFor(vertices, v, bits)
      ensures matches == [] ==> NoNet(vertices, bits, true)
    {
      var netSignatures := set v: nat | v < |vertices| && vertices[v].PlainNet? && vertices[v].Bits() == bits;
      var portSignatures := set v: nat | v < |vertices| && vertices[v].PortNet? && vertices[v].Bits() == bits;
      matches := [];
      if netSignatures != {} {
        var v :| v in netSignatures;
        matches := [v];
      } else if portSignatures != {} {
        var v :| v in portSignatures;
        matches := [v];
        forall u | 0 <= u < |vertices| && vertices[u].PlainNet?
          ensures vertices[u].Bits() != bits
        {
          assert u !in netSignatures;
        }
      } else {
        forall u | 0 <= u < |vertices| && vertices[u].IsNet()
          ensures vertices[u].Bits() != bits
        {
          assert u !in netSignatures && u !in portSignatures;
        }
      }
    }

    /** The edge between the cell at vertex c and the vertex of one of its ports. */
    method JoinPort(c: nat, i: nat, v: nat) returns (status: Status)
      requires Starting() && DriversButFor(vertices, edges, v)
      requires c < |vertices| && vertices[c].CellVertex? && i < |vertices[c].cell.ports|
      requires StandsFor(vertices, v, vertices[c].cell.ports[i].bits)
      requires vertices[v].CellPort? ==> vertices[v].port == vertices[c].cell.ports[i]
      modifies this`edges
      ensures status != NoBits && (status == CaseNotManaged <==> vertices[c].cell.ports[i].direction == Unknown)
      ensures status == Done ==> Starting() && DriversConnected(vertices, edges)
      ensures status == Done ==> edges == old(edges) + [CellEdge(c, v, vertices[c].cell.ports[i].direction)]
    {
      var port := vertices[c].cell.ports[i];
      if port.direction == Input {
        AddEdge(v, c);
      } else if port.direction == Output || port.direction == Inout {
        AddEdge(c, v);
      } else {
        return CaseNotManaged;
      }
      assert PortOf(vertices[c].cell, vertices[v], if port.direction == Input then {Input} else {Output, Inout});
      DriversAfter(vertices, old(edges), CellEdge(c, v, port.direction), v, port.direction);
      return Done;
    }

    /** Connects one port of the cell at vertex c. */
    method ConnectPort(c: nat, i: nat) returns (status: Status)
      requires Starting() && DriversConnected(vertices, edges)
      requires c < |vertices| && vertices[c].CellVertex? && i < |vertices[c].cell.ports|
      modifies this
      ensures var port := old(vertices)[c].cell.ports[i];
              status != NoBits && (status == CaseNotManaged <==> UnmanagedPort(old(vertices), port)) &&
              (status == Done ==>
                Starting() && DriversConnected(vertices, edges) && old(edges) <= edges &&
                vertices == old(vertices) + OwnVertex(old(vertices), port) &&
                JoinedAll(vertices, edges[|old(edges)|..], JoinOf(old(vertices), c, port)))
    {
      ghost var es := edges;
      var port := vertices[c].cell.ports[i];
      var toBeConnected := FindNet(port.bits);
      if toBeConnected != [] {
        assert toBeConnected[0] in toBeConnected;
        status := JoinPort(c, i, toBeConnected[0]);
        JoinedOne(vertices, es, edges, c, toBeConnected[0], port);
      } else if port.bits != [] {
        var v := AddVertex(CellPort(port));
        status := JoinPort(c, i, v);
        JoinedOne(vertices, es, edges, c, v, port);
      } else {
        status := Done;
      }
    }

    /** A cell vertex and all its ports. */
    method AddCell(cell: Cell) returns (status: Status)
      requires Starting() && DriversConnected(vertices, edges)
      modifies this
      ensures status != NoBits && (status == CaseNotManaged <==> UnmanagedCell(old(vertices), cell, |cell.ports|))
      ensures status == Done ==> Starting() && DriversConnected(vertices, edges)
      ensures status == Done ==> WithCell(old(vertices), old(edges), vertices, edges, cell, |cell.ports|)
    {
      ghost var vs0, es0 := vertices, edges;
      var c := AddVertex(CellVertex(cell));
      for i := 0 to |cell.ports|
        invariant Starting() && DriversConnected(vertices, edges)
        invariant WithCell(vs0, es0, vertices, edges, cell, i) && !UnmanagedCell(vs0, cell, i)
      {
        ghost var vs, es := vertices, edges;
        WithCellKeepsNets(vs0, es0, vs, es, cell, i);
        SameForPort(vs0, vs, c, cell.ports[i]);
        assert vertices[c] == CellVertex(cell);
        status := ConnectPort(c, i);
        if status != Done {
          return;
        }
        PortAdded(vs0, es0, vs, es, vertices, edges, cell, i);
      }
      status := Done;
    }

    /** Phase two: all cells. */
    method AddCells() returns (status: Status)
      requires Starting() && DriversConnected(vertices, edges)
      modifies this
      ensures status != NoBits && (status == CaseNotManaged <==> UnmanagedCells(old(vertices), cells, |cells|))
      ensures status == Done ==> Starting() && DriversConnected(vertices, edges)
      ensures status == Done ==> WithCells(old(vertices), old(edges), vertices, edges, cells, |cells|)
    {
      ghost var vs0, es0 := vertices, edges;
      for n := 0 to |cells|
        invariant Starting() && DriversConnected(vertices, edges)
        invariant WithCells(vs0, es0, vertices, edges, cells, n) && !UnmanagedCells(vs0, cells, n)
      {
        ghost var vs, es := vertices, edges;
        WithCellsKeepsNets(vs0, es0, vs, es, cells, n);
        SameForCell(vs0, vs, cells[n], |cells[n].ports|);
        status := AddCell(cells[n]);
        if status != Done {
          return;
        }
        CellAdded(vs0, es0, vs, es, vertices, edges, cells, n);
      }
      status := Done;
    }

    /** Adds the edges one by one; the wires stay free of cycles throughout. */
    method AddEdges(sources: seq<nat>, t: nat)
      requires Valid() && t < |vertices| && vertices[t].CanBeDriven() && GoodSources(vertices, edges, sources, t)
      modifies this`edges, this`rank
      ensures Valid() && edges == old(edges) + EdgesTo(sources, t)
      ensures forall i :: 0 <= i < |sources| ==> IsWiring(vertices, EdgesTo(sources, t)[i])
    {
      rank := AttachKeepsRank(vertices, edges, rank, sources, t);
      assert edges + EdgesTo(sources, t)[..0] == edges;
      for i := 0 to |sources|
        invariant edges == old(edges) + EdgesTo(sources, t)[..i]
        invariant Valid()
        invariant forall n :: 0 <= n <= |sources| ==> Ranked(vertices, old(edges) + EdgesTo(sources, t)[..n], rank)
      {
        AddEdge(sources[i], t);
        assert edges == old(edges) + EdgesTo(sources, t)[..i + 1];
      }
      assert EdgesTo(sources, t)[..|sources|] == EdgesTo(sources, t);
    }

    /** One target of phase three. */
    method ConnectTarget(t: nat) returns (status: Status, ghost sources: seq<nat>)
      requires Valid() && t < |vertices| && vertices[t].CanBeDriven() && Ids(vertices[t].Bits()) != {}
      modifies this`edges, this`rank
      ensures status == Done && Valid() && edges == old(edges) + EdgesTo(sources, t)
      ensures Selected(vertices, old(edges), sources, t)
      ensures forall i :: |old(edges)| <= i < |edges| ==> edges[i].target == t && IsWiring(vertices, edges[i])
      ensures AllSettled(vertices, edges, t)
    {
      var toBeConnected;
      status, toBeConnected :=
        SelectSources(vertices, edges, PortVertices(vertices), NetVertices(vertices), CellPortVertices(vertices), t,
          rank);
      AttachSettlesAll(vertices, edges, toBeConnected, t);
      AddEdges(toBeConnected, t);
      sources := toBeConnected;
    }

    /** Phase three: every vertex that has no source yet gets its sources. */
    method ConnectRemaining() returns (status: Status, ghost chosen: seq<seq<nat>>)
      requires Valid() && DriversConnected(vertices, edges)
      modifies this`edges, this`rank
      ensures status == Done && Valid()
      ensures |chosen| == |vertices| && Wired(vertices, old(edges), edges, chosen)
    {
      ghost var start := edges;
      status, chosen := Done, [];
      for t := 0 to |vertices|
        invariant Valid() && status == Done
        invariant |chosen| == t && Wired(vertices, start, edges, chosen)
      {
        SourceFromStart(vertices, start, edges, chosen, t);
        ghost var es, sources := edges, [];
        if vertices[t].CellVertex? {
        } else if vertices[t].IsInputPort() {
        } else if exists i :: 0 <= i < |edges| && edges[i].target == t {
          assert HasSource(edges, t);
        } else if Ids(vertices[t].Bits()) == {} {
        } else {
          status, sources := ConnectTarget(t);
        }
        WiredNext(vertices, start, es, edges, chosen, sources);
        chosen := chosen + [sources];
      }
    }

    /** The whole graph. */
    method Populate() returns (status: Status, ghost phases: Phases)
      requires vertices == [] && edges == [] && rank == []
      modifies this
      ensures status != NoBits && (status == CaseNotManaged <==> Unmanaged(ports, nets, cells))
      ensures status == Done ==> Valid() && AcyclicWiring(vertices, edges)
      ensures status == Done ==> HoldsNets(vertices, ports, nets) && InputsUndriven(vertices, edges)
      ensures status == Done ==> Populated(vertices, edges, phases.seeded, rank)
      ensures status == Done ==> Phased(vertices, edges, nets, cells, phases)
    {
      phases := Phases(0, 0, []);
      status := AddNets();
      if status != Done {
        assert Unmanaged(ports, nets, cells);
        return;
      }
      ghost var vs, portEdges := vertices, edges;
      NetsDecide(ports, nets, cells, vs);
      status := AddCells();
      if status != Done {
        return;
      }
      ghost var start := edges;
      StartIsRanked(vertices, edges, rank);
      ghost var chosen;
      status, chosen := ConnectRemaining();
      phases := Phases(|portEdges|, |start|, chosen);
      ArePhases(vertices, edges, nets, cells, phases, vs, portEdges, start);
      NetsStay(ports, nets, vs, vertices, cells, portEdges, start);
      StartsPopulated(vertices, start, edges, chosen, rank);
      RankedIsAcyclic(vertices, edges, rank);
      InputsAreNotDriven(vertices, edges, phases.seeded, rank);
    }
  }
}
