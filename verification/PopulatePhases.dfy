/** What the three phases of populate_graph establish. */
module PopulatePhases {
  import opened PortExpr
  import opened ModuleGraph
  import opened SourceSelection

  /** Phase one joins a module port to the plain nets seen before it with its bits. */
  predicate IsPortEdge(vs: seq<Vertex>, e: Edge) {
    e.source < |vs| && e.target < |vs| && vs[e.source].Bits() == vs[e.target].Bits() &&
    ((vs[e.source].IsInputPort() && vs[e.target].PlainNet? && e.target < e.source) ||
     (vs[e.target].PortNet? && vs[e.target].port.direction in {Output, Inout} && vs[e.source].PlainNet? &&
       e.source < e.target))
  }

  /** Phase two joins a cell to the vertex of one of its ports. */
  predicate IsCellEdge(vs: seq<Vertex>, e: Edge) {
    e.source < |vs| && e.target < |vs| &&
    ((vs[e.target].CellVertex? && !vs[e.source].CellVertex? && PortOf(vs[e.target].cell, vs[e.source], {Input})) ||
     (vs[e.source].CellVertex? && !vs[e.target].CellVertex? &&
       PortOf(vs[e.source].cell, vs[e.target], {Output, Inout})))
  }

  /** v stands for a port of the cell in one of the directions. */
  predicate PortOf(cell: Cell, v: Vertex, directions: set<Direction>) {
    exists i :: 0 <= i < |cell.ports| && cell.ports[i].bits == v.Bits() && cell.ports[i].direction in directions &&
                (v.CellPort? ==> v.port == cell.ports[i])
  }

  /** A plain net stands for the bits of a cell port, failing that a port net, failing
      that a vertex of its own. */
  predicate StandsFor(vs: seq<Vertex>, v: nat, bits: seq<Bit>) {
    v < |vs| && vs[v].Bits() == bits && !vs[v].CellVertex? &&
    (vs[v].PortNet? || vs[v].CellPort? ==> NoNet(vs, bits, vs[v].CellPort?))
  }

  predicate NoNet(vs: seq<Vertex>, bits: seq<Bit>, orPortNet: bool) {
    forall u :: 0 <= u < |vs| && (vs[u].PlainNet? || (orPortNet && vs[u].PortNet?)) ==> vs[u].Bits() != bits
  }

  function CellEdge(c: nat, v: nat, direction: Direction): Edge {
    if direction == Input then Edge(v, c) else Edge(c, v)
  }

  predicate HasSource(es: seq<Edge>, t: nat) {
    exists i :: 0 <= i < |es| && es[i].target == t
  }

  /** Cell ports that are not inputs are driven by their cell. */
  predicate DriversConnected(vs: seq<Vertex>, es: seq<Edge>) {
    forall v :: 0 <= v < |vs| && vs[v].CellPort? && vs[v].port.direction != Input ==> HasSource(es, v)
  }

  predicate DriversButFor(vs: seq<Vertex>, es: seq<Edge>, except: nat) {
    forall v :: 0 <= v < |vs| && v != except && vs[v].CellPort? && vs[v].port.direction != Input ==> HasSource(es, v)
  }

  lemma DriversAfter(vs: seq<Vertex>, es: seq<Edge>, e: Edge, v: nat, direction: Direction)
    requires DriversButFor(vs, es, v) && v < |vs|
    requires direction != Input ==> e.target == v
    requires vs[v].CellPort? ==> vs[v].port.direction == direction || HasSource(es, v)
    ensures DriversConnected(vs, es + [e])
  {
    var fs := es + [e];
    forall u | 0 <= u < |vs| && vs[u].CellPort? && vs[u].port.direction != Input
      ensures HasSource(fs, u)
    {
      if HasSource(es, u) {
        var k :| 0 <= k < |es| && es[k].target == u;
        assert fs[k].target == u;
      } else {
        assert fs[|es|].target == u;
      }
    }
  }

  /** Phase three leaves a vertex alone. */
  predicate LeftAlone(vs: seq<Vertex>, es: seq<Edge>, t: nat)
    requires t < |vs|
  {
    vs[t].CellVertex? || vs[t].IsInputPort() || HasSource(es, t) || Ids(vs[t].Bits()) == {}
  }

  ghost predicate Driven(vs: seq<Vertex>, es: seq<Edge>, t: nat, b: nat) {
    exists s: nat :: s < |vs| && Edge(s, t) in es && b in Ids(vs[s].Bits())
  }

  /** A bit of a target is carried by a connected source, or every other vertex that
      could drive it is itself reachable from the target. */
  ghost predicate Settled(vs: seq<Vertex>, es: seq<Edge>, t: nat, b: nat) {
    Driven(vs, es, t, b) ||
    forall s: nat :: s < |vs| && s != t && vs[s].CanDrive() && b in Ids(vs[s].Bits()) ==> NetReach(vs, es, t, s)
  }

  ghost predicate AllSettled(vs: seq<Vertex>, es: seq<Edge>, t: nat)
    requires t < |vs|
  {
    forall b :: b in Ids(vs[t].Bits()) ==> Settled(vs, es, t, b)
  }

  lemma SettledGrows(vs: seq<Vertex>, es: seq<Edge>, fs: seq<Edge>, t: nat, b: nat)
    requires Settled(vs, es, t, b) && forall e :: e in es ==> e in fs
    ensures Settled(vs, fs, t, b)
  {
    if Driven(vs, es, t, b) {
      var s: nat :| s < |vs| && Edge(s, t) in es && b in Ids(vs[s].Bits());
      assert Edge(s, t) in fs;
    } else {
      forall s: nat | s < |vs| && s != t && vs[s].CanDrive() && b in Ids(vs[s].Bits())
        ensures NetReach(vs, fs, t, s)
      {
        ReachGrows(vs, es, fs, t, s);
      }
    }
  }

  /** An edge of phase three: a source with a bit of the target. */
  ghost predicate IsWiring(vs: seq<Vertex>, e: Edge) {
    IsWire(vs, e) && vs[e.source].CanDrive() && vs[e.target].CanBeDriven() && Shares(vs, e.source, e.target)
  }

  /** What the three phases leave behind: the first `seeded` edges are those of the
      first two, all others are wires to vertices that had no source, and whatever had
      none is settled. */
  ghost predicate Populated(vs: seq<Vertex>, es: seq<Edge>, seeded: nat, rank: seq<nat>) {
    Ranked(vs, es, rank) && seeded <= |es| && DriversConnected(vs, es[..seeded]) &&
    (forall i :: 0 <= i < seeded ==> IsPortEdge(vs, es[i]) || IsCellEdge(vs, es[i])) &&
    (forall e :: IsPortEdge(vs, e) ==> e in es[..seeded]) &&
    (forall i :: seeded <= i < |es| ==> IsWiring(vs, es[i]) && !LeftAlone(vs, es[..seeded], es[i].target)) &&
    forall t :: 0 <= t < |vs| ==> LeftAlone(vs, es[..seeded], t) || AllSettled(vs, es, t)
  }

  function EdgesTo(sources: seq<nat>, t: nat): (es: seq<Edge>)
    ensures |es| == |sources| && forall i :: 0 <= i < |es| ==> es[i] == Edge(sources[i], t)
  {
    seq(|sources|, i requires 0 <= i < |sources| => Edge(sources[i], t))
  }

  /** Ranks before phase three: module inputs, plain nets, other module ports. */
  function StartRank(v: Vertex): nat {
    if v.PlainNet? then 1 else if v.PortNet? && v.port.direction != Input then 2 else 0
  }

  lemma StartIsRanked(vs: seq<Vertex>, es: seq<Edge>, rank: seq<nat>)
    requires |rank| == |vs| && InRange(vs, es)
    requires forall v :: 0 <= v < |vs| ==> rank[v] == StartRank(vs[v])
    requires forall i :: 0 <= i < |es| ==> IsPortEdge(vs, es[i]) || IsCellEdge(vs, es[i])
    ensures Ranked(vs, es, rank)
  {
  }

  /** Attaching good sources settles the target. */
  lemma AttachSettles(vs: seq<Vertex>, es: seq<Edge>, sources: seq<nat>, t: nat, pools: set<nat>, b: nat)
    requires t < |vs| && (forall s :: 0 <= s < |vs| && !vs[s].CellVertex? ==> s in pools)
    requires SourceSelection.Carried(vs, sources, b) || NoneCarries(vs, es, pools, t, b)
    ensures Settled(vs, es + EdgesTo(sources, t), t, b)
  {
    var fs := es + EdgesTo(sources, t);
    if SourceSelection.Carried(vs, sources, b) {
      var i :| 0 <= i < |sources| && sources[i] < |vs| && b in Ids(vs[sources[i]].Bits());
      assert fs[|es| + i] == Edge(sources[i], t);
    } else {
      forall s: nat | s < |vs| && s != t && vs[s].CanDrive() && b in Ids(vs[s].Bits())
        ensures NetReach(vs, fs, t, s)
      {
        assert !Eligible(vs, es, s, t);
        ReachGrows(vs, es, fs, t, s);
      }
    }
  }

  lemma AttachSettlesAll(vs: seq<Vertex>, es: seq<Edge>, sources: seq<nat>, t: nat)
    requires t < |vs|
    requires forall b :: b in Ids(vs[t].Bits()) ==>
               SourceSelection.Carried(vs, sources, b) ||
                 NoneCarries(vs, es, PortVertices(vs) + NetVertices(vs) + CellPortVertices(vs), t, b)
    ensures AllSettled(vs, es + EdgesTo(sources, t), t)
  {
    var pools := PortVertices(vs) + NetVertices(vs) + CellPortVertices(vs);
    PoolsAre(vs);
    forall b | b in Ids(vs[t].Bits())
      ensures Settled(vs, es + EdgesTo(sources, t), t, b)
    {
      AttachSettles(vs, es, sources, t, pools, b);
    }
  }

  /** Attaching good sources keeps the wires free of cycles, all at once. */
  lemma AttachKeepsRank(vs: seq<Vertex>, es: seq<Edge>, rank: seq<nat>, sources: seq<nat>, t: nat)
    returns (raised: seq<nat>)
    requires Ranked(vs, es, rank) && t < |vs| && vs[t].CanBeDriven() && GoodSources(vs, es, sources, t)
    ensures forall n :: 0 <= n <= |sources| ==> Ranked(vs, es + EdgesTo(sources, t)[..n], raised)
    ensures forall i :: 0 <= i < |sources| ==> IsWiring(vs, EdgesTo(sources, t)[i])
  {
    raised := Raise(vs, es, rank, t);
    var added := EdgesTo(sources, t);
    forall i | 0 <= i < |sources|
      ensures raised[sources[i]] < raised[t] && IsWiring(vs, added[i])
    {
      assert Eligible(vs, es, sources[i], t) && Shares(vs, sources[i], t);
    }
  }

  // ----- the vertices, and when a module is not managed -----

  ghost predicate HasPort(ports: seq<Port>, net: Net) {
    exists i :: 0 <= i < |ports| && ports[i].bits == net.bits && ports[i].name == net.name
  }

  /** The first port with the bits and the name of the net. */
  ghost predicate IsFirstPort(ports: seq<Port>, net: Net, port: Port) {
    exists i ::
      0 <= i < |ports| && port == ports[i] && port.bits == net.bits && port.name == net.name &&
      forall j :: 0 <= j < i ==> !(ports[j].bits == net.bits && ports[j].name == net.name)
  }

  /** A net is a port net when some port has its bits and its name, and holds the first such port. */
  ghost predicate IsNetVertex(ports: seq<Port>, net: Net, v: Vertex) {
    v.IsNet() && v.net == net && (v.PortNet? <==> HasPort(ports, net)) &&
    (v.PortNet? ==> IsFirstPort(ports, net, v.port))
  }

  ghost predicate AreNetVertices(ports: seq<Port>, nets: seq<Net>, vs: seq<Vertex>) {
    |nets| <= |vs| && forall i :: 0 <= i < |nets| ==> IsNetVertex(ports, nets[i], vs[i])
  }

  /** A port net without a direction, after a plain net with its bits. */
  ghost predicate UnmanagedNet(ports: seq<Port>, nets: seq<Net>, i: nat) {
    i < |nets| && (exists port :: IsFirstPort(ports, nets[i], port) && port.direction == Unknown) &&
    exists j :: 0 <= j < i && !HasPort(ports, nets[j]) && nets[j].bits == nets[i].bits
  }

  lemma FirstPortUnique(ports: seq<Port>, net: Net, port: Port, other: Port)
    requires IsFirstPort(ports, net, port) && IsFirstPort(ports, net, other)
    ensures port == other
  {
  }

  /** What ConnectPortNet looks at. */
  lemma UnmanagedAt(ports: seq<Port>, nets: seq<Net>, vs: seq<Vertex>, v: nat)
    requires |vs| == v + 1 <= |nets| && AreNetVertices(ports, nets[..v + 1], vs)
    ensures UnmanagedNet(ports, nets, v) <==>
            vs[v].PortNet? && vs[v].port.direction == Unknown && PlainTwin(vs, v)
  {
    forall i | 0 <= i <= v
      ensures IsNetVertex(ports, nets[i], vs[i])
    {
      assert nets[..v + 1][i] == nets[i];
    }
    if UnmanagedNet(ports, nets, v) {
      var port :| IsFirstPort(ports, nets[v], port) && port.direction == Unknown;
      FirstPortUnique(ports, nets[v], port, vs[v].port);
      var j :| 0 <= j < v && !HasPort(ports, nets[j]) && nets[j].bits == nets[v].bits;
      assert vs[j].PlainNet? && vs[j].Bits() == vs[v].Bits();
    }
    if vs[v].PortNet? && PlainTwin(vs, v) {
      var j :| 0 <= j < v && vs[j].PlainNet? && vs[j].Bits() == vs[v].Bits();
      assert !HasPort(ports, nets[j]) && nets[j].bits == nets[v].bits;
    }
  }

  ghost predicate PlainTwin(vs: seq<Vertex>, v: nat)
    requires v < |vs|
  {
    exists n :: 0 <= n < v && vs[n].PlainNet? && vs[n].Bits() == vs[v].Bits()
  }

  /** The plain nets before v with its bits. */
  function Twins(vs: seq<Vertex>, v: nat): set<nat>
    requires v < |vs|
  {
    set n: nat | n < v && vs[n].PlainNet? && vs[n].Bits() == vs[v].Bits()
  }

  function TwinEdge(v: nat, n: nat, direction: Direction): Edge {
    if direction == Input then Edge(v, n) else Edge(n, v)
  }

  function TwinEdges(v: nat, twins: set<nat>, direction: Direction): set<Edge> {
    set n | n in twins :: TwinEdge(v, n, direction)
  }

  /** The edges es' are those of es and the added ones. */
  ghost predicate Added(es: seq<Edge>, es': seq<Edge>, added: set<Edge>) {
    forall e :: e in es' <==> e in es || e in added
  }

  lemma OneMoreTwin(es: seq<Edge>, es': seq<Edge>, v: nat, range: set<nat>, rest: set<nat>, n: nat,
                    direction: Direction)
    requires n in range && n !in rest && Added(es, es', TwinEdges(v, range - (rest + {n}), direction))
    ensures Added(es, es' + [TwinEdge(v, n, direction)], TwinEdges(v, range - rest, direction))
  {
    assert range - rest == (range - (rest + {n})) + {n};
  }

  lemma PortEdgesAdded(vs: seq<Vertex>, es: seq<Edge>, es': seq<Edge>, added: set<Edge>)
    requires Added(es, es', added) && forall e :: e in added ==> IsPortEdge(vs, e)
    requires InRange(vs, es) && forall i :: 0 <= i < |es| ==> IsPortEdge(vs, es[i]) || IsCellEdge(vs, es[i])
    ensures InRange(vs, es') && forall i :: 0 <= i < |es'| ==> IsPortEdge(vs, es'[i]) || IsCellEdge(vs, es'[i])
  {
    forall i | 0 <= i < |es'|
      ensures IsPortEdge(vs, es'[i]) || IsCellEdge(vs, es'[i])
    {
      assert es'[i] in es';
    }
  }

  lemma TwinIsPortEdge(vs: seq<Vertex>, v: nat, n: nat)
    requires v < |vs| && vs[v].PortNet? && n in Twins(vs, v)
    ensures PlainTwin(vs, v)
    ensures vs[v].port.direction != Unknown ==> IsPortEdge(vs, TwinEdge(v, n, vs[v].port.direction))
  {
    assert n < v && vs[n].PlainNet? && vs[n].Bits() == vs[v].Bits();
  }

  lemma AllTwins(vs: seq<Vertex>, v: nat)
    requires |vs| == v + 1 && vs[v].PortNet?
    ensures Twins(vs, v) == {} <==> !PlainTwin(vs, v)
    ensures vs[v].port.direction != Unknown || !PlainTwin(vs, v) ==>
              forall e :: e in TwinEdges(v, Twins(vs, v), vs[v].port.direction) <==>
                IsPortEdge(vs, e) && (e.source == v || e.target == v)
  {
    if PlainTwin(vs, v) {
      var n :| 0 <= n < v && vs[n].PlainNet? && vs[n].Bits() == vs[v].Bits();
      assert n in Twins(vs, v);
    } else {
      forall n | n in Twins(vs, v)
        ensures false
      {
        TwinIsPortEdge(vs, v, n);
      }
      assert Twins(vs, v) == {};
    }
    if vs[v].port.direction != Unknown || !PlainTwin(vs, v) {
      forall e
        ensures e in TwinEdges(v, Twins(vs, v), vs[v].port.direction) <==>
                IsPortEdge(vs, e) && (e.source == v || e.target == v)
      {
        TwinOrNot(vs, v, e);
      }
    }
  }

  lemma TwinOrNot(vs: seq<Vertex>, v: nat, e: Edge)
    requires |vs| == v + 1 && vs[v].PortNet? && (vs[v].port.direction != Unknown || Twins(vs, v) == {})
    ensures e in TwinEdges(v, Twins(vs, v), vs[v].port.direction) <==>
            IsPortEdge(vs, e) && (e.source == v || e.target == v)
  {
    if e in TwinEdges(v, Twins(vs, v), vs[v].port.direction) {
      var n :| n in Twins(vs, v) && e == TwinEdge(v, n, vs[v].port.direction);
      TwinIsPortEdge(vs, v, n);
    }
    if IsPortEdge(vs, e) && (e.source == v || e.target == v) {
      var n := if e.source == v then e.target else e.source;
      assert n in Twins(vs, v);
      assert e == TwinEdge(v, n, vs[v].port.direction);
    }
  }

  /** A cell port without a direction that has to be joined to something. */
  predicate UnmanagedPort(vs: seq<Vertex>, port: Port) {
    port.direction == Unknown && !(port.bits == [] && NoNet(vs, [], true))
  }

  ghost predicate UnmanagedCell(vs: seq<Vertex>, cell: Cell, n: nat) {
    exists i :: 0 <= i < n && i < |cell.ports| && UnmanagedPort(vs, cell.ports[i])
  }

  ghost predicate UnmanagedCells(vs: seq<Vertex>, cells: seq<Cell>, n: nat) {
    exists c :: 0 <= c < n && c < |cells| && UnmanagedCell(vs, cells[c], |cells[c].ports|)
  }

  /** The vertices that a cell port adds: one of its own when no net has its bits. */
  function OwnVertex(vs: seq<Vertex>, port: Port): seq<Vertex> {
    if port.bits != [] && NoNet(vs, port.bits, true) then [CellPort(port)] else []
  }

  function OwnVertices(vs: seq<Vertex>, ports: seq<Port>, n: nat): seq<Vertex>
    requires n <= |ports|
  {
    if n == 0 then [] else OwnVertices(vs, ports, n - 1) + OwnVertex(vs, ports[n - 1])
  }

  function CellVertices(vs: seq<Vertex>, cells: seq<Cell>, n: nat): seq<Vertex>
    requires n <= |cells|
  {
    if n == 0 then []
    else CellVertices(vs, cells, n - 1) + [CellVertex(cells[n - 1])] +
         OwnVertices(vs, cells[n - 1].ports, |cells[n - 1].ports|)
  }

  /** The same nets. */
  predicate SameNets(vs: seq<Vertex>, vs': seq<Vertex>) {
    vs <= vs' && forall u :: |vs| <= u < |vs'| ==> !vs'[u].IsNet()
  }

  lemma SameNetsNoNet(vs: seq<Vertex>, vs': seq<Vertex>, bits: seq<Bit>)
    requires SameNets(vs, vs')
    ensures NoNet(vs, bits, true) <==> NoNet(vs', bits, true)
  {
    if NoNet(vs', bits, true) {
      forall u | 0 <= u < |vs| && vs[u].IsNet()
        ensures vs[u].Bits() != bits
      {
        assert vs'[u] == vs[u];
      }
    }
  }

  /** Phase two joins a cell port to the vertex of its cell. */
  datatype Join = Join(cell: nat, port: Port)

  /** A port without bits and without a net is not joined. */
  function JoinOf(vs: seq<Vertex>, c: nat, port: Port): seq<Join> {
    if port.bits == [] && NoNet(vs, [], true) then [] else [Join(c, port)]
  }

  function JoinsOf(vs: seq<Vertex>, c: nat, ports: seq<Port>, n: nat): seq<Join>
    requires n <= |ports|
  {
    if n == 0 then [] else JoinsOf(vs, c, ports, n - 1) + JoinOf(vs, c, ports[n - 1])
  }

  function AllJoins(vs: seq<Vertex>, cells: seq<Cell>, n: nat): seq<Join>
    requires n <= |cells|
  {
    if n == 0 then []
    else AllJoins(vs, cells, n - 1) +
         JoinsOf(vs, |vs| + |CellVertices(vs, cells, n - 1)|, cells[n - 1].ports, |cells[n - 1].ports|)
  }

  /** The edge is that of the join. */
  ghost predicate Joins(vs: seq<Vertex>, e: Edge, j: Join) {
    exists v: nat :: StandsFor(vs, v, j.port.bits) && e == CellEdge(j.cell, v, j.port.direction)
  }

  /** One edge for every join, in order. */
  ghost predicate JoinedAll(vs: seq<Vertex>, es: seq<Edge>, joins: seq<Join>) {
    |es| == |joins| && forall k :: 0 <= k < |es| ==> Joins(vs, es[k], joins[k])
  }

  /** The graph with the first i ports of one more cell. */
  ghost predicate WithCell(vs0: seq<Vertex>, es0: seq<Edge>, vs: seq<Vertex>, es: seq<Edge>, cell: Cell, i: nat) {
    i <= |cell.ports| && es0 <= es && vs == vs0 + [CellVertex(cell)] + OwnVertices(vs0, cell.ports, i) &&
    JoinedAll(vs, es[|es0|..], JoinsOf(vs0, |vs0|, cell.ports, i))
  }

  /** The graph with the first n cells. */
  ghost predicate WithCells(vs0: seq<Vertex>, es0: seq<Edge>, vs: seq<Vertex>, es: seq<Edge>, cells: seq<Cell>,
                            n: nat)
  {
    n <= |cells| && es0 <= es && vs == vs0 + CellVertices(vs0, cells, n) &&
    JoinedAll(vs, es[|es0|..], AllJoins(vs0, cells, n))
  }

  lemma JoinedGrows(vs: seq<Vertex>, vs': seq<Vertex>, es: seq<Edge>, joins: seq<Join>)
    requires SameNets(vs, vs') && JoinedAll(vs, es, joins)
    ensures JoinedAll(vs', es, joins)
  {
    forall k | 0 <= k < |es|
      ensures Joins(vs', es[k], joins[k])
    {
      assert Joins(vs, es[k], joins[k]);
      var port := joins[k].port;
      var v: nat :| StandsFor(vs, v, port.bits) && es[k] == CellEdge(joins[k].cell, v, port.direction);
      assert StandsFor(vs', v, port.bits);
    }
  }

  lemma JoinedAppend(vs: seq<Vertex>, es0: seq<Edge>, es: seq<Edge>, es': seq<Edge>, joins: seq<Join>, more: seq<Join>)
    requires es0 <= es <= es' && JoinedAll(vs, es[|es0|..], joins) && JoinedAll(vs, es'[|es|..], more)
    ensures JoinedAll(vs, es'[|es0|..], joins + more)
  {
    assert es'[|es0|..] == es[|es0|..] + es'[|es|..];
  }

  lemma OwnIsNoNet(vs: seq<Vertex>, ports: seq<Port>, n: nat)
    requires n <= |ports|
    ensures forall v :: v in OwnVertices(vs, ports, n) ==> !v.IsNet()
  {
  }

  lemma {:induction false} CellVerticesAreNoNets(vs: seq<Vertex>, cells: seq<Cell>, n: nat)
    requires n <= |cells|
    ensures forall v :: v in CellVertices(vs, cells, n) ==> !v.IsNet()
  {
    if n > 0 {
      CellVerticesAreNoNets(vs, cells, n - 1);
      OwnIsNoNet(vs, cells[n - 1].ports, |cells[n - 1].ports|);
    }
  }

  lemma MoreNoNets(vs: seq<Vertex>, more: seq<Vertex>)
    requires forall v :: v in more ==> !v.IsNet()
    ensures SameNets(vs, vs + more)
  {
    forall u | |vs| <= u < |vs + more|
      ensures !(vs + more)[u].IsNet()
    {
      assert (vs + more)[u] == more[u - |vs|];
    }
  }

  lemma WithCellKeepsNets(vs0: seq<Vertex>, es0: seq<Edge>, vs: seq<Vertex>, es: seq<Edge>, cell: Cell, i: nat)
    requires WithCell(vs0, es0, vs, es, cell, i)
    ensures SameNets(vs0, vs)
  {
    OwnIsNoNet(vs0, cell.ports, i);
    assert vs == vs0 + ([CellVertex(cell)] + OwnVertices(vs0, cell.ports, i));
    MoreNoNets(vs0, [CellVertex(cell)] + OwnVertices(vs0, cell.ports, i));
  }

  lemma WithCellsKeepsNets(vs0: seq<Vertex>, es0: seq<Edge>, vs: seq<Vertex>, es: seq<Edge>, cells: seq<Cell>, n: nat)
    requires WithCells(vs0, es0, vs, es, cells, n)
    ensures SameNets(vs0, vs)
  {
    CellVerticesAreNoNets(vs0, cells, n);
    MoreNoNets(vs0, CellVertices(vs0, cells, n));
  }

  lemma SameForPort(vs: seq<Vertex>, vs': seq<Vertex>, c: nat, port: Port)
    requires SameNets(vs, vs')
    ensures OwnVertex(vs', port) == OwnVertex(vs, port) && JoinOf(vs', c, port) == JoinOf(vs, c, port)
    ensures UnmanagedPort(vs', port) <==> UnmanagedPort(vs, port)
  {
    SameNetsNoNet(vs, vs', port.bits);
    SameNetsNoNet(vs, vs', []);
  }

  lemma {:induction false} SameForPorts(vs: seq<Vertex>, vs': seq<Vertex>, c: nat, ports: seq<Port>, n: nat)
    requires SameNets(vs, vs') && n <= |ports|
    ensures OwnVertices(vs', ports, n) == OwnVertices(vs, ports, n)
    ensures JoinsOf(vs', c, ports, n) == JoinsOf(vs, c, ports, n)
  {
    if n > 0 {
      SameForPorts(vs, vs', c, ports, n - 1);
      SameForPort(vs, vs', c, ports[n - 1]);
    }
  }

  lemma SameForCell(vs: seq<Vertex>, vs': seq<Vertex>, cell: Cell, n: nat)
    requires SameNets(vs, vs')
    ensures UnmanagedCell(vs', cell, n) <==> UnmanagedCell(vs, cell, n)
  {
    forall i | 0 <= i < |cell.ports|
      ensures UnmanagedPort(vs', cell.ports[i]) <==> UnmanagedPort(vs, cell.ports[i])
    {
      SameForPort(vs, vs', 0, cell.ports[i]);
    }
  }

  lemma JoinedOne(vs: seq<Vertex>, es: seq<Edge>, es': seq<Edge>, c: nat, v: nat, port: Port)
    requires StandsFor(vs, v, port.bits)
    ensures es' == es + [CellEdge(c, v, port.direction)] ==> JoinedAll(vs, es'[|es|..], [Join(c, port)])
  {
    assert Joins(vs, CellEdge(c, v, port.direction), Join(c, port));
  }

  /** One more port of the cell. */
  lemma PortAdded(vs0: seq<Vertex>, es0: seq<Edge>, vs: seq<Vertex>, es: seq<Edge>, vs': seq<Vertex>, es': seq<Edge>,
                  cell: Cell, i: nat)
    requires WithCell(vs0, es0, vs, es, cell, i) && i < |cell.ports|
    requires vs' == vs + OwnVertex(vs, cell.ports[i]) && es <= es'
    requires JoinedAll(vs', es'[|es|..], JoinOf(vs, |vs0|, cell.ports[i]))
    ensures WithCell(vs0, es0, vs', es', cell, i + 1)
  {
    WithCellKeepsNets(vs0, es0, vs, es, cell, i);
    SameForPort(vs0, vs, |vs0|, cell.ports[i]);
    MoreNoNets(vs, OwnVertex(vs, cell.ports[i]));
    JoinedGrows(vs, vs', es[|es0|..], JoinsOf(vs0, |vs0|, cell.ports, i));
    JoinedAppend(vs', es0, es, es', JoinsOf(vs0, |vs0|, cell.ports, i), JoinOf(vs, |vs0|, cell.ports[i]));
  }

  /** One more cell. */
  lemma CellAdded(vs0: seq<Vertex>, es0: seq<Edge>, vs: seq<Vertex>, es: seq<Edge>, vs': seq<Vertex>, es': seq<Edge>,
                  cells: seq<Cell>, n: nat)
    requires WithCells(vs0, es0, vs, es, cells, n) && n < |cells|
    requires WithCell(vs, es, vs', es', cells[n], |cells[n].ports|)
    ensures WithCells(vs0, es0, vs', es', cells, n + 1)
  {
    var ports := cells[n].ports;
    WithCellsKeepsNets(vs0, es0, vs, es, cells, n);
    WithCellKeepsNets(vs, es, vs', es', cells[n], |ports|);
    SameForPorts(vs0, vs, |vs|, ports, |ports|);
    JoinedGrows(vs, vs', es[|es0|..], AllJoins(vs0, cells, n));
    JoinedAppend(vs', es0, es, es', AllJoins(vs0, cells, n), JoinsOf(vs, |vs|, ports, |ports|));
  }

  /** The sources that phase three gives to every vertex, and the wires they amount to. */
  function WiresOf(chosen: seq<seq<nat>>): seq<Edge> {
    if chosen == [] then []
    else WiresOf(chosen[..|chosen| - 1]) + EdgesTo(chosen[|chosen| - 1], |chosen| - 1)
  }

  ghost predicate ChosenAt(vs: seq<Vertex>, start: seq<Edge>, chosen: seq<seq<nat>>, t: nat)
    requires t < |chosen| <= |vs|
  {
    if LeftAlone(vs, start, t) then chosen[t] == []
    else Selected(vs, start + WiresOf(chosen[..t]), chosen[t], t)
  }

  ghost predicate AllChosen(vs: seq<Vertex>, start: seq<Edge>, chosen: seq<seq<nat>>) {
    |chosen| <= |vs| && forall t :: 0 <= t < |chosen| ==> ChosenAt(vs, start, chosen, t)
  }

  lemma ChosenNext(vs: seq<Vertex>, start: seq<Edge>, chosen: seq<seq<nat>>, sources: seq<nat>)
    requires AllChosen(vs, start, chosen) && |chosen| < |vs|
    requires if LeftAlone(vs, start, |chosen|) then sources == []
             else Selected(vs, start + WiresOf(chosen), sources, |chosen|)
    ensures AllChosen(vs, start, chosen + [sources])
    ensures WiresOf(chosen + [sources]) == WiresOf(chosen) + EdgesTo(sources, |chosen|)
  {
    var more := chosen + [sources];
    assert more[..|chosen|] == chosen;
    forall t | 0 <= t < |more|
      ensures ChosenAt(vs, start, more, t)
    {
      if t < |chosen| {
        assert ChosenAt(vs, start, chosen, t);
        assert more[..t] == chosen[..t];
      }
    }
  }

  /** The start of phase three together with the wires of the vertices seen so far. */
  ghost predicate Wired(vs: seq<Vertex>, start: seq<Edge>, es: seq<Edge>, chosen: seq<seq<nat>>) {
    AllChosen(vs, start, chosen) && es == start + WiresOf(chosen) &&
    (forall i :: |start| <= i < |es| ==> IsNewWire(vs, start, es[i], |chosen|)) &&
    forall u :: 0 <= u < |chosen| ==> LeftAlone(vs, start, u) || AllSettled(vs, es, u)
  }

  /** A wire to a vertex that had no source. */
  ghost predicate IsNewWire(vs: seq<Vertex>, start: seq<Edge>, e: Edge, n: nat) {
    IsWiring(vs, e) && e.target < n && !LeftAlone(vs, start, e.target)
  }

  lemma SourceFromStart(vs: seq<Vertex>, start: seq<Edge>, es: seq<Edge>, chosen: seq<seq<nat>>, t: nat)
    requires Wired(vs, start, es, chosen) && |chosen| <= t
    ensures HasSource(es, t) <==> HasSource(start, t)
  {
    if HasSource(es, t) {
      var i :| 0 <= i < |es| && es[i].target == t;
      assert i < |start|;
    }
    if HasSource(start, t) {
      var i :| 0 <= i < |start| && start[i].target == t;
      assert es[i].target == t;
    }
  }

  /** One more target, left alone or with its sources. */
  lemma WiredNext(vs: seq<Vertex>, start: seq<Edge>, es: seq<Edge>, fs: seq<Edge>, chosen: seq<seq<nat>>,
                  sources: seq<nat>)
    requires Wired(vs, start, es, chosen) && |chosen| < |vs| && fs == es + EdgesTo(sources, |chosen|)
    requires if LeftAlone(vs, start, |chosen|) then sources == [] else Selected(vs, es, sources, |chosen|)
    requires forall i :: |es| <= i < |fs| ==> fs[i].target == |chosen| && IsWiring(vs, fs[i])
    requires !LeftAlone(vs, start, |chosen|) ==> AllSettled(vs, fs, |chosen|)
    ensures Wired(vs, start, fs, chosen + [sources])
  {
    ChosenNext(vs, start, chosen, sources);
    assert fs == start + WiresOf(chosen + [sources]);
    StaySettled(vs, start, es, fs, |chosen|);
    forall i | |start| <= i < |fs|
      ensures IsNewWire(vs, start, fs[i], |chosen| + 1)
    {
      if i < |es| {
        assert IsNewWire(vs, start, es[i], |chosen|);
      }
    }
  }

  lemma StaySettled(vs: seq<Vertex>, start: seq<Edge>, es: seq<Edge>, fs: seq<Edge>, n: nat)
    requires n <= |vs| && es <= fs
    requires forall u :: 0 <= u < n ==> LeftAlone(vs, start, u) || AllSettled(vs, es, u)
    ensures forall u :: 0 <= u < n ==> LeftAlone(vs, start, u) || AllSettled(vs, fs, u)
  {
    forall u | 0 <= u < n && !LeftAlone(vs, start, u)
      ensures AllSettled(vs, fs, u)
    {
      forall b | b in Ids(vs[u].Bits())
        ensures Settled(vs, fs, u, b)
      {
        SettledGrows(vs, es, fs, u, b);
      }
    }
  }

  /** No wire leads to the net of an input port of the module. */
  ghost predicate InputsUndriven(vs: seq<Vertex>, es: seq<Edge>) {
    forall e :: e in es && IsWire(vs, e) ==> !vs[e.target].IsInputPort()
  }

  lemma InputsAreNotDriven(vs: seq<Vertex>, es: seq<Edge>, seeded: nat, rank: seq<nat>)
    requires Populated(vs, es, seeded, rank)
    ensures InputsUndriven(vs, es)
  {
    forall e | e in es && IsWire(vs, e)
      ensures !vs[e.target].IsInputPort()
    {
      var i :| 0 <= i < |es| && es[i] == e;
      if i >= seeded {
        assert !LeftAlone(vs, es[..seeded], es[i].target);
      }
    }
  }

  /** Vertex i holds net i, and a port of the module when one has the bits and the name of the
      net: the first such port. */
  ghost predicate HoldsNets(vs: seq<Vertex>, ports: seq<Port>, nets: seq<Net>) {
    |nets| <= |vs| &&
    forall i :: 0 <= i < |nets| ==>
      vs[i].IsNet() && vs[i].net == nets[i] &&
      (vs[i].PortNet? <==>
        exists k :: 0 <= k < |ports| && ports[k].bits == nets[i].bits && ports[k].name == nets[i].name) &&
      (vs[i].PortNet? ==>
        exists k ::
          0 <= k < |ports| && vs[i].port == ports[k] &&
          ports[k].bits == nets[i].bits && ports[k].name == nets[i].name &&
          forall j :: 0 <= j < k ==> !(ports[j].bits == nets[i].bits && ports[j].name == nets[i].name))
  }

  lemma NetsStay(ports: seq<Port>, nets: seq<Net>, vs: seq<Vertex>, vs': seq<Vertex>, cells: seq<Cell>,
                 es: seq<Edge>, es': seq<Edge>)
    requires AreNetVertices(ports, nets, vs) && WithCells(vs, es, vs', es', cells, |cells|)
    ensures HoldsNets(vs', ports, nets)
  {
    WithCellsKeepsNets(vs, es, vs', es', cells, |cells|);
    forall i | 0 <= i < |nets|
      ensures IsNetVertex(ports, nets[i], vs'[i])
    {
      assert IsNetVertex(ports, nets[i], vs[i]);
    }
  }

  lemma StartsPopulated(vs: seq<Vertex>, start: seq<Edge>, es: seq<Edge>, chosen: seq<seq<nat>>, rank: seq<nat>)
    requires Ranked(vs, es, rank) && |chosen| == |vs| && Wired(vs, start, es, chosen) && DriversConnected(vs, start)
    requires forall i :: 0 <= i < |start| ==> IsPortEdge(vs, start[i]) || IsCellEdge(vs, start[i])
    requires forall e :: IsPortEdge(vs, e) ==> e in start
    ensures Populated(vs, es, |start|, rank)
  {
    assert es[..|start|] == start;
    forall i | |start| <= i < |es|
      ensures IsWiring(vs, es[i]) && !LeftAlone(vs, start, es[i].target)
    {
      assert IsNewWire(vs, start, es[i], |chosen|);
    }
  }

  /** Where the edges of phase two begin and end, and what phase three chose. */
  datatype Phases = Phases(first: nat, seeded: nat, chosen: seq<seq<nat>>)

  /** The graph phase by phase: the nets and the edges of module ports, then the cells with one
      edge for every port, then the chosen wires. */
  ghost predicate Phased(vs: seq<Vertex>, es: seq<Edge>, nets: seq<Net>, cells: seq<Cell>, p: Phases) {
    |nets| <= |vs| && p.first <= p.seeded <= |es| &&
    (forall e :: e in es[..p.first] <==> IsPortEdge(vs[..|nets|], e)) &&
    WithCells(vs[..|nets|], es[..p.first], vs, es[..p.seeded], cells, |cells|) &&
    |p.chosen| == |vs| && AllChosen(vs, es[..p.seeded], p.chosen) && es == es[..p.seeded] + WiresOf(p.chosen)
  }

  lemma ArePhases(vs: seq<Vertex>, es: seq<Edge>, nets: seq<Net>, cells: seq<Cell>, p: Phases, vs0: seq<Vertex>,
                  portEdges: seq<Edge>, start: seq<Edge>)
    requires |vs0| == |nets| && WithCells(vs0, portEdges, vs, start, cells, |cells|)
    requires forall e :: e in portEdges <==> IsPortEdge(vs0, e)
    requires |p.chosen| == |vs| && Wired(vs, start, es, p.chosen)
    requires p.first == |portEdges| && p.seeded == |start|
    ensures Phased(vs, es, nets, cells, p)
    ensures forall e :: IsPortEdge(vs, e) ==> e in start
  {
    assert vs[..|nets|] == vs0 && es[..p.first] == portEdges && es[..p.seeded] == start;
    WithCellsKeepsNets(vs0, portEdges, vs, start, cells, |cells|);
    forall e | IsPortEdge(vs, e)
      ensures e in start
    {
      assert IsPortEdge(vs0, e);
      assert e in portEdges;
    }
  }

  /** Some port that has to be joined has no direction. */
  ghost predicate Unmanaged(ports: seq<Port>, nets: seq<Net>, cells: seq<Cell>) {
    (exists i :: UnmanagedNet(ports, nets, i)) ||
    exists c, i :: 0 <= c < |cells| && 0 <= i < |cells[c].ports| && cells[c].ports[i].direction == Unknown &&
                   (cells[c].ports[i].bits != [] || exists k :: 0 <= k < |nets| && nets[k].bits == [])
  }

  lemma NetsDecide(ports: seq<Port>, nets: seq<Net>, cells: seq<Cell>, vs: seq<Vertex>)
    requires AreNetVertices(ports, nets, vs) && |vs| == |nets| && !exists i :: UnmanagedNet(ports, nets, i)
    ensures UnmanagedCells(vs, cells, |cells|) <==> Unmanaged(ports, nets, cells)
  {
    EmptyNets(ports, nets, vs);
    if UnmanagedCells(vs, cells, |cells|) {
      var c :| 0 <= c < |cells| && UnmanagedCell(vs, cells[c], |cells[c].ports|);
      var i :| 0 <= i < |cells[c].ports| && UnmanagedPort(vs, cells[c].ports[i]);
      assert cells[c].ports[i].direction == Unknown;
    }
    if Unmanaged(ports, nets, cells) {
      var c, i :| 0 <= c < |cells| && 0 <= i < |cells[c].ports| && cells[c].ports[i].direction == Unknown &&
        (cells[c].ports[i].bits != [] || exists k :: 0 <= k < |nets| && nets[k].bits == []);
      assert UnmanagedPort(vs, cells[c].ports[i]);
      assert UnmanagedCell(vs, cells[c], |cells[c].ports|);
    }
  }

  lemma EmptyNets(ports: seq<Port>, nets: seq<Net>, vs: seq<Vertex>)
    requires AreNetVertices(ports, nets, vs) && |vs| == |nets|
    ensures NoNet(vs, [], true) <==> !exists k :: 0 <= k < |nets| && nets[k].bits == []
  {
    forall k | 0 <= k < |nets|
      ensures vs[k].IsNet() && vs[k].Bits() == nets[k].bits
    {
      assert IsNetVertex(ports, nets[k], vs[k]);
    }
  }
}
