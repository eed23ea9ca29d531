/** The edges of the instantiation graph: which ports an edge joins and which net it
    carries. The bits of the modules of a hierarchy are taken to be numbered apart. */
module InstanceEdges {
  import opened PortExpr
  import opened Unroll

  /** An edge from the output of a vertex to one of the input ports of another. */
  datatype Edge = Edge(source: nat, target: nat, port: nat)

  /** The modules of a design: where each vertex sends its output, and the nets of each
      module. A port of a submodule sends an input inside and an output outside. */
  datatype Hierarchy = Hierarchy(home: seq<nat>, nets: seq<seq<Net>>)
  {
    predicate Sends(m: nat, vi: nat) {
      vi < |home| && home[vi] == m
    }

    /** The nets of the module in which vertex vi sends. */
    function NetsOf(vi: nat): seq<Net> {
      if vi < |home| && home[vi] < |nets| then nets[home[vi]] else []
    }
  }

  function Flat(d: Design, nets: seq<Net>): (h: Hierarchy)
    ensures forall vi: nat :: vi < |d| ==> h.NetsOf(vi) == nets
  {
    Hierarchy(seq(|d|, _ => 0), [nets])
  }

  /** An edge with the net that was found for it. */
  datatype Link = Link(edge: Edge, net: Net)

  function Sent(vx: Vertex): seq<Bit> {
    if vx.TopOutput? then [] else vx.Outs()
  }

  function Readers(vx: Vertex): seq<Port> {
    if vx.TopInput? then [] else vx.Ins()
  }

  predicate InPorts(d: Design, target: nat, port: nat) {
    target < |d| && port < |Readers(d[target])|
  }

  function PortAt(d: Design, target: nat, port: nat): seq<Bit>
    requires InPorts(d, target, port)
  {
    Readers(d[target])[port].bits
  }

  /** Two ports are joined where they share a bit that is not a constant. */
  predicate IsEdge(d: Design, e: Edge) {
    e.source < |d| && InPorts(d, e.target, e.port) && Intersects(Sent(d[e.source]), PortAt(d, e.target, e.port))
  }

  function ReadBits(d: Design, e: Edge): seq<Bit>
    requires InPorts(d, e.target, e.port)
  {
    PortAt(d, e.target, e.port)
  }

  // ----- the readers of every bit -----

  type Targets = map<Bit, set<(nat, nat)>>

  /** The ports up to (vi, k) that read bit b. */
  function ReadersOf(d: Design, vi: nat, k: nat, b: Bit): set<(nat, nat)> {
    set j: nat, p: nat | j < |d| && p < |Readers(d[j])| && (j < vi || (j == vi && p < k)) &&
      b in Readers(d[j])[p].bits :: (j, p)
  }

  ghost predicate Indexed(d: Design, vi: nat, k: nat, m: Targets) {
    forall b :: (b in m <==> !b.IsConstant() && ReadersOf(d, vi, k, b) != {}) &&
                (b in m ==> m[b] == ReadersOf(d, vi, k, b))
  }

  function TargetsAt(m: Targets, b: Bit): set<(nat, nat)> {
    if b in m then m[b] else {}
  }

  /** One port: each of its bits that is not a constant gets this reader. */
  method InsertPort(m: Targets, bits: seq<Bit>, reader: (nat, nat)) returns (m': Targets)
    ensures forall b :: b in m' <==> b in m || (b in bits && !b.IsConstant())
    ensures forall b :: b in m' ==> m'[b] == TargetsAt(m, b) + (if b in bits && !b.IsConstant() then {reader} else {})
  {
    m' := m;
    for k := 0 to |bits|
      invariant forall b :: b in m' <==> b in m || (b in bits[..k] && !b.IsConstant())
      invariant forall b :: b in m' ==>
                  m'[b] == TargetsAt(m, b) + (if b in bits[..k] && !b.IsConstant() then {reader} else {})
    {
      assert bits[..k + 1] == bits[..k] + [bits[k]];
      if !bits[k].IsConstant() {
        m' := m'[bits[k] := TargetsAt(m', bits[k]) + {reader}];
      }
    }
    assert bits[..|bits|] == bits;
  }

  lemma NextReader(d: Design, vi: nat, k: nat, b: Bit)
    requires InPorts(d, vi, k)
    ensures ReadersOf(d, vi, k + 1, b) ==
            ReadersOf(d, vi, k, b) + (if b in PortAt(d, vi, k) then {(vi, k)} else {})
  {
  }

  lemma NextVertex(d: Design, vi: nat, b: Bit)
    requires vi < |d|
    ensures ReadersOf(d, vi, |Readers(d[vi])|, b) == ReadersOf(d, vi + 1, 0, b)
  {
  }

  method CollectTargets(d: Design) returns (m: Targets)
    ensures Indexed(d, |d|, 0, m)
  {
    m := map[];
    for vi := 0 to |d|
      invariant Indexed(d, vi, 0, m)
    {
      for k := 0 to |Readers(d[vi])|
        invariant Indexed(d, vi, k, m)
      {
        ghost var before := m;
        m := InsertPort(m, PortAt(d, vi, k), (vi, k));
        forall b
          ensures (b in m <==> !b.IsConstant() && ReadersOf(d, vi, k + 1, b) != {}) &&
                  (b in m ==> m[b] == ReadersOf(d, vi, k + 1, b))
        {
          NextReader(d, vi, k, b);
        }
      }
      forall b
        ensures ReadersOf(d, vi, |Readers(d[vi])|, b) == ReadersOf(d, vi + 1, 0, b)
      {
        NextVertex(d, vi, b);
      }
    }
  }

  // ----- the edges -----

  ghost predicate AreEdgesFrom(d: Design, source: nat, bits: seq<Bit>, edges: seq<Edge>) {
    (forall i, j :: 0 <= i < j < |edges| ==> edges[i] != edges[j]) &&
    (forall e :: e in edges <==>
       e.source == source && InPorts(d, e.target, e.port) && Intersects(bits, ReadBits(d, e)))
  }

  lemma IntersectsAppend(bits: seq<Bit>, b: Bit, ys: seq<Bit>)
    ensures Intersects(bits + [b], ys) <==> Intersects(bits, ys) || (!b.IsConstant() && b in ys)
  {
    if Intersects(bits, ys) {
      var i :| 0 <= i < |bits| && !bits[i].IsConstant() && bits[i] in ys;
      assert (bits + [b])[i] == bits[i];
    }
    assert (bits + [b])[|bits|] == b;
  }

  /** The edges of one output: one for every port that reads any of its bits, the readers
      of a bit in any order. */
  method ConnectPort(d: Design, source: nat, m: Targets) returns (edges: seq<Edge>)
    requires source < |d| && Indexed(d, |d|, 0, m)
    ensures AreEdgesFrom(d, source, Sent(d[source]), edges)
  {
    var bits := Sent(d[source]);
    edges := [];
    for k := 0 to |bits|
      invariant AreEdgesFrom(d, source, bits[..k], edges)
    {
      assert bits[..k + 1] == bits[..k] + [bits[k]];
      edges := ConnectBit(d, source, m, bits[..k], bits[k], edges);
    }
    assert bits[..|bits|] == bits;
  }

  method ConnectBit(d: Design, source: nat, m: Targets, ghost before: seq<Bit>, b: Bit, edges: seq<Edge>)
    returns (edges': seq<Edge>)
    requires source < |d| && Indexed(d, |d|, 0, m) && AreEdgesFrom(d, source, before, edges)
    ensures AreEdgesFrom(d, source, before + [b], edges')
  {
    edges' := edges;
    var rest := TargetsAt(m, b);
    while rest != {}
      invariant rest <= TargetsAt(m, b)
      invariant forall i, j :: 0 <= i < j < |edges'| ==> edges'[i] != edges'[j]
      invariant forall e :: e in edges' <==>
                  e in edges || (e.source == source && (e.target, e.port) in TargetsAt(m, b) - rest)
      decreases |rest|
    {
      var r :| r in rest;
      rest := rest - {r};
      var e := Edge(source, r.0, r.1);
      if e !in edges' {
        edges' := edges' + [e];
      }
    }
    forall e
      ensures e in edges' <==>
              e.source == source && InPorts(d, e.target, e.port) && Intersects(before + [b], ReadBits(d, e))
    {
      ReadsBit(d, m, b, e);
      if InPorts(d, e.target, e.port) {
        IntersectsAppend(before, b, ReadBits(d, e));
      }
    }
  }

  lemma ReadsBit(d: Design, m: Targets, b: Bit, e: Edge)
    requires Indexed(d, |d|, 0, m)
    ensures (e.target, e.port) in TargetsAt(m, b) <==>
            !b.IsConstant() && InPorts(d, e.target, e.port) && b in ReadBits(d, e)
  {
    assert (e.target, e.port) in ReadersOf(d, |d|, 0, b) <==> InPorts(d, e.target, e.port) && b in ReadBits(d, e);
  }

  ghost predicate AreEdges(d: Design, upTo: nat, edges: seq<Edge>) {
    (forall i, j :: 0 <= i < j < |edges| ==> edges[i] != edges[j]) &&
    forall e :: e in edges <==> e.source < upTo && IsEdge(d, e)
  }

  /** The edges among them that start in module m. */
  ghost predicate AreEdgesOf(d: Design, h: Hierarchy, m: nat, upTo: nat, edges: seq<Edge>) {
    (forall i, j :: 0 <= i < j < |edges| ==> edges[i] != edges[j]) &&
    forall e :: e in edges <==> e.source < upTo && h.Sends(m, e.source) && IsEdge(d, e)
  }

  /** One edge for every output of the module and every port that share a bit. */
  method ConnectModule(d: Design, h: Hierarchy, m: nat) returns (edges: seq<Edge>)
    ensures AreEdgesOf(d, h, m, |d|, edges)
  {
    var targets := CollectTargets(d);
    edges := [];
    for vi := 0 to |d|
      invariant AreEdgesOf(d, h, m, vi, edges)
    {
      if h.Sends(m, vi) {
        var more := ConnectPort(d, vi, targets);
        assert forall e :: e in more ==> e.source == vi && e !in edges;
        edges := edges + more;
      }
    }
  }

  // ----- the net of an edge -----

  predicate Known(nets: seq<Net>, bits: seq<Bit>) {
    exists k :: 0 <= k < |nets| && nets[k].bits == bits
  }

  /** The first net with these bits; later ones are not entered. */
  function FirstWith(nets: seq<Net>, bits: seq<Bit>): (net: Net)
    requires Known(nets, bits)
    ensures net in nets && net.bits == bits
  {
    if nets[0].bits == bits then nets[0]
    else
      assert Known(nets[1..], bits) by {
        var k :| 0 <= k < |nets| && nets[k].bits == bits;
        assert nets[1..][k - 1] == nets[k];
      }
      FirstWith(nets[1..], bits)
  }

  lemma {:induction false} FirstStays(nets: seq<Net>, net: Net, bits: seq<Bit>)
    ensures Known(nets + [net], bits) <==> Known(nets, bits) || bits == net.bits
    ensures Known(nets + [net], bits) ==>
              FirstWith(nets + [net], bits) == if Known(nets, bits) then FirstWith(nets, bits) else net
  {
    var more := nets + [net];
    if Known(nets, bits) {
      var k :| 0 <= k < |nets| && nets[k].bits == bits;
      assert more[k] == nets[k];
    }
    assert more[|nets|] == net;
    if |nets| > 0 {
      assert more[1..] == nets[1..] + [net];
      FirstStays(nets[1..], net, bits);
      if Known(nets, bits) && nets[0].bits != bits {
        var k :| 0 <= k < |nets| && nets[k].bits == bits;
        assert nets[1..][k - 1] == nets[k];
      }
      if Known(nets[1..], bits) {
        var k :| 0 <= k < |nets[1..]| && nets[1..][k].bits == bits;
        assert nets[k + 1] == nets[1..][k];
      }
    }
  }

  ghost predicate IsIndex(nets: seq<Net>, index: map<seq<Bit>, Net>) {
    forall bits :: (bits in index <==> Known(nets, bits)) && (bits in index ==> index[bits] == FirstWith(nets, bits))
  }

  /** One net for every signature. */
  method IndexNets(nets: seq<Net>) returns (index: map<seq<Bit>, Net>)
    ensures IsIndex(nets, index)
  {
    index := map[];
    for k := 0 to |nets|
      invariant IsIndex(nets[..k], index)
    {
      assert nets[..k + 1] == nets[..k] + [nets[k]];
      forall bits
        ensures Known(nets[..k + 1], bits) <==> Known(nets[..k], bits) || bits == nets[k].bits
        ensures Known(nets[..k + 1], bits) ==>
                  FirstWith(nets[..k + 1], bits) ==
                    if Known(nets[..k], bits) then FirstWith(nets[..k], bits) else nets[k]
      {
        FirstStays(nets[..k], nets[k], bits);
      }
      if nets[k].bits !in index {
        index := index[nets[k].bits := nets[k]];
      }
    }
    assert nets[..|nets|] == nets;
  }

  predicate Meets(net: Net, source: seq<Bit>, target: seq<Bit>) {
    Intersects(source, net.bits) && Intersects(target, net.bits)
  }

  /** The nets an edge may get: with the bits of its source, else with those of its target,
      else any one that shares a bit with both. */
  predicate MayCarry(nets: seq<Net>, source: seq<Bit>, target: seq<Bit>, net: Net) {
    if Known(nets, source) then net == FirstWith(nets, source)
    else if Known(nets, target) then net == FirstWith(nets, target)
    else net in nets && net == FirstWith(nets, net.bits) && Meets(net, source, target)
  }

  datatype Choice = Chosen(net: Net) | NoNet | EmptyNet

  /** Only nets with the very bits are free of the search, which throws on a net of constants. */
  predicate Exact(nets: seq<Net>, source: seq<Bit>, target: seq<Bit>) {
    Known(nets, source) || Known(nets, target)
  }

  predicate ConstantNet(nets: seq<Net>) {
    exists k :: 0 <= k < |nets| && !HasNonConstant(nets[k].bits)
  }

  method AssociateNet(nets: seq<Net>, index: map<seq<Bit>, Net>, source: seq<Bit>, target: seq<Bit>) returns (r: Choice)
    requires IsIndex(nets, index) && HasNonConstant(source) && HasNonConstant(target)
    ensures r.Chosen? ==> MayCarry(nets, source, target, r.net)
    ensures r.NoNet? ==> !Exact(nets, source, target) && forall net :: net in nets ==> !Meets(net, source, target)
    ensures r.EmptyNet? ==> !Exact(nets, source, target) && ConstantNet(nets)
  {
    if source in index {
      return Chosen(index[source]);
    }
    if target in index {
      return Chosen(index[target]);
    }
    var rest := index.Keys;
    while rest != {}
      invariant rest <= index.Keys
      invariant forall bits :: bits in index.Keys - rest ==> !Meets(index[bits], source, target)
      decreases |rest|
    {
      var bits :| bits in rest;
      rest := rest - {bits};
      var net := index[bits];
      if !HasNonConstant(net.bits) {
        return EmptyNet;
      }
      if Meets(net, source, target) {
        return Chosen(net);
      }
    }
    forall net | net in nets
      ensures !Meets(net, source, target)
    {
      assert net.bits in index && index[net.bits].bits == net.bits;
    }
    r := NoNet;
  }

  // ----- the graph -----

  function LinksInto(links: seq<Link>, vi: nat): seq<Net> {
    if |links| == 0 then []
    else LinksInto(links[..|links| - 1], vi) +
         (if links[|links| - 1].edge.target == vi then [links[|links| - 1].net] else [])
  }

  function LinksFrom(links: seq<Link>, vi: nat): seq<Net> {
    if |links| == 0 then []
    else LinksFrom(links[..|links| - 1], vi) +
         (if links[|links| - 1].edge.source == vi then [links[|links| - 1].net] else [])
  }

  function EdgesOf(links: seq<Link>): (edges: seq<Edge>)
    ensures |edges| == |links|
  {
    seq(|links|, i requires 0 <= i < |links| => links[i].edge)
  }

  ghost predicate LinkOk(d: Design, nets: seq<Net>, l: Link) {
    IsEdge(d, l.edge) && MayCarry(nets, Sent(d[l.edge.source]), ReadBits(d, l.edge), l.net)
  }

  ghost predicate LinksOk(d: Design, h: Hierarchy, links: seq<Link>) {
    forall i :: 0 <= i < |links| ==> LinkOk(d, h.NetsOf(links[i].edge.source), links[i])
  }

  /** The vertices with the nets of their edges: every pair of ports that shares a bit is
      joined once, by an edge with a net it may carry in the module where it starts. */
  ghost predicate IsGraph(d: Design, links: seq<Link>, h: Hierarchy) {
    AreEdges(d, |d|, EdgesOf(links)) && LinksOk(d, h, links) &&
    forall vi :: 0 <= vi < |d| ==> d[vi].EdgesIn() == LinksInto(links, vi) && d[vi].EdgesOut() == LinksFrom(links, vi)
  }

  function WithNets(vx: Vertex, ins: seq<Net>, outs: seq<Net>): Vertex {
    match vx
    case TopInput(name, bits, _) => TopInput(name, bits, outs)
    case TopOutput(name, bits, _) => TopOutput(name, bits, ins)
    case CellVertex(kind, ports, out, _, _) => CellVertex(kind, ports, out, ins, outs)
    case ModulePort(isInput, inBits, outBits, _, _) => ModulePort(isInput, inBits, outBits, ins, outs)
  }

  function Attached(d: Design, links: seq<Link>): (d': Design)
    ensures |d'| == |d|
  {
    seq(|d|, vi requires 0 <= vi < |d| => WithNets(d[vi], LinksInto(links, vi), LinksFrom(links, vi)))
  }

  lemma {:induction false} InLinks(links: seq<Link>, vi: nat, net: Net)
    ensures net in LinksInto(links, vi) <==>
            exists i :: 0 <= i < |links| && links[i].edge.target == vi && links[i].net == net
    ensures net in LinksFrom(links, vi) <==>
            exists i :: 0 <= i < |links| && links[i].edge.source == vi && links[i].net == net
  {
    if |links| > 0 {
      var n := |links| - 1;
      InLinks(links[..n], vi, net);
      assert forall i :: 0 <= i < n ==> links[..n][i] == links[i];
    }
  }

  /** What the first links contribute to the nets of a vertex. */
  lemma NextLink(links: seq<Link>, n: nat, vi: nat)
    requires n < |links|
    ensures LinksInto(links[..0], vi) == [] == LinksFrom(links[..0], vi) && links[..|links|] == links
    ensures LinksInto(links[..n + 1], vi) ==
            LinksInto(links[..n], vi) + (if links[n].edge.target == vi then [links[n].net] else [])
    ensures LinksFrom(links[..n + 1], vi) ==
            LinksFrom(links[..n], vi) + (if links[n].edge.source == vi then [links[n].net] else [])
  {
    assert links[..n + 1][..n] == links[..n];
  }

  /** The graph of one module from its parts. */
  lemma GraphOf(d: Design, links: seq<Link>, nets: seq<Net>)
    requires forall i, j :: 0 <= i < j < |links| ==> links[i].edge != links[j].edge
    requires forall i :: 0 <= i < |links| ==> LinkOk(d, nets, links[i])
    requires forall e :: IsEdge(d, e) ==> e in EdgesOf(links)
    requires forall vi :: 0 <= vi < |d| ==>
               d[vi].EdgesIn() == LinksInto(links, vi) && d[vi].EdgesOut() == LinksFrom(links, vi)
    ensures IsGraph(d, links, Flat(d, nets))
  {
    EdgesOfLinks(d, links, nets);
    FlatLinks(d, links, nets);
  }

  lemma FlatLinks(d: Design, links: seq<Link>, nets: seq<Net>)
    requires forall i :: 0 <= i < |links| ==> LinkOk(d, nets, links[i])
    ensures LinksOk(d, Flat(d, nets), links)
  {
    forall i | 0 <= i < |links|
      ensures LinkOk(d, Flat(d, nets).NetsOf(links[i].edge.source), links[i])
    {
      assert LinkOk(d, nets, links[i]);
    }
  }

  lemma EdgesOfLinks(d: Design, links: seq<Link>, nets: seq<Net>)
    requires forall i :: 0 <= i < |links| ==> LinkOk(d, nets, links[i])
    ensures forall e :: e in EdgesOf(links) ==> IsEdge(d, e)
  {
    var edges := EdgesOf(links);
    forall e | e in edges
      ensures IsEdge(d, e)
    {
      var k :| 0 <= k < |edges| && edges[k] == e;
      assert LinkOk(d, nets, links[k]);
    }
  }

  /** Attaching nets does not change what the vertices send and read. */
  lemma SamePorts(d: Design, links: seq<Link>, e: Edge)
    ensures IsEdge(Attached(d, links), e) <==> IsEdge(d, e)
    ensures IsEdge(d, e) ==> Sent(Attached(d, links)[e.source]) == Sent(d[e.source]) &&
                             ReadBits(Attached(d, links), e) == ReadBits(d, e)
  {
  }

  lemma NoLinks(d: Design, links: seq<Link>, vi: nat)
    requires vi < |d| && forall i :: 0 <= i < |links| ==> IsEdge(d, links[i].edge)
    ensures d[vi].TopInput? ==> LinksInto(links, vi) == []
    ensures d[vi].TopOutput? ==> LinksFrom(links, vi) == []
  {
    if d[vi].TopInput? && LinksInto(links, vi) != [] {
      InLinks(links, vi, LinksInto(links, vi)[0]);
    }
    if d[vi].TopOutput? && LinksFrom(links, vi) != [] {
      InLinks(links, vi, LinksFrom(links, vi)[0]);
    }
  }

  lemma SameEdges(d: Design, links: seq<Link>)
    requires AreEdges(d, |d|, EdgesOf(links))
    ensures AreEdges(Attached(d, links), |d|, EdgesOf(links))
  {
    forall e
      ensures IsEdge(Attached(d, links), e) <==> IsEdge(d, e)
    {
      SamePorts(d, links, e);
    }
  }

  lemma AttachedNets(d: Design, links: seq<Link>, vi: nat)
    requires vi < |d| && forall i :: 0 <= i < |links| ==> IsEdge(d, links[i].edge)
    ensures Attached(d, links)[vi].EdgesIn() == LinksInto(links, vi)
    ensures Attached(d, links)[vi].EdgesOut() == LinksFrom(links, vi)
  {
    NoLinks(d, links, vi);
    EndsOf(d[vi], LinksInto(links, vi), LinksFrom(links, vi));
  }

  lemma EndsOf(vx: Vertex, ins: seq<Net>, outs: seq<Net>)
    requires (vx.TopInput? ==> ins == []) && (vx.TopOutput? ==> outs == [])
    ensures WithNets(vx, ins, outs).EdgesIn() == ins && WithNets(vx, ins, outs).EdgesOut() == outs
  {
  }

  lemma AttachedIsGraph(d: Design, links: seq<Link>, h: Hierarchy)
    requires AreEdges(d, |d|, EdgesOf(links)) && LinksOk(d, h, links)
    ensures IsGraph(Attached(d, links), links, h)
  {
    var d' := Attached(d, links);
    SameEdges(d, links);
    forall i | 0 <= i < |links|
      ensures IsEdge(d, links[i].edge) && LinkOk(d', h.NetsOf(links[i].edge.source), links[i])
    {
      assert LinkOk(d, h.NetsOf(links[i].edge.source), links[i]);
      SamePorts(d, links, links[i].edge);
    }
    forall vi | 0 <= vi < |d'|
      ensures d'[vi].EdgesIn() == LinksInto(links, vi) && d'[vi].EdgesOut() == LinksFrom(links, vi)
    {
      AttachedNets(d, links, vi);
    }
  }

  datatype Linked = Links(links: seq<Link>) | Unassociated(edge: Edge) | Throws

  datatype Populated = Graph(d: Design, links: seq<Link>) | NotPopulated

  /** Some net of the module holds each bit that is sent in it. */
  ghost predicate AllNamed(d: Design, h: Hierarchy, m: nat, nets: seq<Net>) {
    forall vi, i :: 0 <= vi < |d| && h.Sends(m, vi) && 0 <= i < |Sent(d[vi])| && !Sent(d[vi])[i].IsConstant() ==>
      Carried(nets, Sent(d[vi])[i])
  }

  ghost predicate AllExact(d: Design, h: Hierarchy, m: nat, nets: seq<Net>) {
    forall e :: IsEdge(d, e) && h.Sends(m, e.source) ==> Exact(nets, Sent(d[e.source]), ReadBits(d, e))
  }

  lemma SharedBit(d: Design, e: Edge) returns (b: Bit)
    requires IsEdge(d, e)
    ensures !b.IsConstant() && b in Sent(d[e.source]) && b in ReadBits(d, e)
    ensures HasNonConstant(Sent(d[e.source])) && HasNonConstant(ReadBits(d, e))
  {
    var i :| 0 <= i < |Sent(d[e.source])| && !Sent(d[e.source])[i].IsConstant() &&
      Sent(d[e.source])[i] in ReadBits(d, e);
    b := Sent(d[e.source])[i];
    var j :| 0 <= j < |ReadBits(d, e)| && ReadBits(d, e)[j] == b;
  }

  lemma NamedIsMet(d: Design, h: Hierarchy, m: nat, nets: seq<Net>, e: Edge)
    requires IsEdge(d, e) && h.Sends(m, e.source) && AllNamed(d, h, m, nets)
    ensures exists net :: net in nets && Meets(net, Sent(d[e.source]), ReadBits(d, e))
  {
    var b := SharedBit(d, e);
    var i :| 0 <= i < |Sent(d[e.source])| && Sent(d[e.source])[i] == b;
    assert Carried(nets, Sent(d[e.source])[i]);
    var k :| 0 <= k < |nets| && b in nets[k].bits;
    assert Intersects(Sent(d[e.source]), nets[k].bits);
    var j :| 0 <= j < |ReadBits(d, e)| && ReadBits(d, e)[j] == b;
    assert Meets(nets[k], Sent(d[e.source]), ReadBits(d, e));
  }

  method NetOf(d: Design, nets: seq<Net>, index: map<seq<Bit>, Net>, e: Edge, ghost h: Hierarchy, ghost m: nat)
    returns (r: Choice)
    requires IsIndex(nets, index) && IsEdge(d, e) && h.Sends(m, e.source)
    ensures r.Chosen? ==> LinkOk(d, nets, Link(e, r.net))
    ensures r.NoNet? ==> !AllNamed(d, h, m, nets)
    ensures r.EmptyNet? ==> ConstantNet(nets) && !AllExact(d, h, m, nets)
  {
    ghost var _ := SharedBit(d, e);
    r := AssociateNet(nets, index, Sent(d[e.source]), ReadBits(d, e));
    if r.NoNet? && AllNamed(d, h, m, nets) {
      NamedIsMet(d, h, m, nets, e);
    }
  }

  /** populate_module on the outputs and the nets of one module. An edge without a net can
      only remain where a bit has no name; the search for a net throws only on a net of
      constants, and only where some edge has no net with its very bits. */
  method PopulateModule(d: Design, h: Hierarchy, m: nat, nets: seq<Net>) returns (r: Linked)
    ensures r.Links? ==> AreEdgesOf(d, h, m, |d|, EdgesOf(r.links)) &&
                         forall i :: 0 <= i < |r.links| ==> LinkOk(d, nets, r.links[i])
    ensures AllNamed(d, h, m, nets) ==> !r.Unassociated?
    ensures !ConstantNet(nets) || AllExact(d, h, m, nets) ==> !r.Throws?
  {
    var edges := ConnectModule(d, h, m);
    var index := IndexNets(nets);
    var links: seq<Link> := [];
    for k := 0 to |edges|
      invariant |links| == k && forall i :: 0 <= i < k ==> links[i].edge == edges[i] && LinkOk(d, nets, links[i])
    {
      assert edges[k] in edges;
      var choice := NetOf(d, nets, index, edges[k], h, m);
      match choice
      case Chosen(net) => links := links + [Link(edges[k], net)];
      case NoNet => return Unassociated(edges[k]);
      case EmptyNet => return Throws;
    }
    assert EdgesOf(links) == edges;
    r := Links(links);
  }

  ghost predicate AreEdgesBelow(d: Design, h: Hierarchy, m: nat, edges: seq<Edge>) {
    (forall i, j :: 0 <= i < j < |edges| ==> edges[i] != edges[j]) &&
    forall e :: e in edges <==> e.source < |d| && e.source < |h.home| && h.home[e.source] < m && IsEdge(d, e)
  }

  ghost predicate Nameable(d: Design, h: Hierarchy, m: nat) {
    m < |h.nets| ==>
      AllNamed(d, h, m, h.nets[m]) && (!ConstantNet(h.nets[m]) || AllExact(d, h, m, h.nets[m]))
  }

  lemma EdgesAppend(d: Design, h: Hierarchy, m: nat, links: seq<Link>, more: seq<Link>)
    requires AreEdgesBelow(d, h, m, EdgesOf(links)) && AreEdgesOf(d, h, m, |d|, EdgesOf(more))
    ensures AreEdgesBelow(d, h, m + 1, EdgesOf(links + more))
  {
    var xs, ys := EdgesOf(links), EdgesOf(more);
    assert EdgesOf(links + more) == xs + ys;
    forall i, j | 0 <= i < |xs| && 0 <= j < |ys|
      ensures xs[i] != ys[j]
    {
      assert xs[i] in xs && ys[j] in ys;
    }
  }

  lemma LinksAppend(d: Design, h: Hierarchy, m: nat, links: seq<Link>, more: seq<Link>)
    requires LinksOk(d, h, links) && m < |h.nets| && AreEdgesOf(d, h, m, |d|, EdgesOf(more))
    requires forall i :: 0 <= i < |more| ==> LinkOk(d, h.nets[m], more[i])
    ensures LinksOk(d, h, links + more)
  {
    forall i | 0 <= i < |more|
      ensures LinkOk(d, h.NetsOf(more[i].edge.source), more[i])
    {
      assert EdgesOf(more)[i] in EdgesOf(more);
    }
  }

  /** The whole graph, module by module. */
  method PopulateDesign(d: Design, h: Hierarchy) returns (r: Populated)
    requires |h.home| == |d| && forall vi :: 0 <= vi < |d| ==> h.home[vi] < |h.nets|
    ensures r.Graph? ==> r.d == Attached(d, r.links) && IsGraph(r.d, r.links, h)
    ensures (forall m: nat :: Nameable(d, h, m)) ==> r.Graph?
  {
    var links: seq<Link> := [];
    for m := 0 to |h.nets|
      invariant AreEdgesBelow(d, h, m, EdgesOf(links)) && LinksOk(d, h, links)
    {
      var more := PopulateModule(d, h, m, h.nets[m]);
      if !more.Links? {
        assert !Nameable(d, h, m);
        return NotPopulated;
      }
      EdgesAppend(d, h, m, links, more.links);
      LinksAppend(d, h, m, links, more.links);
      links := links + more.links;
    }
    AttachedIsGraph(d, links, h);
    r := Graph(Attached(d, links), links);
  }

  // ----- what the export needs -----

  lemma MeetingBit(xs: seq<Bit>, ys: seq<Bit>) returns (b: Bit)
    requires Intersects(xs, ys)
    ensures !b.IsConstant() && b in xs && b in ys && HasNonConstant(xs) && HasNonConstant(ys)
  {
    var i :| 0 <= i < |xs| && !xs[i].IsConstant() && xs[i] in ys;
    b := xs[i];
    var j :| 0 <= j < |ys| && ys[j] == b;
  }

  /** The net of an edge carries a bit of either end. */
  lemma NetMeets(d: Design, nets: seq<Net>, l: Link)
    requires LinkOk(d, nets, l)
    ensures HasNonConstant(l.net.bits) && Intersects(Sent(d[l.edge.source]), l.net.bits)
    ensures Intersects(ReadBits(d, l.edge), l.net.bits)
  {
    var source, target := Sent(d[l.edge.source]), ReadBits(d, l.edge);
    var b := SharedBit(d, l.edge);
    if Exact(nets, source, target) {
      var i :| 0 <= i < |source| && source[i] == b;
      var j :| 0 <= j < |target| && target[j] == b;
      assert !source[i].IsConstant() && !target[j].IsConstant() && b in l.net.bits;
    }
    var _ := MeetingBit(source, l.net.bits);
  }

  lemma CarriedBy(nets: seq<Net>, net: Net, bits: seq<Bit>)
    requires net in nets && Intersects(bits, net.bits)
    ensures SomeCarried(nets, bits)
  {
    var i :| 0 <= i < |bits| && !bits[i].IsConstant() && bits[i] in net.bits;
    var k :| 0 <= k < |nets| && nets[k] == net;
    assert Carried(nets, bits[i]);
  }

  lemma LinkOf(d: Design, links: seq<Link>, h: Hierarchy, vi: nat, net: Net, out: bool) returns (l: Link)
    requires IsGraph(d, links, h) && vi < |d| && net in (if out then d[vi].EdgesOut() else d[vi].EdgesIn())
    ensures LinkOk(d, h.NetsOf(l.edge.source), l) && l.net == net
    ensures if out then l.edge.source == vi else l.edge.target == vi
  {
    InLinks(links, vi, net);
    var i :| 0 <= i < |links| && (if out then links[i].edge.source == vi else links[i].edge.target == vi) &&
      links[i].net == net;
    l := links[i];
  }

  lemma EdgeOutCarries(d: Design, links: seq<Link>, h: Hierarchy, vi: nat, net: Net)
    requires IsGraph(d, links, h) && vi < |d| && net in d[vi].EdgesOut()
    ensures HasNonConstant(net.bits) && !d[vi].TopOutput?
    ensures HasNonConstant(d[vi].Outs()) && SomeCarried(d[vi].EdgesOut(), d[vi].Outs())
  {
    var l := LinkOf(d, links, h, vi, net, true);
    NetMeets(d, h.NetsOf(l.edge.source), l);
    var _ := MeetingBit(Sent(d[vi]), net.bits);
    CarriedBy(d[vi].EdgesOut(), net, d[vi].Outs());
  }

  lemma EdgeInCarries(d: Design, links: seq<Link>, h: Hierarchy, vi: nat, net: Net)
    requires IsGraph(d, links, h) && vi < |d| && net in d[vi].EdgesIn()
    ensures HasNonConstant(net.bits) && !d[vi].TopInput?
    ensures !d[vi].CellVertex? ==>
              HasNonConstant(d[vi].Ins()[0].bits) && SomeCarried(d[vi].EdgesIn(), d[vi].Ins()[0].bits)
  {
    var l := LinkOf(d, links, h, vi, net, false);
    NetMeets(d, h.NetsOf(l.edge.source), l);
    PortReadBits(d, l.edge);
    var bits := ReadBits(d, l.edge);
    var _ := MeetingBit(bits, net.bits);
    CarriedBy(d[vi].EdgesIn(), net, bits);
  }

  lemma PortReadBits(d: Design, e: Edge)
    requires IsEdge(d, e)
    ensures !d[e.target].TopInput?
    ensures !d[e.target].CellVertex? ==> ReadBits(d, e) == d[e.target].Ins()[0].bits
  {
  }

  lemma VertexIsClean(d: Design, links: seq<Link>, h: Hierarchy, vi: nat)
    requires IsGraph(d, links, h) && vi < |d|
    ensures Clean(d[vi])
  {
    forall net | net in d[vi].EdgesIn() || net in d[vi].EdgesOut()
      ensures HasNonConstant(net.bits)
    {
      if net in d[vi].EdgesIn() {
        EdgeInCarries(d, links, h, vi, net);
      } else {
        EdgeOutCarries(d, links, h, vi, net);
      }
    }
    if d[vi].EdgesOut() != [] {
      EdgeOutCarries(d, links, h, vi, d[vi].EdgesOut()[0]);
    }
  }

  /** A port of a submodule is exported exactly when it has an edge on either side, or
      constants that can be read are tied to it, and the words built on both sides have one
      width. */
  lemma PortBuildsIff(d: Design, links: seq<Link>, h: Hierarchy, vi: nat)
    requires IsGraph(d, links, h) && vi < |d| && d[vi].ModulePort?
    ensures Builds(d[vi]) <==>
            d[vi].outNets != [] &&
            (if HasNonConstant(d[vi].inBits) then d[vi].inNets != []
             else Parts([], MODULE_CONSTANTS, d[vi].inBits) != []) &&
            |Pieces(d[vi].OutExpr())| == |Pieces(d[vi].InExpr(d[vi].inBits))|
  {
    var vx := d[vi];
    assert vx.Ins()[0].bits == vx.inBits && |vx.Ins()| == 1;
    PortEmits(d, links, h, vi);
    PortReads(d, links, h, vi);
    assert ReadsUpTo(vx, 1) <==> Reads(vx, vx.inBits);
  }

  lemma PortEmits(d: Design, links: seq<Link>, h: Hierarchy, vi: nat)
    requires IsGraph(d, links, h) && vi < |d| && d[vi].ModulePort?
    ensures Emits(d[vi]) <==> d[vi].outNets != []
  {
    NoNets(d[vi].outBits);
    if d[vi].outNets != [] {
      EdgeOutCarries(d, links, h, vi, d[vi].outNets[0]);
      FoundPart(d[vi].outNets, NO_CONSTANTS, d[vi].outBits);
    }
  }

  lemma PortReads(d: Design, links: seq<Link>, h: Hierarchy, vi: nat)
    requires IsGraph(d, links, h) && vi < |d| && d[vi].ModulePort?
    ensures Reads(d[vi], d[vi].inBits) <==>
            if HasNonConstant(d[vi].inBits) then d[vi].inNets != []
            else Parts([], MODULE_CONSTANTS, d[vi].inBits) != []
  {
    if d[vi].inNets != [] {
      EdgeInCarries(d, links, h, vi, d[vi].inNets[0]);
      FoundPart(d[vi].inNets, MODULE_CONSTANTS, d[vi].inBits);
    }
  }

  lemma {:induction false} FoundPart(nets: seq<Net>, consts: set<Bit>, bits: seq<Bit>)
    requires SomeCarried(nets, bits)
    ensures Parts(nets, consts, bits) != []
  {
    var i :| 0 <= i < |bits| && !bits[i].IsConstant() && Carried(nets, bits[i]);
    if i > 0 {
      assert bits[1..][i - 1] == bits[i];
      FoundPart(nets, consts, bits[1..]);
    }
  }

  /** Building the unrolled instance of such a graph fails exactly when some vertex is
      refused: an expression of it has no piece, or the widths and signs do not fit its
      assertion. */
  method ExportGraph(d: Design, ghost links: seq<Link>, ghost h: Hierarchy, steps: nat) returns (r: Exported)
    requires IsGraph(d, links, h)
    ensures r.Failed? <==> exists vi :: 0 <= vi < |d| && Refused(d[vi], steps)
    ensures r.Exported? ==> r.constraints == AllConstraints(d, steps)
  {
    forall vi | 0 <= vi < |d|
      ensures Clean(d[vi])
    {
      VertexIsClean(d, links, h, vi);
    }
    r := CreateUnrolledInstance(d, steps);
  }
}
