/** The graph of a module: nets, cells and unmatched cell ports, and the wiring that
    populate_graph adds between them. */
module ModuleGraph {
  import opened PortExpr

  datatype Direction = Input | Output | Inout | Unknown

  datatype Port = Port(name: Name, direction: Direction, bits: seq<Bit>)

  datatype Cell = Cell(ports: seq<Port>)

  datatype Vertex =
    | PlainNet(net: Net)
    | PortNet(net: Net, port: Port)
    | CellVertex(cell: Cell)
    | CellPort(port: Port)
  {
    predicate IsNet() {
      PlainNet? || PortNet?
    }

    function Bits(): seq<Bit> {
      if IsNet() then net.bits else if CellPort? then port.bits else []
    }

    /** Can be the source of a wire. */
    predicate CanDrive() {
      IsNet() || (CellPort? && port.direction != Input)
    }

    /** Can be the target of a wire. */
    predicate CanBeDriven() {
      IsNet() || (CellPort? && port.direction == Input)
    }

    predicate IsInputPort() {
      PortNet? && port.direction == Input
    }
  }

  datatype Edge = Edge(source: nat, target: nat)

  datatype Status = Done | CaseNotManaged | NoBits

  /** The bits without the constants. */
  function Ids(bits: seq<Bit>): set<nat> {
    set i | 0 <= i < |bits| && bits[i].Id? :: bits[i].id
  }

  // ----- reachability -----

  predicate InRange(vs: seq<Vertex>, es: seq<Edge>) {
    forall i :: 0 <= i < |es| ==> es[i].source < |vs| && es[i].target < |vs|
  }

  /** A path from u to v whose vertices after the first are nets. */
  ghost predicate NetPath(vs: seq<Vertex>, es: seq<Edge>, p: seq<nat>, u: nat, v: nat) {
    |p| > 0 && p[0] == u && p[|p| - 1] == v && v < |vs| && vs[v].IsNet() &&
    forall i :: 0 < i < |p| ==> p[i] < |vs| && vs[p[i]].IsNet() && Edge(p[i - 1], p[i]) in es
  }

  ghost predicate NetReach(vs: seq<Vertex>, es: seq<Edge>, u: nat, v: nat) {
    exists p: seq<nat> :: NetPath(vs, es, p, u, v)
  }

  lemma ReachSelf(vs: seq<Vertex>, es: seq<Edge>, u: nat)
    requires u < |vs| && vs[u].IsNet()
    ensures NetReach(vs, es, u, u)
  {
    assert NetPath(vs, es, [u], u, u);
  }

  lemma ReachStep(vs: seq<Vertex>, es: seq<Edge>, u: nat, w: nat, v: nat)
    requires w < |vs| && vs[w].IsNet() && Edge(u, w) in es && NetReach(vs, es, w, v)
    ensures NetReach(vs, es, u, v)
  {
    var p: seq<nat> :| NetPath(vs, es, p, w, v);
    assert NetPath(vs, es, [u] + p, u, v);
  }

  lemma ReachExtend(vs: seq<Vertex>, es: seq<Edge>, u: nat, v: nat, w: nat)
    requires w < |vs| && vs[w].IsNet() && Edge(v, w) in es && NetReach(vs, es, u, v)
    ensures NetReach(vs, es, u, w)
  {
    var p: seq<nat> :| NetPath(vs, es, p, u, v);
    var q := p + [w];
    assert forall i :: 0 <= i < |p| ==> q[i] == p[i];
    assert NetPath(vs, es, q, u, w);
  }

  lemma ReachFirst(vs: seq<Vertex>, es: seq<Edge>, u: nat, v: nat) returns (w: nat)
    requires NetReach(vs, es, u, v) && u != v
    ensures w < |vs| && vs[w].IsNet() && Edge(u, w) in es && NetReach(vs, es, w, v)
  {
    var p: seq<nat> :| NetPath(vs, es, p, u, v);
    w := p[1];
    var q := p[1..];
    assert forall i :: 0 <= i < |q| ==> q[i] == p[i + 1];
    assert NetPath(vs, es, q, w, v);
  }

  lemma ReachGrows(vs: seq<Vertex>, es: seq<Edge>, fs: seq<Edge>, u: nat, v: nat)
    requires NetReach(vs, es, u, v) && forall e :: e in es ==> e in fs
    ensures NetReach(vs, fs, u, v)
  {
    var p: seq<nat> :| NetPath(vs, es, p, u, v);
    assert NetPath(vs, fs, p, u, v);
  }

  // ----- wiring -----

  predicate IsWire(vs: seq<Vertex>, e: Edge) {
    e.source < |vs| && e.target < |vs| && !vs[e.source].CellVertex? && !vs[e.target].CellVertex?
  }

  /** Every wire leads to a higher rank, from a vertex that can drive to one that can
      be driven. */
  ghost predicate Ranked(vs: seq<Vertex>, es: seq<Edge>, rank: seq<nat>) {
    |rank| == |vs| && InRange(vs, es) &&
    forall i :: 0 <= i < |es| && IsWire(vs, es[i]) ==>
      rank[es[i].source] < rank[es[i].target] && vs[es[i].source].CanDrive() && vs[es[i].target].CanBeDriven()
  }

  ghost predicate WirePath(vs: seq<Vertex>, es: seq<Edge>, p: seq<nat>) {
    forall i :: 0 < i < |p| ==> Edge(p[i - 1], p[i]) in es && IsWire(vs, Edge(p[i - 1], p[i]))
  }

  /** The graph without the cell vertices has no cycle. */
  ghost predicate AcyclicWiring(vs: seq<Vertex>, es: seq<Edge>) {
    forall p: seq<nat> :: |p| > 1 && WirePath(vs, es, p) ==> p[0] != p[|p| - 1]
  }

  lemma {:induction false} RankRises(vs: seq<Vertex>, es: seq<Edge>, rank: seq<nat>, p: seq<nat>)
    requires Ranked(vs, es, rank) && |p| > 1 && WirePath(vs, es, p)
    ensures p[0] < |rank| && p[|p| - 1] < |rank| && rank[p[0]] < rank[p[|p| - 1]]
  {
    var n := |p| - 1;
    assert Edge(p[n - 1], p[n]) in es && IsWire(vs, Edge(p[n - 1], p[n]));
    if n > 1 {
      var q := p[..n];
      assert forall i :: 0 <= i < n ==> q[i] == p[i];
      RankRises(vs, es, rank, q);
    }
  }

  lemma RankedIsAcyclic(vs: seq<Vertex>, es: seq<Edge>, rank: seq<nat>)
    requires Ranked(vs, es, rank)
    ensures AcyclicWiring(vs, es)
  {
    forall p: seq<nat> | |p| > 1 && WirePath(vs, es, p)
      ensures p[0] != p[|p| - 1]
    {
      RankRises(vs, es, rank, p);
    }
  }

  ghost function Bound(rank: seq<nat>): (b: nat)
    ensures forall i :: 0 <= i < |rank| ==> rank[i] < b
  {
    if |rank| == 0 then 0
    else
      var b := Bound(rank[1..]);
      assert forall i :: 1 <= i < |rank| ==> rank[i] == rank[1..][i - 1];
      if rank[0] < b then b else rank[0] + 1
  }

  /** What moves up when vertex t gets sources: everything behind it. */
  ghost predicate Behind(vs: seq<Vertex>, es: seq<Edge>, t: nat, v: nat) {
    v < |vs| && (v == t || NetReach(vs, es, t, v) || (vs[v].CellPort? && vs[v].port.direction == Input))
  }

  ghost function RaisedBy(vs: seq<Vertex>, es: seq<Edge>, rank: seq<nat>, t: nat, v: nat, offset: nat): nat
    requires v < |vs| == |rank|
  {
    if Behind(vs, es, t, v) then rank[v] + offset else rank[v]
  }

  lemma BehindIsClosed(vs: seq<Vertex>, es: seq<Edge>, rank: seq<nat>, t: nat, e: Edge)
    requires Ranked(vs, es, rank) && e in es && IsWire(vs, e) && t < |vs| && Behind(vs, es, t, e.source)
    ensures Behind(vs, es, t, e.target)
  {
    var u, v := e.source, e.target;
    assert vs[u].CanDrive() && vs[v].CanBeDriven();
    if vs[v].IsNet() {
      if u == t {
        ReachSelf(vs, es, v);
        ReachStep(vs, es, t, v, v);
      } else {
        ReachExtend(vs, es, t, u, v);
      }
    }
  }

  /** Sources that are not behind t can all be attached to t at once. */
  lemma Raise(vs: seq<Vertex>, es: seq<Edge>, rank: seq<nat>, t: nat) returns (raised: seq<nat>)
    requires Ranked(vs, es, rank) && t < |vs|
    ensures Ranked(vs, es, raised)
    ensures forall s :: 0 <= s < |vs| && !Behind(vs, es, t, s) ==> raised[s] < raised[t]
  {
    var offset := Bound(rank);
    raised := seq(|vs|, v requires 0 <= v < |vs| => RaisedBy(vs, es, rank, t, v, offset));
    forall i | 0 <= i < |es| && IsWire(vs, es[i])
      ensures raised[es[i].source] < raised[es[i].target]
    {
      if Behind(vs, es, t, es[i].source) {
        BehindIsClosed(vs, es, rank, t, es[i]);
      }
    }
  }

  // ----- reachability as the code decides it -----

  /** Follows every edge to a net; no visited set is kept. */
  method FollowPath(vs: seq<Vertex>, es: seq<Edge>, current: nat, source: nat, ghost rank: seq<nat>)
    returns (found: bool)
    requires Ranked(vs, es, rank) && current < |vs| && !vs[current].CellVertex?
    ensures found <==> NetReach(vs, es, current, source)
    decreases Bound(rank) - rank[current]
  {
    if vs[current].IsNet() && current == source {
      ReachSelf(vs, es, current);
      return true;
    }
    found := false;
    for i := 0 to |es|
      invariant found ==> NetReach(vs, es, current, source)
      invariant !found ==> forall j :: 0 <= j < i && es[j].source == current && vs[es[j].target].IsNet() ==>
                                         !NetReach(vs, es, es[j].target, source)
    {
      if es[i].source == current && vs[es[i].target].IsNet() {
        assert IsWire(vs, es[i]);
        var reached := FollowPath(vs, es, es[i].target, source, rank);
        if reached {
          ReachStep(vs, es, current, es[i].target, source);
          found := true;
        }
      }
    }
    if !found && NetReach(vs, es, current, source) {
      ghost var w := ReachFirst(vs, es, current, source);
    }
  }

  method SourceReachable(vs: seq<Vertex>, es: seq<Edge>, source: nat, target: nat, ghost rank: seq<nat>)
    returns (r: bool)
    requires Ranked(vs, es, rank) && target < |vs| && !vs[target].CellVertex?
    ensures r <==> NetReach(vs, es, target, source)
  {
    r := FollowPath(vs, es, target, source, rank);
  }
}
