/** Designs that read undefined bits. All instances of the main solver share one x and one
    z, so that a search can announce one class beside executions that are told apart: the
    output y is the complement of an undefined bit, the secret s is read by a cell that
    nothing reads. */
module UndefinedDesign {
  import opened Bitvectors
  import opened Cells
  import opened PortExpr
  import opened Unroll
  import opened UnrollProof
  import opened InstanceEdges
  import opened QifaDesign
  import Qifa
  import QifaSearch
  import RefusedDesign

  const NET_S: Net := Net("s", [Id(2)])
  const NET_Y: Net := Net("y", [Id(3)])

  function Unread(): Vertex {
    CellVertex(Unary(NotOp, false), [Port(A, [Id(2)])], [Id(6)], [NET_S], [])
  }

  function Complement(): Vertex {
    CellVertex(Unary(NotOp, false), [Port(A, [ConstX])], [Id(3)], [], [NET_Y])
  }

  function Top(): Vertex {
    TopInput("s", [Id(2)], [NET_S])
  }

  function Out(): Vertex {
    TopOutput("y", [Id(3)], [NET_Y])
  }

  function Hidden(): Design {
    [Top(), Unread(), Complement(), Out()]
  }

  function HiddenNames(): PortNames {
    PortNames([], ["y"], ["s"], [])
  }

  lemma HiddenVertices()
    ensures var d := Hidden();
            |d| == 4 && d[0] == Top() && d[1] == Unread() && d[2] == Complement() && d[3] == Out()
  {
  }

  // ----- the constraints -----

  lemma ReadsX(a: Assignment, t: nat)
    ensures Complement().InExpr([ConstX]) == Concat([FreeX]) && Value(a, t, Concat([FreeX])) == [a.x]
  {
    assert [ConstX][1..] == [] && ConstX in CELL_CONSTANTS;
    assert Parts([], CELL_CONSTANTS, [ConstX]) == [FreeX];
  }

  lemma EmitsY(a: Assignment, t: nat)
    requires |a.vars("y", t)| == 1
    ensures Complement().OutExpr() == Whole("y", 1) && Value(a, t, Whole("y", 1)) == a.vars("y", t)
  {
    assert NET_Y.bits == [Id(3)];
    assert ExactMatch([NET_Y], [Id(3)]) == 0;
  }

  lemma ComplementMap(a: Assignment, t: nat)
    ensures ValuesAt(a, t, Complement().InMap()) == map[A := [a.x]]
  {
    var vx := Complement();
    ReadsX(a, t);
    assert vx.ins[0].name == A;
    assert HasPort(vx.ins, A) && PortBits(vx.ins, A) == [ConstX];
  }

  /** The constraint of the complement, at any step. */
  lemma ComplementMeans(a: Assignment, t: nat)
    requires |a.vars("y", t)| == 1
    ensures VertexHolds(Complement(), t, a) <==> a.vars("y", t) == [!a.x]
  {
    var vx := Complement();
    EmitsY(a, t);
    ComplementMap(a, t);
    var c := CellConstraint(vx.kind, vx.InMap(), t, vx.OutExpr(), t);
    assert VertexConstraints(vx, t) == [c];
    OneConstraint(a, c);
    NotOfBit(a.x);
    assert Satisfies(a, c) <==> a.vars("y", t) == Not([a.x]);
  }

  lemma NotOfBit(x: bool)
    ensures Not([x]) == [!x]
  {
  }

  /** The other vertices add nothing. */
  lemma OthersHold(a: Assignment, t: nat)
    ensures VertexHolds(Top(), t, a) && VertexHolds(Unread(), t, a) && VertexHolds(Out(), t, a)
  {
    assert ExactMatch([NET_S], [Id(2)]) == 0 && ExactMatch([NET_Y], [Id(3)]) == 0;
    assert !([Id(3)][0]).IsConstant();
    assert Top().Trivial() && Out().Trivial();
  }

  lemma HiddenNet(net: Net)
    requires IsNet(Hidden(), net)
    ensures net == NET_S || net == NET_Y
  {
    HiddenVertices();
    var vi :| 0 <= vi < 4 && net in VertexNets(Hidden()[vi]);
  }

  lemma HiddenNetsAre(d: Design)
    requires d == Hidden()
    ensures IsNet(d, NET_S) && IsNet(d, NET_Y)
  {
    HiddenVertices();
    assert NET_S in VertexNets(d[0]) && NET_Y in VertexNets(d[2]);
  }

  /** In every solution y is the complement of the one x. */
  lemma {:induction false} OutputIsFixed(d: Design, steps: nat, a: Assignment, t: nat)
    requires d == Hidden() && Solution(d, steps, a) && t < steps
    ensures a.vars("y", t) == [!a.x]
  {
    HiddenNetsAre(d);
    assert |a.vars(NET_Y.name, t)| == |NET_Y.bits|;
    AllHold(d, steps, a);
    HiddenVertices();
    assert VertexHolds(d[2], t, a);
    ComplementMeans(a, t);
  }

  function Execution(secret: bool, x: bool): Assignment {
    Assignment((name: Name, t: nat) => if name == "s" then [secret] else [!x], x, false)
  }

  lemma HiddenHolds(d: Design, a: Assignment, t: nat, vi: nat)
    requires d == Hidden() && vi < |d| && a.vars("y", t) == [!a.x]
    ensures VertexHolds(d[vi], t, a)
  {
    HiddenVertices();
    OthersHold(a, t);
    ComplementMeans(a, t);
  }

  lemma {:induction false} ExecutionSolves(d: Design, steps: nat, secret: bool, x: bool)
    requires d == Hidden()
    ensures Solution(d, steps, Execution(secret, x))
  {
    var a := Execution(secret, x);
    forall net, t: nat | IsNet(d, net) && t < steps
      ensures |a.vars(net.name, t)| == |net.bits|
    {
      HiddenNet(net);
    }
    forall t: nat, vi | t < steps && 0 <= vi < |d|
      ensures VertexHolds(d[vi], t, a)
    {
      HiddenHolds(d, a, t, vi);
    }
    AllHold(d, steps, a);
  }

  // ----- its runs -----

  lemma ObservedStep(a: Assignment, steps: nat, t: nat)
    requires t < steps
    ensures Observed(a, HiddenNames(), steps)[t] ==
            Qifa.SmtValues([], [ToNat(a.vars("y", t))], [ToNat(a.vars("s", t))], [])
  {
    var r := Observed(a, HiddenNames(), steps)[t];
    assert r.inputs == [] && r.states == [];
    assert r.outputs == [ToNat(a.vars("y", t))] && r.secrets == [ToNat(a.vars("s", t))];
  }

  lemma RunOutput(i: Qifa.Instance, d: Design, steps: nat, r: Qifa.Run, x: bool, z: bool, t: nat)
    requires d == Hidden() && i == InstanceOf(d, steps, HiddenNames()) && i.IsRunOf(r, x, z) && t < steps
    ensures r[t].outputs == [ToNat([!x])]
  {
    var a :| Solution(d, steps, a) && a.x == x && a.z == z && r == Observed(a, HiddenNames(), steps);
    OutputIsFixed(d, steps, a, t);
    ObservedStep(a, steps, t);
  }

  /** With one x for both no two runs are told apart. */
  lemma {:induction false} OneForAll(i: Qifa.Instance, d: Design, steps: nat)
    requires steps > 0 && d == Hidden() && i == InstanceOf(d, steps, HiddenNames())
    ensures QifaSearch.AtMostShared(i, 1)
  {
    forall rs: seq<Qifa.Run>, x: bool, z: bool | Qifa.SharedFamily(i, rs, x, z)
      ensures |rs| <= 1
    {
      if |rs| > 1 {
        NotObservable(i, d, steps, rs[0], rs[1], x, z);
      }
    }
  }

  lemma NotObservable(i: Qifa.Instance, d: Design, steps: nat, r: Qifa.Run, q: Qifa.Run, x: bool, z: bool)
    requires steps > 0 && d == Hidden() && i == InstanceOf(d, steps, HiddenNames())
    requires i.IsRunOf(r, x, z) && i.IsRunOf(q, x, z)
    ensures !Qifa.Distinguished(i, r, q)
  {
    forall t | 0 <= t < steps
      ensures r[t].outputs == q[t].outputs
    {
      RunOutput(i, d, steps, r, x, z, t);
      RunOutput(i, d, steps, q, x, z, t);
    }
  }

  lemma ExecutionStep(steps: nat, secret: bool, x: bool, t: nat)
    requires t < steps
    ensures Observed(Execution(secret, x), HiddenNames(), steps)[t] ==
            Qifa.SmtValues([], [Bitvectors.Bit(!x)], [Bitvectors.Bit(secret)], [])
  {
    ObservedStep(Execution(secret, x), steps, t);
    assert [!x][1..] == [] && [secret][1..] == [];
    assert ToNat([!x]) == Bitvectors.Bit(!x) && ToNat([secret]) == Bitvectors.Bit(secret);
  }

  lemma ExecutionIsRun(i: Qifa.Instance, d: Design, steps: nat, secret: bool, x: bool, r: Qifa.Run)
    requires steps > 0 && d == Hidden() && i == InstanceOf(d, steps, HiddenNames())
    requires r == Observed(Execution(secret, x), HiddenNames(), steps)
    ensures i.IsRunOf(r, x, false) && Qifa.Admissible(i, r)
  {
    ExecutionSolves(d, steps, secret, x);
    forall t | 0 <= t < steps
      ensures r[t] == Qifa.SmtValues([], [Bitvectors.Bit(!x)], [Bitvectors.Bit(secret)], [])
    {
      ExecutionStep(steps, secret, x, t);
    }
    assert Admits(d, steps, HiddenNames(), r, x, false);
  }

  /** Two executions with different x are told apart. */
  lemma {:induction false} TwoExecutions(i: Qifa.Instance, d: Design, steps: nat)
    requires steps > 0 && d == Hidden() && i == InstanceOf(d, steps, HiddenNames())
    ensures QifaSearch.HasFamily(i, 2)
  {
    var r := Observed(Execution(false, false), HiddenNames(), steps);
    var q := Observed(Execution(true, true), HiddenNames(), steps);
    ExecutionIsRun(i, d, steps, false, false, r);
    ExecutionIsRun(i, d, steps, true, true, q);
    ToldApart(i, steps, r, q);
    var rs := [r, q];
    assert Qifa.Family(i, rs) && |rs| == 2;
  }

  lemma ToldApart(i: Qifa.Instance, steps: nat, r: Qifa.Run, q: Qifa.Run)
    requires steps > 0 && i.steps == steps && i.secrets == 1 && Qifa.Admissible(i, r) && Qifa.Admissible(i, q)
    requires r == Observed(Execution(false, false), HiddenNames(), steps)
    requires q == Observed(Execution(true, true), HiddenNames(), steps)
    ensures Qifa.SameControl(i, r, r) && Qifa.SameControl(i, r, q) && Qifa.Distinguished(i, r, q)
  {
    forall t | 0 <= t < steps
      ensures r[t] == Qifa.SmtValues([], [1], [0], []) && q[t] == Qifa.SmtValues([], [0], [1], [])
    {
      ExecutionStep(steps, false, false, t);
      ExecutionStep(steps, true, true, t);
    }
    assert r[0].outputs[0] != q[0].outputs[0];
  }

  // ----- the graph -----

  function HiddenLinks(): seq<Link> {
    [Link(Edge(0, 1, 0), NET_S), Link(Edge(2, 3, 0), NET_Y)]
  }

  lemma HiddenLinksOk(d: Design, links: seq<Link>, nets: seq<Net>)
    requires d == Hidden() && links == HiddenLinks() && nets == [NET_S, NET_Y]
    ensures forall k :: 0 <= k < |links| ==> LinkOk(d, nets, links[k])
  {
    HiddenVertices();
    RefusedDesign.SecondOf(NET_S, NET_Y);
    assert Sent(d[0])[0] == Id(2) && Sent(d[2])[0] == Id(3);
    assert Readers(d[1])[0].bits == [Id(2)] && Readers(d[3])[0].bits == [Id(3)];
    assert LinkOk(d, nets, links[0]) && LinkOk(d, nets, links[1]);
  }

  lemma HiddenShares(d: Design, e: Edge, b: Bit)
    requires d == Hidden() && e.source < |d| && InPorts(d, e.target, e.port)
    requires b.Id? && b in Sent(d[e.source]) && b in ReadBits(d, e)
    ensures e == Edge(0, 1, 0) || e == Edge(2, 3, 0)
  {
    HiddenVertices();
  }

  lemma HiddenIsGraph(d: Design, links: seq<Link>, nets: seq<Net>)
    requires d == Hidden() && links == HiddenLinks() && nets == [NET_S, NET_Y]
    ensures IsGraph(d, links, Flat(d, nets))
  {
    HiddenLinksOk(d, links, nets);
    forall e | IsEdge(d, e)
      ensures e in EdgesOf(links)
    {
      var b := SharedBit(d, e);
      HiddenShares(d, e, b);
      assert EdgesOf(links)[0] == Edge(0, 1, 0) && EdgesOf(links)[1] == Edge(2, 3, 0);
    }
    forall vi | 0 <= vi < |d|
      ensures d[vi].EdgesIn() == LinksInto(links, vi) && d[vi].EdgesOut() == LinksFrom(links, vi)
    {
      HiddenVertices();
      NextLink(links, 0, vi);
      NextLink(links, 1, vi);
    }
    GraphOf(d, links, nets);
  }

  /** One class is announced for every sound and decisive solver and any number of steps,
      although two executions of the design are told apart. */
  method UndefinedMisleads(i: Qifa.Instance, ghost d: Design, ghost steps: nat, maxClasses: nat, oracle: Qifa.Oracle,
                           single: Qifa.Oracle)
    returns (verdict: QifaSearch.Verdict, announced: nat)
    requires steps > 0 && d == Hidden() && i == InstanceOf(d, steps, HiddenNames()) && maxClasses >= 2
    requires Qifa.Sound(i, oracle) && Qifa.Sound(i, single) && Qifa.Decisive(oracle) && Qifa.Decisive(single)
    ensures IsGraph(d, HiddenLinks(), Flat(d, [NET_S, NET_Y]))
    ensures verdict == QifaSearch.WasUnsat && announced == 1
    ensures QifaSearch.HasFamily(i, 2) && !QifaSearch.IsMaximum(i, announced)
  {
    HiddenIsGraph(d, HiddenLinks(), [NET_S, NET_Y]);
    OneForAll(i, d, steps);
    TwoExecutions(i, d, steps);
    verdict, announced := QifaSearch.AnnouncesOne(i, maxClasses, oracle, single);
  }

  /** A design that reads no undefined bit: the search is only wrong without any run, and at
      the limit. */
  lemma DefinedSearchIff(d: Design, steps: nat, names: PortNames, maxClasses: nat)
    requires ReadsDefined(d) && steps > 0 && maxClasses >= 2
    ensures var i := InstanceOf(d, steps, names);
            (forall n: nat :: QifaSearch.CanAnnounce(i, maxClasses, n) ==> QifaSearch.IsMaximum(i, n)) <==>
              QifaSearch.HasRun(i) && (QifaSearch.HasStuck(i, maxClasses) ==> QifaSearch.AtMost(i, maxClasses))
  {
    DefinedIgnores(d, steps, names);
    QifaSearch.IgnoringExactIff(InstanceOf(d, steps, names), maxClasses);
  }
}
