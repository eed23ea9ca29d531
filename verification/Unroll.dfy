/** The instantiation graph as the SMT export sees it, the constraints that one
    export step adds to the solver, and the loops that build them. */
module Unroll {
  import opened Bitvectors
  import opened Cells
  import opened PortExpr

  datatype Port = Port(name: PortName, bits: seq<Bit>)

  /** A vertex with the nets of its in- and out-edges, in edge order. The ports of
      the top module have no cell around them: their own name is a signal. */
  datatype Vertex =
    | CellVertex(kind: Kind, ins: seq<Port>, out: seq<Bit>, inNets: seq<Net>, outNets: seq<Net>)
    | ModulePort(isInput: bool, inBits: seq<Bit>, outBits: seq<Bit>, inNets: seq<Net>, outNets: seq<Net>)
    | TopInput(name: Name, bits: seq<Bit>, outNets: seq<Net>)
    | TopOutput(name: Name, bits: seq<Bit>, inNets: seq<Net>)
  {
    predicate IsRegister() {
      CellVertex? && kind.HasRegister()
    }

    /** Vertices the export passes over at every time step. */
    predicate Skipped() {
      match this
      case CellVertex(_, _, _, _, outNets) => outNets == []
      case ModulePort(isInput, _, _, inNets, outNets) => if isInput then outNets == [] else inNets == []
      case TopInput(_, _, outNets) => outNets == []
      case TopOutput(_, _, inNets) => inNets == []
    }

    function Ins(): seq<Port> {
      match this
      case CellVertex(_, ins, _, _, _) => ins
      case ModulePort(_, inBits, _, _, _) => [Port(A, inBits)]
      case TopInput(_, bits, _) => [Port(A, bits)]
      case TopOutput(_, bits, _) => [Port(A, bits)]
    }

    function Outs(): seq<Bit> {
      match this
      case CellVertex(_, _, out, _, _) => out
      case ModulePort(_, _, outBits, _, _) => outBits
      case TopInput(_, bits, _) => bits
      case TopOutput(_, bits, _) => bits
    }

    function EdgesIn(): seq<Net> {
      if TopInput? then [] else inNets
    }

    function EdgesOut(): seq<Net> {
      if TopOutput? then [] else outNets
    }

    function Constants(): set<Bit> {
      if CellVertex? then CELL_CONSTANTS else MODULE_CONSTANTS
    }

    /** The expression an input port is read through. */
    function InExpr(bits: seq<Bit>): Expr {
      if TopInput? then Whole(name, |bits|)
      else Reassembled(if HasNonConstant(bits) then inNets else [], Constants(), bits)
    }

    /** The expression the value of the vertex is equated with. */
    function OutExpr(): Expr {
      if TopOutput? then Whole(name, |bits|) else Reassembled(outNets, NO_CONSTANTS, Outs())
    }

    function InMap(): map<PortName, Expr> {
      ExprsOf(this, Ins())
    }

    /** A module port whose two expressions are the same text adds no constraint. */
    predicate Trivial() {
      !CellVertex? && OutExpr() == InExpr(Ins()[0].bits)
    }

    predicate Live() {
      !Skipped() && !Trivial()
    }
  }

  predicate HasPort(ports: seq<Port>, p: PortName) {
    exists k :: 0 <= k < |ports| && ports[k].name == p
  }

  function PortBits(ports: seq<Port>, p: PortName): (bits: seq<Bit>)
    requires HasPort(ports, p)
    ensures exists k :: 0 <= k < |ports| && ports[k] == Port(p, bits)
  {
    if ports[0].name == p then
      assert ports[0] == Port(p, ports[0].bits);
      ports[0].bits
    else
      assert HasPort(ports[1..], p) by {
        var k :| 0 <= k < |ports| && ports[k].name == p;
        assert ports[1..][k - 1] == ports[k];
      }
      var bits := PortBits(ports[1..], p);
      assert exists k :: 0 <= k < |ports| && ports[k] == Port(p, bits) by {
        var k :| 0 <= k < |ports[1..]| && ports[1..][k] == Port(p, bits);
        assert ports[k + 1] == ports[1..][k];
      }
      bits
  }

  type Design = seq<Vertex>

  /** The step a vertex reads its inputs at: registers read the step before. */
  function InTime(vx: Vertex, t: nat): nat {
    if vx.IsRegister() && t > 0 then t - 1 else t
  }

  datatype Constraint =
    | CellConstraint(kind: Kind, ins: map<PortName, Expr>, inTime: nat, out: Expr, outTime: nat)
    | Connect(succ: Expr, pred: Expr, time: nat)

  function ValuesAt(a: Assignment, t: nat, ins: map<PortName, Expr>): Values {
    map p | p in ins :: Value(a, t, ins[p])
  }

  /** Q_prev: the same expression as Q, one step earlier. */
  function PrevValue(a: Assignment, k: Kind, out: Expr, outTime: nat): Bv {
    if k.HasEnable() && outTime > 0 then Value(a, outTime - 1, out) else []
  }

  predicate Satisfies(a: Assignment, c: Constraint) {
    match c
    case CellConstraint(k, ins, inTime, out, outTime) =>
      var v, y, q := ValuesAt(a, inTime, ins), Value(a, outTime, out), PrevValue(a, k, out, outTime);
      Accepted(k, v, |y|, |q|) && Assertion(k, v, y, q)
    case Connect(succ, pred, t) => Value(a, t, succ) == Value(a, t, pred)
  }

  // ----- specification of the export -----

  function VertexConstraints(vx: Vertex, t: nat): seq<Constraint> {
    if vx.Skipped() || (vx.IsRegister() && t == 0) then []
    else if vx.CellVertex? then
      [CellConstraint(vx.kind, vx.InMap(), InTime(vx, t), vx.OutExpr(), t)]
    else if vx.Trivial() then []
    else [Connect(vx.OutExpr(), vx.InExpr(vx.Ins()[0].bits), t)]
  }

  function ConcatUpTo<T>(f: nat -> seq<T>, n: nat): seq<T> {
    if n == 0 then [] else ConcatUpTo(f, n - 1) + f(n - 1)
  }

  function VerticesOf(d: Design, t: nat): nat -> seq<Constraint> {
    (vi: nat) => if vi < |d| then VertexConstraints(d[vi], t) else []
  }

  function StepConstraints(d: Design, t: nat): seq<Constraint> {
    ConcatUpTo(VerticesOf(d, t), |d|)
  }

  function StepsOf(d: Design): nat -> seq<Constraint> {
    (t: nat) => StepConstraints(d, t)
  }

  function AllConstraints(d: Design, steps: nat): seq<Constraint> {
    ConcatUpTo(StepsOf(d), steps)
  }

  /** The signals of one time step: every edge net and every connected top port. */
  function VertexNets(vx: Vertex): seq<Net> {
    match vx
    case TopInput(name, bits, outNets) => outNets + (if vx.Skipped() then [] else [Net(name, bits)])
    case TopOutput(name, bits, inNets) => inNets + (if vx.Skipped() then [] else [Net(name, bits)])
    case _ => vx.EdgesIn() + vx.EdgesOut()
  }

  ghost predicate IsNet(d: Design, net: Net) {
    exists vi :: 0 <= vi < |d| && net in VertexNets(d[vi])
  }

  ghost predicate OnEdge(d: Design, net: Net) {
    exists vi :: 0 <= vi < |d| && (net in d[vi].EdgesIn() || net in d[vi].EdgesOut())
  }

  // ----- the export loops -----

  datatype Exported = Exported(constraints: seq<Constraint>, declared: set<(Name, nat)>) | Failed

  function Names(nets: seq<Net>, t: nat): (s: set<(Name, nat)>)
    ensures forall k :: 0 <= k < |nets| ==> (nets[k].name, t) in s
  {
    set k | 0 <= k < |nets| :: (nets[k].name, t)
  }

  ghost predicate EdgesDeclared(d: Design, t: nat, declared: set<(Name, nat)>) {
    forall net :: OnEdge(d, net) ==> (net.name, t) in declared
  }

  /** A signal is declared for the net of every edge, once for each name. */
  method DeclareEdges(d: Design, t: nat, declared: set<(Name, nat)>) returns (declared': set<(Name, nat)>)
    ensures declared <= declared'
    ensures EdgesDeclared(d, t, declared')
  {
    declared' := declared;
    for vi := 0 to |d|
      invariant declared <= declared'
      invariant forall k, net :: 0 <= k < vi && (net in d[k].EdgesIn() || net in d[k].EdgesOut()) ==>
                (net.name, t) in declared'
    {
      var nets := d[vi].EdgesIn() + d[vi].EdgesOut();
      declared' := declared' + Names(nets, t);
      forall net | net in d[vi].EdgesIn() || net in d[vi].EdgesOut()
        ensures (net.name, t) in declared'
      {
        assert net in nets;
      }
    }
  }

  lemma PortMapAppend(vx: Vertex, ports: seq<Port>, p: Port)
    ensures forall n :: HasPort(ports + [p], n) <==> HasPort(ports, n) || n == p.name
    ensures forall n :: HasPort(ports, n) ==> PortBits(ports + [p], n) == PortBits(ports, n)
    ensures !HasPort(ports, p.name) ==> PortBits(ports + [p], p.name) == p.bits
  {
    forall n
      ensures HasPort(ports + [p], n) <==> HasPort(ports, n) || n == p.name
    {
      if HasPort(ports, n) {
        var k :| 0 <= k < |ports| && ports[k].name == n;
        assert (ports + [p])[k].name == n;
      }
      assert (ports + [p])[|ports|] == p;
    }
    forall n | HasPort(ports + [p], n)
      ensures PortBits(ports + [p], n) == if HasPort(ports, n) then PortBits(ports, n) else p.bits
    {
      PortBitsAppend(ports, p, n);
    }
  }

  lemma {:induction false} PortBitsAppend(ports: seq<Port>, p: Port, n: PortName)
    requires HasPort(ports + [p], n)
    ensures PortBits(ports + [p], n) == if HasPort(ports, n) then PortBits(ports, n) else p.bits
  {
    if |ports| > 0 {
      assert (ports + [p])[1..] == ports[1..] + [p];
      if ports[0].name != n {
        assert HasPort(ports[1..] + [p], n) by {
          var k :| 0 <= k < |ports + [p]| && (ports + [p])[k].name == n;
          assert (ports[1..] + [p])[k - 1].name == n;
        }
        assert HasPort(ports[1..], n) <==> HasPort(ports, n) by {
          if HasPort(ports, n) {
            var k :| 0 <= k < |ports| && ports[k].name == n;
            assert ports[1..][k - 1].name == n;
          }
          if HasPort(ports[1..], n) {
            var k :| 0 <= k < |ports[1..]| && ports[1..][k].name == n;
            assert ports[k + 1].name == n;
          }
        }
        PortBitsAppend(ports[1..], p, n);
      }
    }
  }

  // ----- when a vertex is exported -----

  /** No edge net consists of constants, and no output with edges does. */
  ghost predicate Clean(vx: Vertex) {
    (forall net :: net in vx.EdgesIn() || net in vx.EdgesOut() ==> HasNonConstant(net.bits)) &&
    (vx.EdgesOut() != [] ==> HasNonConstant(vx.Outs()))
  }

  ghost predicate AllClean(d: Design) {
    forall vi :: 0 <= vi < |d| ==> Clean(d[vi])
  }

  /** The output of a vertex is found on some net. */
  ghost predicate Emits(vx: Vertex) {
    if vx.TopOutput? then vx.bits != [] else Built(vx.outNets, NO_CONSTANTS, vx.Outs(), false)
  }

  /** An expression is built for an input port: a cell is content with constants of the
      port, a module port needs a bit from a net. */
  ghost predicate Reads(vx: Vertex, bits: seq<Bit>) {
    bits != [] &&
    (vx.TopInput? ||
     if HasNonConstant(bits) then Built(vx.inNets, vx.Constants(), bits, vx.CellVertex?)
     else Parts([], vx.Constants(), bits) != [])
  }

  function ExprWidths(ins: map<PortName, Expr>): map<PortName, nat> {
    map p | p in ins :: |Pieces(ins[p])|
  }

  /** The widths of the expressions fit the assertion of the vertex. */
  predicate Fits(vx: Vertex) {
    var w := |Pieces(vx.OutExpr())|;
    if vx.CellVertex? then
      |vx.ins| == vx.kind.Arity() &&
      AcceptedWidths(vx.kind, ExprWidths(vx.InMap()), w, if vx.kind.HasEnable() then w else 0)
    else w == |Pieces(vx.InExpr(vx.Ins()[0].bits))|
  }

  ghost predicate Builds(vx: Vertex) {
    Emits(vx) && ReadsUpTo(vx, |vx.Ins()|) && Fits(vx)
  }

  ghost predicate ReadsUpTo(vx: Vertex, n: nat) {
    forall i :: 0 <= i < n && i < |vx.Ins()| ==> Reads(vx, vx.Ins()[i].bits)
  }

  /** The signals that a vertex reads at step t are declared. */
  ghost predicate InReady(vx: Vertex, t: nat, declared: set<(Name, nat)>) {
    Clean(vx) && Declared(vx.EdgesIn(), InTime(vx, t), declared)
  }

  ghost predicate OutReady(vx: Vertex, t: nat, declared: set<(Name, nat)>) {
    Clean(vx) && Declared(vx.EdgesOut(), t, declared) && (t > 0 ==> Declared(vx.EdgesOut(), t - 1, declared))
  }

  ghost predicate StepReady(d: Design, t: nat, declared: set<(Name, nat)>) {
    AllClean(d) && (t > 0 ==> EdgesDeclared(d, t - 1, declared))
  }

  ghost predicate Exports(vx: Vertex, t: nat) {
    vx.Skipped() || (vx.IsRegister() && t == 0) || Builds(vx)
  }

  /** A vertex that makes the export of some step fail; registers are first exported at
      the second step. */
  ghost predicate Refused(vx: Vertex, steps: nat) {
    !vx.Skipped() && steps > (if vx.IsRegister() then 1 else 0) && !Builds(vx)
  }

  ghost predicate StepExports(d: Design, t: nat, n: nat) {
    forall k :: 0 <= k < n && k < |d| ==> Exports(d[k], t)
  }

  ghost predicate NoneRefused(d: Design, steps: nat) {
    forall k :: 0 <= k < |d| ==> !Refused(d[k], steps)
  }

  lemma OneMoreStep(d: Design, t: nat)
    ensures NoneRefused(d, t + 1) <==> NoneRefused(d, t) && StepExports(d, t, |d|)
    ensures NoneRefused(d, 0)
  {
    forall k | 0 <= k < |d|
      ensures !Refused(d[k], t + 1) <==> !Refused(d[k], t) && Exports(d[k], t)
    {
    }
  }

  lemma {:induction false} RefusedLater(d: Design, t: nat, steps: nat)
    requires t <= steps && NoneRefused(d, steps)
    ensures NoneRefused(d, t)
  {
    forall k | 0 <= k < |d|
      ensures !Refused(d[k], t)
    {
      assert !Refused(d[k], steps);
    }
  }

  ghost predicate Declared(nets: seq<Net>, t: nat, declared: set<(Name, nat)>) {
    forall net :: net in nets ==> (net.name, t) in declared
  }

  /** A port with constants only. */
  method ConstantExpression(constants: set<Bit>, preset: seq<Bit>, bits: seq<Bit>) returns (r: Outcome<Expr>)
    requires bits != [] && !HasNonConstant(bits) && Distinct(preset)
    requires (forall b :: b in preset ==> b.IsConstant()) && constants == set b | b in preset
    ensures r == if Parts([], constants, bits) == [] then NoPieces else Ok(Reassembled([], constants, bits))
    ensures r.Ok? ==> forall time, declared :: UsesDeclared(r.value, time, declared)
  {
    var pieces: seq<Piece> := seq(|preset|, i requires 0 <= i < |preset| => ConstantPiece(preset[i]));
    assert Collected(pieces, {}, preset, [], constants, bits);
    var sorted := SortExprVector(pieces, preset, bits, {}, [], constants);
    forall time, declared
      ensures UsesDeclared(Concat(sorted), time, declared)
    {
      PartsDeclared([], constants, bits, time, declared);
      ConcatDeclared(sorted, time, declared);
    }
    r := if sorted == [] then NoPieces else Ok(Concat(sorted));
  }

  predicate Distinct(bits: seq<Bit>) {
    forall i, j :: 0 <= i < j < |bits| ==> bits[i] != bits[j]
  }

  method InputExpression(vx: Vertex, time: nat, bits: seq<Bit>, declared: set<(Name, nat)>) returns (r: Outcome<Expr>)
    requires !vx.TopInput?
    ensures r.Ok? ==> r.value == vx.InExpr(bits) && UsesDeclared(r.value, time, declared)
    ensures Clean(vx) && Declared(vx.EdgesIn(), time, declared) ==> (r.Ok? <==> Reads(vx, bits))
  {
    var preset := if vx.CellVertex? then [Const1, Const0, ConstX, ConstZ] else [Const1, Const0, ConstX];
    assert vx.Constants() == set b | b in preset;
    if HasNonConstant(bits) {
      r := PortExpression(vx.inNets, time, bits, vx.Constants(), preset, false, 4, declared);
    } else if bits != [] {
      r := ConstantExpression(vx.Constants(), preset, bits);
    } else {
      r := Absent;
    }
  }

  function ExprsOf(vx: Vertex, ports: seq<Port>): map<PortName, Expr> {
    map p | HasPort(ports, p) :: vx.InExpr(PortBits(ports, p))
  }

  /** insert does not overwrite an entry of an earlier port with the same name. */
  lemma ExprsOfAppend(vx: Vertex, ports: seq<Port>, p: Port, longer: seq<Port>)
    requires longer == ports + [p]
    ensures ExprsOf(vx, longer) ==
            if p.name in ExprsOf(vx, ports) then ExprsOf(vx, ports)
            else ExprsOf(vx, ports)[p.name := vx.InExpr(p.bits)]
  {
    PortMapAppend(vx, ports, p);
  }

  /** The port map reads declared signals. */
  predicate MapDeclared(portMap: map<PortName, Expr>, time: nat, declared: set<(Name, nat)>) {
    forall p :: p in portMap ==> UsesDeclared(portMap[p], time, declared)
  }

  /** All signals of a constraint have been declared at the steps at which it mentions them;
      a register that may hold mentions its output at the step before as well. */
  predicate ConstraintDeclared(c: Constraint, declared: set<(Name, nat)>) {
    match c
    case CellConstraint(kind, ins, inTime, out, outTime) =>
      MapDeclared(ins, inTime, declared) && UsesDeclared(out, outTime, declared) &&
      (kind.HasEnable() && outTime > 0 ==> UsesDeclared(out, outTime - 1, declared))
    case Connect(succ, pred, time) => UsesDeclared(succ, time, declared) && UsesDeclared(pred, time, declared)
  }

  predicate AllDeclared(constraints: seq<Constraint>, declared: set<(Name, nat)>) {
    forall c :: c in constraints ==> ConstraintDeclared(c, declared)
  }

  /** More constraints and declarations, still with all signals declared. */
  ghost predicate Grown(constraints: seq<Constraint>, declared: set<(Name, nat)>, more: seq<Constraint>,
                        declared': set<(Name, nat)>)
  {
    declared <= declared' && (AllDeclared(constraints, declared) ==> AllDeclared(more, declared'))
  }

  lemma GrownBy(constraints: seq<Constraint>, added: seq<Constraint>, declared: set<(Name, nat)>,
                declared': set<(Name, nat)>)
    requires declared <= declared' && AllDeclared(added, declared')
    ensures Grown(constraints, declared, constraints + added, declared')
    ensures Grown(constraints, declared, constraints, declared')
  {
    if AllDeclared(constraints, declared) {
      AllDeclaredMore(constraints, added, declared, declared');
      AllDeclaredMore(constraints, [], declared, declared');
      assert constraints + [] == constraints;
    }
  }

  lemma GrownFurther(constraints: seq<Constraint>, declared: set<(Name, nat)>, more: seq<Constraint>,
                     declared': set<(Name, nat)>, most: seq<Constraint>, declared'': set<(Name, nat)>)
    requires Grown(constraints, declared, more, declared') && Grown(more, declared', most, declared'')
    ensures Grown(constraints, declared, most, declared'')
  {
  }

  lemma DeclaredMore(c: Constraint, declared: set<(Name, nat)>, more: set<(Name, nat)>)
    requires ConstraintDeclared(c, declared) && declared <= more
    ensures ConstraintDeclared(c, more)
  {
  }

  lemma CellDeclared(vx: Vertex, t: nat, portMap: map<PortName, Expr>, out: Expr, declared: set<(Name, nat)>)
    requires vx.CellVertex? && MapDeclared(portMap, InTime(vx, t), declared) && UsesDeclared(out, t, declared)
    requires vx.kind.HasEnable() && t > 0 ==> UsesDeclared(out, t - 1, declared)
    ensures AllDeclared([CellConstraint(vx.kind, portMap, InTime(vx, t), out, t)], declared)
  {
    assert ConstraintDeclared(CellConstraint(vx.kind, portMap, InTime(vx, t), out, t), declared);
  }

  lemma AllDeclaredMore(constraints: seq<Constraint>, added: seq<Constraint>, declared: set<(Name, nat)>,
                        more: set<(Name, nat)>)
    requires AllDeclared(constraints, declared) && AllDeclared(added, more) && declared <= more
    ensures AllDeclared(constraints + added, more)
  {
    forall c | c in constraints + added
      ensures ConstraintDeclared(c, more)
    {
      if c in constraints {
        DeclaredMore(c, declared, more);
      }
    }
  }

  /** The entry that one input port of a cell adds to the port map. */
  method CellPredecessor(vx: Vertex, t: nat, k: nat, portMap: map<PortName, Expr>, declared: set<(Name, nat)>)
    returns (ok: bool, portMap': map<PortName, Expr>)
    requires vx.CellVertex? && k < |vx.ins|
    requires MapDeclared(portMap, InTime(vx, t), declared)
    ensures ok ==>
              portMap' == if vx.ins[k].name in portMap then portMap
                          else portMap[vx.ins[k].name := vx.InExpr(vx.ins[k].bits)]
    ensures ok ==> MapDeclared(portMap', InTime(vx, t), declared)
    ensures InReady(vx, t, declared) ==> (ok <==> Reads(vx, vx.ins[k].bits))
    ensures InReady(vx, t, declared) ==> (ReadsUpTo(vx, k + 1) <==> ReadsUpTo(vx, k) && ok)
  {
    var port := vx.ins[k];
    var time := t;
    if vx.IsRegister() && t > 0 {
      time := t - 1;
    }
    assert port in vx.Ins();
    var e := InputExpression(vx, time, port.bits, declared);
    if !e.Ok? {
      return false, portMap;
    }
    ok, portMap' := true, if port.name in portMap then portMap else portMap[port.name := e.value];
  }

  lemma ReadsFewer(vx: Vertex, n: nat)
    requires n <= |vx.Ins()|
    ensures ReadsUpTo(vx, |vx.Ins()|) ==> ReadsUpTo(vx, n)
  {
  }

  /** The predecessor expressions of all input ports of a cell. */
  method CellPredecessors(vx: Vertex, t: nat, declared: set<(Name, nat)>)
    returns (ok: bool, portMap: map<PortName, Expr>)
    requires vx.CellVertex?
    ensures ok ==> portMap == vx.InMap() && MapDeclared(portMap, InTime(vx, t), declared)
    ensures InReady(vx, t, declared) ==> (ok <==> ReadsUpTo(vx, |vx.ins|))
  {
    ok, portMap := true, map[];
    assert portMap == ExprsOf(vx, vx.ins[..0]);
    for k := 0 to |vx.ins|
      invariant ok && portMap == ExprsOf(vx, vx.ins[..k]) && MapDeclared(portMap, InTime(vx, t), declared)
      invariant InReady(vx, t, declared) ==> ReadsUpTo(vx, k)
    {
      ExprsOfAppend(vx, vx.ins[..k], vx.ins[k], vx.ins[..k + 1]);
      ok, portMap := CellPredecessor(vx, t, k, portMap, declared);
      if !ok {
        ReadsFewer(vx, k + 1);
        return;
      }
    }
    assert vx.ins[..|vx.ins|] == vx.ins;
  }

  lemma {:induction false} NoNets(bits: seq<Bit>)
    ensures Parts([], NO_CONSTANTS, bits) == []
  {
    if |bits| > 0 {
      NoNets(bits[1..]);
    }
  }

  /** The expression that the output of a vertex is spread over. */
  method OutputExpression(vx: Vertex, t: nat, declared: set<(Name, nat)>) returns (r: Outcome<Expr>)
    requires !vx.TopOutput?
    ensures r.Ok? ==> r.value == vx.OutExpr() && UsesDeclared(r.value, t, declared)
    ensures Clean(vx) && Declared(vx.EdgesOut(), t, declared) ==> (r.Ok? <==> Emits(vx))
  {
    NoNets(vx.Outs());
    assert NO_CONSTANTS == set b | b in [];
    r := PortExpression(vx.outNets, t, vx.Outs(), NO_CONSTANTS, [], vx.CellVertex?, 1, declared);
  }

  ghost predicate VertexReady(vx: Vertex, t: nat, declared: set<(Name, nat)>) {
    Clean(vx) && Declared(vx.EdgesIn() + vx.EdgesOut(), t, declared) &&
    (t > 0 ==> Declared(vx.EdgesIn() + vx.EdgesOut(), t - 1, declared))
  }

  method CellFits(vx: Vertex, portMap: map<PortName, Expr>, width: nat, prevWidth: nat) returns (ok: bool)
    requires vx.CellVertex? && portMap == vx.InMap() && width == |Pieces(vx.OutExpr())|
    requires prevWidth == if vx.kind.HasEnable() then width else 0
    ensures ok <==> Fits(vx)
  {
    ok := |vx.ins| == vx.kind.Arity() && AcceptedWidths(vx.kind, ExprWidths(portMap), width, prevWidth);
  }

  /** A cell that is not passed over. Its assertion cannot be built when a port is missing
      or too many, when the sorts of the words do not fit, and when the operator refuses
      their signs. */
  method ExportCell(vx: Vertex, t: nat, declared: set<(Name, nat)>) returns (r: Exported)
    requires vx.CellVertex? && !vx.Skipped() && !(vx.IsRegister() && t == 0)
    ensures r.Exported? ==> r.constraints == VertexConstraints(vx, t) && r.declared == declared
    ensures r.Exported? ==> AllDeclared(r.constraints, r.declared)
    ensures VertexReady(vx, t, declared) ==> (r.Exported? <==> Builds(vx))
  {
    CellReady(vx, t, declared);
    var emitted, out, prevWidth := CellOutputs(vx, t, declared);
    if !emitted {
      return Failed;
    }
    var ok, portMap := CellPredecessors(vx, t, declared);
    if !ok {
      return Failed;
    }
    var fits := CellFits(vx, portMap, |Pieces(out)|, prevWidth);
    if !fits {
      return Failed;
    }
    r := Exported([CellConstraint(vx.kind, portMap, InTime(vx, t), out, t)], declared);
    CellDeclared(vx, t, portMap, out, declared);
  }

  /** The output at this step and, for the registers that hold, at the step before. */
  method CellOutputs(vx: Vertex, t: nat, declared: set<(Name, nat)>) returns (ok: bool, out: Expr, prevWidth: nat)
    requires vx.CellVertex? && (vx.kind.HasEnable() ==> t > 0)
    ensures ok ==> out == vx.OutExpr() && prevWidth == if vx.kind.HasEnable() then |Pieces(vx.OutExpr())| else 0
    ensures ok ==> UsesDeclared(out, t, declared)
    ensures ok && vx.kind.HasEnable() ==> UsesDeclared(out, t - 1, declared)
    ensures OutReady(vx, t, declared) ==> (ok <==> Emits(vx))
  {
    ok, out, prevWidth := false, Concat([]), 0;
    var now := OutputExpression(vx, t, declared);
    if !now.Ok? {
      return;
    }
    if vx.kind.HasEnable() && t >= 1 {
      var prev := OutputExpression(vx, t - 1, declared);
      if !prev.Ok? {
        return;
      }
      prevWidth := |Pieces(prev.value)|;
    }
    ok, out := true, now.value;
  }

  lemma CellReady(vx: Vertex, t: nat, declared: set<(Name, nat)>)
    ensures VertexReady(vx, t, declared) ==> InReady(vx, t, declared) && OutReady(vx, t, declared)
  {
  }

  /** A module port that is not passed over: two words of one width. */
  method ExportPort(vx: Vertex, t: nat, declared: set<(Name, nat)>) returns (r: Exported)
    requires !vx.CellVertex? && !vx.Skipped()
    ensures r.Exported? ==> r.constraints == VertexConstraints(vx, t) && declared <= r.declared
    ensures r.Exported? ==> AllDeclared(r.constraints, r.declared)
    ensures VertexReady(vx, t, declared) ==> (r.Exported? <==> Builds(vx))
  {
    assert vx.Ins() == [vx.Ins()[0]];
    var declared' := declared;
    if vx.TopInput? || vx.TopOutput? {
      if vx.bits == [] {
        return Failed;
      }
      declared' := declared' + {(vx.name, t)};
    }
    var succ: Outcome<Expr> := Absent;
    if vx.TopOutput? {
      succ := Ok(Whole(vx.name, |vx.bits|));
    } else {
      succ := OutputExpression(vx, t, declared');
    }
    var pred: Outcome<Expr> := Absent;
    if vx.TopInput? {
      pred := Ok(Whole(vx.name, |vx.bits|));
    } else {
      pred := InputExpression(vx, t, vx.Ins()[0].bits, declared');
    }
    if !succ.Ok? || !pred.Ok? {
      return Failed;
    }
    if succ.value == pred.value {
      return Exported([], declared');
    }
    if |Pieces(succ.value)| != |Pieces(pred.value)| {
      return Failed;
    }
    return Exported([Connect(succ.value, pred.value, t)], declared');
  }

  /** One vertex of export_smt2. */
  method ExportVertex(vx: Vertex, t: nat, declared: set<(Name, nat)>) returns (r: Exported)
    ensures r.Exported? ==> r.constraints == VertexConstraints(vx, t) && declared <= r.declared
    ensures r.Exported? ==> AllDeclared(r.constraints, r.declared)
    ensures VertexReady(vx, t, declared) ==> (r.Exported? <==> Exports(vx, t))
  {
    if vx.IsRegister() && t == 0 {
      return Exported([], declared);
    }
    if vx.Skipped() {
      return Exported([], declared);
    }
    if vx.CellVertex? {
      r := ExportCell(vx, t, declared);
    } else {
      r := ExportPort(vx, t, declared);
    }
  }

  lemma VertexDeclared(d: Design, t: nat, vi: nat, declared: set<(Name, nat)>)
    requires vi < |d| && EdgesDeclared(d, t, declared)
    ensures Declared(d[vi].EdgesIn() + d[vi].EdgesOut(), t, declared)
  {
    forall net | net in d[vi].EdgesIn() + d[vi].EdgesOut()
      ensures (net.name, t) in declared
    {
      assert OnEdge(d, net);
    }
  }

  lemma VertexIsReady(d: Design, t: nat, vi: nat, declared: set<(Name, nat)>)
    requires vi < |d| && StepReady(d, t, declared) && EdgesDeclared(d, t, declared)
    ensures VertexReady(d[vi], t, declared)
  {
    VertexDeclared(d, t, vi, declared);
    if t > 0 {
      VertexDeclared(d, t - 1, vi, declared);
    }
  }

  lemma NextExports(d: Design, t: nat, vi: nat)
    requires vi < |d|
    ensures StepExports(d, t, vi + 1) <==> StepExports(d, t, vi) && Exports(d[vi], t)
    ensures StepExports(d, t, |d|) ==> Exports(d[vi], t)
  {
  }

  lemma ReadyStays(d: Design, t: nat, declared: set<(Name, nat)>, more: set<(Name, nat)>)
    requires declared <= more
    ensures StepReady(d, t, declared) ==> StepReady(d, t, more)
    ensures EdgesDeclared(d, t, declared) ==> EdgesDeclared(d, t, more)
  {
  }

  /** The result after the first vi vertices of a step. */
  ghost predicate StepUpTo(d: Design, t: nat, constraints: seq<Constraint>, declared: set<(Name, nat)>, vi: nat,
                           r: Exported)
  {
    r.Exported? && r.constraints == constraints + ConcatUpTo(VerticesOf(d, t), vi) && EdgesDeclared(d, t, r.declared) &&
    Grown(constraints, declared, r.constraints, r.declared) &&
    (StepReady(d, t, declared) ==> StepReady(d, t, r.declared) && StepExports(d, t, vi))
  }

  lemma ConcatNext(d: Design, t: nat, constraints: seq<Constraint>, vi: nat)
    requires vi < |d|
    ensures constraints + ConcatUpTo(VerticesOf(d, t), vi + 1) ==
            (constraints + ConcatUpTo(VerticesOf(d, t), vi)) + VertexConstraints(d[vi], t)
  {
    assert VerticesOf(d, t)(vi) == VertexConstraints(d[vi], t);
  }

  lemma StepGrows(d: Design, t: nat, constraints: seq<Constraint>, declared: set<(Name, nat)>, vi: nat,
                  before: Exported, e: Exported)
    requires vi < |d| && StepUpTo(d, t, constraints, declared, vi, before)
    requires e.Exported? && e.constraints == VertexConstraints(d[vi], t) && before.declared <= e.declared
    requires AllDeclared(e.constraints, e.declared) && (StepReady(d, t, declared) ==> Exports(d[vi], t))
    ensures StepUpTo(d, t, constraints, declared, vi + 1, Exported(before.constraints + e.constraints, e.declared))
  {
    ConcatNext(d, t, constraints, vi);
    NextExports(d, t, vi);
    ReadyStays(d, t, before.declared, e.declared);
    GrownBy(before.constraints, e.constraints, before.declared, e.declared);
    GrownFurther(constraints, declared, before.constraints, before.declared,
      before.constraints + e.constraints, e.declared);
  }

  lemma StepStarts(d: Design, t: nat, constraints: seq<Constraint>, declared: set<(Name, nat)>,
                   declared': set<(Name, nat)>)
    requires declared <= declared' && EdgesDeclared(d, t, declared')
    ensures StepUpTo(d, t, constraints, declared, 0, Exported(constraints, declared'))
  {
    assert constraints + ConcatUpTo(VerticesOf(d, t), 0) == constraints;
    GrownBy(constraints, [], declared, declared');
    ReadyStays(d, t, declared, declared');
  }

  lemma StepEnds(d: Design, t: nat, constraints: seq<Constraint>, declared: set<(Name, nat)>, r: Exported)
    requires StepUpTo(d, t, constraints, declared, |d|, r)
    ensures r.constraints == constraints + StepConstraints(d, t) && EdgesDeclared(d, t, r.declared)
    ensures Grown(constraints, declared, r.constraints, r.declared)
    ensures StepReady(d, t, declared) ==> StepExports(d, t, |d|)
  {
  }

  /** One call of export_smt2. */
  method ExportStep(d: Design, t: nat, constraints: seq<Constraint>, declared: set<(Name, nat)>) returns (r: Exported)
    ensures r.Exported? ==> r.constraints == constraints + StepConstraints(d, t)
    ensures r.Exported? ==> EdgesDeclared(d, t, r.declared) && Grown(constraints, declared, r.constraints, r.declared)
    ensures StepReady(d, t, declared) ==> (r.Exported? <==> StepExports(d, t, |d|))
  {
    var declared' := DeclareEdges(d, t, declared);
    r := Exported(constraints, declared');
    StepStarts(d, t, constraints, declared, declared');
    for vi := 0 to |d|
      invariant StepUpTo(d, t, constraints, declared, vi, r)
    {
      r := ExportNext(d, t, vi, constraints, declared, r);
      if r.Failed? {
        return;
      }
    }
    StepEnds(d, t, constraints, declared, r);
  }

  /** One more vertex of the step. */
  method ExportNext(d: Design, t: nat, vi: nat, ghost constraints: seq<Constraint>, ghost declared: set<(Name, nat)>,
                    before: Exported)
    returns (r: Exported)
    requires vi < |d| && StepUpTo(d, t, constraints, declared, vi, before)
    ensures r.Exported? ==> StepUpTo(d, t, constraints, declared, vi + 1, r)
    ensures StepReady(d, t, declared) && r.Failed? ==> !StepExports(d, t, |d|)
  {
    if StepReady(d, t, declared) {
      VertexIsReady(d, t, vi, before.declared);
    }
    NextExports(d, t, vi);
    var e := ExportVertex(d[vi], t, before.declared);
    if e.Failed? {
      return Failed;
    }
    StepGrows(d, t, constraints, declared, vi, before, e);
    r := Exported(before.constraints + e.constraints, e.declared);
  }

  /** create_unrolled_instance: all steps into one solver, with one name table. The signals
      of the previous step, which registers read, are already declared, so that it depends
      on the vertices alone whether a step fails. */
  method CreateUnrolledInstance(d: Design, unrollFactor: nat) returns (r: Exported)
    ensures r.Exported? ==> r.constraints == AllConstraints(d, unrollFactor) && AllDeclared(r.constraints, r.declared)
    ensures AllClean(d) ==> (r.Exported? <==> NoneRefused(d, unrollFactor))
  {
    r := Exported([], {});
    for time := 0 to unrollFactor
      invariant r.Exported? && r.constraints == AllConstraints(d, time) && AllDeclared(r.constraints, r.declared)
      invariant time > 0 ==> EdgesDeclared(d, time - 1, r.declared)
      invariant AllClean(d) ==> NoneRefused(d, time)
    {
      OneMoreStep(d, time);
      r := ExportStep(d, time, r.constraints, r.declared);
      if r.Failed? {
        if NoneRefused(d, unrollFactor) {
          RefusedLater(d, time + 1, unrollFactor);
        }
        return;
      }
    }
  }
}
