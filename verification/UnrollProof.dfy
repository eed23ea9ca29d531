/** Every choice of values for the positions that no vertex drives extends to
    exactly one solution of the unrolled constraints. */
module UnrollProof {
  import opened Bitvectors
  import opened Cells
  import opened PortExpr
  import opened Unroll

  /** A position of a signal: its name and the index of the bit. */
  type Slot = (Name, nat)

  // ----- well-formed designs -----

  ghost predicate Readable(vx: Vertex, bits: seq<Bit>) {
    |bits| > 0 &&
    (vx.TopInput? ||
     var nets := if HasNonConstant(bits) then vx.inNets else [];
     ExactMatch(nets, bits) >= 0 || Covered(nets, vx.Constants(), bits))
  }

  /** Words with the widths of the input ports. */
  ghost predicate HasWidths(ports: seq<Port>, v: Values) {
    forall p :: (p in v <==> HasPort(ports, p)) && (p in v ==> |v[p]| == |PortBits(ports, p)|)
  }

  /** The widths of the ports fit the type of the cell. */
  ghost predicate CellTyped(k: Kind, ports: seq<Port>, w: nat) {
    forall v: Values, wp: nat :: HasWidths(ports, v) && (k.HasEnable() ==> wp == w) ==> Typed(k, v, w, wp)
  }

  ghost predicate VertexOk(vx: Vertex) {
    |vx.Outs()| > 0 &&
    (!vx.TopOutput? ==>
       Distinct(vx.Outs()) && (forall i :: 0 <= i < |vx.Outs()| ==> vx.Outs()[i].Id?) &&
       Covered(vx.outNets, NO_CONSTANTS, vx.Outs())) &&
    (forall p :: HasPort(vx.Ins(), p) ==> Readable(vx, PortBits(vx.Ins(), p))) &&
    (if vx.CellVertex? then CellTyped(vx.kind, vx.ins, |vx.out|)
     else |vx.Ins()[0].bits| == |vx.Outs()|)
  }

  ghost predicate Drives(vx: Vertex, id: nat) {
    !vx.TopOutput? && Id(id) in vx.Outs()
  }

  /** Signals with one name are one signal. */
  ghost predicate ConsistentNames(d: Design) {
    forall m, n :: IsNet(d, m) && IsNet(d, n) && m.name == n.name ==> m.bits == n.bits
  }

  ghost predicate SingleDriver(d: Design) {
    forall vi, vj, id :: 0 <= vi < |d| && 0 <= vj < |d| && Drives(d[vi], id) && Drives(d[vj], id) ==> vi == vj
  }

  /** No combinational cycle: the inputs of a vertex that is not a register are
      driven at lower levels. */
  ghost predicate Levelled(d: Design, lv: seq<nat>) {
    |lv| == |d| &&
    forall vi, u, p, id :: 0 <= vi < |d| && 0 <= u < |d| && !d[vi].IsRegister() && !d[vi].TopInput? &&
                           HasPort(d[vi].Ins(), p) && Id(id) in PortBits(d[vi].Ins(), p) && Drives(d[u], id)
                           ==> lv[u] < lv[vi]
  }

  predicate IsTop(vx: Vertex) {
    vx.TopInput? || vx.TopOutput?
  }

  /** Ports of the top module have names of their own; where an edge carries the
      signal of that name, the port adds no constraint. */
  ghost predicate TopNames(d: Design) {
    (forall vi, vj ::
       0 <= vi < |d| && 0 <= vj < |d| && IsTop(d[vi]) && IsTop(d[vj]) && d[vi].name == d[vj].name ==> vi == vj) &&
    (forall vi, net ::
       0 <= vi < |d| && IsTop(d[vi]) && !d[vi].Skipped() && OnEdge(d, net) && net.name == d[vi].name ==>
         d[vi].Trivial())
  }

  ghost predicate WellFormed(d: Design, lv: seq<nat>) {
    ConsistentNames(d) && SingleDriver(d) && Levelled(d, lv) && TopNames(d) &&
    forall vi {:trigger VertexOk(d[vi])} :: 0 <= vi < |d| && !d[vi].Skipped() ==> VertexOk(d[vi])
  }

  // ----- solutions -----

  ghost predicate Shaped(d: Design, steps: nat, a: Assignment) {
    forall net, t: nat :: IsNet(d, net) && t < steps ==> |a.vars(net.name, t)| == |net.bits|
  }

  ghost predicate AllSatisfied(a: Assignment, cs: seq<Constraint>) {
    forall c :: c in cs ==> Satisfies(a, c)
  }

  ghost predicate Solution(d: Design, steps: nat, a: Assignment) {
    Shaped(d, steps, a) && AllSatisfied(a, AllConstraints(d, steps))
  }

  ghost predicate VertexHolds(vx: Vertex, t: nat, a: Assignment) {
    AllSatisfied(a, VertexConstraints(vx, t))
  }

  lemma {:induction false} ConcatMember<T>(f: nat -> seq<T>, n: nat, x: T)
    ensures x in ConcatUpTo(f, n) <==> exists i: nat :: i < n && x in f(i)
  {
    if n > 0 {
      ConcatMember(f, n - 1, x);
      if i: nat :| i < n && x in f(i) {
        assert i == n - 1 || i < n - 1;
      }
    }
  }

  lemma {:induction false} Member(d: Design, steps: nat, c: Constraint)
    ensures c in AllConstraints(d, steps)
       <==> exists t: nat, vi: nat :: t < steps && vi < |d| && c in VertexConstraints(d[vi], t)
  {
    ConcatMember(StepsOf(d), steps, c);
    forall t: nat
      ensures c in StepConstraints(d, t) <==> exists vi: nat :: vi < |d| && c in VerticesOf(d, t)(vi)
    {
      ConcatMember(VerticesOf(d, t), |d|, c);
    }
    if c in AllConstraints(d, steps) {
      var t: nat :| t < steps && c in StepsOf(d)(t);
      assert c in StepConstraints(d, t);
      var vi: nat :| vi < |d| && c in VerticesOf(d, t)(vi);
      assert c in VertexConstraints(d[vi], t);
    }
    if t: nat, vi: nat :| t < steps && vi < |d| && c in VertexConstraints(d[vi], t) {
      assert c in VerticesOf(d, t)(vi);
      assert c in StepsOf(d)(t);
    }
  }

  lemma {:induction false} AllHold(d: Design, steps: nat, a: Assignment)
    ensures AllSatisfied(a, AllConstraints(d, steps))
       <==> forall t: nat, vi :: t < steps && 0 <= vi < |d| ==> VertexHolds(d[vi], t, a)
  {
    if AllSatisfied(a, AllConstraints(d, steps)) {
      forall t: nat, vi | t < steps && 0 <= vi < |d|
        ensures VertexHolds(d[vi], t, a)
      {
        forall c | c in VertexConstraints(d[vi], t)
          ensures c in AllConstraints(d, steps)
        {
          Member(d, steps, c);
        }
      }
    }
    if forall t: nat, vi :: t < steps && 0 <= vi < |d| ==> VertexHolds(d[vi], t, a) {
      forall c | c in AllConstraints(d, steps)
        ensures Satisfies(a, c)
      {
        Member(d, steps, c);
        var t: nat, vi: nat :| t < steps && vi < |d| && c in VertexConstraints(d[vi], t);
        assert VertexHolds(d[vi], t, a);
      }
    }
  }

  // ----- one vertex -----

  function VertexValue(vx: Vertex, vals: Values, prev: Bv): Bv {
    if vx.CellVertex? then
      if Typed(vx.kind, vals, |vx.out|, |prev|) then Eval(vx.kind, vals, |vx.out|, prev) else []
    else Arg(vals, A)
  }

  function At(b: Bv, i: nat): bool {
    i < |b| && b[i]
  }

  lemma {:induction false} InWidth(vx: Vertex, bits: seq<Bit>)
    requires Readable(vx, bits)
    ensures |Pieces(vx.InExpr(bits))| == |bits|
  {
    if !vx.TopInput? {
      WidthExact(if HasNonConstant(bits) then vx.inNets else [], vx.Constants(), bits);
    }
  }

  lemma {:induction false} OutWidth(vx: Vertex)
    requires VertexOk(vx)
    ensures |Pieces(vx.OutExpr())| == |vx.Outs()|
  {
    if !vx.TopOutput? {
      WidthExact(vx.outNets, NO_CONSTANTS, vx.Outs());
    }
  }

  lemma {:induction false} InsTyped(vx: Vertex, a: Assignment, t: nat, wp: nat)
    requires VertexOk(vx) && vx.CellVertex?
    requires vx.kind.HasEnable() ==> wp == |vx.out|
    ensures Typed(vx.kind, ValuesAt(a, t, vx.InMap()), |vx.out|, wp)
  {
    var v := ValuesAt(a, t, vx.InMap());
    forall p | p in v
      ensures HasPort(vx.ins, p) && |v[p]| == |PortBits(vx.ins, p)|
    {
      InWidth(vx, PortBits(vx.ins, p));
    }
    assert HasWidths(vx.ins, v);
  }

  ghost predicate Running(vx: Vertex, t: nat) {
    !vx.Skipped() && !(vx.IsRegister() && t == 0)
  }

  function Incoming(vx: Vertex, a: Assignment, t: nat): Values {
    ValuesAt(a, InTime(vx, t), vx.InMap())
  }

  function Previous(vx: Vertex, a: Assignment, t: nat): Bv {
    if vx.CellVertex? then PrevValue(a, vx.kind, vx.OutExpr(), t) else []
  }

  /** The constraint of a vertex says that its output expression has the value
      that the vertex computes from its input expressions. */
  lemma {:induction false} VertexMeaning(vx: Vertex, t: nat, a: Assignment)
    requires VertexOk(vx) && Running(vx, t)
    ensures VertexHolds(vx, t, a) <==>
            Value(a, t, vx.OutExpr()) == VertexValue(vx, Incoming(vx, a, t), Previous(vx, a, t))
    ensures |VertexValue(vx, Incoming(vx, a, t), Previous(vx, a, t))| == |vx.Outs()|
  {
    OutWidth(vx);
    if vx.CellVertex? {
      CellMeaning(vx, t, a);
    } else {
      PortValue(vx, a, t);
      if !vx.Trivial() {
        OneConstraint(a, Connect(vx.OutExpr(), vx.InExpr(vx.Ins()[0].bits), t));
      }
    }
  }

  lemma {:induction false} OneConstraint(a: Assignment, c: Constraint)
    ensures AllSatisfied(a, [c]) <==> Satisfies(a, c)
  {
    assert c in [c];
  }

  lemma {:induction false} CellMeaning(vx: Vertex, t: nat, a: Assignment)
    requires VertexOk(vx) && Running(vx, t) && vx.CellVertex?
    ensures VertexHolds(vx, t, a) <==>
            Value(a, t, vx.OutExpr()) == VertexValue(vx, Incoming(vx, a, t), Previous(vx, a, t))
    ensures |VertexValue(vx, Incoming(vx, a, t), Previous(vx, a, t))| == |vx.out|
  {
    OutWidth(vx);
    var y, v, q := Value(a, t, vx.OutExpr()), Incoming(vx, a, t), Previous(vx, a, t);
    if vx.kind.HasEnable() {
      OutWidth(vx);
      assert |q| == |vx.out|;
    }
    InsTyped(vx, a, InTime(vx, t), |q|);
    AssertionIsEval(vx.kind, v, y, q);
    OneConstraint(a, CellConstraint(vx.kind, vx.InMap(), InTime(vx, t), vx.OutExpr(), t));
  }

  lemma {:induction false} PortValue(vx: Vertex, a: Assignment, t: nat)
    requires VertexOk(vx) && !vx.CellVertex?
    ensures Arg(Incoming(vx, a, t), A) == Value(a, t, vx.InExpr(vx.Ins()[0].bits))
    ensures |Arg(Incoming(vx, a, t), A)| == |vx.Outs()|
    ensures HasPort(vx.Ins(), A) && PortBits(vx.Ins(), A) == vx.Ins()[0].bits
  {
    assert vx.Ins()[0].name == A;
    assert A in vx.InMap();
    InWidth(vx, vx.Ins()[0].bits);
  }

  // ----- the positions that vertices define -----

  ghost predicate Defines(d: Design, vi: nat, i: nat, s: Slot) {
    vi < |d| && d[vi].Live() && i < |Pieces(d[vi].OutExpr())| && Pieces(d[vi].OutExpr())[i] == Slice(s.0, s.1)
  }

  datatype Def = NoDef | Def(vi: nat, i: nat)

  ghost function DefOf(d: Design, s: Slot): (r: Def)
    ensures r.Def? ==> Defines(d, r.vi, r.i, s)
    ensures r.NoDef? ==> forall vi, i :: !Defines(d, vi, i, s)
  {
    if exists vi, i :: Defines(d, vi, i, s) then
      var vi, i :| Defines(d, vi, i, s);
      Def(vi, i)
    else NoDef
  }

  /** Some vertex drives this position at step t. */
  ghost predicate DefinedAt(d: Design, s: Slot, t: nat) {
    var r := DefOf(d, s);
    r.Def? && !(d[r.vi].IsRegister() && t == 0)
  }

  ghost predicate SlotOnEdge(d: Design, name: Name, index: nat, b: Bit) {
    exists net :: OnEdge(d, net) && HasSlot(net, name, index, b)
  }

  lemma {:induction false} EdgesAreNets(d: Design, net: Net)
    requires OnEdge(d, net)
    ensures IsNet(d, net)
  {
    var vi :| 0 <= vi < |d| && (net in d[vi].EdgesIn() || net in d[vi].EdgesOut());
    assert net in VertexNets(d[vi]);
  }

  /** Where a driven position lies: on an edge and holding the driver's bit, or on
      the signal named by an output port of the top module. */
  lemma {:induction false} DefinedSlot(d: Design, lv: seq<nat>, vi: nat, i: nat, s: Slot)
    requires WellFormed(d, lv) && Defines(d, vi, i, s)
    ensures i < |d[vi].Outs()|
    ensures !d[vi].TopOutput? ==> d[vi].Outs()[i].Id? && SlotOnEdge(d, s.0, s.1, d[vi].Outs()[i])
    ensures d[vi].TopOutput? ==> s == (d[vi].name, i)
  {
    var vx := d[vi];
    OutWidth(vx);
    if !vx.TopOutput? {
      PieceExact(vx.outNets, NO_CONSTANTS, vx.Outs(), i);
      var k :| 0 <= k < |vx.outNets| && HasSlot(vx.outNets[k], s.0, s.1, vx.Outs()[i]);
      assert vx.outNets[k] in d[vi].EdgesOut();
    }
  }

  lemma {:induction false} SameSlotSameBit(d: Design, name: Name, index: nat, b: Bit, c: Bit)
    requires ConsistentNames(d)
    requires SlotOnEdge(d, name, index, b) && SlotOnEdge(d, name, index, c)
    ensures b == c
  {
    var m :| OnEdge(d, m) && HasSlot(m, name, index, b);
    var n :| OnEdge(d, n) && HasSlot(n, name, index, c);
    EdgesAreNets(d, m);
    EdgesAreNets(d, n);
  }

  /** The signal of a top port that adds a constraint is not on any edge. */
  lemma {:induction false} LivePortOffEdges(d: Design, lv: seq<nat>, vi: nat, index: nat, b: Bit)
    requires WellFormed(d, lv) && vi < |d| && IsTop(d[vi]) && d[vi].Live()
    ensures !SlotOnEdge(d, d[vi].name, index, b)
  {
  }

  /** No position is driven twice. */
  lemma {:induction false} UniqueDefs(d: Design, lv: seq<nat>, vi: nat, i: nat, vj: nat, j: nat, s: Slot)
    requires WellFormed(d, lv) && Defines(d, vi, i, s) && Defines(d, vj, j, s)
    ensures vi == vj && i == j
  {
    DefinedSlot(d, lv, vi, i, s);
    DefinedSlot(d, lv, vj, j, s);
    if d[vi].TopOutput? {
      if !d[vj].TopOutput? {
        LivePortOffEdges(d, lv, vi, s.1, d[vj].Outs()[j]);
      }
    } else if d[vj].TopOutput? {
      LivePortOffEdges(d, lv, vj, s.1, d[vi].Outs()[i]);
    } else {
      SameSlotSameBit(d, s.0, s.1, d[vi].Outs()[i], d[vj].Outs()[j]);
      SameOutput(d, lv, vi, i, vj, j);
    }
  }

  lemma {:induction false} SameOutput(d: Design, lv: seq<nat>, vi: nat, i: nat, vj: nat, j: nat)
    requires WellFormed(d, lv) && vi < |d| && vj < |d| && !d[vi].Skipped() && !d[vi].TopOutput? && !d[vj].TopOutput?
    requires i < |d[vi].Outs()| && j < |d[vj].Outs()| && d[vi].Outs()[i] == d[vj].Outs()[j] && d[vi].Outs()[i].Id?
    ensures vi == vj && i == j
  {
    var id := d[vi].Outs()[i].id;
    assert Drives(d[vi], id) && Drives(d[vj], id);
    assert VertexOk(d[vi]);
    assert Distinct(d[vi].Outs());
  }

  ghost function Level(d: Design, lv: seq<nat>, s: Slot): nat {
    match DefOf(d, s)
    case NoDef => 0
    case Def(vi, _) => if vi < |lv| then 1 + lv[vi] else 0
  }

  ghost predicate Below(d: Design, lv: seq<nat>, ps: seq<Piece>, bound: nat) {
    forall k :: 0 <= k < |ps| && ps[k].Slice? ==> Level(d, lv, (ps[k].name, ps[k].index)) < bound
  }

  function TopLevel(lv: seq<nat>): (n: nat)
    ensures n > 1 && forall i :: 0 <= i < |lv| ==> 1 + lv[i] < n
  {
    if |lv| == 0 then 2 else
      var m := TopLevel(lv[1..]);
      assert forall i :: 1 <= i < |lv| ==> lv[i] == lv[1..][i - 1];
      if m > lv[0] + 1 then m else lv[0] + 2
  }

  ghost predicate SlotsLevelled(d: Design, lv: seq<nat>) {
    |lv| == |d| &&
    forall vi, p :: 0 <= vi < |d| && d[vi].Live() && !d[vi].IsRegister() && p in d[vi].InMap() ==>
      Below(d, lv, Pieces(d[vi].InMap()[p]), 1 + lv[vi])
  }

  /** A piece of an input expression, seen from the netlist. */
  lemma {:induction false} InPiece(vx: Vertex, p: PortName, k: nat)
    requires VertexOk(vx) && p in vx.InMap() && k < |Pieces(vx.InMap()[p])|
    ensures HasPort(vx.Ins(), p) && |Pieces(vx.InMap()[p])| == |PortBits(vx.Ins(), p)|
    ensures vx.TopInput? ==> k < |vx.bits| && Pieces(vx.InMap()[p])[k] == Slice(vx.name, k)
    ensures !vx.TopInput? ==> PieceFor(vx.inNets, Pieces(vx.InMap()[p])[k], PortBits(vx.Ins(), p)[k])
  {
    var bits := PortBits(vx.Ins(), p);
    InWidth(vx, bits);
    if !vx.TopInput? {
      PieceExact(if HasNonConstant(bits) then vx.inNets else [], vx.Constants(), bits, k);
    }
  }

  /** A netlist without combinational cycles has none between signal positions. */
  lemma {:induction false} LevelledSlots(d: Design, lv: seq<nat>)
    requires WellFormed(d, lv)
    ensures SlotsLevelled(d, lv)
  {
    forall vi, p | 0 <= vi < |d| && d[vi].Live() && !d[vi].IsRegister() && p in d[vi].InMap()
      ensures Below(d, lv, Pieces(d[vi].InMap()[p]), 1 + lv[vi])
    {
      var ps := Pieces(d[vi].InMap()[p]);
      forall k | 0 <= k < |ps| && ps[k].Slice?
        ensures Level(d, lv, (ps[k].name, ps[k].index)) < 1 + lv[vi]
      {
        PieceLevel(d, lv, vi, p, k);
      }
    }
  }

  lemma {:induction false} PieceLevel(d: Design, lv: seq<nat>, vi: nat, p: PortName, k: nat)
    requires WellFormed(d, lv) && vi < |d| && d[vi].Live() && !d[vi].IsRegister()
    requires p in d[vi].InMap() && k < |Pieces(d[vi].InMap()[p])| && Pieces(d[vi].InMap()[p])[k].Slice?
    ensures var q := Pieces(d[vi].InMap()[p])[k]; Level(d, lv, (q.name, q.index)) < 1 + lv[vi]
  {
    assert VertexOk(d[vi]);
    InPiece(d[vi], p, k);
    if d[vi].TopInput? {
      InputPieceLevel(d, lv, vi, k);
    } else {
      NetPieceLevel(d, lv, vi, p, k, Pieces(d[vi].InMap()[p])[k]);
    }
  }

  lemma {:induction false} NetPieceLevel(d: Design, lv: seq<nat>, vi: nat, p: PortName, k: nat, q: Piece)
    requires WellFormed(d, lv) && vi < |d| && !d[vi].IsRegister() && !d[vi].TopInput? && q.Slice?
    requires HasPort(d[vi].Ins(), p) && k < |PortBits(d[vi].Ins(), p)|
    requires PieceFor(d[vi].inNets, q, PortBits(d[vi].Ins(), p)[k])
    ensures Level(d, lv, (q.name, q.index)) < 1 + lv[vi]
  {
    EdgePieceLevel(d, lv, vi, p, PortBits(d[vi].Ins(), p)[k], q);
  }

  lemma {:induction false} InputPieceLevel(d: Design, lv: seq<nat>, vi: nat, k: nat)
    requires WellFormed(d, lv) && vi < |d| && d[vi].TopInput? && d[vi].Live()
    ensures Level(d, lv, (d[vi].name, k)) < 1 + lv[vi]
  {
    PortUndriven(d, lv, vi, k);
  }

  lemma {:induction false} EdgePieceLevel(d: Design, lv: seq<nat>, vi: nat, p: PortName, b: Bit, q: Piece)
    requires WellFormed(d, lv) && vi < |d| && !d[vi].IsRegister() && !d[vi].TopInput?
    requires HasPort(d[vi].Ins(), p) && b in PortBits(d[vi].Ins(), p) && Located(d[vi].inNets, q, b)
    ensures Level(d, lv, (q.name, q.index)) < 1 + lv[vi]
  {
    var s: Slot := (q.name, q.index);
    var m :| 0 <= m < |d[vi].inNets| && HasSlot(d[vi].inNets[m], q.name, q.index, b);
    assert d[vi].inNets[m] in d[vi].EdgesIn();
    assert OnEdge(d, d[vi].inNets[m]);
    if DefOf(d, s).Def? {
      DriverOfSlot(d, lv, s, b);
    }
  }

  /** Nothing drives the signal of a primary input that adds a constraint. */
  lemma {:induction false} PortUndriven(d: Design, lv: seq<nat>, vi: nat, k: nat)
    requires WellFormed(d, lv) && vi < |d| && d[vi].TopInput? && d[vi].Live()
    ensures DefOf(d, (d[vi].name, k)) == NoDef
  {
    var s: Slot := (d[vi].name, k);
    var r := DefOf(d, s);
    if r.Def? {
      DefinedSlot(d, lv, r.vi, r.i, s);
    }
  }

  /** What drives a position on an edge is the driver of the bit found there. */
  lemma {:induction false} DriverOfSlot(d: Design, lv: seq<nat>, s: Slot, b: Bit)
    requires WellFormed(d, lv) && SlotOnEdge(d, s.0, s.1, b) && DefOf(d, s).Def?
    ensures var r := DefOf(d, s);
            !d[r.vi].TopOutput? && r.i < |d[r.vi].Outs()| && d[r.vi].Outs()[r.i] == b && b.Id? && Drives(d[r.vi], b.id)
  {
    var r := DefOf(d, s);
    DefinedSlot(d, lv, r.vi, r.i, s);
    if d[r.vi].TopOutput? {
      LivePortOffEdges(d, lv, r.vi, s.1, b);
    } else {
      SameSlotSameBit(d, s.0, s.1, b, d[r.vi].Outs()[r.i]);
    }
  }

  // ----- the unique extension -----

  /** Values for the positions nothing drives, and for x and z. */
  datatype Env = Env(given: (Slot, nat) -> bool, x: bool, z: bool)

  ghost function Bound(d: Design, lv: seq<nat>, vi: nat): nat
    requires |lv| == |d| && vi < |d|
  {
    if d[vi].IsRegister() then TopLevel(lv) else 1 + lv[vi]
  }

  lemma {:induction false} BelowTop(d: Design, lv: seq<nat>, ps: seq<Piece>)
    requires |lv| == |d|
    ensures Below(d, lv, ps, TopLevel(lv))
  {
  }

  lemma {:induction false} InsBelow(d: Design, lv: seq<nat>, vi: nat)
    requires SlotsLevelled(d, lv) && vi < |d| && d[vi].Live()
    ensures forall p :: p in d[vi].InMap() ==> Below(d, lv, Pieces(d[vi].InMap()[p]), Bound(d, lv, vi))
  {
    forall p | p in d[vi].InMap()
      ensures Below(d, lv, Pieces(d[vi].InMap()[p]), Bound(d, lv, vi))
    {
      BelowTop(d, lv, Pieces(d[vi].InMap()[p]));
    }
  }

  /** The value a position is forced to have. */
  ghost function SlotVal(d: Design, lv: seq<nat>, e: Env, t: nat, s: Slot): bool
    requires SlotsLevelled(d, lv)
    decreases t, Level(d, lv, s), 2
  {
    var r := DefOf(d, s);
    if r.NoDef? || (d[r.vi].IsRegister() && t == 0) then e.given(s, t)
    else At(VertexValue(d[r.vi], InsVal(d, lv, e, t, r.vi), PrevVal(d, lv, e, t, r.vi)), r.i)
  }

  ghost function InsVal(d: Design, lv: seq<nat>, e: Env, t: nat, vi: nat): Values
    requires SlotsLevelled(d, lv) && vi < |d| && d[vi].Live() && !(d[vi].IsRegister() && t == 0)
    decreases t, 1 + lv[vi], 1
  {
    InsBelow(d, lv, vi);
    map p | p in d[vi].InMap() :: PiecesVal(d, lv, e, InTime(d[vi], t), Pieces(d[vi].InMap()[p]), Bound(d, lv, vi))
  }

  ghost function PrevVal(d: Design, lv: seq<nat>, e: Env, t: nat, vi: nat): Bv
    requires SlotsLevelled(d, lv) && vi < |d| && !(d[vi].IsRegister() && t == 0)
    decreases t, 1 + lv[vi], 1
  {
    if d[vi].IsRegister() && d[vi].kind.HasEnable() then
      BelowTop(d, lv, Pieces(d[vi].OutExpr()));
      PiecesVal(d, lv, e, t - 1, Pieces(d[vi].OutExpr()), TopLevel(lv))
    else []
  }

  ghost function PiecesVal(d: Design, lv: seq<nat>, e: Env, t: nat, ps: seq<Piece>, bound: nat): (b: Bv)
    requires SlotsLevelled(d, lv) && Below(d, lv, ps, bound)
    ensures |b| == |ps|
    decreases t, bound, 0
  {
    seq(|ps|, k requires 0 <= k < |ps| =>
      match ps[k]
      case Literal(v) => v
      case FreeX => e.x
      case FreeZ => e.z
      case Slice(n, j) => SlotVal(d, lv, e, t, (n, j)))
  }

  /** Under the assignment the pieces have the values they are forced to have. */
  ghost predicate Evaluates(d: Design, lv: seq<nat>, e: Env, a: Assignment, t: nat, ps: seq<Piece>, bound: nat)
    requires SlotsLevelled(d, lv) && Below(d, lv, ps, bound)
  {
    PiecesValue(a, t, ps) == PiecesVal(d, lv, e, t, ps, bound)
  }

  ghost predicate PrevMatches(d: Design, lv: seq<nat>, e: Env, a: Assignment, t: nat, vi: nat)
    requires SlotsLevelled(d, lv) && vi < |d| && Running(d[vi], t)
  {
    Previous(d[vi], a, t) == PrevVal(d, lv, e, t, vi)
  }

  /** The width of a signal. */
  ghost function WidthOf(d: Design, name: Name): nat {
    if net :| IsNet(d, net) && net.name == name then |net.bits| else 0
  }

  lemma {:induction false} WidthOfNet(d: Design, net: Net)
    requires ConsistentNames(d) && IsNet(d, net)
    ensures WidthOf(d, net.name) == |net.bits|
  {
  }

  ghost function SignalVal(d: Design, lv: seq<nat>, e: Env, t: nat, name: Name): (b: Bv)
    requires SlotsLevelled(d, lv)
    ensures |b| == WidthOf(d, name)
  {
    seq(WidthOf(d, name), j requires 0 <= j < WidthOf(d, name) => SlotVal(d, lv, e, t, (name, j)))
  }

  /** The assignment that the environment extends to. */
  ghost function Extension(d: Design, lv: seq<nat>, e: Env): Assignment
    requires SlotsLevelled(d, lv)
  {
    Assignment((name: Name, t: nat) => SignalVal(d, lv, e, t, name), e.x, e.z)
  }

  ghost predicate InRange(d: Design, ps: seq<Piece>) {
    forall k :: 0 <= k < |ps| && ps[k].Slice? ==> ps[k].index < WidthOf(d, ps[k].name)
  }

  lemma {:induction false} ExtensionPieces(d: Design, lv: seq<nat>, e: Env, t: nat, ps: seq<Piece>, bound: nat)
    requires SlotsLevelled(d, lv) && Below(d, lv, ps, bound) && InRange(d, ps)
    ensures Evaluates(d, lv, e, Extension(d, lv, e), t, ps, bound)
  {
    var a := Extension(d, lv, e);
    forall k | 0 <= k < |ps|
      ensures PieceValue(a, t, ps[k]) == PiecesVal(d, lv, e, t, ps, bound)[k]
    {
      if ps[k].Slice? {
        assert a.vars(ps[k].name, t) == SignalVal(d, lv, e, t, ps[k].name);
      }
    }
  }

  lemma {:induction false} NetSlotInRange(d: Design, net: Net, q: Piece, b: Bit)
    requires ConsistentNames(d) && IsNet(d, net) && q.Slice? && HasSlot(net, q.name, q.index, b)
    ensures q.index < WidthOf(d, q.name)
  {
    WidthOfNet(d, net);
  }

  lemma {:induction false} TopNet(d: Design, vi: nat)
    requires vi < |d| && IsTop(d[vi]) && !d[vi].Skipped()
    ensures IsNet(d, Net(d[vi].name, d[vi].bits))
  {
    assert Net(d[vi].name, d[vi].bits) in VertexNets(d[vi]);
  }

  lemma {:induction false} InLocated(d: Design, lv: seq<nat>, vi: nat, p: PortName)
    requires WellFormed(d, lv) && vi < |d| && !d[vi].Skipped() && p in d[vi].InMap()
    ensures InRange(d, Pieces(d[vi].InMap()[p]))
  {
    var ps := Pieces(d[vi].InMap()[p]);
    forall k | 0 <= k < |ps| && ps[k].Slice?
      ensures ps[k].index < WidthOf(d, ps[k].name)
    {
      PieceInRange(d, vi, p, k, ps[k]);
    }
  }

  lemma {:induction false} PieceInRange(d: Design, vi: nat, p: PortName, k: nat, q: Piece)
    requires ConsistentNames(d) && vi < |d| && !d[vi].Skipped() && VertexOk(d[vi]) && p in d[vi].InMap()
    requires k < |Pieces(d[vi].InMap()[p])| && Pieces(d[vi].InMap()[p])[k] == q && q.Slice?
    ensures q.index < WidthOf(d, q.name)
  {
    InPiece(d[vi], p, k);
    if d[vi].TopInput? {
      TopSlotInRange(d, vi, k);
    } else {
      EdgeSlotInRange(d, vi, q, PortBits(d[vi].Ins(), p)[k]);
    }
  }

  lemma {:induction false} TopSlotInRange(d: Design, vi: nat, k: nat)
    requires ConsistentNames(d) && vi < |d| && d[vi].TopInput? && !d[vi].Skipped() && k < |d[vi].bits|
    ensures k < WidthOf(d, d[vi].name)
  {
    TopNet(d, vi);
    WidthOfNet(d, Net(d[vi].name, d[vi].bits));
  }

  lemma {:induction false} EdgeSlotInRange(d: Design, vi: nat, q: Piece, b: Bit)
    requires ConsistentNames(d) && vi < |d| && !d[vi].TopInput? && Located(d[vi].inNets, q, b)
    ensures q.index < WidthOf(d, q.name)
  {
    var m :| 0 <= m < |d[vi].inNets| && HasSlot(d[vi].inNets[m], q.name, q.index, b);
    assert d[vi].inNets[m] in d[vi].EdgesIn();
    EdgesAreNets(d, d[vi].inNets[m]);
    NetSlotInRange(d, d[vi].inNets[m], q, b);
  }

  lemma {:induction false} OutSlice(d: Design, lv: seq<nat>, vi: nat, i: nat)
    requires WellFormed(d, lv) && vi < |d| && !d[vi].Skipped() && i < |Pieces(d[vi].OutExpr())|
    ensures |Pieces(d[vi].OutExpr())| == |d[vi].Outs()|
    ensures Pieces(d[vi].OutExpr())[i].Slice?
    ensures d[vi].TopOutput? ==> Pieces(d[vi].OutExpr())[i] == Slice(d[vi].name, i)
    ensures !d[vi].TopOutput? ==> Located(d[vi].outNets, Pieces(d[vi].OutExpr())[i], d[vi].Outs()[i])
    ensures Pieces(d[vi].OutExpr())[i].index < WidthOf(d, Pieces(d[vi].OutExpr())[i].name)
  {
    var vx := d[vi];
    var q := Pieces(vx.OutExpr())[i];
    OutWidth(vx);
    if vx.TopOutput? {
      TopNet(d, vi);
      NetSlotInRange(d, Net(vx.name, vx.bits), q, vx.bits[i]);
    } else {
      PieceExact(vx.outNets, NO_CONSTANTS, vx.Outs(), i);
      var m :| 0 <= m < |vx.outNets| && HasSlot(vx.outNets[m], q.name, q.index, vx.Outs()[i]);
      assert vx.outNets[m] in vx.EdgesOut();
      EdgesAreNets(d, vx.outNets[m]);
      NetSlotInRange(d, vx.outNets[m], q, vx.Outs()[i]);
    }
  }

  /** The piece of a live vertex's output expression is driven by this vertex. */
  lemma {:induction false} OutDefined(d: Design, lv: seq<nat>, vi: nat, i: nat)
    requires WellFormed(d, lv) && vi < |d| && d[vi].Live() && i < |Pieces(d[vi].OutExpr())|
    ensures Pieces(d[vi].OutExpr())[i].Slice?
    ensures var q := Pieces(d[vi].OutExpr())[i]; DefOf(d, (q.name, q.index)) == Def(vi, i)
  {
    OutSlice(d, lv, vi, i);
    var q := Pieces(d[vi].OutExpr())[i];
    assert Defines(d, vi, i, (q.name, q.index));
    var r := DefOf(d, (q.name, q.index));
    UniqueDefs(d, lv, vi, i, r.vi, r.i, (q.name, q.index));
  }

  /** The extension satisfies the constraint of every vertex at every step. */
  lemma {:induction false} ExtensionHolds(d: Design, lv: seq<nat>, e: Env, t: nat, vi: nat)
    requires WellFormed(d, lv) && SlotsLevelled(d, lv) && vi < |d|
    ensures VertexHolds(d[vi], t, Extension(d, lv, e))
  {
    var vx, a := d[vi], Extension(d, lv, e);
    if Running(vx, t) && vx.Live() {
      VertexMeaning(vx, t, a);
      ExtensionIns(d, lv, e, t, vi);
      ExtensionPrev(d, lv, e, t, vi);
      OutWidth(vx);
      ExtensionWord(d, lv, e, t, vi, VertexValue(vx, Incoming(vx, a, t), Previous(vx, a, t)));
    }
  }

  lemma {:induction false} ExtensionWord(d: Design, lv: seq<nat>, e: Env, t: nat, vi: nat, v: Bv)
    requires WellFormed(d, lv) && SlotsLevelled(d, lv) && vi < |d| && d[vi].Live() && Running(d[vi], t)
    requires v == VertexValue(d[vi], InsVal(d, lv, e, t, vi), PrevVal(d, lv, e, t, vi)) &&
             |v| == |Pieces(d[vi].OutExpr())|
    ensures Value(Extension(d, lv, e), t, d[vi].OutExpr()) == v
  {
    var y := Value(Extension(d, lv, e), t, d[vi].OutExpr());
    forall i | 0 <= i < |y|
      ensures y[i] == v[i]
    {
      ExtensionOut(d, lv, e, t, vi, i);
    }
  }

  lemma {:induction false} ExtensionOut(d: Design, lv: seq<nat>, e: Env, t: nat, vi: nat, i: nat)
    requires WellFormed(d, lv) && SlotsLevelled(d, lv) && vi < |d| && d[vi].Live() && Running(d[vi], t)
    requires i < |Pieces(d[vi].OutExpr())|
    ensures PieceValue(Extension(d, lv, e), t, Pieces(d[vi].OutExpr())[i])
         == At(VertexValue(d[vi], InsVal(d, lv, e, t, vi), PrevVal(d, lv, e, t, vi)), i)
  {
    var q := Pieces(d[vi].OutExpr())[i];
    OutSlice(d, lv, vi, i);
    OutDefined(d, lv, vi, i);
    ExtensionSlot(d, lv, e, t, q);
    assert SlotVal(d, lv, e, t, (q.name, q.index))
        == At(VertexValue(d[vi], InsVal(d, lv, e, t, vi), PrevVal(d, lv, e, t, vi)), i);
  }

  lemma {:induction false} ExtensionSlot(d: Design, lv: seq<nat>, e: Env, t: nat, q: Piece)
    requires SlotsLevelled(d, lv) && q.Slice? && q.index < WidthOf(d, q.name)
    ensures PieceValue(Extension(d, lv, e), t, q) == SlotVal(d, lv, e, t, (q.name, q.index))
  {
    assert Extension(d, lv, e).vars(q.name, t) == SignalVal(d, lv, e, t, q.name);
  }

  lemma {:induction false} ExtensionIns(d: Design, lv: seq<nat>, e: Env, t: nat, vi: nat)
    requires WellFormed(d, lv) && SlotsLevelled(d, lv) && vi < |d| && d[vi].Live() && Running(d[vi], t)
    ensures Incoming(d[vi], Extension(d, lv, e), t) == InsVal(d, lv, e, t, vi)
  {
    InsBelow(d, lv, vi);
    var ins, vals, a := d[vi].InMap(), InsVal(d, lv, e, t, vi), Extension(d, lv, e);
    var tIn := InTime(d[vi], t);
    forall p | p in ins
      ensures Value(a, tIn, ins[p]) == vals[p]
    {
      InLocated(d, lv, vi, p);
      ExtensionPieces(d, lv, e, tIn, Pieces(ins[p]), Bound(d, lv, vi));
    }
    SameValues(a, tIn, ins, vals);
  }

  lemma {:induction false} SameValues(a: Assignment, t: nat, ins: map<PortName, Expr>, vals: Values)
    requires vals.Keys == ins.Keys && forall p :: p in ins ==> Value(a, t, ins[p]) == vals[p]
    ensures ValuesAt(a, t, ins) == vals
  {
  }

  lemma {:induction false} ExtensionPrev(d: Design, lv: seq<nat>, e: Env, t: nat, vi: nat)
    requires WellFormed(d, lv) && SlotsLevelled(d, lv) && vi < |d| && d[vi].Live() && Running(d[vi], t)
    ensures PrevMatches(d, lv, e, Extension(d, lv, e), t, vi)
  {
    if ReadsPrevious(d[vi]) {
      BelowTop(d, lv, Pieces(d[vi].OutExpr()));
      OutLocated(d, lv, vi);
      ExtensionQPrev(d, lv, e, t - 1, t, vi, Pieces(d[vi].OutExpr()));
    } else {
      PrevNone(d, lv, e, Extension(d, lv, e), t, vi);
    }
  }

  lemma {:induction false} ExtensionQPrev(d: Design, lv: seq<nat>, e: Env, u: nat, t: nat, vi: nat, out: seq<Piece>)
    requires SlotsLevelled(d, lv) && vi < |d| && Running(d[vi], t) && ReadsPrevious(d[vi]) && t == u + 1
    requires out == Pieces(d[vi].OutExpr()) && Below(d, lv, out, TopLevel(lv)) && InRange(d, out)
    ensures PrevMatches(d, lv, e, Extension(d, lv, e), t, vi)
  {
    ExtensionPieces(d, lv, e, u, out, TopLevel(lv));
    PrevEqual(d, lv, e, Extension(d, lv, e), u, t, vi, out);
  }

  lemma {:induction false} OutLocated(d: Design, lv: seq<nat>, vi: nat)
    requires WellFormed(d, lv) && vi < |d| && !d[vi].Skipped()
    ensures InRange(d, Pieces(d[vi].OutExpr()))
  {
    var out := Pieces(d[vi].OutExpr());
    forall k | 0 <= k < |out| && out[k].Slice?
      ensures out[k].index < WidthOf(d, out[k].name)
    {
      OutSlice(d, lv, vi, k);
    }
  }

  predicate ReadsPrevious(vx: Vertex) {
    vx.IsRegister() && vx.kind.HasEnable()
  }

  lemma {:induction false} PrevNone(d: Design, lv: seq<nat>, e: Env, a: Assignment, t: nat, vi: nat)
    requires SlotsLevelled(d, lv) && vi < |d| && Running(d[vi], t) && !ReadsPrevious(d[vi])
    ensures PrevMatches(d, lv, e, a, t, vi)
  {
  }

  lemma {:induction false} PrevEqual(d: Design, lv: seq<nat>, e: Env, a: Assignment, u: nat, t: nat, vi: nat,
                                     out: seq<Piece>)
    requires SlotsLevelled(d, lv) && vi < |d| && Running(d[vi], t) && ReadsPrevious(d[vi]) && t == u + 1
    requires out == Pieces(d[vi].OutExpr()) && Below(d, lv, out, TopLevel(lv))
    requires Evaluates(d, lv, e, a, u, out, TopLevel(lv))
    ensures PrevMatches(d, lv, e, a, t, vi)
  {
    PreviousIs(d[vi], a, u, t);
    PrevValIs(d, lv, e, u, t, vi, out);
  }

  lemma PreviousIs(vx: Vertex, a: Assignment, u: nat, t: nat)
    requires ReadsPrevious(vx) && t == u + 1
    ensures Previous(vx, a, t) == PiecesValue(a, u, Pieces(vx.OutExpr()))
  {
  }

  lemma {:induction false} PrevValIs(d: Design, lv: seq<nat>, e: Env, u: nat, t: nat, vi: nat, out: seq<Piece>)
    requires SlotsLevelled(d, lv) && vi < |d| && ReadsPrevious(d[vi]) && t == u + 1
    requires out == Pieces(d[vi].OutExpr()) && Below(d, lv, out, TopLevel(lv))
    ensures PrevVal(d, lv, e, t, vi) == PiecesVal(d, lv, e, u, out, TopLevel(lv))
  {
    var v := PrevVal(d, lv, e, t, vi);
    assert v == PiecesVal(d, lv, e, t - 1, out, TopLevel(lv));
  }

  lemma {:induction false} ExtensionIsSolution(d: Design, lv: seq<nat>, e: Env, steps: nat)
    requires WellFormed(d, lv) && SlotsLevelled(d, lv)
    ensures Solution(d, steps, Extension(d, lv, e))
  {
    var a := Extension(d, lv, e);
    forall net, t: nat | IsNet(d, net) && t < steps
      ensures |a.vars(net.name, t)| == |net.bits|
    {
      WidthOfNet(d, net);
      assert a.vars(net.name, t) == SignalVal(d, lv, e, t, net.name);
    }
    forall t: nat, vi | t < steps && 0 <= vi < |d|
      ensures VertexHolds(d[vi], t, a)
    {
      ExtensionHolds(d, lv, e, t, vi);
    }
    AllHold(d, steps, a);
  }

  // ----- uniqueness -----

  function SlotValue(a: Assignment, t: nat, s: Slot): bool {
    PieceValue(a, t, Slice(s.0, s.1))
  }

  ghost predicate IsSlot(d: Design, s: Slot) {
    s.1 < WidthOf(d, s.0)
  }

  /** The assignment has the values of the environment where nothing drives. */
  ghost predicate Agrees(d: Design, steps: nat, a: Assignment, e: Env) {
    a.x == e.x && a.z == e.z &&
    forall s: Slot, t: nat :: t < steps && IsSlot(d, s) && !DefinedAt(d, s, t) ==> SlotValue(a, t, s) == e.given(s, t)
  }

  lemma {:induction false} SlotForced(d: Design, lv: seq<nat>, steps: nat, a: Assignment, e: Env, t: nat, s: Slot)
    requires WellFormed(d, lv) && SlotsLevelled(d, lv)
    requires Solution(d, steps, a) && Agrees(d, steps, a, e) && t < steps && IsSlot(d, s)
    ensures SlotValue(a, t, s) == SlotVal(d, lv, e, t, s)
    decreases t, Level(d, lv, s), 2
  {
    if DefinedAt(d, s, t) {
      var r := DefOf(d, s);
      InsForced(d, lv, steps, a, e, t, r.vi);
      PrevForced(d, lv, steps, a, e, t, r.vi);
      AllHold(d, steps, a);
      VertexMeaning(d[r.vi], t, a);
      assert Value(a, t, d[r.vi].OutExpr())[r.i] == SlotValue(a, t, s);
    }
  }

  lemma {:induction false} InsForced(d: Design, lv: seq<nat>, steps: nat, a: Assignment, e: Env, t: nat, vi: nat)
    requires WellFormed(d, lv) && SlotsLevelled(d, lv)
    requires Solution(d, steps, a) && Agrees(d, steps, a, e) && t < steps
    requires vi < |d| && d[vi].Live() && Running(d[vi], t)
    ensures Incoming(d[vi], a, t) == InsVal(d, lv, e, t, vi)
    decreases t, 1 + lv[vi], 1
  {
    InsBelow(d, lv, vi);
    var ins, vals := d[vi].InMap(), InsVal(d, lv, e, t, vi);
    var tIn := InTime(d[vi], t);
    forall p | p in ins
      ensures Value(a, tIn, ins[p]) == vals[p]
    {
      InLocated(d, lv, vi, p);
      PiecesForced(d, lv, steps, a, e, tIn, Pieces(ins[p]), Bound(d, lv, vi));
    }
    SameValues(a, tIn, ins, vals);
  }

  lemma {:induction false} PrevForced(d: Design, lv: seq<nat>, steps: nat, a: Assignment, e: Env, t: nat, vi: nat)
    requires WellFormed(d, lv) && SlotsLevelled(d, lv)
    requires Solution(d, steps, a) && Agrees(d, steps, a, e) && t < steps
    requires vi < |d| && d[vi].Live() && Running(d[vi], t)
    ensures PrevMatches(d, lv, e, a, t, vi)
    decreases t, 1 + lv[vi], 1
  {
    if ReadsPrevious(d[vi]) {
      BelowTop(d, lv, Pieces(d[vi].OutExpr()));
      QPrevForced(d, lv, steps, a, e, t - 1, t, vi, Pieces(d[vi].OutExpr()));
    } else {
      PrevNone(d, lv, e, a, t, vi);
    }
  }

  lemma {:induction false} QPrevForced(d: Design, lv: seq<nat>, steps: nat, a: Assignment, e: Env, u: nat, t: nat,
                                       vi: nat, out: seq<Piece>)
    requires WellFormed(d, lv) && SlotsLevelled(d, lv)
    requires Solution(d, steps, a) && Agrees(d, steps, a, e) && t < steps
    requires vi < |d| && d[vi].Live() && Running(d[vi], t) && ReadsPrevious(d[vi]) && t == u + 1
    requires out == Pieces(d[vi].OutExpr()) && Below(d, lv, out, TopLevel(lv))
    ensures PrevMatches(d, lv, e, a, t, vi)
    decreases t, 1 + lv[vi], 0
  {
    OutLocated(d, lv, vi);
    PiecesForced(d, lv, steps, a, e, u, out, TopLevel(lv));
    PrevEqual(d, lv, e, a, u, t, vi, out);
  }

  lemma {:induction false} PiecesForced(d: Design, lv: seq<nat>, steps: nat, a: Assignment, e: Env, t: nat,
                                        ps: seq<Piece>, bound: nat)
    requires WellFormed(d, lv) && SlotsLevelled(d, lv) && Below(d, lv, ps, bound) && InRange(d, ps)
    requires Solution(d, steps, a) && Agrees(d, steps, a, e) && t < steps
    ensures Evaluates(d, lv, e, a, t, ps, bound)
    decreases t, bound, 0
  {
    forall k | 0 <= k < |ps|
      ensures PieceValue(a, t, ps[k]) == PiecesVal(d, lv, e, t, ps, bound)[k]
    {
      if ps[k].Slice? {
        SlotForced(d, lv, steps, a, e, t, (ps[k].name, ps[k].index));
      }
    }
  }

  ghost predicate SameSignals(d: Design, steps: nat, a: Assignment, b: Assignment) {
    forall net, t: nat :: IsNet(d, net) && t < steps ==> a.vars(net.name, t) == b.vars(net.name, t)
  }

  /** Exactly one solution for every environment: the extension agrees with the
      environment and solves the constraints, and every solution that agrees
      with it is the extension. */
  lemma {:induction false} UniqueExtension(d: Design, lv: seq<nat>, steps: nat, e: Env)
    requires WellFormed(d, lv)
    ensures SlotsLevelled(d, lv)
    ensures Solution(d, steps, Extension(d, lv, e))
    ensures forall a :: Solution(d, steps, a) && Agrees(d, steps, a, e) ==>
            SameSignals(d, steps, a, Extension(d, lv, e))
  {
    LevelledSlots(d, lv);
    ExtensionIsSolution(d, lv, e, steps);
    forall a | Solution(d, steps, a) && Agrees(d, steps, a, e)
      ensures SameSignals(d, steps, a, Extension(d, lv, e))
    {
      forall net, t: nat | IsNet(d, net) && t < steps
        ensures a.vars(net.name, t) == Extension(d, lv, e).vars(net.name, t)
      {
        SignalForced(d, lv, steps, a, e, t, net);
      }
    }
  }

  lemma {:induction false} SignalForced(d: Design, lv: seq<nat>, steps: nat, a: Assignment, e: Env, t: nat, net: Net)
    requires WellFormed(d, lv) && SlotsLevelled(d, lv)
    requires Solution(d, steps, a) && Agrees(d, steps, a, e) && t < steps && IsNet(d, net)
    ensures a.vars(net.name, t) == Extension(d, lv, e).vars(net.name, t)
  {
    WidthOfNet(d, net);
    var x, b := a.vars(net.name, t), SignalVal(d, lv, e, t, net.name);
    assert |x| == |b| == |net.bits|;
    forall j | 0 <= j < |net.bits|
      ensures x[j] == b[j]
    {
      SlotForced(d, lv, steps, a, e, t, (net.name, j));
      SlotBit(a, t, net.name, j);
    }
    assert x == b;
  }

  lemma SlotBit(a: Assignment, t: nat, name: Name, j: nat)
    requires j < |a.vars(name, t)|
    ensures SlotValue(a, t, (name, j)) == a.vars(name, t)[j]
  {
  }

  // ----- well-formed vertices are exported -----

  lemma ReadableReads(vx: Vertex, bits: seq<Bit>)
    requires Readable(vx, bits)
    ensures Reads(vx, bits) && |Pieces(vx.InExpr(bits))| == |bits|
  {
    InWidth(vx, bits);
    if !vx.TopInput? && HasNonConstant(bits) && ExactMatch(vx.inNets, bits) < 0 {
      var i :| 0 <= i < |bits| && !bits[i].IsConstant();
      assert Carried(vx.inNets, bits[i]);
    }
  }

  lemma CoveredEmits(vx: Vertex)
    requires VertexOk(vx)
    ensures Emits(vx) && |Pieces(vx.OutExpr())| == |vx.Outs()|
  {
    OutWidth(vx);
    if !vx.TopOutput? {
      assert Carried(vx.outNets, vx.Outs()[0]);
    }
  }

  function PortWidths(ports: seq<Port>): map<PortName, nat> {
    map p | HasPort(ports, p) :: |PortBits(ports, p)|
  }

  lemma PortIsReadable(vx: Vertex, p: PortName)
    requires VertexOk(vx) && HasPort(vx.Ins(), p)
    ensures Readable(vx, PortBits(vx.Ins(), p))
  {
  }

  /** Where every bit is found, the widths of the expressions are those of the ports. */
  lemma WidthsOfPorts(vx: Vertex)
    requires VertexOk(vx) && vx.CellVertex?
    ensures ExprWidths(vx.InMap()) == PortWidths(vx.ins)
  {
    forall p | HasPort(vx.ins, p)
      ensures |Pieces(vx.InExpr(PortBits(vx.ins, p)))| == |PortBits(vx.ins, p)|
    {
      PortIsReadable(vx, p);
      InWidth(vx, PortBits(vx.ins, p));
    }
  }

  lemma WidthsTyped(k: Kind, ports: seq<Port>, w: nat, wPrev: nat)
    requires CellTyped(k, ports, w) && (k.HasEnable() ==> wPrev == w)
    ensures AcceptedWidths(k, PortWidths(ports), w, wPrev)
  {
    var v: Values := map p | HasPort(ports, p) :: Repeat(false, |PortBits(ports, p)|);
    assert HasWidths(ports, v);
    assert Widths(v) == PortWidths(ports);
    TypedWidths(k, v, w, wPrev);
  }

  lemma TypedWidths(k: Kind, v: Values, w: nat, wPrev: nat)
    requires Typed(k, v, w, wPrev)
    ensures AcceptedWidths(k, Widths(v), w, wPrev)
  {
  }

  lemma TypedFits(vx: Vertex)
    requires VertexOk(vx) && vx.CellVertex? && |vx.ins| == vx.kind.Arity()
    ensures Fits(vx)
  {
    CoveredEmits(vx);
    WidthsOfPorts(vx);
    WidthsTyped(vx.kind, vx.ins, |vx.out|, if vx.kind.HasEnable() then |vx.out| else 0);
  }

  lemma PortFirst(ports: seq<Port>, i: nat)
    requires i < |ports| && forall j :: 0 <= j < i ==> ports[j].name != ports[i].name
    ensures HasPort(ports, ports[i].name) && PortBits(ports, ports[i].name) == ports[i].bits
  {
    if i > 0 {
      assert ports[1..][i - 1] == ports[i];
      PortFirst(ports[1..], i - 1);
    }
  }

  /** Every vertex of a well-formed design is exported, as far as its ports are those of its
      type. */
  lemma OkBuilds(vx: Vertex)
    requires VertexOk(vx) && (vx.CellVertex? ==> |vx.ins| == vx.kind.Arity())
    requires forall i, j :: 0 <= i < j < |vx.Ins()| ==> vx.Ins()[i].name != vx.Ins()[j].name
    ensures Builds(vx)
  {
    CoveredEmits(vx);
    forall i | 0 <= i < |vx.Ins()|
      ensures Reads(vx, vx.Ins()[i].bits)
    {
      PortFirst(vx.Ins(), i);
      ReadableReads(vx, vx.Ins()[i].bits);
    }
    if vx.CellVertex? {
      TypedFits(vx);
    } else {
      PortFirst(vx.Ins(), 0);
      ReadableReads(vx, vx.Ins()[0].bits);
    }
  }
}
