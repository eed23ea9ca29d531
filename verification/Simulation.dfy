/** The solutions of the unrolled instance are the step-by-step simulations of
    the netlist. */
module Simulation {
  import opened Bitvectors
  import opened Cells
  import opened PortExpr
  import opened Unroll
  import opened UnrollProof

  /** Initial register bits, primary inputs by name, step and index, and x and z. */
  datatype Stimulus = Stimulus(init: nat -> bool, input: (Name, nat, nat) -> bool, x: bool, z: bool)

  // ----- step-by-step simulation of bits -----

  ghost predicate DrivesAt(d: Design, vi: nat, i: nat, id: nat) {
    vi < |d| && !d[vi].TopOutput? && i < |d[vi].Outs()| && d[vi].Outs()[i] == Id(id)
  }

  ghost function DriverOf(d: Design, id: nat): (r: Def)
    ensures r.Def? ==> DrivesAt(d, r.vi, r.i, id)
    ensures r.NoDef? ==> forall vi, i :: !DrivesAt(d, vi, i, id)
  {
    if exists vi, i :: DrivesAt(d, vi, i, id) then
      var vi, i :| DrivesAt(d, vi, i, id);
      Def(vi, i)
    else NoDef
  }

  ghost function BitLevel(d: Design, lv: seq<nat>, id: nat): nat {
    var r := DriverOf(d, id);
    if r.Def? && r.vi < |lv| then 1 + lv[r.vi] else 0
  }

  ghost predicate BitsBelow(d: Design, lv: seq<nat>, bits: seq<Bit>, bound: nat) {
    forall k :: 0 <= k < |bits| && bits[k].Id? ==> BitLevel(d, lv, bits[k].id) < bound
  }

  lemma BitsBelowTop(d: Design, lv: seq<nat>, bits: seq<Bit>)
    ensures BitsBelow(d, lv, bits, TopLevel(lv))
  {
  }

  lemma PortBelow(d: Design, lv: seq<nat>, vi: nat)
    requires Levelled(d, lv) && vi < |d| && !d[vi].TopInput?
    ensures forall p :: HasPort(d[vi].Ins(), p) ==> BitsBelow(d, lv, PortBits(d[vi].Ins(), p), Bound(d, lv, vi))
  {
    forall p | HasPort(d[vi].Ins(), p)
      ensures BitsBelow(d, lv, PortBits(d[vi].Ins(), p), Bound(d, lv, vi))
    {
      var bits := PortBits(d[vi].Ins(), p);
      BitsBelowTop(d, lv, bits);
      forall k | 0 <= k < |bits| && bits[k].Id? && !d[vi].IsRegister()
        ensures BitLevel(d, lv, bits[k].id) < 1 + lv[vi]
      {
        var r := DriverOf(d, bits[k].id);
        if r.Def? {
          assert Drives(d[r.vi], bits[k].id);
        }
      }
    }
  }

  /** The value of a bit at step t: a primary input has its stimulus, a register
      starts with its initial value and then holds what it computed from the step
      before, and every other cell is evaluated on the bits of the same step. */
  ghost function Sim(d: Design, lv: seq<nat>, st: Stimulus, t: nat, id: nat): bool
    requires Levelled(d, lv)
    decreases t, BitLevel(d, lv, id), 2
  {
    var r := DriverOf(d, id);
    if r.NoDef? then false
    else if d[r.vi].TopInput? then st.input(d[r.vi].name, t, r.i)
    else if d[r.vi].IsRegister() && t == 0 then st.init(id)
    else At(VertexValue(d[r.vi], SimIns(d, lv, st, t, r.vi), SimPrev(d, lv, st, t, r.vi)), r.i)
  }

  ghost function SimIns(d: Design, lv: seq<nat>, st: Stimulus, t: nat, vi: nat): Values
    requires Levelled(d, lv) && vi < |d| && !d[vi].TopInput? && !(d[vi].IsRegister() && t == 0)
    decreases t, 1 + lv[vi], 1
  {
    PortBelow(d, lv, vi);
    map p | HasPort(d[vi].Ins(), p) ::
      SimWord(d, lv, st, InTime(d[vi], t), PortBits(d[vi].Ins(), p), Bound(d, lv, vi))
  }

  ghost function SimPrev(d: Design, lv: seq<nat>, st: Stimulus, t: nat, vi: nat): Bv
    requires Levelled(d, lv) && vi < |d| && !(d[vi].IsRegister() && t == 0)
    decreases t, 1 + lv[vi], 1
  {
    if ReadsPrevious(d[vi]) then
      BitsBelowTop(d, lv, d[vi].Outs());
      SimWord(d, lv, st, t - 1, d[vi].Outs(), TopLevel(lv))
    else []
  }

  ghost function SimWord(d: Design, lv: seq<nat>, st: Stimulus, t: nat, bits: seq<Bit>, bound: nat): (b: Bv)
    requires Levelled(d, lv) && BitsBelow(d, lv, bits, bound)
    ensures |b| == |bits|
    decreases t, bound, 0
  {
    seq(|bits|, k requires 0 <= k < |bits| =>
      match bits[k]
      case Const0 => false
      case Const1 => true
      case ConstX => st.x
      case ConstZ => st.z
      case Id(id) => Sim(d, lv, st, t, id))
  }

  ghost function NetWord(d: Design, lv: seq<nat>, st: Stimulus, t: nat, name: Name): Bv
    requires Levelled(d, lv)
  {
    if net :| IsNet(d, net) && net.name == name then
      BitsBelowTop(d, lv, net.bits);
      SimWord(d, lv, st, t, net.bits, TopLevel(lv))
    else []
  }

  /** Every signal carries the simulated values of its bits. */
  ghost function Simulated(d: Design, lv: seq<nat>, st: Stimulus): Assignment
    requires Levelled(d, lv)
  {
    Assignment((name: Name, t: nat) => NetWord(d, lv, st, t, name), st.x, st.z)
  }

  ghost function Sigma(d: Design, lv: seq<nat>, st: Stimulus, t: nat): nat -> bool
    requires Levelled(d, lv)
  {
    (id: nat) => Sim(d, lv, st, t, id)
  }

  // ----- the simulation solves the constraints -----

  lemma {:induction false} WordBits(d: Design, lv: seq<nat>, st: Stimulus, t: nat, bits: seq<Bit>, bound: nat)
    requires Levelled(d, lv) && BitsBelow(d, lv, bits, bound)
    ensures SimWord(d, lv, st, t, bits, bound)
         == BitsValue(Simulated(d, lv, st), Sigma(d, lv, st, t), bits)
  {
  }

  lemma {:induction false} SimulatedCarries(d: Design, lv: seq<nat>, st: Stimulus, t: nat, net: Net)
    requires Levelled(d, lv) && ConsistentNames(d) && IsNet(d, net)
    ensures Simulated(d, lv, st).vars(net.name, t) == NetWord(d, lv, st, t, net.name)
    ensures BitsBelow(d, lv, net.bits, TopLevel(lv))
    ensures NetWord(d, lv, st, t, net.name) == SimWord(d, lv, st, t, net.bits, TopLevel(lv))
    ensures Carries(Simulated(d, lv, st), t, net, Sigma(d, lv, st, t))
  {
    BitsBelowTop(d, lv, net.bits);
    WordBits(d, lv, st, t, net.bits, TopLevel(lv));
  }

  ghost function BitWord(d: Design, lv: seq<nat>, st: Stimulus, t: nat, bits: seq<Bit>): (b: Bv)
    requires Levelled(d, lv)
    ensures |b| == |bits|
  {
    BitsValue(Simulated(d, lv, st), Sigma(d, lv, st, t), bits)
  }

  lemma {:induction false} WholeValue(a: Assignment, t: nat, name: Name, w: nat)
    requires |a.vars(name, t)| == w
    ensures Value(a, t, Whole(name, w)) == a.vars(name, t)
  {
  }

  lemma {:induction false} EdgesCarry(d: Design, lv: seq<nat>, st: Stimulus, t: nat, nets: seq<Net>)
    requires WellFormed(d, lv) && forall net :: net in nets ==> OnEdge(d, net)
    ensures forall k :: 0 <= k < |nets| ==> Carries(Simulated(d, lv, st), t, nets[k], Sigma(d, lv, st, t))
  {
    forall k | 0 <= k < |nets|
      ensures Carries(Simulated(d, lv, st), t, nets[k], Sigma(d, lv, st, t))
    {
      EdgesAreNets(d, nets[k]);
      SimulatedCarries(d, lv, st, t, nets[k]);
    }
  }

  lemma {:induction false} TopInputWord(d: Design, lv: seq<nat>, st: Stimulus, t: nat, vi: nat)
    requires WellFormed(d, lv) && vi < |d| && d[vi].TopInput? && !d[vi].Skipped()
    ensures Value(Simulated(d, lv, st), t, Whole(d[vi].name, |d[vi].bits|)) == BitWord(d, lv, st, t, d[vi].bits)
  {
    TopNet(d, vi);
    SimulatedCarries(d, lv, st, t, Net(d[vi].name, d[vi].bits));
    WholeValue(Simulated(d, lv, st), t, d[vi].name, |d[vi].bits|);
  }

  lemma {:induction false} InSimulated(d: Design, lv: seq<nat>, st: Stimulus, t: nat, vi: nat, p: PortName)
    requires WellFormed(d, lv) && vi < |d| && !d[vi].Skipped() && HasPort(d[vi].Ins(), p)
    ensures Value(Simulated(d, lv, st), t, d[vi].InExpr(PortBits(d[vi].Ins(), p))) ==
            BitWord(d, lv, st, t, PortBits(d[vi].Ins(), p))
  {
    if d[vi].TopInput? {
      TopInputWord(d, lv, st, t, vi);
      assert d[vi].Ins() == [Port(A, d[vi].bits)];
    } else {
      assert forall net :: net in d[vi].inNets ==> net in d[vi].EdgesIn();
      EdgesCarry(d, lv, st, t, d[vi].inNets);
      assert VertexOk(d[vi]);
      assert Readable(d[vi], PortBits(d[vi].Ins(), p));
      ReadWord(d, lv, st, t, d[vi], PortBits(d[vi].Ins(), p));
    }
  }

  lemma {:induction false} ReadWord(d: Design, lv: seq<nat>, st: Stimulus, t: nat, vx: Vertex, bits: seq<Bit>)
    requires Levelled(d, lv) && !vx.TopInput? && Readable(vx, bits)
    requires forall k :: 0 <= k < |vx.inNets| ==> Carries(Simulated(d, lv, st), t, vx.inNets[k], Sigma(d, lv, st, t))
    ensures Value(Simulated(d, lv, st), t, vx.InExpr(bits)) == BitWord(d, lv, st, t, bits)
  {
    ReassemblyExact(Simulated(d, lv, st), t, if HasNonConstant(bits) then vx.inNets else [], vx.Constants(), bits,
                    Sigma(d, lv, st, t));
  }

  lemma {:induction false} OutSimulated(d: Design, lv: seq<nat>, st: Stimulus, t: nat, vi: nat)
    requires WellFormed(d, lv) && vi < |d| && !d[vi].Skipped()
    ensures Value(Simulated(d, lv, st), t, d[vi].OutExpr()) == BitWord(d, lv, st, t, d[vi].Outs())
  {
    var vx, a := d[vi], Simulated(d, lv, st);
    if vx.TopOutput? {
      TopNet(d, vi);
      SimulatedCarries(d, lv, st, t, Net(vx.name, vx.bits));
      WholeValue(a, t, vx.name, |vx.bits|);
    } else {
      assert VertexOk(vx);
      assert forall net :: net in vx.outNets ==> net in vx.EdgesOut();
      EdgesCarry(d, lv, st, t, vx.outNets);
      ReassemblyExact(a, t, vx.outNets, NO_CONSTANTS, vx.Outs(), Sigma(d, lv, st, t));
    }
  }

  lemma UniqueDriver(d: Design, lv: seq<nat>, vi: nat, i: nat)
    requires WellFormed(d, lv) && vi < |d| && !d[vi].Skipped() && !d[vi].TopOutput? && i < |d[vi].Outs()|
    ensures d[vi].Outs()[i].Id? && DriverOf(d, d[vi].Outs()[i].id) == Def(vi, i)
  {
    assert VertexOk(d[vi]);
    var id := d[vi].Outs()[i].id;
    assert DrivesAt(d, vi, i, id);
    var r := DriverOf(d, id);
    assert Drives(d[vi], id) && Drives(d[r.vi], id);
  }

  ghost predicate SameIns(d: Design, lv: seq<nat>, st: Stimulus, t: nat, vi: nat)
    requires Levelled(d, lv) && vi < |d| && !d[vi].TopInput? && Running(d[vi], t)
  {
    Incoming(d[vi], Simulated(d, lv, st), t) == SimIns(d, lv, st, t, vi)
  }

  ghost predicate SamePrev(d: Design, lv: seq<nat>, st: Stimulus, t: nat, vi: nat)
    requires Levelled(d, lv) && vi < |d| && Running(d[vi], t)
  {
    Previous(d[vi], Simulated(d, lv, st), t) == SimPrev(d, lv, st, t, vi)
  }

  lemma {:induction false} SimInsIncoming(d: Design, lv: seq<nat>, st: Stimulus, t: nat, vi: nat)
    requires WellFormed(d, lv) && vi < |d| && !d[vi].TopInput? && Running(d[vi], t)
    ensures SameIns(d, lv, st, t, vi)
  {
    var vx, a, vals := d[vi], Simulated(d, lv, st), SimIns(d, lv, st, t, vi);
    PortBelow(d, lv, vi);
    forall p | p in vx.InMap()
      ensures Value(a, InTime(vx, t), vx.InMap()[p]) == vals[p]
    {
      InSimulated(d, lv, st, InTime(vx, t), vi, p);
      WordBits(d, lv, st, InTime(vx, t), PortBits(vx.Ins(), p), Bound(d, lv, vi));
    }
    SameValues(a, InTime(vx, t), vx.InMap(), vals);
  }

  lemma {:induction false} SimPrevPrevious(d: Design, lv: seq<nat>, st: Stimulus, t: nat, vi: nat)
    requires WellFormed(d, lv) && vi < |d| && Running(d[vi], t)
    ensures SamePrev(d, lv, st, t, vi)
  {
    if ReadsPrevious(d[vi]) {
      QPrevSimulated(d, lv, st, t - 1, t, vi);
    }
  }

  lemma {:induction false} QPrevSimulated(d: Design, lv: seq<nat>, st: Stimulus, u: nat, t: nat, vi: nat)
    requires WellFormed(d, lv) && vi < |d| && Running(d[vi], t) && ReadsPrevious(d[vi]) && t == u + 1
    ensures SamePrev(d, lv, st, t, vi)
  {
    OutSimulated(d, lv, st, u, vi);
    BitsBelowTop(d, lv, d[vi].Outs());
    WordBits(d, lv, st, u, d[vi].Outs(), TopLevel(lv));
    QPrevFrom(d, lv, st, u, t, vi, BitWord(d, lv, st, u, d[vi].Outs()));
  }

  lemma {:induction false} QPrevFrom(d: Design, lv: seq<nat>, st: Stimulus, u: nat, t: nat, vi: nat, q: Bv)
    requires Levelled(d, lv) && vi < |d| && Running(d[vi], t) && ReadsPrevious(d[vi]) && t == u + 1
    requires BitsBelow(d, lv, d[vi].Outs(), TopLevel(lv))
    requires Value(Simulated(d, lv, st), u, d[vi].OutExpr()) == q
    requires SimWord(d, lv, st, u, d[vi].Outs(), TopLevel(lv)) == q
    ensures SamePrev(d, lv, st, t, vi)
  {
  }

  lemma {:induction false} SimulatedHolds(d: Design, lv: seq<nat>, st: Stimulus, t: nat, vi: nat)
    requires WellFormed(d, lv) && vi < |d|
    ensures VertexHolds(d[vi], t, Simulated(d, lv, st))
  {
    var vx, a := d[vi], Simulated(d, lv, st);
    if Running(vx, t) && vx.Live() {
      VertexMeaning(vx, t, a);
      OutSimulated(d, lv, st, t, vi);
      if IsTop(vx) {
        PortValue(vx, a, t);
        InSimulated(d, lv, st, t, vi, A);
      } else {
        CellSimulated(d, lv, st, t, vi);
      }
    }
  }

  lemma {:induction false} CellSimulated(d: Design, lv: seq<nat>, st: Stimulus, t: nat, vi: nat)
    requires WellFormed(d, lv) && vi < |d| && !IsTop(d[vi]) && Running(d[vi], t)
    ensures BitWord(d, lv, st, t, d[vi].Outs())
         == VertexValue(d[vi], Incoming(d[vi], Simulated(d, lv, st), t), Previous(d[vi], Simulated(d, lv, st), t))
  {
    VertexMeaning(d[vi], t, Simulated(d, lv, st));
    SimInsIncoming(d, lv, st, t, vi);
    SimPrevPrevious(d, lv, st, t, vi);
    SimOut(d, lv, st, t, vi,
      VertexValue(d[vi], Incoming(d[vi], Simulated(d, lv, st), t), Previous(d[vi], Simulated(d, lv, st), t)));
  }

  lemma {:induction false} SimOut(d: Design, lv: seq<nat>, st: Stimulus, t: nat, vi: nat, y: Bv)
    requires WellFormed(d, lv) && vi < |d| && !IsTop(d[vi]) && Running(d[vi], t)
    requires y == VertexValue(d[vi], SimIns(d, lv, st, t, vi), SimPrev(d, lv, st, t, vi)) && |y| == |d[vi].Outs()|
    ensures BitWord(d, lv, st, t, d[vi].Outs()) == y
  {
    forall i | 0 <= i < |d[vi].Outs()|
      ensures BitWord(d, lv, st, t, d[vi].Outs())[i] == y[i]
    {
      UniqueDriver(d, lv, vi, i);
      assert Sigma(d, lv, st, t)(d[vi].Outs()[i].id) == Sim(d, lv, st, t, d[vi].Outs()[i].id);
    }
  }

  /** The simulation of any stimulus is a solution of the emitted constraints. */
  lemma {:induction false} SimulationIsSolution(d: Design, lv: seq<nat>, st: Stimulus, steps: nat)
    requires WellFormed(d, lv)
    ensures Solution(d, steps, Simulated(d, lv, st))
  {
    var a := Simulated(d, lv, st);
    forall net, t: nat | IsNet(d, net) && t < steps
      ensures |a.vars(net.name, t)| == |net.bits|
    {
      SimulatedCarries(d, lv, st, t, net);
    }
    forall t: nat, vi | t < steps && 0 <= vi < |d|
      ensures VertexHolds(d[vi], t, a)
    {
      SimulatedHolds(d, lv, st, t, vi);
    }
    AllHold(d, steps, a);
  }

  // ----- when the solution is unique -----

  /** The signal is the variable of a primary input. */
  ghost predicate IsInput(d: Design, name: Name) {
    exists vi :: 0 <= vi < |d| && d[vi].TopInput? && !d[vi].Skipped() && d[vi].name == name
  }

  /** Every position of every edge net is the one that its driver's output expression
      picks, or belongs to a primary input; in a single step a register bit need not
      be, since it is part of the initial state. */
  ghost predicate PositionsForced(d: Design, steps: nat) {
    steps > 0 ==>
      forall net, j: nat :: OnEdge(d, net) && j < |net.bits| ==>
        SlotDriven(d, net.name, j) || (steps == 1 && RegisterBit(d, net.bits[j]))
  }

  ghost predicate SlotDriven(d: Design, name: Name, j: nat) {
    DefOf(d, (name, j)).Def? || IsInput(d, name)
  }

  ghost predicate RegisterBit(d: Design, b: Bit) {
    b.Id? && exists vi :: 0 <= vi < |d| && d[vi].IsRegister() && Drives(d[vi], b.id)
  }

  /** Equal primary inputs at every step and equal register contents at step 0. */
  ghost predicate SameStart(d: Design, steps: nat, a: Assignment, b: Assignment) {
    a.x == b.x && a.z == b.z &&
    (forall name, t: nat :: IsInput(d, name) && t < steps ==> a.vars(name, t) == b.vars(name, t)) &&
    (forall net, j: nat :: OnEdge(d, net) && j < |net.bits| && RegisterBit(d, net.bits[j]) ==>
       SlotValue(a, 0, (net.name, j)) == SlotValue(b, 0, (net.name, j)))
  }

  ghost predicate Deterministic(d: Design, steps: nat) {
    forall a, b :: Solution(d, steps, a) && Solution(d, steps, b) && SameStart(d, steps, a, b) ==>
      SameSignals(d, steps, a, b)
  }

  /** A position in range that nothing drives at this step is a primary input or
      register contents at step 0. */
  lemma {:induction false} UndrivenSlot(d: Design, lv: seq<nat>, steps: nat, s: Slot, t: nat)
    requires WellFormed(d, lv) && PositionsForced(d, steps) && IsSlot(d, s) && !DefinedAt(d, s, t) && t < steps
    ensures IsInput(d, s.0)
         || (t == 0 && exists net ::
           OnEdge(d, net) && net.name == s.0 && s.1 < |net.bits| && RegisterBit(d, net.bits[s.1]))
  {
    var r := DefOf(d, s);
    if r.Def? {
      DefinedSlot(d, lv, r.vi, r.i, s);
      var net :| OnEdge(d, net) && HasSlot(net, s.0, s.1, d[r.vi].Outs()[r.i]);
      assert Drives(d[r.vi], net.bits[s.1].id);
    } else {
      var net :| IsNet(d, net) && net.name == s.0 && s.1 < |net.bits|;
      if OnEdge(d, net) {
        assert SlotDriven(d, net.name, s.1) || (steps == 1 && RegisterBit(d, net.bits[s.1]));
      } else {
        var vi :| 0 <= vi < |d| && net in VertexNets(d[vi]);
        OffEdgeNet(d, lv, vi, net, s.1);
      }
    }
  }

  /** A signal that is not on an edge is that of a top port; an output port drives it. */
  lemma {:induction false} OffEdgeNet(d: Design, lv: seq<nat>, vi: nat, net: Net, j: nat)
    requires WellFormed(d, lv) && vi < |d| && net in VertexNets(d[vi]) && !OnEdge(d, net) && j < |net.bits|
    ensures IsTop(d[vi]) && !d[vi].Skipped() && d[vi].name == net.name
    ensures d[vi].TopOutput? ==> DefOf(d, (net.name, j)).Def?
  {
    var vx := d[vi];
    assert net !in vx.EdgesIn() && net !in vx.EdgesOut();
    if vx.TopOutput? {
      if vx.Trivial() {
        TrivialOutput(vx);
      }
      assert Pieces(vx.OutExpr())[j] == Slice(vx.name, j);
      assert Defines(d, vi, j, (net.name, j));
    }
  }

  lemma {:induction false} TrivialOutput(vx: Vertex)
    requires vx.TopOutput? && vx.Trivial()
    ensures Net(vx.name, vx.bits) in vx.EdgesIn()
  {
    var nets := if HasNonConstant(vx.bits) then vx.inNets else [];
    var k := ExactMatch(nets, vx.bits);
    assert vx.Ins()[0].bits == vx.bits;
    assert k >= 0;
    assert vx.inNets[k] == Net(vx.name, vx.bits);
  }

  /** Two solutions with the same start are equal when every position is driven. */
  lemma {:induction false} StartForces(d: Design, lv: seq<nat>, steps: nat, a: Assignment, b: Assignment)
    requires WellFormed(d, lv) && PositionsForced(d, steps)
    requires Solution(d, steps, a) && Solution(d, steps, b) && SameStart(d, steps, a, b)
    ensures SameSignals(d, steps, a, b)
  {
    var e := Env((s: Slot, t: nat) => SlotValue(b, t, s), b.x, b.z);
    forall s: Slot, t: nat | t < steps && IsSlot(d, s) && !DefinedAt(d, s, t)
      ensures SlotValue(a, t, s) == SlotValue(b, t, s)
    {
      UndrivenSlot(d, lv, steps, s, t);
    }
    assert Agrees(d, steps, a, e) && Agrees(d, steps, b, e);
    UniqueExtension(d, lv, steps, e);
  }

  /** The assignment begins as the stimulus says. */
  ghost predicate StartsAs(d: Design, steps: nat, a: Assignment, st: Stimulus) {
    a.x == st.x && a.z == st.z &&
    (forall vi, t: nat :: 0 <= vi < |d| && d[vi].TopInput? && !d[vi].Skipped() && t < steps ==>
       a.vars(d[vi].name, t) == InputWord(d[vi], st, t)) &&
    (forall net, j: nat :: OnEdge(d, net) && j < |net.bits| && RegisterBit(d, net.bits[j]) ==>
       SlotValue(a, 0, (net.name, j)) == st.init(net.bits[j].id))
  }

  ghost function InputWord(vx: Vertex, st: Stimulus, t: nat): Bv
    requires vx.TopInput?
  {
    seq(|vx.bits|, i requires 0 <= i < |vx.bits| => st.input(vx.name, t, i))
  }

  lemma {:induction false} InputBit(d: Design, lv: seq<nat>, st: Stimulus, t: nat, vi: nat, i: nat)
    requires WellFormed(d, lv) && vi < |d| && d[vi].TopInput? && !d[vi].Skipped() && i < |d[vi].bits|
    ensures d[vi].bits[i].Id? && Sim(d, lv, st, t, d[vi].bits[i].id) == st.input(d[vi].name, t, i)
  {
    UniqueDriver(d, lv, vi, i);
    assert d[vi].Outs()[i] == d[vi].bits[i];
  }

  lemma {:induction false} InputSimulated(d: Design, lv: seq<nat>, st: Stimulus, t: nat, vi: nat)
    requires WellFormed(d, lv) && vi < |d| && d[vi].TopInput? && !d[vi].Skipped()
    ensures Simulated(d, lv, st).vars(d[vi].name, t) == InputWord(d[vi], st, t)
  {
    TopNet(d, vi);
    SimulatedCarries(d, lv, st, t, Net(d[vi].name, d[vi].bits));
    forall i | 0 <= i < |d[vi].bits|
      ensures BitValue(Simulated(d, lv, st), Sigma(d, lv, st, t), d[vi].bits[i]) == InputWord(d[vi], st, t)[i]
    {
      InputBit(d, lv, st, t, vi, i);
      IdValue(d, lv, st, t, d[vi].bits[i]);
    }
    assert Simulated(d, lv, st).vars(d[vi].name, t) == InputWord(d[vi], st, t);
  }

  lemma {:induction false} IdValue(d: Design, lv: seq<nat>, st: Stimulus, t: nat, b: Bit)
    requires Levelled(d, lv) && b.Id?
    ensures BitValue(Simulated(d, lv, st), Sigma(d, lv, st, t), b) == Sim(d, lv, st, t, b.id)
  {
    var a := Simulated(d, lv, st);
    assert Sigma(d, lv, st, t)(b.id) == Sim(d, lv, st, t, b.id);
  }

  lemma {:induction false} RegisterSimulated(d: Design, lv: seq<nat>, st: Stimulus, net: Net, j: nat)
    requires WellFormed(d, lv) && OnEdge(d, net) && j < |net.bits| && RegisterBit(d, net.bits[j])
    ensures SlotValue(Simulated(d, lv, st), 0, (net.name, j)) == st.init(net.bits[j].id)
  {
    var id := net.bits[j].id;
    EdgesAreNets(d, net);
    SimulatedCarries(d, lv, st, 0, net);
    RegisterInit(d, lv, st, id);
  }

  lemma {:induction false} RegisterInit(d: Design, lv: seq<nat>, st: Stimulus, id: nat)
    requires WellFormed(d, lv) && RegisterBit(d, Id(id))
    ensures Sigma(d, lv, st, 0)(id) == st.init(id)
  {
    RegisterDriver(d, lv, id);
    assert Sim(d, lv, st, 0, id) == st.init(id);
  }

  lemma {:induction false} RegisterDriver(d: Design, lv: seq<nat>, id: nat)
    requires WellFormed(d, lv) && RegisterBit(d, Id(id))
    ensures DriverOf(d, id).Def? && d[DriverOf(d, id).vi].IsRegister()
  {
    var vi :| 0 <= vi < |d| && d[vi].IsRegister() && Drives(d[vi], id);
    var i :| 0 <= i < |d[vi].Outs()| && d[vi].Outs()[i] == Id(id);
    assert DrivesAt(d, vi, i, id);
    assert Drives(d[DriverOf(d, id).vi], id);
  }

  lemma {:induction false} SimulationStarts(d: Design, lv: seq<nat>, st: Stimulus, steps: nat)
    requires WellFormed(d, lv)
    ensures StartsAs(d, steps, Simulated(d, lv, st), st)
  {
    var a := Simulated(d, lv, st);
    forall vi, t: nat | 0 <= vi < |d| && d[vi].TopInput? && !d[vi].Skipped() && t < steps
      ensures a.vars(d[vi].name, t) == InputWord(d[vi], st, t)
    {
      InputSimulated(d, lv, st, t, vi);
    }
    forall net, j: nat | OnEdge(d, net) && j < |net.bits| && RegisterBit(d, net.bits[j])
      ensures SlotValue(a, 0, (net.name, j)) == st.init(net.bits[j].id)
    {
      RegisterSimulated(d, lv, st, net, j);
    }
  }

  /** Unrolling preserves meaning: on a well-formed design whose positions are all
      driven, for every number of steps, every initial state and every input
      sequence, the emitted constraints have exactly one solution with this start,
      and it is the step-by-step simulation. */
  lemma {:induction false} UnrollingIsSimulation(d: Design, lv: seq<nat>, steps: nat, st: Stimulus)
    requires WellFormed(d, lv) && PositionsForced(d, steps)
    ensures Solution(d, steps, Simulated(d, lv, st)) && StartsAs(d, steps, Simulated(d, lv, st), st)
    ensures forall a :: Solution(d, steps, a) && StartsAs(d, steps, a, st) ==>
            SameSignals(d, steps, a, Simulated(d, lv, st))
  {
    SimulationIsSolution(d, lv, st, steps);
    SimulationStarts(d, lv, st, steps);
    forall a | Solution(d, steps, a) && StartsAs(d, steps, a, st)
      ensures SameSignals(d, steps, a, Simulated(d, lv, st))
    {
      StartForces(d, lv, steps, a, Simulated(d, lv, st));
    }
  }

  /** A primary input's own signal is never driven. */
  lemma {:induction false} InputUndriven(d: Design, lv: seq<nat>, vi: nat, k: nat)
    requires WellFormed(d, lv) && vi < |d| && d[vi].TopInput? && !d[vi].Skipped() && k < |d[vi].bits|
    ensures DefOf(d, (d[vi].name, k)) == NoDef
  {
    if d[vi].Live() {
      PortUndriven(d, lv, vi, k);
    } else {
      TrivialInput(d[vi]);
      var m :| 0 <= m < |d[vi].outNets| && d[vi].outNets[m] == Net(d[vi].name, d[vi].bits);
      assert d[vi].outNets[m] in d[vi].EdgesOut();
      assert HasSlot(d[vi].outNets[m], d[vi].name, k, d[vi].bits[k]);
      assert SlotOnEdge(d, d[vi].name, k, d[vi].bits[k]);
      assert VertexOk(d[vi]);
      assert d[vi].bits[k] == d[vi].Outs()[k] && Drives(d[vi], d[vi].bits[k].id);
      if DefOf(d, (d[vi].name, k)).Def? {
        DriverOfSlot(d, lv, (d[vi].name, k), d[vi].bits[k]);
      }
    }
  }

  lemma {:induction false} TrivialInput(vx: Vertex)
    requires vx.TopInput? && vx.Trivial()
    ensures exists m :: 0 <= m < |vx.outNets| && vx.outNets[m] == Net(vx.name, vx.bits)
  {
    var k := ExactMatch(vx.outNets, vx.bits);
    assert k >= 0;
    assert vx.outNets[k] == Net(vx.name, vx.bits);
  }

  ghost predicate RegisterSlot(d: Design, s: Slot) {
    exists net :: OnEdge(d, net) && net.name == s.0 && s.1 < |net.bits| && RegisterBit(d, net.bits[s.1])
  }

  /** The environments agree on primary inputs, and on register bits at step 0. */
  ghost predicate AgreeAtStart(d: Design, e: Env, e': Env) {
    e.x == e'.x && e.z == e'.z &&
    (forall s: Slot, t: nat :: IsInput(d, s.0) ==> e.given(s, t) == e'.given(s, t)) &&
    (forall s: Slot :: RegisterSlot(d, s) ==> e.given(s, 0) == e'.given(s, 0))
  }

  lemma {:induction false} InputStarts(d: Design, lv: seq<nat>, e: Env, e': Env, vi: nat, t: nat)
    requires WellFormed(d, lv) && SlotsLevelled(d, lv) && AgreeAtStart(d, e, e')
    requires vi < |d| && d[vi].TopInput? && !d[vi].Skipped()
    ensures Extension(d, lv, e).vars(d[vi].name, t) == Extension(d, lv, e').vars(d[vi].name, t)
  {
    var name := d[vi].name;
    TopNet(d, vi);
    WidthOfNet(d, Net(name, d[vi].bits));
    var x, y := SignalVal(d, lv, e, t, name), SignalVal(d, lv, e', t, name);
    forall k | 0 <= k < |d[vi].bits|
      ensures x[k] == y[k]
    {
      InputBitStarts(d, lv, e, e', vi, t, k);
    }
    assert x == y;
  }

  lemma {:induction false} InputBitStarts(d: Design, lv: seq<nat>, e: Env, e': Env, vi: nat, t: nat, k: nat)
    requires WellFormed(d, lv) && SlotsLevelled(d, lv) && AgreeAtStart(d, e, e')
    requires vi < |d| && d[vi].TopInput? && !d[vi].Skipped() && k < |d[vi].bits|
    ensures SlotVal(d, lv, e, t, (d[vi].name, k)) == SlotVal(d, lv, e', t, (d[vi].name, k))
  {
    InputUndriven(d, lv, vi, k);
    assert IsInput(d, d[vi].name);
  }

  lemma {:induction false} RegisterStarts(d: Design, lv: seq<nat>, e: Env, e': Env, net: Net, j: nat)
    requires WellFormed(d, lv) && SlotsLevelled(d, lv) && AgreeAtStart(d, e, e')
    requires OnEdge(d, net) && j < |net.bits| && RegisterBit(d, net.bits[j])
    ensures SlotValue(Extension(d, lv, e), 0, (net.name, j)) == SlotValue(Extension(d, lv, e'), 0, (net.name, j))
  {
    EdgesAreNets(d, net);
    WidthOfNet(d, net);
    assert RegisterSlot(d, (net.name, j));
    RegisterSlotGiven(d, lv, e, net, j);
    RegisterSlotGiven(d, lv, e', net, j);
    ExtensionSlot(d, lv, e, 0, Slice(net.name, j));
    ExtensionSlot(d, lv, e', 0, Slice(net.name, j));
  }

  /** Such environments have extensions with the same start. */
  lemma {:induction false} ExtensionStarts(d: Design, lv: seq<nat>, steps: nat, e: Env, e': Env)
    requires WellFormed(d, lv) && SlotsLevelled(d, lv) && AgreeAtStart(d, e, e')
    ensures SameStart(d, steps, Extension(d, lv, e), Extension(d, lv, e'))
  {
    var a, b := Extension(d, lv, e), Extension(d, lv, e');
    forall name, t: nat | IsInput(d, name) && t < steps
      ensures a.vars(name, t) == b.vars(name, t)
    {
      var vi :| 0 <= vi < |d| && d[vi].TopInput? && !d[vi].Skipped() && d[vi].name == name;
      InputStarts(d, lv, e, e', vi, t);
    }
    forall net, j: nat | OnEdge(d, net) && j < |net.bits| && RegisterBit(d, net.bits[j])
      ensures SlotValue(a, 0, (net.name, j)) == SlotValue(b, 0, (net.name, j))
    {
      RegisterStarts(d, lv, e, e', net, j);
    }
  }

  lemma {:induction false} RegisterSlotGiven(d: Design, lv: seq<nat>, e: Env, net: Net, j: nat)
    requires WellFormed(d, lv) && SlotsLevelled(d, lv) && OnEdge(d, net) && j < |net.bits| &&
             RegisterBit(d, net.bits[j])
    ensures SlotVal(d, lv, e, 0, (net.name, j)) == e.given((net.name, j), 0)
  {
    var s: Slot := (net.name, j);
    assert HasSlot(net, net.name, j, net.bits[j]);
    if DefOf(d, s).Def? {
      DriverOfSlot(d, lv, s, net.bits[j]);
      var vi :| 0 <= vi < |d| && d[vi].IsRegister() && Drives(d[vi], net.bits[j].id);
      assert DefOf(d, s).vi == vi;
    }
  }

  /** All given positions are false, except possibly one at one step. */
  ghost function OneGiven(s: Slot, u: nat, value: bool): Env {
    Env((r: Slot, t: nat) => value && r == s && t == u, false, false)
  }

  lemma {:induction false} OneGivenStarts(d: Design, u: nat, net: Net, j: nat)
    requires ConsistentNames(d) && OnEdge(d, net) && j < |net.bits| && !SlotDriven(d, net.name, j)
    requires u == 0 ==> !RegisterBit(d, net.bits[j])
    ensures AgreeAtStart(d, OneGiven((net.name, j), u, false), OneGiven((net.name, j), u, true))
  {
    EdgesAreNets(d, net);
    if RegisterSlot(d, (net.name, j)) {
      var m :| OnEdge(d, m) && m.name == net.name && j < |m.bits| && RegisterBit(d, m.bits[j]);
      EdgesAreNets(d, m);
    }
  }

  /** An undriven position can hold either value in the last step. */
  lemma {:induction false} UndrivenIsFree(d: Design, lv: seq<nat>, steps: nat, net: Net, j: nat)
    requires WellFormed(d, lv) && steps >= 1
    requires OnEdge(d, net) && j < |net.bits| && !SlotDriven(d, net.name, j)
    requires steps == 1 ==> !RegisterBit(d, net.bits[j])
    ensures !Deterministic(d, steps)
  {
    var s: Slot, u := (net.name, j), steps - 1;
    var e, e' := OneGiven(s, u, false), OneGiven(s, u, true);
    UniqueExtension(d, lv, steps, e);
    UniqueExtension(d, lv, steps, e');
    OneGivenStarts(d, u, net, j);
    ExtensionStarts(d, lv, steps, e, e');
    UndrivenValue(d, lv, e, u, net, j);
    UndrivenValue(d, lv, e', u, net, j);
    EdgesAreNets(d, net);
    assert Extension(d, lv, e).vars(net.name, u) != Extension(d, lv, e').vars(net.name, u);
  }

  lemma {:induction false} UndrivenValue(d: Design, lv: seq<nat>, e: Env, u: nat, net: Net, j: nat)
    requires WellFormed(d, lv) && SlotsLevelled(d, lv) && OnEdge(d, net) && j < |net.bits| &&
             !SlotDriven(d, net.name, j)
    ensures SlotValue(Extension(d, lv, e), u, (net.name, j)) == e.given((net.name, j), u)
  {
    EdgesAreNets(d, net);
    WidthOfNet(d, net);
    ExtensionSlot(d, lv, e, u, Slice(net.name, j));
  }

  /** The unrolled instance is deterministic exactly when every position of every
      edge net is driven. */
  lemma {:induction false} DeterministicIff(d: Design, lv: seq<nat>, steps: nat)
    requires WellFormed(d, lv)
    ensures Deterministic(d, steps) <==> PositionsForced(d, steps)
  {
    if PositionsForced(d, steps) {
      forall a, b | Solution(d, steps, a) && Solution(d, steps, b) && SameStart(d, steps, a, b)
        ensures SameSignals(d, steps, a, b)
      {
        StartForces(d, lv, steps, a, b);
      }
    } else {
      var net, j: nat :| OnEdge(d, net) && j < |net.bits| && !SlotDriven(d, net.name, j) &&
        !(steps == 1 && RegisterBit(d, net.bits[j]));
      UndrivenIsFree(d, lv, steps, net, j);
    }
  }
}
