/** The runs that the search reasons about are the simulated executions of the
    unrolled design, read off at its ports. */
module QifaDesign {
  import opened Bitvectors
  import Cells
  import opened PortExpr
  import opened Unroll
  import opened UnrollProof
  import opened Simulation
  import Qifa

  /** The signals the search looks at. */
  datatype PortNames = PortNames(inputs: seq<Name>, outputs: seq<Name>, secrets: seq<Name>, states: seq<Name>)
  {
    function All(): seq<Name> {
      inputs + outputs + secrets + states
    }
  }

  function Numerals(a: Assignment, t: nat, names: seq<Name>): (ns: seq<nat>)
    ensures |ns| == |names|
  {
    seq<nat>(|names|, i requires 0 <= i < |names| => ToNat(a.vars(names[i], t)))
  }

  /** The values that get_values extracts from a model, step by step. */
  function Observed(a: Assignment, names: PortNames, steps: nat): (r: Qifa.Run)
    ensures |r| == steps
  {
    seq(steps, t requires 0 <= t < steps =>
      Qifa.SmtValues(Numerals(a, t, names.inputs), Numerals(a, t, names.outputs),
                     Numerals(a, t, names.secrets), Numerals(a, t, names.states)))
  }

  // ----- what a run says of an execution -----

  ghost predicate ReadsNumbers(ns: seq<nat>, a: Assignment, t: nat, some: seq<Name>) {
    |ns| == |some| && forall k :: 0 <= k < |some| ==> ns[k] == ToNat(a.vars(some[k], t))
  }

  /** Step by step, the numbers of all ports and states at that step. */
  ghost predicate ReadsRun(r: Qifa.Run, a: Assignment, names: PortNames, steps: nat) {
    |r| == steps &&
    forall t :: 0 <= t < steps ==>
      ReadsNumbers(r[t].inputs, a, t, names.inputs) && ReadsNumbers(r[t].outputs, a, t, names.outputs) &&
      ReadsNumbers(r[t].secrets, a, t, names.secrets) && ReadsNumbers(r[t].states, a, t, names.states)
  }

  lemma ObservedReads(r: Qifa.Run, a: Assignment, names: PortNames, steps: nat)
    ensures r == Observed(a, names, steps) <==> ReadsRun(r, a, names, steps)
  {
    if ReadsRun(r, a, names, steps) {
      forall t | 0 <= t < steps
        ensures r[t] == Observed(a, names, steps)[t]
      {
        assert r[t].inputs == Numerals(a, t, names.inputs) && r[t].outputs == Numerals(a, t, names.outputs);
        assert r[t].secrets == Numerals(a, t, names.secrets) && r[t].states == Numerals(a, t, names.states);
      }
    }
  }

  /** Two executions have the same numbers at these names, one at step t and one at step u. */
  ghost predicate SameNumbers(a: Assignment, t: nat, b: Assignment, u: nat, some: seq<Name>) {
    forall name :: name in some ==> ToNat(a.vars(name, t)) == ToNat(b.vars(name, u))
  }

  lemma NumbersEqualIff(ns: seq<nat>, a: Assignment, t: nat, ms: seq<nat>, b: Assignment, u: nat, some: seq<Name>)
    requires ReadsNumbers(ns, a, t, some) && ReadsNumbers(ms, b, u, some)
    ensures ns == ms <==> SameNumbers(a, t, b, u, some)
  {
    if ns == ms {
      forall name | name in some
        ensures ToNat(a.vars(name, t)) == ToNat(b.vars(name, u))
      {
        var k :| 0 <= k < |some| && some[k] == name;
        assert ns[k] == ms[k];
      }
    }
    if SameNumbers(a, t, b, u, some) {
      forall k | 0 <= k < |some|
        ensures ns[k] == ms[k]
      {
        assert some[k] in some;
      }
    }
  }

  /** Two runs of the search are under the same control exactly when the executions have the
      same number at every state at the start and at every input at every step. */
  lemma SameControlIff(d: Design, steps: nat, names: PortNames, r: Qifa.Run, a: Assignment, q: Qifa.Run, b: Assignment)
    requires steps > 0 && ReadsRun(r, a, names, steps) && ReadsRun(q, b, names, steps)
    requires InstanceOf(d, steps, names).IsRun(r) && InstanceOf(d, steps, names).IsRun(q)
    ensures Qifa.SameControl(InstanceOf(d, steps, names), r, q) <==>
            SameNumbers(a, 0, b, 0, names.states) &&
            forall t :: 0 <= t < steps ==> SameNumbers(a, t, b, t, names.inputs)
  {
    NumbersEqualIff(r[0].states, a, 0, q[0].states, b, 0, names.states);
    forall t | 0 <= t < steps
      ensures r[t].inputs == q[t].inputs <==> SameNumbers(a, t, b, t, names.inputs)
    {
      NumbersEqualIff(r[t].inputs, a, t, q[t].inputs, b, t, names.inputs);
    }
  }

  /** The secrets of a run are constant exactly when the execution has at every step the number
      of the start at every secret. */
  lemma SecretsConstantIff(d: Design, steps: nat, names: PortNames, r: Qifa.Run, a: Assignment)
    requires steps > 0 && ReadsRun(r, a, names, steps) && InstanceOf(d, steps, names).IsRun(r)
    ensures Qifa.SecretsConstant(InstanceOf(d, steps, names), r) <==>
            forall t :: 0 <= t < steps ==> SameNumbers(a, t, a, 0, names.secrets)
  {
    forall t | 0 <= t < steps
      ensures r[t].secrets == r[0].secrets <==> SameNumbers(a, t, a, 0, names.secrets)
    {
      NumbersEqualIff(r[t].secrets, a, t, r[0].secrets, a, 0, names.secrets);
    }
  }

  /** All secrets of two runs differ exactly when the executions start with different numbers
      at every secret. */
  lemma AllSecretsDifferIff(d: Design, steps: nat, names: PortNames, r: Qifa.Run, a: Assignment, q: Qifa.Run,
                            b: Assignment)
    requires steps > 0 && ReadsRun(r, a, names, steps) && ReadsRun(q, b, names, steps)
    requires InstanceOf(d, steps, names).IsRun(r) && InstanceOf(d, steps, names).IsRun(q)
    ensures Qifa.AllSecretsDiffer(InstanceOf(d, steps, names), r, q) <==>
            forall name :: name in names.secrets ==> ToNat(a.vars(name, 0)) != ToNat(b.vars(name, 0))
  {
    var some, ns, ms := names.secrets, r[0].secrets, q[0].secrets;
    assert ReadsNumbers(ns, a, 0, some) && ReadsNumbers(ms, b, 0, some);
    if Qifa.AllSecretsDiffer(InstanceOf(d, steps, names), r, q) {
      forall name | name in some
        ensures ToNat(a.vars(name, 0)) != ToNat(b.vars(name, 0))
      {
        var k :| 0 <= k < |some| && some[k] == name;
        assert ns[k] != ms[k];
      }
    }
  }

  /** Two runs are observable exactly when some output has different numbers at some step. */
  lemma ObservableIff(d: Design, steps: nat, names: PortNames, r: Qifa.Run, a: Assignment, q: Qifa.Run, b: Assignment)
    requires steps > 0 && ReadsRun(r, a, names, steps) && ReadsRun(q, b, names, steps)
    requires InstanceOf(d, steps, names).IsRun(r) && InstanceOf(d, steps, names).IsRun(q)
    ensures Qifa.Observable(InstanceOf(d, steps, names), r, q) <==>
            exists t :: 0 <= t < steps && !SameNumbers(a, t, b, t, names.outputs)
  {
    forall t | 0 <= t < steps
      ensures r[t].outputs == q[t].outputs <==> SameNumbers(a, t, b, t, names.outputs)
    {
      NumbersEqualIff(r[t].outputs, a, t, q[t].outputs, b, t, names.outputs);
    }
  }

  ghost predicate Admits(d: Design, steps: nat, names: PortNames, r: Qifa.Run, x: bool, z: bool) {
    exists a :: Solution(d, steps, a) && a.x == x && a.z == z && r == Observed(a, names, steps)
  }

  /** The instance that create_unrolled_instance makes of a design. */
  ghost function InstanceOf(d: Design, steps: nat, names: PortNames): Qifa.Instance {
    Qifa.Instance(steps, |names.inputs|, |names.outputs|, |names.secrets|, |names.states|,
                  (r: Qifa.Run, x: bool, z: bool) => Admits(d, steps, names, r, x, z))
  }

  ghost predicate Known(d: Design, name: Name) {
    exists net :: IsNet(d, net) && net.name == name
  }

  ghost predicate NamesKnown(d: Design, names: PortNames) {
    forall name :: name in names.All() ==> Known(d, name)
  }

  /** A position where the edge nets hold bit id. */
  ghost predicate HoldsBit(d: Design, id: nat, s: Slot) {
    SlotOnEdge(d, s.0, s.1, Id(id))
  }

  /** A register bit is at one position only, the one its register drives. */
  lemma {:induction false} OneSlot(d: Design, lv: seq<nat>, id: nat, s: Slot, s': Slot)
    requires WellFormed(d, lv) && PositionsForced(d, 2) && RegisterBit(d, Id(id))
    requires HoldsBit(d, id, s) && HoldsBit(d, id, s')
    ensures s == s'
  {
    RegisterSlotDefined(d, lv, id, s);
    RegisterSlotDefined(d, lv, id, s');
    var r, r' := DefOf(d, s), DefOf(d, s');
    assert r.vi == r'.vi;
    OneOutput(d, lv, r.vi, r.i, r'.i, id);
  }

  lemma {:induction false} OneOutput(d: Design, lv: seq<nat>, vi: nat, i: nat, j: nat, id: nat)
    requires WellFormed(d, lv) && vi < |d| && !d[vi].TopOutput? && !d[vi].Skipped()
    requires i < |d[vi].Outs()| && j < |d[vi].Outs()| && d[vi].Outs()[i] == d[vi].Outs()[j] == Id(id)
    ensures i == j
  {
    assert VertexOk(d[vi]);
    assert Distinct(d[vi].Outs());
  }

  lemma {:induction false} RegisterSlotDefined(d: Design, lv: seq<nat>, id: nat, s: Slot)
    requires WellFormed(d, lv) && PositionsForced(d, 2) && RegisterBit(d, Id(id)) && HoldsBit(d, id, s)
    ensures DefOf(d, s).Def?
    ensures var r := DefOf(d, s);
            Defines(d, r.vi, r.i, s) && !d[r.vi].TopOutput? && !d[r.vi].Skipped() && Drives(d[r.vi], id) &&
            r.i < |d[r.vi].Outs()| && d[r.vi].Outs()[r.i] == Id(id)
  {
    var net :| OnEdge(d, net) && HasSlot(net, s.0, s.1, Id(id));
    assert SlotDriven(d, net.name, s.1);
    if DefOf(d, s).Def? {
      DriverOfSlot(d, lv, s, Id(id));
    } else {
      InputHoldsNoRegister(d, lv, id, net, s.1);
    }
  }

  lemma {:induction false} InputHoldsNoRegister(d: Design, lv: seq<nat>, id: nat, net: Net, j: nat)
    requires WellFormed(d, lv) && RegisterBit(d, Id(id)) && OnEdge(d, net) && j < |net.bits| && net.bits[j] == Id(id)
    ensures !IsInput(d, net.name)
  {
    EdgesAreNets(d, net);
    var r :| 0 <= r < |d| && d[r].IsRegister() && Drives(d[r], id);
    forall vi | 0 <= vi < |d| && d[vi].TopInput? && !d[vi].Skipped()
      ensures d[vi].name != net.name
    {
      if d[vi].name == net.name {
        InputDrives(d, id, net, j, vi);
      }
    }
  }

  lemma {:induction false} InputDrives(d: Design, id: nat, net: Net, j: nat, vi: nat)
    requires ConsistentNames(d) && IsNet(d, net) && j < |net.bits| && net.bits[j] == Id(id)
    requires vi < |d| && d[vi].TopInput? && !d[vi].Skipped() && d[vi].name == net.name
    ensures Drives(d[vi], id)
  {
    TopNet(d, vi);
    assert Net(d[vi].name, d[vi].bits).bits == net.bits;
    assert d[vi].Outs()[j] == Id(id);
  }

  /** The start of a solution, as a stimulus. */
  ghost function InitOf(d: Design, a: Assignment, id: nat): bool {
    Held(d, id) && SlotValue(a, 0, SlotOf(d, id))
  }

  ghost predicate Held(d: Design, id: nat) {
    exists s: Slot :: HoldsBit(d, id, s)
  }

  ghost function SlotOf(d: Design, id: nat): (s: Slot)
    requires Held(d, id)
    ensures HoldsBit(d, id, s)
  {
    var s: Slot :| HoldsBit(d, id, s);
    s
  }

  ghost function StimulusOf(d: Design, a: Assignment): Stimulus {
    Stimulus((id: nat) => InitOf(d, a, id), (name: Name, t: nat, i: nat) => At(a.vars(name, t), i), a.x, a.z)
  }

  lemma {:induction false} SolutionStarts(d: Design, lv: seq<nat>, steps: nat, a: Assignment)
    requires WellFormed(d, lv) && PositionsForced(d, 2) && Solution(d, steps, a)
    ensures StartsAs(d, steps, a, StimulusOf(d, a))
  {
    var st := StimulusOf(d, a);
    forall vi, t: nat | 0 <= vi < |d| && d[vi].TopInput? && !d[vi].Skipped() && t < steps
      ensures a.vars(d[vi].name, t) == InputWord(d[vi], st, t)
    {
      InputStart(d, steps, a, vi, t);
    }
    forall net, j: nat | OnEdge(d, net) && j < |net.bits| && RegisterBit(d, net.bits[j])
      ensures SlotValue(a, 0, (net.name, j)) == st.init(net.bits[j].id)
    {
      RegisterStart(d, lv, a, net, j);
    }
  }

  lemma {:induction false} InputStart(d: Design, steps: nat, a: Assignment, vi: nat, t: nat)
    requires Shaped(d, steps, a) && vi < |d| && d[vi].TopInput? && !d[vi].Skipped() && t < steps
    ensures a.vars(d[vi].name, t) == InputWord(d[vi], StimulusOf(d, a), t)
  {
    TopNet(d, vi);
    assert |a.vars(d[vi].name, t)| == |d[vi].bits| by {
      var net := Net(d[vi].name, d[vi].bits);
      assert IsNet(d, net);
      assert |a.vars(net.name, t)| == |net.bits|;
    }
  }

  lemma {:induction false} RegisterStart(d: Design, lv: seq<nat>, a: Assignment, net: Net, j: nat)
    requires WellFormed(d, lv) && PositionsForced(d, 2) && OnEdge(d, net) && j < |net.bits| &&
             RegisterBit(d, net.bits[j])
    ensures SlotValue(a, 0, (net.name, j)) == InitOf(d, a, net.bits[j].id)
  {
    var id, s: Slot := net.bits[j].id, (net.name, j);
    EdgeHolds(d, net, j, id);
    OneSlot(d, lv, id, s, SlotOf(d, id));
  }

  lemma EdgeHolds(d: Design, net: Net, j: nat, id: nat)
    requires OnEdge(d, net) && j < |net.bits| && net.bits[j] == Id(id)
    ensures HoldsBit(d, id, (net.name, j)) && Held(d, id)
  {
    assert HasSlot(net, net.name, j, Id(id));
    assert HoldsBit(d, id, (net.name, j));
  }

  lemma SameObserved(d: Design, steps: nat, names: PortNames, a: Assignment, b: Assignment)
    requires SameSignals(d, steps, a, b) && NamesKnown(d, names)
    ensures Observed(a, names, steps) == Observed(b, names, steps)
  {
    forall t, name | 0 <= t < steps && name in names.All()
      ensures a.vars(name, t) == b.vars(name, t)
    {
      assert Known(d, name);
    }
    forall t | 0 <= t < steps
      ensures Observed(a, names, steps)[t] == Observed(b, names, steps)[t]
    {
      SameNumerals(a, b, t, names, names.inputs);
      SameNumerals(a, b, t, names, names.outputs);
      SameNumerals(a, b, t, names, names.secrets);
      SameNumerals(a, b, t, names, names.states);
    }
  }

  lemma SameNumerals(a: Assignment, b: Assignment, t: nat, names: PortNames, some: seq<Name>)
    requires forall name :: name in names.All() ==> a.vars(name, t) == b.vars(name, t)
    requires forall name :: name in some ==> name in names.All()
    ensures Numerals(a, t, some) == Numerals(b, t, some)
  {
    forall i | 0 <= i < |some|
      ensures a.vars(some[i], t) == b.vars(some[i], t)
    {
      assert some[i] in some;
    }
  }

  /** Compiler and search together: on a deterministic design the runs of the instance for
      some x and z are exactly the simulated executions with these values of the undefined
      bits. */
  lemma {:induction false} RunsAreSimulations(d: Design, lv: seq<nat>, steps: nat, names: PortNames, r: Qifa.Run,
                                              x: bool, z: bool)
    requires WellFormed(d, lv) && PositionsForced(d, 2) && NamesKnown(d, names)
    ensures InstanceOf(d, steps, names).IsRunOf(r, x, z) <==>
            exists st: Stimulus :: st.x == x && st.z == z && ReadsRun(r, Simulated(d, lv, st), names, steps)
  {
    if InstanceOf(d, steps, names).IsRunOf(r, x, z) {
      var a :| Solution(d, steps, a) && a.x == x && a.z == z && r == Observed(a, names, steps);
      var st := StimulusOf(d, a);
      SolutionStarts(d, lv, steps, a);
      UnrollingIsSimulation(d, lv, steps, st);
      SameObserved(d, steps, names, a, Simulated(d, lv, st));
      ObservedReads(r, Simulated(d, lv, st), names, steps);
      assert st.x == x && st.z == z;
    }
    if st: Stimulus :| st.x == x && st.z == z && ReadsRun(r, Simulated(d, lv, st), names, steps) {
      UnrollingIsSimulation(d, lv, steps, st);
      ObservedReads(r, Simulated(d, lv, st), names, steps);
      assert Admits(d, steps, names, r, x, z);
    }
  }

  // ----- designs that leak nothing -----

  /** Executions under the same control show the same outputs. */
  ghost predicate Oblivious(d: Design, lv: seq<nat>, steps: nat, names: PortNames, x: bool, z: bool)
    requires Levelled(d, lv)
  {
    forall st: Stimulus, st': Stimulus | st.x == st'.x == x && st.z == st'.z == z ::
      SameOutputs(Simulated(d, lv, st), Simulated(d, lv, st'), steps, names)
  }

  ghost predicate SameOutputs(a: Assignment, b: Assignment, steps: nat, names: PortNames) {
    SameNumbers(a, 0, b, 0, names.states) && (forall t :: 0 <= t < steps ==> SameNumbers(a, t, b, t, names.inputs)) ==>
      forall t :: 0 <= t < steps ==> SameNumbers(a, t, b, t, names.outputs)
  }

  lemma SameOutputsHide(d: Design, steps: nat, names: PortNames, r: Qifa.Run, a: Assignment, q: Qifa.Run, b: Assignment)
    requires steps > 0 && ReadsRun(r, a, names, steps) && ReadsRun(q, b, names, steps)
    requires InstanceOf(d, steps, names).IsRun(r) && InstanceOf(d, steps, names).IsRun(q)
    requires SameOutputs(a, b, steps, names) && Qifa.SameControl(InstanceOf(d, steps, names), r, q)
    ensures !Qifa.Observable(InstanceOf(d, steps, names), r, q)
  {
    SameControlIff(d, steps, names, r, a, q, b);
    ObservableIff(d, steps, names, r, a, q, b);
  }

  lemma {:induction false} ExecutionOf(d: Design, lv: seq<nat>, steps: nat, names: PortNames, r: Qifa.Run,
                                       x: bool, z: bool)
    returns (st: Stimulus)
    requires WellFormed(d, lv) && PositionsForced(d, 2) && NamesKnown(d, names)
    requires InstanceOf(d, steps, names).IsRunOf(r, x, z)
    ensures st.x == x && st.z == z && ReadsRun(r, Simulated(d, lv, st), names, steps)
  {
    RunsAreSimulations(d, lv, steps, names, r, x, z);
    st :| st.x == x && st.z == z && ReadsRun(r, Simulated(d, lv, st), names, steps);
  }

  /** Two runs of such a design under the same control are not observable. */
  lemma {:induction false} ObliviousPair(d: Design, lv: seq<nat>, steps: nat, names: PortNames, x: bool, z: bool,
                                         r: Qifa.Run, q: Qifa.Run)
    requires WellFormed(d, lv) && PositionsForced(d, 2) && NamesKnown(d, names) && steps > 0
    requires Oblivious(d, lv, steps, names, x, z)
    requires InstanceOf(d, steps, names).IsRunOf(r, x, z) && InstanceOf(d, steps, names).IsRunOf(q, x, z)
    requires Qifa.SameControl(InstanceOf(d, steps, names), r, q)
    ensures !Qifa.Observable(InstanceOf(d, steps, names), r, q)
  {
    var st := ExecutionOf(d, lv, steps, names, r, x, z);
    var st' := ExecutionOf(d, lv, steps, names, q, x, z);
    assert SameOutputs(Simulated(d, lv, st), Simulated(d, lv, st'), steps, names);
    SameOutputsHide(d, steps, names, r, Simulated(d, lv, st), q, Simulated(d, lv, st'));
  }

  /** A design whose outputs are determined by its inputs, its initial state and the undefined
      bits has no two equivalence classes, whatever its secrets are. */
  lemma {:induction false} ObliviousHasOneClass(d: Design, lv: seq<nat>, steps: nat, names: PortNames, x: bool, z: bool,
                                                rs: seq<Qifa.Run>)
    requires WellFormed(d, lv) && PositionsForced(d, 2) && NamesKnown(d, names) && steps > 0
    requires Oblivious(d, lv, steps, names, x, z)
    requires Qifa.SharedFamily(InstanceOf(d, steps, names), rs, x, z)
    ensures |rs| <= 1
  {
    if |rs| > 1 {
      assert Qifa.SameControl(InstanceOf(d, steps, names), rs[0], rs[1]);
      assert Qifa.Distinguished(InstanceOf(d, steps, names), rs[0], rs[1]);
      ObliviousPair(d, lv, steps, names, x, z, rs[0], rs[1]);
    }
  }

  // ----- undefined bits -----

  predicate Undefined(b: Bit) {
    b == ConstX || b == ConstZ
  }

  /** No port that is exported has an undefined bit. */
  ghost predicate ReadsDefined(d: Design) {
    forall vi, p, b :: 0 <= vi < |d| && !d[vi].Skipped() && p in d[vi].Ins() && b in p.bits ==> !Undefined(b)
  }

  predicate Settled(e: Expr) {
    forall k :: 0 <= k < |Pieces(e)| ==> Pieces(e)[k] != FreeX && Pieces(e)[k] != FreeZ
  }

  lemma {:induction false} PartsSettled(nets: seq<Net>, consts: set<Bit>, bits: seq<Bit>)
    requires forall b :: b in bits && Undefined(b) ==> b !in consts
    ensures forall k :: 0 <= k < |Parts(nets, consts, bits)| ==>
              Parts(nets, consts, bits)[k] != FreeX && Parts(nets, consts, bits)[k] != FreeZ
  {
    if |bits| > 0 {
      PartsSettled(nets, consts, bits[1..]);
      assert bits[0] in bits;
    }
  }

  lemma ReassembledSettled(nets: seq<Net>, consts: set<Bit>, bits: seq<Bit>)
    requires forall b :: b in bits && Undefined(b) ==> b !in consts
    ensures Settled(Reassembled(nets, consts, bits))
  {
    PartsSettled(nets, consts, bits);
  }

  lemma InSettled(vx: Vertex, bits: seq<Bit>)
    requires forall b :: b in bits ==> !Undefined(b)
    ensures Settled(vx.InExpr(bits))
  {
    if !vx.TopInput? {
      ReassembledSettled(if HasNonConstant(bits) then vx.inNets else [], vx.Constants(), bits);
    }
  }

  lemma OutSettled(vx: Vertex)
    ensures Settled(vx.OutExpr())
  {
    if !vx.TopOutput? {
      ReassembledSettled(vx.outNets, NO_CONSTANTS, vx.Outs());
    }
  }

  /** The same signals under other values of x and z. */
  function WithUndefined(a: Assignment, x: bool, z: bool): Assignment {
    Assignment(a.vars, x, z)
  }

  lemma SettledValue(a: Assignment, t: nat, e: Expr, x: bool, z: bool)
    requires Settled(e)
    ensures Value(WithUndefined(a, x, z), t, e) == Value(a, t, e)
  {
    var ps := Pieces(e);
    forall k | 0 <= k < |ps|
      ensures PieceValue(WithUndefined(a, x, z), t, ps[k]) == PieceValue(a, t, ps[k])
    {
    }
  }

  lemma PortIn(ports: seq<Port>, p: Cells.PortName)
    requires HasPort(ports, p)
    ensures Port(p, PortBits(ports, p)) in ports
  {
  }

  lemma SettledValues(d: Design, vi: nat, a: Assignment, t: nat, x: bool, z: bool)
    requires ReadsDefined(d) && vi < |d| && !d[vi].Skipped()
    ensures ValuesAt(WithUndefined(a, x, z), t, d[vi].InMap()) == ValuesAt(a, t, d[vi].InMap())
  {
    var ins := d[vi].InMap();
    forall p | p in ins
      ensures Value(WithUndefined(a, x, z), t, ins[p]) == Value(a, t, ins[p])
    {
      PortIn(d[vi].Ins(), p);
      InSettled(d[vi], PortBits(d[vi].Ins(), p));
      SettledValue(a, t, ins[p], x, z);
    }
  }

  lemma SettledPrevious(vx: Vertex, a: Assignment, t: nat, x: bool, z: bool)
    requires vx.CellVertex?
    ensures PrevValue(WithUndefined(a, x, z), vx.kind, vx.OutExpr(), t) == PrevValue(a, vx.kind, vx.OutExpr(), t)
  {
    OutSettled(vx);
    if t > 0 {
      SettledValue(a, t - 1, vx.OutExpr(), x, z);
    }
  }

  /** A cell constraint looks at three things only. */
  lemma SameCell(a: Assignment, b: Assignment, c: Constraint)
    requires c.CellConstraint? && ValuesAt(b, c.inTime, c.ins) == ValuesAt(a, c.inTime, c.ins)
    requires Value(b, c.outTime, c.out) == Value(a, c.outTime, c.out)
    requires PrevValue(b, c.kind, c.out, c.outTime) == PrevValue(a, c.kind, c.out, c.outTime)
    ensures Satisfies(b, c) <==> Satisfies(a, c)
  {
  }

  lemma SettledCell(d: Design, vi: nat, t: nat, a: Assignment, x: bool, z: bool, c: Constraint)
    requires ReadsDefined(d) && vi < |d| && !d[vi].Skipped() && d[vi].CellVertex?
    requires c == CellConstraint(d[vi].kind, d[vi].InMap(), InTime(d[vi], t), d[vi].OutExpr(), t)
    ensures Satisfies(WithUndefined(a, x, z), c) <==> Satisfies(a, c)
  {
    OutSettled(d[vi]);
    SettledValue(a, t, d[vi].OutExpr(), x, z);
    SettledPrevious(d[vi], a, t, x, z);
    SettledValues(d, vi, a, InTime(d[vi], t), x, z);
    SameCell(a, WithUndefined(a, x, z), c);
  }

  lemma SettledPort(d: Design, vi: nat, t: nat, a: Assignment, x: bool, z: bool, c: Constraint)
    requires ReadsDefined(d) && vi < |d| && !d[vi].Skipped() && !d[vi].CellVertex?
    requires c == Connect(d[vi].OutExpr(), d[vi].InExpr(d[vi].Ins()[0].bits), t)
    ensures Satisfies(WithUndefined(a, x, z), c) <==> Satisfies(a, c)
  {
    OutSettled(d[vi]);
    SettledValue(a, t, d[vi].OutExpr(), x, z);
    assert d[vi].Ins()[0] in d[vi].Ins();
    InSettled(d[vi], d[vi].Ins()[0].bits);
    SettledValue(a, t, d[vi].InExpr(d[vi].Ins()[0].bits), x, z);
  }

  lemma SettledConstraint(d: Design, vi: nat, t: nat, a: Assignment, x: bool, z: bool, c: Constraint)
    requires ReadsDefined(d) && vi < |d| && c in VertexConstraints(d[vi], t)
    ensures Satisfies(WithUndefined(a, x, z), c) <==> Satisfies(a, c)
  {
    if d[vi].CellVertex? {
      SettledCell(d, vi, t, a, x, z, c);
    } else {
      SettledPort(d, vi, t, a, x, z, c);
    }
  }

  lemma {:induction false} SettledSolution(d: Design, steps: nat, a: Assignment, x: bool, z: bool)
    requires ReadsDefined(d) && Solution(d, steps, a)
    ensures Solution(d, steps, WithUndefined(a, x, z))
  {
    forall c | c in AllConstraints(d, steps)
      ensures Satisfies(WithUndefined(a, x, z), c)
    {
      Member(d, steps, c);
      var t: nat, vi: nat :| t < steps && vi < |d| && c in VertexConstraints(d[vi], t);
      SettledConstraint(d, vi, t, a, x, z, c);
    }
  }

  /** A design that reads no undefined bit has the same runs for all x and z, so that all its
      executions take part in one search. */
  lemma {:induction false} DefinedIgnores(d: Design, steps: nat, names: PortNames)
    requires ReadsDefined(d)
    ensures InstanceOf(d, steps, names).IgnoresUndefined()
  {
    var i := InstanceOf(d, steps, names);
    forall r, x, z, x', z' | i.IsRunOf(r, x, z)
      ensures i.IsRunOf(r, x', z')
    {
      var a :| Solution(d, steps, a) && a.x == x && a.z == z && r == Observed(a, names, steps);
      SettledSolution(d, steps, a, x', z');
      SameSignalsObserved(a, names, steps, x', z');
    }
  }

  lemma SameSignalsObserved(a: Assignment, names: PortNames, steps: nat, x: bool, z: bool)
    ensures Observed(WithUndefined(a, x, z), names, steps) == Observed(a, names, steps)
  {
  }
}
