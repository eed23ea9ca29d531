/** The search for equivalence classes of secrets: one incremental solver over
    growing families of unrolled instances, and one over a single instance that
    extends a family under fixed inputs and initial state. The undefined bits x and z
    are one constant each in a solver, whatever the number of instances in it. */
module Qifa {

  /** The numerals of the port and state signals of one instance at one step. */
  datatype SmtValues = SmtValues(inputs: seq<nat>, outputs: seq<nat>, secrets: seq<nat>, states: seq<nat>)

  /** The values of one instance, by time step. */
  type Run = seq<SmtValues>

  /** What is known of the design: the unroll factor, the numbers of input, output,
      secret and state signals, and which runs the exported constraints admit for the
      values of x and z. */
  datatype Instance = Instance(steps: nat, inputs: nat, outputs: nat, secrets: nat, states: nat,
                               admits: (Run, bool, bool) -> bool)
  {
    /** A run of the design for these x and z: the constraints of all steps hold. */
    predicate IsRunOf(r: Run, x: bool, z: bool) {
      |r| == steps && admits(r, x, z) &&
      forall t :: 0 <= t < steps ==>
        |r[t].inputs| == inputs && |r[t].outputs| == outputs && |r[t].secrets| == secrets && |r[t].states| == states
    }

    predicate IsRun(r: Run) {
      IsRunOf(r, false, false) || IsRunOf(r, false, true) || IsRunOf(r, true, false) || IsRunOf(r, true, true)
    }

    ghost predicate IgnoresUndefined() {
      forall r, x, z, x', z' :: IsRunOf(r, x, z) ==> IsRunOf(r, x', z')
    }
  }

  // ----- constraints and the solver -----

  datatype Atom =
    | Unrolled(inst: nat)
    | SecretStable(inst: nat, time: nat, idx: nat)
    | SecretsDiffer(other: nat, inst: nat, idx: nat)
    | SameState(inst: nat, idx: nat)
    | SameInput(inst: nat, time: nat, idx: nat)
    | OutputDiffers(other: nat, inst: nat, time: nat, idx: nat)
    | InputIs(time: nat, idx: nat, value: nat)
    | StateIs(idx: nat, value: nat)
    | SecretIsNot(idx: nat, value: nat)
    | OutputIsNot(time: nat, idx: nat, value: nat)

  datatype Formula =
    | Just(atom: Atom)
    | AllOf(atoms: seq<Atom>)
    | AnyOf(atoms: seq<Atom>)

  /** A model gives a run to every instance, and x and z to all of them. */
  datatype Model = Model(runs: seq<Run>, x: bool, z: bool)

  function RunOf(m: Model, inst: nat): Run {
    if inst < |m.runs| then m.runs[inst] else []
  }

  function StepAt(r: Run, t: nat): SmtValues {
    if t < |r| then r[t] else SmtValues([], [], [], [])
  }

  function StepOf(m: Model, inst: nat, t: nat): SmtValues {
    StepAt(RunOf(m, inst), t)
  }

  function Nth(xs: seq<nat>, i: nat): nat {
    if i < |xs| then xs[i] else 0
  }

  predicate AtomHolds(d: Instance, m: Model, a: Atom) {
    match a
    case Unrolled(i) => d.IsRunOf(RunOf(m, i), m.x, m.z)
    case SecretStable(i, t, x) => t > 0 ==> Nth(StepOf(m, i, t).secrets, x) == Nth(StepOf(m, i, t - 1).secrets, x)
    case SecretsDiffer(o, i, x) => Nth(StepOf(m, o, 0).secrets, x) != Nth(StepOf(m, i, 0).secrets, x)
    case SameState(i, x) => Nth(StepOf(m, 0, 0).states, x) == Nth(StepOf(m, i, 0).states, x)
    case SameInput(i, t, x) => Nth(StepOf(m, 0, t).inputs, x) == Nth(StepOf(m, i, t).inputs, x)
    case OutputDiffers(o, i, t, x) => Nth(StepOf(m, i, t).outputs, x) != Nth(StepOf(m, o, t).outputs, x)
    case InputIs(t, x, v) => Nth(StepOf(m, 0, t).inputs, x) == v
    case StateIs(x, v) => Nth(StepOf(m, 0, 0).states, x) == v
    case SecretIsNot(x, v) => Nth(StepOf(m, 0, 0).secrets, x) != v
    case OutputIsNot(t, x, v) => Nth(StepOf(m, 0, t).outputs, x) != v
  }

  predicate FormulaHolds(d: Instance, m: Model, f: Formula) {
    match f
    case Just(a) => AtomHolds(d, m, a)
    case AllOf(atoms) => forall i :: 0 <= i < |atoms| ==> AtomHolds(d, m, atoms[i])
    case AnyOf(atoms) => exists i :: 0 <= i < |atoms| && AtomHolds(d, m, atoms[i])
  }

  ghost predicate Satisfies(d: Instance, m: Model, fs: seq<Formula>) {
    forall f :: f in fs ==> FormulaHolds(d, m, f)
  }

  datatype Answer = Sat(model: Model) | Unsat | Unknown

  /** The decision procedure: which answer it gives may depend on its history,
      but a model satisfies the assertions and unsat means that there is none. */
  type Oracle = (nat, seq<Formula>) -> Answer

  ghost predicate Sound(d: Instance, oracle: Oracle) {
    forall n: nat, fs: seq<Formula> ::
      (oracle(n, fs).Sat? ==> Satisfies(d, oracle(n, fs).model, fs)) &&
      (oracle(n, fs).Unsat? ==> forall m: Model :: !Satisfies(d, m, fs))
  }

  /** It always comes to an answer. */
  ghost predicate Decisive(oracle: Oracle) {
    forall n: nat, fs: seq<Formula> :: !oracle(n, fs).Unknown?
  }

  /** An incremental solver: assertions in scopes. */
  class Solver {
    const d: Instance
    const oracle: Oracle
    var asserted: seq<Formula>
    var scopes: seq<nat>
    var checks: nat

    constructor (d: Instance, oracle: Oracle)
      ensures this.d == d && this.oracle == oracle && asserted == [] && scopes == []
    {
      this.d, this.oracle := d, oracle;
      asserted, scopes, checks := [], [], 0;
    }

    method Add(f: Formula)
      modifies this`asserted
      ensures asserted == old(asserted) + [f]
    {
      asserted := asserted + [f];
    }

    method Push()
      modifies this`scopes
      ensures scopes == old(scopes) + [|asserted|]
    {
      scopes := scopes + [|asserted|];
    }

    method Pop()
      requires |scopes| > 0 && scopes[|scopes| - 1] <= |asserted|
      modifies this`asserted, this`scopes
      ensures scopes == old(scopes[..|scopes| - 1])
      ensures asserted == old(asserted[..scopes[|scopes| - 1]])
    {
      asserted := asserted[..scopes[|scopes| - 1]];
      scopes := scopes[..|scopes| - 1];
    }

    method Check() returns (r: Answer)
      requires Sound(d, oracle)
      modifies this`checks
      ensures checks == old(checks) + 1
      ensures r == oracle(old(checks), asserted)
      ensures r.Sat? ==> Satisfies(d, r.model, asserted)
      ensures r.Unsat? ==> forall m: Model :: !Satisfies(d, m, asserted)
    {
      r := oracle(checks, asserted);
      checks := checks + 1;
    }
  }

  // ----- families of runs -----

  ghost predicate SecretsConstant(d: Instance, r: Run)
    requires d.steps > 0 && d.IsRun(r)
  {
    forall t :: 0 <= t < d.steps ==> r[t].secrets == r[0].secrets
  }

  /** Equal initial state and input sequence. */
  ghost predicate SameControl(d: Instance, r: Run, q: Run)
    requires d.steps > 0 && d.IsRun(r) && d.IsRun(q)
  {
    r[0].states == q[0].states && forall t :: 0 <= t < d.steps ==> r[t].inputs == q[t].inputs
  }

  ghost predicate AllSecretsDiffer(d: Instance, r: Run, q: Run)
    requires d.steps > 0 && d.IsRun(r) && d.IsRun(q)
  {
    forall x :: 0 <= x < d.secrets ==> r[0].secrets[x] != q[0].secrets[x]
  }

  ghost predicate Observable(d: Instance, r: Run, q: Run)
    requires d.IsRun(r) && d.IsRun(q)
  {
    exists t :: 0 <= t < d.steps && r[t].outputs != q[t].outputs
  }

  ghost predicate Distinguished(d: Instance, r: Run, q: Run)
    requires d.steps > 0 && d.IsRun(r) && d.IsRun(q)
  {
    AllSecretsDiffer(d, r, q) && Observable(d, r, q)
  }

  ghost predicate Admissible(d: Instance, r: Run)
    requires d.steps > 0
  {
    d.IsRun(r) && SecretsConstant(d, r)
  }

  /** Runs of the design under one input sequence and initial state, with secrets
      that are constant in time, pairwise different in every secret and pairwise
      observable. */
  ghost predicate Family(d: Instance, rs: seq<Run>)
    requires d.steps > 0
  {
    (forall i :: 0 <= i < |rs| ==> Admissible(d, rs[i])) &&
    (forall i :: 0 <= i < |rs| ==> SameControl(d, rs[0], rs[i])) &&
    (forall i, j :: 0 <= i < j < |rs| ==> Distinguished(d, rs[i], rs[j]))
  }

  /** What a run has to satisfy to extend a family. */
  ghost predicate Joins(d: Instance, rs: seq<Run>, r: Run)
    requires d.steps > 0 && Family(d, rs)
  {
    Admissible(d, r) &&
    (|rs| > 0 ==> SameControl(d, rs[0], r)) &&
    forall i :: 0 <= i < |rs| ==> Distinguished(d, rs[i], r)
  }

  lemma FamilyAppend(d: Instance, rs: seq<Run>, r: Run)
    requires d.steps > 0
    ensures Family(d, rs + [r]) <==> Family(d, rs) && Joins(d, rs, r)
  {
    var qs := rs + [r];
    assert forall i :: 0 <= i < |rs| ==> qs[i] == rs[i];
    assert qs[|rs|] == r;
    if Family(d, qs) {
      forall i, j | 0 <= i < j < |rs|
        ensures Distinguished(d, rs[i], rs[j])
      {
        assert Distinguished(d, qs[i], qs[j]);
      }
      forall i | 0 <= i < |rs|
        ensures Admissible(d, rs[i]) && SameControl(d, rs[0], rs[i]) && Distinguished(d, rs[i], r)
      {
        assert Admissible(d, qs[i]) && SameControl(d, qs[0], qs[i]) && Distinguished(d, qs[i], qs[|rs|]);
      }
      assert Admissible(d, qs[|rs|]) && SameControl(d, qs[0], qs[|rs|]);
    }
  }

  /** A subfamily of the first n members is a family. */
  lemma {:induction false} FamilyPrefix(d: Instance, rs: seq<Run>, n: nat)
    requires d.steps > 0 && n <= |rs| && Family(d, rs)
    ensures Family(d, rs[..n])
    decreases |rs|
  {
    if n < |rs| {
      var k := |rs| - 1;
      assert rs == rs[..k] + [rs[k]];
      FamilyAppend(d, rs[..k], rs[k]);
      FamilyPrefix(d, rs[..k], n);
      assert rs[..k][..n] == rs[..n];
    } else {
      assert rs[..n] == rs;
    }
  }

  /** A family of runs that agree on x and z. */
  ghost predicate SharedFamily(d: Instance, rs: seq<Run>, x: bool, z: bool)
    requires d.steps > 0
  {
    Family(d, rs) && forall i :: 0 <= i < |rs| ==> d.IsRunOf(rs[i], x, z)
  }

  lemma SharedAppend(d: Instance, rs: seq<Run>, r: Run, x: bool, z: bool)
    requires d.steps > 0
    ensures SharedFamily(d, rs + [r], x, z) <==> Family(d, rs + [r]) && SharedFamily(d, rs, x, z) && d.IsRunOf(r, x, z)
  {
    var qs := rs + [r];
    FamilyAppend(d, rs, r);
    assert qs[|rs|] == r && forall i :: 0 <= i < |rs| ==> qs[i] == rs[i];
  }

  lemma {:induction false} SharedPrefix(d: Instance, rs: seq<Run>, n: nat, x: bool, z: bool)
    requires d.steps > 0 && n <= |rs| && SharedFamily(d, rs, x, z)
    ensures SharedFamily(d, rs[..n], x, z)
  {
    FamilyPrefix(d, rs, n);
  }

  // ----- what the emitted atoms say -----

  ghost predicate Holds(d: Instance, m: Model, a: Atom) {
    AtomHolds(d, m, a)
  }

  ghost predicate StableUpTo(d: Instance, m: Model, i: nat, steps: nat) {
    forall t: nat, x: nat :: 1 <= t < steps && x < d.secrets ==> Holds(d, m, SecretStable(i, t, x))
  }

  ghost predicate DifferUpTo(d: Instance, m: Model, o: nat, i: nat, n: nat) {
    forall x: nat :: x < n ==> Holds(d, m, SecretsDiffer(o, i, x))
  }

  ghost predicate StatesUpTo(d: Instance, m: Model, i: nat, n: nat) {
    forall x: nat :: x < n ==> Holds(d, m, SameState(i, x))
  }

  ghost predicate InputsUpTo(d: Instance, m: Model, i: nat, steps: nat) {
    forall t: nat, x: nat :: t < steps && x < d.inputs ==> Holds(d, m, SameInput(i, t, x))
  }

  ghost predicate SomeOutputDiffers(d: Instance, m: Model, o: nat, i: nat) {
    exists t: nat, x: nat :: t < d.steps && x < d.outputs && Holds(d, m, OutputDiffers(o, i, t, x))
  }

  lemma {:induction false} StableMeans(d: Instance, m: Model, i: nat)
    requires d.steps > 0 && d.IsRun(RunOf(m, i))
    ensures StableUpTo(d, m, i, d.steps) <==> SecretsConstant(d, RunOf(m, i))
  {
    var r := RunOf(m, i);
    if StableUpTo(d, m, i, d.steps) {
      forall t | 0 <= t < d.steps
        ensures r[t].secrets == r[0].secrets
      {
        StableChain(d, m, i, t);
      }
    }
    if SecretsConstant(d, r) {
      forall t: nat, x: nat | 1 <= t < d.steps && x < d.secrets
        ensures Holds(d, m, SecretStable(i, t, x))
      {
        assert r[t].secrets == r[0].secrets && r[t - 1].secrets == r[0].secrets;
      }
    }
  }

  lemma {:induction false} StableChain(d: Instance, m: Model, i: nat, t: nat)
    requires t < d.steps && d.IsRun(RunOf(m, i)) && StableUpTo(d, m, i, d.steps)
    ensures RunOf(m, i)[t].secrets == RunOf(m, i)[0].secrets
  {
    if t > 0 {
      StableChain(d, m, i, t - 1);
      var r := RunOf(m, i);
      forall x | 0 <= x < d.secrets
        ensures r[t].secrets[x] == r[t - 1].secrets[x]
      {
        assert Holds(d, m, SecretStable(i, t, x));
      }
      assert r[t].secrets == r[t - 1].secrets;
    }
  }

  lemma {:induction false} DifferMeans(d: Instance, m: Model, o: nat, i: nat)
    requires d.steps > 0 && d.IsRun(RunOf(m, o)) && d.IsRun(RunOf(m, i))
    ensures DifferUpTo(d, m, o, i, d.secrets) <==> AllSecretsDiffer(d, RunOf(m, o), RunOf(m, i))
  {
    var r, q := RunOf(m, o), RunOf(m, i);
    assert forall x: nat :: x < d.secrets ==>
           (Holds(d, m, SecretsDiffer(o, i, x)) <==> r[0].secrets[x] != q[0].secrets[x]);
  }

  lemma {:induction false} ControlMeans(d: Instance, m: Model, i: nat)
    requires d.steps > 0 && d.IsRun(RunOf(m, 0)) && d.IsRun(RunOf(m, i))
    ensures StatesUpTo(d, m, i, d.states) && InputsUpTo(d, m, i, d.steps) <==> SameControl(d, RunOf(m, 0), RunOf(m, i))
  {
    var r, q := RunOf(m, 0), RunOf(m, i);
    assert forall x: nat :: x < d.states ==> (Holds(d, m, SameState(i, x)) <==> r[0].states[x] == q[0].states[x]);
    assert forall t: nat, x: nat :: t < d.steps && x < d.inputs ==>
           (Holds(d, m, SameInput(i, t, x)) <==> r[t].inputs[x] == q[t].inputs[x]);
    if SameControl(d, r, q) {
      assert StatesUpTo(d, m, i, d.states);
      forall t: nat, x: nat | t < d.steps && x < d.inputs
        ensures Holds(d, m, SameInput(i, t, x))
      {
        assert r[t].inputs == q[t].inputs;
      }
    }
    if StatesUpTo(d, m, i, d.states) && InputsUpTo(d, m, i, d.steps) {
      assert r[0].states == q[0].states;
      forall t | 0 <= t < d.steps
        ensures r[t].inputs == q[t].inputs
      {
        forall x: nat | x < d.inputs
          ensures r[t].inputs[x] == q[t].inputs[x]
        {
          assert Holds(d, m, SameInput(i, t, x));
        }
      }
    }
  }

  lemma {:induction false} ObservableMeans(d: Instance, m: Model, o: nat, i: nat)
    requires d.steps > 0 && d.IsRun(RunOf(m, o)) && d.IsRun(RunOf(m, i))
    ensures SomeOutputDiffers(d, m, o, i) <==> Observable(d, RunOf(m, o), RunOf(m, i))
  {
    var r, q := RunOf(m, o), RunOf(m, i);
    if SomeOutputDiffers(d, m, o, i) {
      var t: nat, x: nat :| t < d.steps && x < d.outputs && Holds(d, m, OutputDiffers(o, i, t, x));
      assert r[t].outputs[x] != q[t].outputs[x];
    }
    if Observable(d, r, q) {
      var t :| 0 <= t < d.steps && r[t].outputs != q[t].outputs;
      var x: nat :| x < d.outputs && r[t].outputs[x] != q[t].outputs[x];
      assert Holds(d, m, OutputDiffers(o, i, t, x));
    }
  }

  /** The conditions that are asserted for instance i. */
  ghost predicate InstanceConditions(d: Instance, m: Model, i: nat) {
    Holds(d, m, Unrolled(i)) && StableUpTo(d, m, i, d.steps) &&
    (forall o: nat :: o < i ==> DifferUpTo(d, m, o, i, d.secrets)) &&
    (i > 0 ==>
       StatesUpTo(d, m, i, d.states) && InputsUpTo(d, m, i, d.steps) &&
       forall o: nat :: o < i ==> SomeOutputDiffers(d, m, o, i))
  }

  ghost predicate StartsWithFamily(d: Instance, m: Model, n: nat)
    requires d.steps > 0
  {
    n <= |m.runs| && SharedFamily(d, m.runs[..n], m.x, m.z)
  }

  /** The conditions of instance n say that run n joins the family of the first n, for the
      same x and z. */
  lemma {:induction false} InstanceExtends(d: Instance, m: Model, n: nat)
    requires d.steps > 0
    ensures StartsWithFamily(d, m, n) && InstanceConditions(d, m, n) <==> StartsWithFamily(d, m, n + 1)
  {
    if n < |m.runs| {
      var rs, r := m.runs[..n], m.runs[n];
      assert m.runs[..n + 1] == rs + [r];
      FamilyAppend(d, rs, r);
      SharedAppend(d, rs, r, m.x, m.z);
      if StartsWithFamily(d, m, n) && d.IsRunOf(r, m.x, m.z) {
        JoinsMeans(d, m, n);
      }
    } else {
      assert !d.IsRunOf(RunOf(m, n), m.x, m.z) by {
        assert RunOf(m, n) == [];
      }
    }
  }

  lemma {:induction false} JoinsMeans(d: Instance, m: Model, n: nat)
    requires d.steps > 0 && n < |m.runs| && Family(d, m.runs[..n]) && d.IsRunOf(m.runs[n], m.x, m.z)
    ensures InstanceConditions(d, m, n) <==> Joins(d, m.runs[..n], m.runs[n])
  {
    var rs, r := m.runs[..n], m.runs[n];
    StableMeans(d, m, n);
    forall o: nat | o < n
      ensures DifferUpTo(d, m, o, n, d.secrets) && SomeOutputDiffers(d, m, o, n) <==> Distinguished(d, rs[o], r)
    {
      assert rs[o] == m.runs[o] && Admissible(d, rs[o]);
      DifferMeans(d, m, o, n);
      ObservableMeans(d, m, o, n);
    }
    if n > 0 {
      assert rs[0] == m.runs[0] && Admissible(d, rs[0]);
      ControlMeans(d, m, n);
    }
  }

  // ----- the conditions of the intermediate step -----

  ghost predicate InputsFixed(d: Instance, m: Model, r: Run, n: nat) {
    forall x: nat, t: nat :: x < n && t < d.steps ==> Holds(d, m, InputIs(t, x, Nth(StepAt(r, t).inputs, x)))
  }

  ghost predicate StatesFixed(d: Instance, m: Model, r: Run, n: nat) {
    forall x: nat :: x < n ==> Holds(d, m, StateIs(x, Nth(StepAt(r, 0).states, x)))
  }

  ghost predicate SecretsAvoid(d: Instance, m: Model, r: Run, n: nat) {
    forall x: nat :: x < n ==> Holds(d, m, SecretIsNot(x, Nth(StepAt(r, 0).secrets, x)))
  }

  ghost predicate OutputsAvoid(d: Instance, m: Model, r: Run) {
    exists x: nat, t: nat ::
      x < d.outputs && t < d.steps && Holds(d, m, OutputIsNot(t, x, Nth(StepAt(r, t).outputs, x)))
  }

  lemma {:induction false} FixedMeans(d: Instance, m: Model, r: Run)
    requires d.steps > 0 && d.IsRun(r) && d.IsRun(RunOf(m, 0))
    ensures InputsFixed(d, m, r, d.inputs) && StatesFixed(d, m, r, d.states) <==> SameControl(d, r, RunOf(m, 0))
  {
    var q := RunOf(m, 0);
    if SameControl(d, r, q) {
      forall x: nat, t: nat | x < d.inputs && t < d.steps
        ensures Holds(d, m, InputIs(t, x, Nth(StepAt(r, t).inputs, x)))
      {
        assert r[t].inputs == q[t].inputs;
      }
    }
    if InputsFixed(d, m, r, d.inputs) && StatesFixed(d, m, r, d.states) {
      forall x: nat | x < d.states
        ensures r[0].states[x] == q[0].states[x]
      {
        assert Holds(d, m, StateIs(x, Nth(StepAt(r, 0).states, x)));
      }
      assert r[0].states == q[0].states;
      forall t | 0 <= t < d.steps
        ensures r[t].inputs == q[t].inputs
      {
        forall x: nat | x < d.inputs
          ensures r[t].inputs[x] == q[t].inputs[x]
        {
          assert Holds(d, m, InputIs(t, x, Nth(StepAt(r, t).inputs, x)));
        }
      }
    }
  }

  lemma {:induction false} AvoidMeans(d: Instance, m: Model, r: Run)
    requires d.steps > 0 && d.IsRun(r) && d.IsRun(RunOf(m, 0))
    ensures SecretsAvoid(d, m, r, d.secrets) && OutputsAvoid(d, m, r) <==> Distinguished(d, r, RunOf(m, 0))
  {
    var q := RunOf(m, 0);
    assert forall x: nat :: x < d.secrets ==>
      (Holds(d, m, SecretIsNot(x, Nth(StepAt(r, 0).secrets, x))) <==> r[0].secrets[x] != q[0].secrets[x]);
    if OutputsAvoid(d, m, r) {
      var x: nat, t: nat :| x < d.outputs && t < d.steps &&
        Holds(d, m, OutputIsNot(t, x, Nth(StepAt(r, t).outputs, x)));
      assert r[t].outputs[x] != q[t].outputs[x];
    }
    if Observable(d, r, q) {
      var t :| 0 <= t < d.steps && r[t].outputs != q[t].outputs;
      var x: nat :| x < d.outputs && r[t].outputs[x] != q[t].outputs[x];
      assert Holds(d, m, OutputIsNot(t, x, Nth(StepAt(r, t).outputs, x)));
    }
  }

  /** The conditions on the single run of the intermediate solver. */
  ghost predicate CandidateConditions(d: Instance, m: Model, rs: seq<Run>)
    requires |rs| > 0
  {
    InputsFixed(d, m, rs[0], d.inputs) && StatesFixed(d, m, rs[0], d.states) &&
    forall k :: 0 <= k < |rs| ==> SecretsAvoid(d, m, rs[k], d.secrets) && OutputsAvoid(d, m, rs[k])
  }

  /** The single instance is a run for its own x and z. */
  ghost predicate StartsWithRun(d: Instance, m: Model) {
    |m.runs| > 0 && d.IsRunOf(m.runs[0], m.x, m.z)
  }

  lemma {:induction false} CandidateJoins(d: Instance, m: Model, rs: seq<Run>)
    requires d.steps > 0 && |rs| > 0 && Family(d, rs)
    ensures (StartsWithRun(d, m) && SecretsConstant(d, m.runs[0]) && CandidateConditions(d, m, rs)) <==>
            (StartsWithRun(d, m) && Family(d, rs + [m.runs[0]]))
  {
    if StartsWithRun(d, m) {
      var r := m.runs[0];
      FamilyAppend(d, rs, r);
      assert Admissible(d, rs[0]);
      FixedMeans(d, m, rs[0]);
      forall k | 0 <= k < |rs|
        ensures SecretsAvoid(d, m, rs[k], d.secrets) && OutputsAvoid(d, m, rs[k]) <==> Distinguished(d, rs[k], r)
      {
        assert Admissible(d, rs[k]);
        AvoidMeans(d, m, rs[k]);
      }
    }
  }
}
