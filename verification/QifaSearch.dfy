/** The stateful search of find_equivalence_classes. */
module QifaSearch {
  import opened Qifa

  datatype Verdict = NotRun | WasSat | WasUnsat

  /** What a check of a solver found; an unknown answer ends the search with an error. */
  datatype Outcome = Found(family: seq<Run>) | UnknownResult

  /** How an iteration of the main loop ends. */
  datatype Flow = Continue | Break | Throw

  lemma SatisfiesAppend(d: Instance, m: Model, fs: seq<Formula>, f: Formula)
    ensures Satisfies(d, m, fs + [f]) <==> Satisfies(d, m, fs) && FormulaHolds(d, m, f)
  {
    assert forall g :: g in fs + [f] <==> g in fs || g == f;
  }

  lemma SatisfiesAppendAll(d: Instance, fs: seq<Formula>, f: Formula)
    ensures forall m: Model :: Satisfies(d, m, fs + [f]) <==> Satisfies(d, m, fs) && FormulaHolds(d, m, f)
  {
    forall m: Model
      ensures Satisfies(d, m, fs + [f]) <==> Satisfies(d, m, fs) && FormulaHolds(d, m, f)
    {
      SatisfiesAppend(d, m, fs, f);
    }
  }

  // ----- the constraint loops -----

  ghost predicate StableRow(d: Instance, m: Model, i: nat, t: nat, n: nat) {
    forall x: nat :: x < n ==> Holds(d, m, SecretStable(i, t, x))
  }

  ghost predicate InputsRow(d: Instance, m: Model, i: nat, t: nat, n: nat) {
    forall x: nat :: x < n ==> Holds(d, m, SameInput(i, t, x))
  }

  lemma StableStep(d: Instance, m: Model, i: nat, t: nat)
    requires t >= 1
    ensures StableUpTo(d, m, i, t + 1) <==> StableUpTo(d, m, i, t) && StableRow(d, m, i, t, d.secrets)
  {
  }

  lemma InputsStep(d: Instance, m: Model, i: nat, t: nat)
    ensures InputsUpTo(d, m, i, t + 1) <==> InputsUpTo(d, m, i, t) && InputsRow(d, m, i, t, d.inputs)
  {
  }

  /** One equation for every secret and every step but the first. */
  method AddSecretsStable(s: Solver, inst: nat)
    requires s.d.steps > 0
    modifies s`asserted
    ensures forall m: Model :: Satisfies(s.d, m, s.asserted) <==>
            Satisfies(s.d, m, old(s.asserted)) && StableUpTo(s.d, m, inst, s.d.steps)
  {
    ghost var before, d := s.asserted, s.d;
    for time := 1 to s.d.steps
      invariant forall m: Model :: Satisfies(d, m, s.asserted) <==>
                Satisfies(d, m, before) && StableUpTo(d, m, inst, time)
    {
      ghost var outer := s.asserted;
      for idex := 0 to s.d.secrets
        invariant forall m: Model :: Satisfies(d, m, s.asserted) <==>
                  Satisfies(d, m, outer) && StableRow(d, m, inst, time, idex)
      {
        SatisfiesAppendAll(d, s.asserted, Just(SecretStable(inst, time, idex)));
        s.Add(Just(SecretStable(inst, time, idex)));
      }
      forall m: Model
        ensures StableUpTo(d, m, inst, time + 1) <==>
                StableUpTo(d, m, inst, time) && StableRow(d, m, inst, time, d.secrets)
      {
        StableStep(d, m, inst, time);
      }
    }
  }

  /** The new instance differs from every earlier one in each secret. */
  method AddSecretsDiffer(s: Solver, inst: nat)
    modifies s`asserted
    ensures forall m: Model :: Satisfies(s.d, m, s.asserted) <==>
              Satisfies(s.d, m, old(s.asserted)) && forall o: nat :: o < inst ==>
                DifferUpTo(s.d, m, o, inst, s.d.secrets)
  {
    ghost var before, d := s.asserted, s.d;
    for other := 0 to inst
      invariant forall m: Model :: Satisfies(d, m, s.asserted) <==>
                  Satisfies(d, m, before) && forall o: nat :: o < other ==> DifferUpTo(d, m, o, inst, d.secrets)
    {
      ghost var outer := s.asserted;
      for idex := 0 to s.d.secrets
        invariant forall m: Model :: Satisfies(d, m, s.asserted) <==>
                  Satisfies(d, m, outer) && DifferUpTo(d, m, other, inst, idex)
      {
        SatisfiesAppendAll(d, s.asserted, Just(SecretsDiffer(other, inst, idex)));
        s.Add(Just(SecretsDiffer(other, inst, idex)));
      }
    }
  }

  /** The new instance starts in the state of instance 0. */
  method AddSameStates(s: Solver, inst: nat)
    modifies s`asserted
    ensures forall m: Model :: Satisfies(s.d, m, s.asserted) <==>
            Satisfies(s.d, m, old(s.asserted)) && StatesUpTo(s.d, m, inst, s.d.states)
  {
    ghost var before, d := s.asserted, s.d;
    for idex := 0 to s.d.states
      invariant forall m: Model :: Satisfies(d, m, s.asserted) <==>
                Satisfies(d, m, before) && StatesUpTo(d, m, inst, idex)
    {
      SatisfiesAppendAll(d, s.asserted, Just(SameState(inst, idex)));
      s.Add(Just(SameState(inst, idex)));
    }
  }

  /** The new instance reads what instance 0 reads. */
  method AddSameInputs(s: Solver, inst: nat)
    modifies s`asserted
    ensures forall m: Model :: Satisfies(s.d, m, s.asserted) <==>
            Satisfies(s.d, m, old(s.asserted)) && InputsUpTo(s.d, m, inst, s.d.steps)
  {
    ghost var before, d := s.asserted, s.d;
    for time := 0 to s.d.steps
      invariant forall m: Model :: Satisfies(d, m, s.asserted) <==>
                Satisfies(d, m, before) && InputsUpTo(d, m, inst, time)
    {
      ghost var outer := s.asserted;
      for idex := 0 to s.d.inputs
        invariant forall m: Model :: Satisfies(d, m, s.asserted) <==>
                  Satisfies(d, m, outer) && InputsRow(d, m, inst, time, idex)
      {
        SatisfiesAppendAll(d, s.asserted, Just(SameInput(inst, time, idex)));
        s.Add(Just(SameInput(inst, time, idex)));
      }
      forall m: Model
        ensures InputsUpTo(d, m, inst, time + 1) <==>
                InputsUpTo(d, m, inst, time) && InputsRow(d, m, inst, time, d.inputs)
      {
        InputsStep(d, m, inst, time);
      }
    }
  }

  ghost predicate SomeHolds(d: Instance, m: Model, atoms: seq<Atom>) {
    exists k :: 0 <= k < |atoms| && AtomHolds(d, m, atoms[k])
  }

  lemma SomeAppend(d: Instance, m: Model, atoms: seq<Atom>, a: Atom)
    ensures SomeHolds(d, m, atoms + [a]) <==> SomeHolds(d, m, atoms) || Holds(d, m, a)
  {
    var bs := atoms + [a];
    if SomeHolds(d, m, atoms) {
      var k :| 0 <= k < |atoms| && AtomHolds(d, m, atoms[k]);
      assert AtomHolds(d, m, bs[k]);
    }
    if Holds(d, m, a) {
      assert AtomHolds(d, m, bs[|atoms|]);
    }
  }

  ghost predicate DiffersBefore(d: Instance, m: Model, o: nat, i: nat, n: nat, x: nat, steps: nat) {
    exists y: nat, t: nat :: ((y < n && t < d.steps) || (y == x && t < steps)) && Holds(d, m, OutputDiffers(o, i, t, y))
  }

  /** One disjunction: some output differs at some step. */
  method OutputDifference(d: Instance, other: nat, inst: nat) returns (atoms: seq<Atom>)
    ensures forall m: Model :: SomeHolds(d, m, atoms) <==> SomeOutputDiffers(d, m, other, inst)
  {
    atoms := [];
    for idex := 0 to d.outputs
      invariant forall m: Model :: SomeHolds(d, m, atoms) <==> DiffersBefore(d, m, other, inst, idex, idex, 0)
    {
      for time := 0 to d.steps
        invariant forall m: Model :: SomeHolds(d, m, atoms) <==> DiffersBefore(d, m, other, inst, idex, idex, time)
      {
        forall m: Model
          ensures SomeHolds(d, m, atoms + [OutputDiffers(other, inst, time, idex)]) <==>
                  DiffersBefore(d, m, other, inst, idex, idex, time + 1)
        {
          SomeAppend(d, m, atoms, OutputDiffers(other, inst, time, idex));
          DiffersStep(d, m, other, inst, idex, time);
        }
        atoms := atoms + [OutputDiffers(other, inst, time, idex)];
      }
      forall m: Model
        ensures DiffersBefore(d, m, other, inst, idex, idex, d.steps) <==>
                DiffersBefore(d, m, other, inst, idex + 1, idex + 1, 0)
      {
        DiffersRow(d, m, other, inst, idex);
      }
    }
    forall m: Model
      ensures DiffersBefore(d, m, other, inst, d.outputs, d.outputs, 0) <==> SomeOutputDiffers(d, m, other, inst)
    {
      DiffersAll(d, m, other, inst);
    }
  }

  lemma DiffersStep(d: Instance, m: Model, o: nat, i: nat, x: nat, t: nat)
    ensures DiffersBefore(d, m, o, i, x, x, t + 1) <==>
            DiffersBefore(d, m, o, i, x, x, t) || Holds(d, m, OutputDiffers(o, i, t, x))
  {
    if DiffersBefore(d, m, o, i, x, x, t + 1) {
      var y: nat, u: nat :| ((y < x && u < d.steps) || (y == x && u < t + 1)) && Holds(d, m, OutputDiffers(o, i, u, y));
      assert ((y < x && u < d.steps) || (y == x && u < t)) || (y == x && u == t);
    }
    if DiffersBefore(d, m, o, i, x, x, t) {
      var y: nat, u: nat :| ((y < x && u < d.steps) || (y == x && u < t)) && Holds(d, m, OutputDiffers(o, i, u, y));
      assert (y < x && u < d.steps) || (y == x && u < t + 1);
    }
  }

  lemma DiffersRow(d: Instance, m: Model, o: nat, i: nat, x: nat)
    ensures DiffersBefore(d, m, o, i, x, x, d.steps) <==> DiffersBefore(d, m, o, i, x + 1, x + 1, 0)
  {
  }

  lemma DiffersAll(d: Instance, m: Model, o: nat, i: nat)
    ensures DiffersBefore(d, m, o, i, d.outputs, d.outputs, 0) <==> SomeOutputDiffers(d, m, o, i)
  {
  }

  /** One disjunction for each earlier instance. */
  method AddOutputsDiffer(s: Solver, inst: nat)
    modifies s`asserted
    ensures forall m: Model :: Satisfies(s.d, m, s.asserted) <==>
              Satisfies(s.d, m, old(s.asserted)) && forall o: nat :: o < inst ==> SomeOutputDiffers(s.d, m, o, inst)
  {
    ghost var before, d := s.asserted, s.d;
    for other := 0 to inst
      invariant forall m: Model :: Satisfies(d, m, s.asserted) <==>
                  Satisfies(d, m, before) && forall o: nat :: o < other ==> SomeOutputDiffers(d, m, o, inst)
    {
      var atoms := OutputDifference(s.d, other, inst);
      SatisfiesAppendAll(d, s.asserted, AnyOf(atoms));
      assert forall m: Model :: FormulaHolds(d, m, AnyOf(atoms)) <==> SomeHolds(d, m, atoms);
      s.Add(AnyOf(atoms));
    }
  }

  // ----- the constraints of the intermediate step -----

  ghost predicate AllHolds(d: Instance, m: Model, atoms: seq<Atom>) {
    forall k :: 0 <= k < |atoms| ==> AtomHolds(d, m, atoms[k])
  }

  lemma AllAppend(d: Instance, atoms: seq<Atom>, a: Atom)
    ensures forall m: Model :: AllHolds(d, m, atoms + [a]) <==> AllHolds(d, m, atoms) && Holds(d, m, a)
  {
    var bs := atoms + [a];
    forall m: Model
      ensures AllHolds(d, m, bs) <==> AllHolds(d, m, atoms) && Holds(d, m, a)
    {
      if AllHolds(d, m, bs) {
        forall k | 0 <= k < |atoms|
          ensures AtomHolds(d, m, atoms[k])
        {
          assert AtomHolds(d, m, bs[k]);
        }
        assert AtomHolds(d, m, bs[|atoms|]);
      }
    }
  }

  ghost predicate InputsColumn(d: Instance, m: Model, r: Run, x: nat, n: nat) {
    forall t: nat :: t < n ==> Holds(d, m, InputIs(t, x, Nth(StepAt(r, t).inputs, x)))
  }

  lemma InputsColumnStep(d: Instance, m: Model, r: Run, x: nat)
    ensures InputsFixed(d, m, r, x + 1) <==> InputsFixed(d, m, r, x) && InputsColumn(d, m, r, x, d.steps)
  {
  }

  /** Inputs are fixed to the values of the first member. */
  method FixInputs(d: Instance, r: Run) returns (atoms: seq<Atom>)
    ensures forall m: Model :: AllHolds(d, m, atoms) <==> InputsFixed(d, m, r, d.inputs)
  {
    atoms := [];
    for idex := 0 to d.inputs
      invariant forall m: Model :: AllHolds(d, m, atoms) <==> InputsFixed(d, m, r, idex)
    {
      ghost var outer := atoms;
      for time := 0 to d.steps
        invariant forall m: Model :: AllHolds(d, m, atoms) <==>
                  AllHolds(d, m, outer) && InputsColumn(d, m, r, idex, time)
      {
        var a := InputIs(time, idex, Nth(StepAt(r, time).inputs, idex));
        AllAppend(d, atoms, a);
        atoms := atoms + [a];
      }
      forall m: Model
        ensures InputsFixed(d, m, r, idex + 1) <==> InputsFixed(d, m, r, idex) && InputsColumn(d, m, r, idex, d.steps)
      {
        InputsColumnStep(d, m, r, idex);
      }
    }
  }

  /** The initial state is fixed to that of the first member. */
  method FixStates(d: Instance, r: Run, start: seq<Atom>) returns (atoms: seq<Atom>)
    ensures forall m: Model :: AllHolds(d, m, atoms) <==> AllHolds(d, m, start) && StatesFixed(d, m, r, d.states)
  {
    atoms := start;
    for idex := 0 to d.states
      invariant forall m: Model :: AllHolds(d, m, atoms) <==> AllHolds(d, m, start) && StatesFixed(d, m, r, idex)
    {
      var a := StateIs(idex, Nth(StepAt(r, 0).states, idex));
      AllAppend(d, atoms, a);
      atoms := atoms + [a];
    }
  }

  /** The secret must be different from that of a member. */
  method AvoidSecret(d: Instance, r: Run, start: seq<Atom>) returns (atoms: seq<Atom>)
    ensures forall m: Model :: AllHolds(d, m, atoms) <==> AllHolds(d, m, start) && SecretsAvoid(d, m, r, d.secrets)
  {
    atoms := start;
    for idex := 0 to d.secrets
      invariant forall m: Model :: AllHolds(d, m, atoms) <==> AllHolds(d, m, start) && SecretsAvoid(d, m, r, idex)
    {
      var a := SecretIsNot(idex, Nth(StepAt(r, 0).secrets, idex));
      AllAppend(d, atoms, a);
      atoms := atoms + [a];
    }
  }

  ghost predicate AvoidsBefore(d: Instance, m: Model, r: Run, x: nat, steps: nat) {
    exists y: nat, t: nat :: ((y < x && t < d.steps) || (y == x && t < steps)) &&
                             Holds(d, m, OutputIsNot(t, y, Nth(StepAt(r, t).outputs, y)))
  }

  lemma AvoidsStep(d: Instance, m: Model, r: Run, x: nat, t: nat)
    ensures AvoidsBefore(d, m, r, x, t + 1) <==>
            AvoidsBefore(d, m, r, x, t) || Holds(d, m, OutputIsNot(t, x, Nth(StepAt(r, t).outputs, x)))
  {
    if AvoidsBefore(d, m, r, x, t + 1) {
      var y: nat, u: nat :| ((y < x && u < d.steps) || (y == x && u < t + 1)) &&
                            Holds(d, m, OutputIsNot(u, y, Nth(StepAt(r, u).outputs, y)));
      assert ((y < x && u < d.steps) || (y == x && u < t)) || (y == x && u == t);
    }
    if AvoidsBefore(d, m, r, x, t) {
      var y: nat, u: nat :| ((y < x && u < d.steps) || (y == x && u < t)) &&
                            Holds(d, m, OutputIsNot(u, y, Nth(StepAt(r, u).outputs, y)));
      assert (y < x && u < d.steps) || (y == x && u < t + 1);
    }
  }

  lemma AvoidsRow(d: Instance, m: Model, r: Run, x: nat)
    ensures AvoidsBefore(d, m, r, x, d.steps) <==> AvoidsBefore(d, m, r, x + 1, 0)
    ensures AvoidsBefore(d, m, r, d.outputs, 0) <==> OutputsAvoid(d, m, r)
  {
  }

  /** The output sequence must be different from that of a member. */
  method AvoidOutputs(d: Instance, r: Run) returns (atoms: seq<Atom>)
    ensures forall m: Model :: SomeHolds(d, m, atoms) <==> OutputsAvoid(d, m, r)
  {
    atoms := [];
    for idex := 0 to d.outputs
      invariant forall m: Model :: SomeHolds(d, m, atoms) <==> AvoidsBefore(d, m, r, idex, 0)
    {
      for time := 0 to d.steps
        invariant forall m: Model :: SomeHolds(d, m, atoms) <==> AvoidsBefore(d, m, r, idex, time)
      {
        var a := OutputIsNot(time, idex, Nth(StepAt(r, time).outputs, idex));
        forall m: Model
          ensures SomeHolds(d, m, atoms + [a]) <==> AvoidsBefore(d, m, r, idex, time + 1)
        {
          SomeAppend(d, m, atoms, a);
          AvoidsStep(d, m, r, idex, time);
        }
        atoms := atoms + [a];
      }
      forall m: Model
        ensures AvoidsBefore(d, m, r, idex, d.steps) <==> AvoidsBefore(d, m, r, idex + 1, 0)
      {
        AvoidsRow(d, m, r, idex);
      }
    }
    forall m: Model
      ensures AvoidsBefore(d, m, r, d.outputs, 0) <==> OutputsAvoid(d, m, r)
    {
      AvoidsRow(d, m, r, 0);
    }
  }

  ghost predicate NewSecretConditions(d: Instance, m: Model, rs: seq<Run>)
    requires |rs| > 0
  {
    InputsFixed(d, m, rs[0], d.inputs) && StatesFixed(d, m, rs[0], d.states) &&
    forall k :: 0 <= k < |rs| ==> SecretsAvoid(d, m, rs[k], d.secrets)
  }

  /** The conjunction that fixes inputs and state and excludes all secrets so far. */
  method ConstrainToNewSecret(d: Instance, rs: seq<Run>) returns (atoms: seq<Atom>)
    requires |rs| > 0
    ensures forall m: Model :: AllHolds(d, m, atoms) <==> NewSecretConditions(d, m, rs)
  {
    atoms := FixInputs(d, rs[0]);
    atoms := FixStates(d, rs[0], atoms);
    for k := 0 to |rs|
      invariant forall m: Model :: AllHolds(d, m, atoms) <==>
                  InputsFixed(d, m, rs[0], d.inputs) && StatesFixed(d, m, rs[0], d.states) &&
                  forall j :: 0 <= j < k ==> SecretsAvoid(d, m, rs[j], d.secrets)
    {
      atoms := AvoidSecret(d, rs[k], atoms);
    }
  }

  ghost predicate OutputsAvoidUpTo(d: Instance, m: Model, rs: seq<Run>, n: nat) {
    forall k :: 0 <= k < n && k < |rs| ==> OutputsAvoid(d, m, rs[k])
  }

  /** All constraints on a new secret under the inputs and state of a family. */
  method AddCandidate(s: Solver, rs: seq<Run>)
    requires |rs| > 0
    modifies s`asserted
    ensures |s.asserted| >= |old(s.asserted)| && s.asserted[..|old(s.asserted)|] == old(s.asserted)
    ensures forall m: Model :: Satisfies(s.d, m, s.asserted) <==>
            Satisfies(s.d, m, old(s.asserted)) && CandidateConditions(s.d, m, rs)
  {
    ghost var before, d := s.asserted, s.d;
    var toNewSecret := ConstrainToNewSecret(s.d, rs);
    SatisfiesAppendAll(d, s.asserted, AllOf(toNewSecret));
    assert forall m: Model :: FormulaHolds(d, m, AllOf(toNewSecret)) <==> AllHolds(d, m, toNewSecret);
    s.Add(AllOf(toNewSecret));
    ghost var outer := s.asserted;
    for k := 0 to |rs|
      invariant |s.asserted| >= |before| && s.asserted[..|before|] == before
      invariant forall m: Model :: Satisfies(d, m, s.asserted) <==>
                Satisfies(d, m, outer) && OutputsAvoidUpTo(d, m, rs, k)
    {
      ghost var inner := s.asserted;
      AddAvoidOutputs(s, rs[k]);
      assert s.asserted[..|before|] == s.asserted[..|inner|][..|before|];
    }
    forall m: Model
      ensures NewSecretConditions(d, m, rs) && OutputsAvoidUpTo(d, m, rs, |rs|) <==> CandidateConditions(d, m, rs)
    {
    }
  }

  method AddAvoidOutputs(s: Solver, r: Run)
    modifies s`asserted
    ensures |s.asserted| == |old(s.asserted)| + 1 && s.asserted[..|old(s.asserted)|] == old(s.asserted)
    ensures forall m: Model :: Satisfies(s.d, m, s.asserted) <==>
            Satisfies(s.d, m, old(s.asserted)) && OutputsAvoid(s.d, m, r)
  {
    ghost var d := s.d;
    var atoms := AvoidOutputs(s.d, r);
    SatisfiesAppendAll(d, s.asserted, AnyOf(atoms));
    assert forall m: Model :: FormulaHolds(d, m, AnyOf(atoms)) <==> SomeHolds(d, m, atoms);
    s.Add(AnyOf(atoms));
  }

  /** The constraints with respect to the last solution. */
  method AddLastSolution(s: Solver, r: Run)
    modifies s`asserted
    ensures |s.asserted| >= |old(s.asserted)| && s.asserted[..|old(s.asserted)|] == old(s.asserted)
    ensures forall m: Model :: Satisfies(s.d, m, s.asserted) <==>
              Satisfies(s.d, m, old(s.asserted)) && SecretsAvoid(s.d, m, r, s.d.secrets) && OutputsAvoid(s.d, m, r)
  {
    ghost var d := s.d;
    var toNewSecret := AvoidSecret(s.d, r, []);
    SatisfiesAppendAll(d, s.asserted, AllOf(toNewSecret));
    assert forall m: Model :: FormulaHolds(d, m, AllOf(toNewSecret)) <==> AllHolds(d, m, toNewSecret);
    assert forall m: Model :: AllHolds(d, m, []);
    s.Add(AllOf(toNewSecret));
    AddAvoidOutputs(s, r);
  }

  // ----- the search -----

  /** No family is larger than n. */
  ghost predicate AtMost(d: Instance, n: nat)
    requires d.steps > 0
  {
    forall rs: seq<Run> :: Family(d, rs) ==> |rs| <= n
  }

  /** No family of runs that agree on x and z is larger than n. */
  ghost predicate AtMostShared(d: Instance, n: nat)
    requires d.steps > 0
  {
    forall rs: seq<Run>, x: bool, z: bool :: SharedFamily(d, rs, x, z) ==> |rs| <= n
  }

  /** No run extends the family. */
  ghost predicate Maximal(d: Instance, rs: seq<Run>)
    requires d.steps > 0
  {
    forall r: Run :: !Family(d, rs + [r])
  }

  /** The first two members agree on x and z. */
  ghost predicate Paired(d: Instance, rs: seq<Run>)
    requires d.steps > 0
  {
    |rs| >= 2 ==> exists x, z :: SharedFamily(d, rs[..2], x, z)
  }

  lemma SharedIsPaired(d: Instance, rs: seq<Run>, x: bool, z: bool)
    requires d.steps > 0 && SharedFamily(d, rs, x, z)
    ensures Paired(d, rs)
  {
    if |rs| >= 2 {
      SharedPrefix(d, rs, 2, x, z);
    }
  }

  lemma PairedStays(d: Instance, rs: seq<Run>, qs: seq<Run>)
    requires d.steps > 0 && |rs| >= 2 && rs <= qs && Paired(d, rs)
    ensures Paired(d, qs)
  {
    assert qs[..2] == rs[..2];
  }

  /** Where runs ignore x and z, sharing them is no restriction. */
  lemma IgnoringIsShared(d: Instance, rs: seq<Run>, x: bool, z: bool)
    requires d.steps > 0 && d.IgnoresUndefined()
    ensures SharedFamily(d, rs, x, z) <==> Family(d, rs)
  {
    if Family(d, rs) {
      forall i | 0 <= i < |rs|
        ensures d.IsRunOf(rs[i], x, z)
      {
        assert Admissible(d, rs[i]);
      }
    }
  }

  lemma IgnoringBounds(d: Instance, n: nat)
    requires d.steps > 0 && d.IgnoresUndefined()
    ensures AtMostShared(d, n) <==> AtMost(d, n)
  {
    if AtMostShared(d, n) {
      forall rs: seq<Run> | Family(d, rs)
        ensures |rs| <= n
      {
        IgnoringIsShared(d, rs, false, false);
      }
    }
  }

  ghost predicate MainMeans(d: Instance, fs: seq<Formula>, n: nat)
    requires d.steps > 0
  {
    forall m: Model :: Satisfies(d, m, fs) <==> StartsWithFamily(d, m, n)
  }

  ghost predicate IntermediateMeans(d: Instance, fs: seq<Formula>)
    requires d.steps > 0
  {
    forall m: Model :: Satisfies(d, m, fs) <==> StartsWithRun(d, m) && SecretsConstant(d, m.runs[0])
  }

  ghost predicate CandidateMeans(d: Instance, fs: seq<Formula>, rs: seq<Run>)
    requires d.steps > 0
  {
    forall m: Model :: Satisfies(d, m, fs) <==> StartsWithRun(d, m) && Family(d, rs + [m.runs[0]])
  }

  /** Unsatisfiable constraints on n + 1 instances bound the size of every family that
      agrees on x and z. */
  lemma UnsatBounds(d: Instance, fs: seq<Formula>, n: nat)
    requires d.steps > 0 && MainMeans(d, fs, n + 1) && forall m: Model :: !Satisfies(d, m, fs)
    ensures AtMostShared(d, n)
  {
    forall rs: seq<Run>, x: bool, z: bool | SharedFamily(d, rs, x, z) && n < |rs|
      ensures Satisfies(d, Model(rs, x, z), fs)
    {
      SharedPrefix(d, rs, n + 1, x, z);
      assert StartsWithFamily(d, Model(rs, x, z), n + 1);
    }
  }

  lemma CandidateStart(d: Instance, fs: seq<Formula>, fs': seq<Formula>, rs: seq<Run>)
    requires d.steps > 0 && |rs| > 0 && Family(d, rs) && IntermediateMeans(d, fs)
    requires forall m: Model :: Satisfies(d, m, fs') <==> Satisfies(d, m, fs) && CandidateConditions(d, m, rs)
    ensures CandidateMeans(d, fs', rs)
  {
    forall m: Model
      ensures Satisfies(d, m, fs') <==> StartsWithRun(d, m) && Family(d, rs + [m.runs[0]])
    {
      CandidateJoins(d, m, rs);
    }
  }

  lemma CandidateNext(d: Instance, fs: seq<Formula>, fs': seq<Formula>, rs: seq<Run>, r: Run)
    requires d.steps > 0 && |rs| > 0 && Family(d, rs + [r]) && CandidateMeans(d, fs, rs)
    requires forall m: Model :: Satisfies(d, m, fs') <==>
             Satisfies(d, m, fs) && SecretsAvoid(d, m, r, d.secrets) && OutputsAvoid(d, m, r)
    ensures CandidateMeans(d, fs', rs + [r])
  {
    FamilyAppend(d, rs, r);
    var qs := rs + [r];
    forall m: Model
      ensures Satisfies(d, m, fs') <==> StartsWithRun(d, m) && Family(d, qs + [m.runs[0]])
    {
      CandidateJoins(d, m, qs);
      CandidateJoins(d, m, rs);
      ConditionsAppend(d, m, rs, r);
    }
  }

  lemma ConditionsAppend(d: Instance, m: Model, rs: seq<Run>, r: Run)
    requires |rs| > 0
    ensures CandidateConditions(d, m, rs + [r]) <==>
            CandidateConditions(d, m, rs) && SecretsAvoid(d, m, r, d.secrets) && OutputsAvoid(d, m, r)
  {
    var qs := rs + [r];
    assert qs[0] == rs[0] && qs[|rs|] == r && forall k :: 0 <= k < |rs| ==> qs[k] == rs[k];
    if CandidateConditions(d, m, qs) {
      forall k | 0 <= k < |rs|
        ensures SecretsAvoid(d, m, rs[k], d.secrets) && OutputsAvoid(d, m, rs[k])
      {
        assert SecretsAvoid(d, m, qs[k], d.secrets) && OutputsAvoid(d, m, qs[k]);
      }
    }
  }

  lemma PrefixStays(fs: seq<Formula>, fs': seq<Formula>, size: nat)
    requires size <= |fs| <= |fs'| && fs'[..|fs|] == fs
    ensures fs'[..size] == fs[..size]
  {
    assert fs'[..size] == fs'[..|fs|][..size];
  }

  /** A run, as the model of a single instance. */
  lemma AsModel(d: Instance, r: Run) returns (m: Model)
    requires d.IsRun(r)
    ensures m.runs == [r] && StartsWithRun(d, m)
  {
    var x, z :| d.IsRunOf(r, x, z);
    m := Model([r], x, z);
  }

  lemma NoExtension(d: Instance, fs: seq<Formula>, rs: seq<Run>)
    requires d.steps > 0 && CandidateMeans(d, fs, rs) && forall m: Model :: !Satisfies(d, m, fs)
    ensures Maximal(d, rs)
  {
    forall r: Run
      ensures !Family(d, rs + [r])
    {
      FamilyAppend(d, rs, r);
      if d.IsRun(r) {
        var m := AsModel(d, r);
        assert !Satisfies(d, m, fs);
      }
    }
  }

  // ----- what the search may announce -----

  ghost predicate HasFamily(d: Instance, n: nat)
    requires d.steps > 0
  {
    exists rs: seq<Run> :: Family(d, rs) && |rs| == n
  }

  /** Some run of the design keeps its secrets. */
  ghost predicate HasRun(d: Instance)
    requires d.steps > 0
  {
    exists r: Run :: Admissible(d, r)
  }

  ghost predicate IsMaximum(d: Instance, n: nat)
    requires d.steps > 0
  {
    AtMost(d, n) && HasFamily(d, n)
  }

  /** A family of n members that no run extends and that starts with a pair of the main
      solver. */
  ghost predicate Stuck(d: Instance, n: nat, rs: seq<Run>)
    requires d.steps > 0
  {
    Family(d, rs) && |rs| == n >= 2 && Maximal(d, rs) && Paired(d, rs)
  }

  ghost predicate HasStuck(d: Instance, n: nat)
    requires d.steps > 0
  {
    exists rs: seq<Run> :: Stuck(d, n, rs)
  }

  /** What an unsat answer can announce as the number of classes: 1 when no two runs that
      agree on x and z can be told apart, or the size of a stuck family at the limit, or
      below it when no family that agrees on x and z is larger. */
  ghost predicate CanAnnounce(d: Instance, maxClasses: nat, n: nat)
    requires d.steps > 0
  {
    if n <= 1 then n == 1 < maxClasses && AtMostShared(d, 1)
    else HasStuck(d, n) && (n == maxClasses || (n < maxClasses && AtMostShared(d, n)))
  }

  /** A stuck family exists beside a larger family, either at the limit or where no larger
      family agrees on x and z. */
  ghost predicate Trap(d: Instance, maxClasses: nat)
    requires d.steps > 0
  {
    exists n: nat, rs: seq<Run> ::
      Stuck(d, n, rs) && n <= maxClasses && !AtMost(d, n) && (n == maxClasses || AtMostShared(d, n))
  }

  lemma OneRun(d: Instance)
    requires d.steps > 0
    ensures HasFamily(d, 1) <==> HasRun(d)
  {
    if HasRun(d) {
      var r: Run :| Admissible(d, r);
      var rs := [r];
      assert Family(d, rs) && |rs| == 1;
    }
    if HasFamily(d, 1) {
      var rs: seq<Run> :| Family(d, rs) && |rs| == 1;
      assert Admissible(d, rs[0]);
    }
  }

  lemma StuckIsFamily(d: Instance, n: nat)
    requires d.steps > 0 && HasStuck(d, n)
    ensures HasFamily(d, n)
  {
    var rs: seq<Run> :| Stuck(d, n, rs);
    assert Family(d, rs) && |rs| == n;
  }

  /** Every number that can be announced is right exactly when the design has a run, no
      stuck family is announced beside a larger one, and two runs are told apart for common
      x and z when any two are. */
  lemma AnnouncementsExactIff(d: Instance, maxClasses: nat)
    requires d.steps > 0 && maxClasses >= 2
    ensures (forall n: nat :: CanAnnounce(d, maxClasses, n) ==> IsMaximum(d, n)) <==>
            HasRun(d) && !Trap(d, maxClasses) && (AtMostShared(d, 1) ==> AtMost(d, 1))
  {
    OneRun(d);
    if HasRun(d) && !Trap(d, maxClasses) && (AtMostShared(d, 1) ==> AtMost(d, 1)) {
      forall n: nat | CanAnnounce(d, maxClasses, n)
        ensures IsMaximum(d, n)
      {
        if n >= 2 {
          StuckIsFamily(d, n);
          var rs: seq<Run> :| Stuck(d, n, rs);
          assert AtMost(d, n);
        }
      }
    } else if !HasRun(d) {
      NoRunBound(d);
      assert CanAnnounce(d, maxClasses, 1) && !IsMaximum(d, 1);
    } else if AtMostShared(d, 1) && !AtMost(d, 1) {
      assert CanAnnounce(d, maxClasses, 1) && !IsMaximum(d, 1);
    } else {
      var n: nat, rs: seq<Run> :| Stuck(d, n, rs) && n <= maxClasses && !AtMost(d, n) &&
        (n == maxClasses || AtMostShared(d, n));
      assert CanAnnounce(d, maxClasses, n) && !IsMaximum(d, n);
    }
  }

  /** Where the runs ignore x and z the search is only wrong without any run, and at the
      limit. */
  lemma IgnoringExactIff(d: Instance, maxClasses: nat)
    requires d.steps > 0 && maxClasses >= 2 && d.IgnoresUndefined()
    ensures (forall n: nat :: CanAnnounce(d, maxClasses, n) ==> IsMaximum(d, n)) <==>
            HasRun(d) && (HasStuck(d, maxClasses) ==> AtMost(d, maxClasses))
  {
    AnnouncementsExactIff(d, maxClasses);
    forall n: nat
      ensures AtMostShared(d, n) <==> AtMost(d, n)
    {
      IgnoringBounds(d, n);
    }
    if HasStuck(d, maxClasses) && !AtMost(d, maxClasses) {
      var rs: seq<Run> :| Stuck(d, maxClasses, rs);
      assert Trap(d, maxClasses);
    }
  }

  lemma NoRunBound(d: Instance)
    requires d.steps > 0 && !HasRun(d)
    ensures AtMost(d, 0) && AtMost(d, 1) && AtMostShared(d, 1)
  {
    forall rs: seq<Run> | Family(d, rs)
      ensures |rs| == 0
    {
      MembersAreRuns(d, rs);
    }
  }

  lemma MembersAreRuns(d: Instance, rs: seq<Run>)
    requires d.steps > 0 && Family(d, rs)
    ensures |rs| > 0 ==> HasRun(d)
  {
    if |rs| > 0 {
      assert Admissible(d, rs[0]);
    }
  }

  // ----- solvers that follow a family -----

  /** The runs satisfy the assertions for some x and z. */
  ghost predicate Fit(d: Instance, rs: seq<Run>, fs: seq<Formula>) {
    exists x, z :: Satisfies(d, Model(rs, x, z), fs)
  }

  ghost predicate FirstThatFits(d: Instance, rs: seq<Run>, fs: seq<Formula>, j: nat) {
    j < |rs| && Fit(d, [rs[j]], fs) && forall i :: 0 <= i < j ==> !Fit(d, [rs[i]], fs)
  }

  ghost predicate AnswersWith(a: Answer, rs: seq<Run>) {
    a.Sat? && a.model.runs == rs
  }

  /** The main solver answers with the family where it can, the other one with its first
      member that satisfies the assertions. */
  ghost predicate Follow(d: Instance, main: Oracle, single: Oracle, rs: seq<Run>) {
    Decisive(main) && Decisive(single) &&
    (forall n: nat, fs: seq<Formula> :: Fit(d, rs, fs) ==> AnswersWith(main(n, fs), rs)) &&
    forall n: nat, fs: seq<Formula>, j: nat :: FirstThatFits(d, rs, fs, j) ==> AnswersWith(single(n, fs), [rs[j]])
  }

  /** What a decisive and sound solver answers that prefers some runs. */
  ghost function Prefer(d: Instance, rs: seq<Run>, fs: seq<Formula>): (a: Answer)
    ensures a.Sat? ==> Satisfies(d, a.model, fs)
    ensures a.Unsat? ==> forall m: Model :: !Satisfies(d, m, fs)
    ensures !a.Unknown? && (Fit(d, rs, fs) ==> AnswersWith(a, rs))
  {
    if x, z :| Satisfies(d, Model(rs, x, z), fs) then Sat(Model(rs, x, z))
    else if m: Model :| Satisfies(d, m, fs) then Sat(m)
    else Unsat
  }

  ghost function Preferring(d: Instance, rs: seq<Run>): Oracle {
    (n: nat, fs: seq<Formula>) => Prefer(d, rs, fs)
  }

  /** The same for single runs, in the order of a family. */
  ghost function FirstOf(d: Instance, rs: seq<Run>): Oracle {
    (n: nat, fs: seq<Formula>) =>
      if j: nat :| FirstThatFits(d, rs, fs, j) then Prefer(d, [rs[j]], fs) else Prefer(d, rs, fs)
  }

  /** For every family there are sound solvers that follow it. */
  lemma FollowersExist(d: Instance, rs: seq<Run>)
    ensures exists main: Oracle, single: Oracle :: Sound(d, main) && Sound(d, single) && Follow(d, main, single, rs)
  {
    var main, single := Preferring(d, rs), FirstOf(d, rs);
    assert Sound(d, main) && Sound(d, single);
    forall n: nat, fs: seq<Formula>, j: nat | FirstThatFits(d, rs, fs, j)
      ensures AnswersWith(single(n, fs), [rs[j]])
    {
      var k: nat :| FirstThatFits(d, rs, fs, k) && single(n, fs) == Prefer(d, [rs[k]], fs);
      assert k == j;
    }
    assert Follow(d, main, single, rs);
  }

  lemma MainFollows(d: Instance, fs: seq<Formula>, rs: seq<Run>)
    requires d.steps > 0 && MainMeans(d, fs, 2) && Paired(d, rs) && |rs| >= 2
    ensures Fit(d, rs, fs)
  {
    var x, z :| SharedFamily(d, rs[..2], x, z);
    assert StartsWithFamily(d, Model(rs, x, z), 2);
  }

  /** Of a family only the next member extends what was found of it so far first. */
  lemma NextFollows(d: Instance, fs: seq<Formula>, rs: seq<Run>, n: nat)
    requires d.steps > 0 && d.outputs > 0 && Family(d, rs) && n < |rs| && CandidateMeans(d, fs, rs[..n])
    ensures FirstThatFits(d, rs, fs, n)
  {
    FamilyPrefix(d, rs, n + 1);
    assert rs[..n + 1] == rs[..n] + [rs[n]];
    assert Admissible(d, rs[n]);
    var next := AsModel(d, rs[n]);
    assert next == Model([rs[n]], next.x, next.z);
    assert Satisfies(d, next, fs);
    forall i | 0 <= i < n
      ensures !Fit(d, [rs[i]], fs)
    {
      NotAgain(d, rs[..n], i);
      assert rs[..n][i] == rs[i];
    }
  }

  /** What the single solver answers while the family found is a part of the one it follows. */
  lemma AnswersNext(d: Instance, main: Oracle, single: Oracle, guide: seq<Run>, n: nat, fs: seq<Formula>, checks: nat)
    requires d.steps > 0 && d.outputs > 0 && Follow(d, main, single, guide) && Family(d, guide)
    requires n < |guide| && CandidateMeans(d, fs, guide[..n])
    ensures AnswersWith(single(checks, fs), [guide[n]])
  {
    NextFollows(d, fs, guide, n);
  }

  lemma AnswersUnsat(d: Instance, single: Oracle, guide: seq<Run>, fs: seq<Formula>, checks: nat)
    requires d.steps > 0 && Sound(d, single) && Decisive(single) && CandidateMeans(d, fs, guide) && Maximal(d, guide)
    ensures single(checks, fs) == Unsat
  {
    NothingNext(d, fs, guide);
  }

  lemma Answers(d: Instance, main: Oracle, single: Oracle, guide: seq<Run>, found: seq<Run>, fs: seq<Formula>,
                checks: nat)
    requires d.steps > 0 && d.outputs > 0 && Sound(d, single) && Follow(d, main, single, guide)
    requires Family(d, guide) && Maximal(d, guide) && found <= guide && CandidateMeans(d, fs, found)
    ensures if found == guide then single(checks, fs) == Unsat
            else single(checks, fs).Sat? && found + [RunOf(single(checks, fs).model, 0)] <= guide
  {
    PrefixCases(found, guide);
    if |found| < |guide| {
      AnswersNext(d, main, single, guide, |found|, fs, checks);
    } else {
      AnswersUnsat(d, single, found, fs, checks);
    }
  }

  lemma PrefixCases(xs: seq<Run>, ys: seq<Run>)
    requires xs <= ys
    ensures |xs| < |ys| ==> xs + [ys[|xs|]] <= ys && xs != ys && ys[..|xs|] == xs
    ensures |xs| >= |ys| ==> xs == ys
  {
  }

  lemma NothingNext(d: Instance, fs: seq<Formula>, rs: seq<Run>)
    requires d.steps > 0 && CandidateMeans(d, fs, rs) && Maximal(d, rs)
    ensures forall m: Model :: !Satisfies(d, m, fs)
  {
  }

  lemma NotAgain(d: Instance, rs: seq<Run>, i: nat)
    requires d.steps > 0 && i < |rs|
    ensures !Family(d, rs + [rs[i]])
  {
    FamilyAppend(d, rs, rs[i]);
    if d.IsRun(rs[i]) {
      NotFromItself(d, rs[i]);
    }
  }

  lemma NotFromItself(d: Instance, r: Run)
    requires d.steps > 0 && d.IsRun(r)
    ensures !Distinguished(d, r, r)
  {
  }

  class QifaSmt {
    const d: Instance
    const intermediateStep: bool
    const solverInstances: Solver
    const solverIntermediate: Solver
    var instanceCount: nat
    var instanceId: nat
    var z3result: Verdict
    var instTimeIOvals: seq<Run>

    /** The family found so far, in the mode with the intermediate step: none up to
        instance 1, later one of instanceId members or one more. */
    ghost predicate FamilyValid()
      reads this
      requires d.steps > 0
    {
      (instTimeIOvals == [] || Family(d, instTimeIOvals)) && Paired(d, instTimeIOvals) &&
      (intermediateStep ==>
         if instanceId <= 1 then instTimeIOvals == []
         else |instTimeIOvals| == instanceId || |instTimeIOvals| == instanceId + 1)
    }

    ghost predicate Fixed()
    {
      solverInstances != solverIntermediate && solverInstances.d == d && solverIntermediate.d == d &&
      Sound(d, solverInstances.oracle) && Sound(d, solverIntermediate.oracle) && d.steps > 0 && d.outputs > 0
    }

    /** The solvers hold what the instances built so far stand for. */
    ghost predicate Core()
      reads this, solverInstances, solverIntermediate
    {
      Fixed() &&
      MainMeans(d, solverInstances.asserted, instanceCount) &&
      solverIntermediate.scopes == [] &&
      (intermediateStep && instanceId > 0 ==> IntermediateMeans(d, solverIntermediate.asserted)) &&
      (instanceId == 0 ==> solverIntermediate.asserted == [] || IntermediateMeans(d, solverIntermediate.asserted)) &&
      instanceCount <= instanceId + 1 && (instanceId > 0 ==> instanceCount > 0)
    }

    ghost predicate Valid()
      reads this, solverInstances, solverIntermediate
    {
      Core() && FamilyValid()
    }

    constructor (d: Instance, intermediateStep: bool, oracle: Oracle, intermediateOracle: Oracle)
      requires d.steps > 0 && d.outputs > 0 && Sound(d, oracle) && Sound(d, intermediateOracle)
      ensures Valid() && fresh(solverInstances) && fresh(solverIntermediate)
      ensures this.d == d && this.intermediateStep == intermediateStep
      ensures solverInstances.oracle == oracle && solverIntermediate.oracle == intermediateOracle
      ensures instanceId == 0 && instTimeIOvals == [] && z3result == NotRun
    {
      this.d, this.intermediateStep := d, intermediateStep;
      solverInstances := new Solver(d, oracle);
      solverIntermediate := new Solver(d, intermediateOracle);
      instanceCount, instanceId, z3result, instTimeIOvals := 0, 0, NotRun, [];
      new;
      assert forall m: Model :: StartsWithFamily(d, m, 0) by {
        forall m: Model
          ensures StartsWithFamily(d, m, 0)
        {
          assert m.runs[..0] == [];
        }
      }
    }

    /** The single unrolled instance of the intermediate step. */
    method CreateIntermediate()
      requires Valid() && instanceId == 0
      modifies solverIntermediate`asserted
      ensures Valid() && IntermediateMeans(d, solverIntermediate.asserted)
    {
      ghost var before := solverIntermediate.asserted;
      SatisfiesAppendAll(d, before, Just(Unrolled(0)));
      solverIntermediate.Add(Just(Unrolled(0)));
      AddSecretsStable(solverIntermediate, 0);
      forall m: Model
        ensures Satisfies(d, m, solverIntermediate.asserted) <==>
                StartsWithRun(d, m) && SecretsConstant(d, m.runs[0])
      {
        if StartsWithRun(d, m) {
          StableMeans(d, m, 0);
        }
      }
    }

    /** One more unrolled instance in the main solver, related to all earlier ones. */
    method AddInstance()
      requires Valid() && instanceCount <= instanceId
      modifies this`instanceCount, solverInstances`asserted
      ensures Valid() && instanceCount == old(instanceCount) + 1
    {
      ghost var before := solverInstances.asserted;
      var creating := instanceCount;
      SatisfiesAppendAll(d, before, Just(Unrolled(creating)));
      solverInstances.Add(Just(Unrolled(creating)));
      instanceCount := instanceCount + 1;
      AddSecretsStable(solverInstances, creating);
      AddSecretsDiffer(solverInstances, creating);
      if instanceId != 0 {
        AddSameStates(solverInstances, creating);
        AddSameInputs(solverInstances, creating);
        AddOutputsDiffer(solverInstances, creating);
      }
      forall m: Model
        ensures Satisfies(d, m, solverInstances.asserted) <==> StartsWithFamily(d, m, creating + 1)
      {
        InstanceExtends(d, m, creating);
        assert Satisfies(d, m, before) <==> StartsWithFamily(d, m, creating);
      }
    }

    /** Records a member found by the intermediate solver and excludes its secrets
        and outputs. */
    method RecordMember(found: Run, ghost size: nat)
      requires Fixed() && Family(d, instTimeIOvals) && |instTimeIOvals| > 0 && Family(d, instTimeIOvals + [found])
      requires CandidateMeans(d, solverIntermediate.asserted, instTimeIOvals) && size <= |solverIntermediate.asserted|
      modifies this`instTimeIOvals, solverIntermediate`asserted
      ensures instTimeIOvals == old(instTimeIOvals) + [found]
      ensures CandidateMeans(d, solverIntermediate.asserted, instTimeIOvals)
      ensures size <= |solverIntermediate.asserted| &&
              solverIntermediate.asserted[..size] == old(solverIntermediate.asserted[..size])
    {
      ghost var fs, rs := solverIntermediate.asserted, instTimeIOvals;
      instTimeIOvals := instTimeIOvals + [found];
      AddLastSolution(solverIntermediate, found);
      CandidateNext(d, fs, solverIntermediate.asserted, rs, found);
      PrefixStays(fs, solverIntermediate.asserted, size);
    }

    /** The solvers follow a stuck family that can be announced. */
    ghost predicate Led(maxClasses: nat, guide: seq<Run>)
      requires d.steps > 0
    {
      Follow(d, solverInstances.oracle, solverIntermediate.oracle, guide) && Stuck(d, |guide|, guide) &&
      (|guide| == maxClasses || (|guide| < maxClasses && AtMostShared(d, |guide|)))
    }

    method CheckMember() returns (answer: Answer)
      requires Fixed() && CandidateMeans(d, solverIntermediate.asserted, instTimeIOvals)
      modifies solverIntermediate`checks
      ensures answer == solverIntermediate.oracle(old(solverIntermediate.checks), solverIntermediate.asserted)
      ensures answer.Sat? ==> Family(d, instTimeIOvals + [RunOf(answer.model, 0)])
      ensures answer.Unsat? ==> Maximal(d, instTimeIOvals)
    {
      answer := solverIntermediate.Check();
      if answer.Unsat? {
        NoExtension(d, solverIntermediate.asserted, instTimeIOvals);
      }
    }

    /** One check for a further member. */
    method NextMember(ghost size: nat) returns (flow: Flow)
      requires Fixed() && Family(d, instTimeIOvals) && |instTimeIOvals| > 0 && z3result == WasSat
      requires CandidateMeans(d, solverIntermediate.asserted, instTimeIOvals) && size <= |solverIntermediate.asserted|
      modifies this`instanceId, this`z3result, this`instTimeIOvals, solverIntermediate`asserted,
        solverIntermediate`checks
      ensures instanceId == old(instanceId) + 1
      ensures size <= |solverIntermediate.asserted| &&
              solverIntermediate.asserted[..size] == old(solverIntermediate.asserted[..size])
      ensures flow == Continue ==> z3result == WasSat && |instTimeIOvals| == |old(instTimeIOvals)| + 1 &&
                                   old(instTimeIOvals) <= instTimeIOvals && Family(d, instTimeIOvals) &&
                                   CandidateMeans(d, solverIntermediate.asserted, instTimeIOvals)
      ensures flow == Break ==> z3result == WasUnsat && instTimeIOvals == old(instTimeIOvals) &&
                                Maximal(d, instTimeIOvals)
      ensures var answer := solverIntermediate.oracle(old(solverIntermediate.checks), old(solverIntermediate.asserted));
              (flow == Throw <==> answer.Unknown?) && (flow == Break <==> answer.Unsat?) &&
              (flow == Continue ==> answer.Sat? && instTimeIOvals == old(instTimeIOvals) + [RunOf(answer.model, 0)])
    {
      var answer := CheckMember();
      instanceId := instanceId + 1;
      match answer {
        case Sat(model) =>
          RecordMember(RunOf(model, 0), size);
          flow := Continue;
        case Unsat =>
          z3result := WasUnsat;
          flow := Break;
        case Unknown =>
          flow := Throw;
      }
    }

    lemma LedAnswer(maxClasses: nat, guide: seq<Run>)
      requires Fixed() && Led(maxClasses, guide) && instTimeIOvals <= guide
      requires CandidateMeans(d, solverIntermediate.asserted, instTimeIOvals)
      ensures var answer := solverIntermediate.oracle(solverIntermediate.checks, solverIntermediate.asserted);
              if instTimeIOvals == guide then answer == Unsat
              else answer.Sat? && instTimeIOvals + [RunOf(answer.model, 0)] <= guide
    {
      Answers(d, solverInstances.oracle, solverIntermediate.oracle, guide, instTimeIOvals,
              solverIntermediate.asserted, solverIntermediate.checks);
    }

    /** The incremental checks for further members, up to the limit. */
    method NextMembers(maxClasses: nat, ghost size: nat, ghost guide: seq<Run>) returns (flow: Flow)
      requires Fixed() && 0 < instanceId < maxClasses && z3result == WasSat
      requires Family(d, instTimeIOvals) && |instTimeIOvals| == instanceId + 1
      requires CandidateMeans(d, solverIntermediate.asserted, instTimeIOvals) && size <= |solverIntermediate.asserted|
      modifies this`instanceId, this`z3result, this`instTimeIOvals, solverIntermediate`asserted,
        solverIntermediate`checks
      ensures size <= |solverIntermediate.asserted| &&
              solverIntermediate.asserted[..size] == old(solverIntermediate.asserted[..size])
      ensures flow != Continue ==> flow == Throw
      ensures flow == Continue ==> old(instanceId) < instanceId <= maxClasses && z3result != NotRun
      ensures flow == Continue ==> Family(d, instTimeIOvals) && old(instTimeIOvals) <= instTimeIOvals
      ensures flow == Continue ==> |instTimeIOvals| == if z3result == WasUnsat then instanceId else instanceId + 1
      ensures flow == Continue && z3result != WasUnsat ==> instanceId == maxClasses
      ensures flow == Continue && z3result == WasUnsat ==> Maximal(d, instTimeIOvals)
      ensures flow == Throw ==> !Decisive(solverIntermediate.oracle)
      ensures Led(maxClasses, guide) && old(instTimeIOvals) <= guide ==>
                z3result == WasUnsat && instTimeIOvals == guide
    {
      flow := Continue;
      while z3result == WasSat && instanceId < maxClasses
        invariant flow == Continue && old(instanceId) <= instanceId <= maxClasses && z3result == WasSat
        invariant |instTimeIOvals| == instanceId + 1 && Family(d, instTimeIOvals) &&
                  old(instTimeIOvals) <= instTimeIOvals
        invariant CandidateMeans(d, solverIntermediate.asserted, instTimeIOvals)
        invariant Led(maxClasses, guide) && old(instTimeIOvals) <= guide ==> instTimeIOvals <= guide
        invariant size <= |solverIntermediate.asserted|
        invariant solverIntermediate.asserted[..size] == old(solverIntermediate.asserted[..size])
        decreases maxClasses - instanceId
      {
        if Led(maxClasses, guide) && instTimeIOvals <= guide {
          LedAnswer(maxClasses, guide);
        }
        flow := NextMember(size);
        if flow == Throw {
          return;
        }
        if flow == Break {
          return Continue;
        }
      }
    }

    /** The intermediate step: extends the family under its inputs and initial state
        until there is no further secret or the limit is reached. */
    method Extend(maxClasses: nat, ghost guide: seq<Run>) returns (flow: Flow)
      requires Core() && intermediateStep && 0 < instanceId < maxClasses
      requires Family(d, instTimeIOvals) && Paired(d, instTimeIOvals)
      requires |instTimeIOvals| == instanceId + 1 && z3result == WasSat
      modifies this`instanceId, this`z3result, this`instTimeIOvals, solverIntermediate
      ensures flow != Continue ==> flow == Throw
      ensures flow == Continue ==> Valid() && old(instanceId) < instanceId <= maxClasses
      ensures flow == Continue ==> old(instTimeIOvals) <= instTimeIOvals
      ensures flow == Continue ==> |instTimeIOvals| == if z3result == WasUnsat then instanceId else instanceId + 1
      ensures flow == Continue && z3result != WasUnsat ==> instanceId == maxClasses
      ensures flow == Continue && z3result == WasUnsat ==> Maximal(d, instTimeIOvals)
      ensures flow == Throw ==> !Decisive(solverIntermediate.oracle)
      ensures Led(maxClasses, guide) && old(instTimeIOvals) <= guide ==>
                z3result == WasUnsat && instTimeIOvals == guide
    {
      ghost var base := solverIntermediate.asserted;
      solverIntermediate.Push();
      AddCandidate(solverIntermediate, instTimeIOvals);
      CandidateStart(d, base, solverIntermediate.asserted, instTimeIOvals);
      flow := NextMembers(maxClasses, |base|, guide);
      if flow == Throw {
        return;
      }
      PairedStays(d, old(instTimeIOvals), instTimeIOvals);
      solverIntermediate.Pop();
      assert solverIntermediate.asserted == base;
    }

    /** The instances that the intermediate step skipped, and the next one. */
    method AddInstances()
      requires Valid()
      modifies this`instanceCount, solverInstances`asserted
      ensures Valid() && instanceCount > instanceId
    {
      while instanceCount <= instanceId
        invariant Valid()
        decreases instanceId + 1 - instanceCount
      {
        AddInstance();
      }
    }

    method CheckFamilies(maxClasses: nat, ghost guide: seq<Run>) returns (answer: Answer)
      requires Core() && instanceCount == instanceId + 1
      modifies solverInstances`checks
      ensures answer == solverInstances.oracle(old(solverInstances.checks), solverInstances.asserted)
      ensures answer.Sat? ==> StartsWithFamily(d, answer.model, instanceCount)
      ensures answer.Sat? ==> !AtMostShared(d, instanceId)
      ensures answer.Unsat? ==> AtMostShared(d, instanceId)
      ensures Led(maxClasses, guide) && instanceId == 1 ==> AnswersWith(answer, guide)
    {
      if Led(maxClasses, guide) && instanceId == 1 {
        MainFollows(d, solverInstances.asserted, guide);
      }
      answer := solverInstances.Check();
      if answer.Unsat? {
        UnsatBounds(d, solverInstances.asserted, instanceId);
      }
    }

    /** One iteration of the main loop. Without the intermediate step an iteration
        that finds a family leaves instanceId where it was. */
    method MainIteration(maxClasses: nat, ghost guide: seq<Run>) returns (flow: Flow)
      requires Valid() && instanceId < maxClasses
      requires intermediateStep ==> IntermediateMeans(d, solverIntermediate.asserted)
      modifies this, solverInstances, solverIntermediate
      ensures flow != Throw ==> Valid() && instanceId <= maxClasses
      ensures flow != Throw && intermediateStep ==> IntermediateMeans(d, solverIntermediate.asserted)
      ensures flow == Continue && (intermediateStep || old(instanceId) == 0) ==> instanceId > old(instanceId)
      ensures flow == Continue && !intermediateStep && old(instanceId) > 0 ==>
                instanceId == old(instanceId) && Family(d, instTimeIOvals) && |instTimeIOvals| == instanceId + 1
      ensures flow == Break ==>
                instanceId == old(instanceId) && instTimeIOvals == old(instTimeIOvals) && z3result == WasUnsat &&
                AtMostShared(d, instanceId) && instanceId > 0
      ensures old(instanceId) == 0 ==> flow == Continue && instanceId == 1
      ensures flow == Throw ==> !Decisive(solverInstances.oracle) || !Decisive(solverIntermediate.oracle)
      ensures intermediateStep && Led(maxClasses, guide) && old(instanceId) == 1 ==>
                flow == Continue && z3result == WasUnsat && instTimeIOvals == guide
      ensures flow == Continue && old(instanceId) > 0 ==> !AtMostShared(d, old(instanceId))
      ensures flow == Continue && old(instanceId) > 0 && intermediateStep && instanceId < maxClasses ==>
                z3result == WasUnsat
      ensures flow == Continue && instanceId < maxClasses && intermediateStep && instanceId > 1 ==>
              |instTimeIOvals| == instanceId
      ensures flow == Continue && old(instanceId) > 0 && intermediateStep && z3result == WasUnsat ==>
                Maximal(d, instTimeIOvals) && |instTimeIOvals| == instanceId
    {
      AddInstances();
      if instanceId == 0 {
        instanceId := instanceId + 1;
        return Continue;
      }
      var answer := CheckFamilies(maxClasses, guide);
      match answer {
        case Sat(model) =>
          z3result := WasSat;
          instTimeIOvals := model.runs[..instanceCount];
          SharedIsPaired(d, instTimeIOvals, model.x, model.z);
          if intermediateStep {
            flow := Extend(maxClasses, guide);
            return;
          }
          return Continue;
        case Unsat =>
          z3result := WasUnsat;
          return Break;
        case Unknown =>
          return Throw;
      }
    }

    /** A new search, seen from its final message. */
    method Announce(maxClasses: nat, ghost guide: seq<Run>) returns (verdict: Verdict, announced: nat)
      requires Valid() && intermediateStep && instanceId == 0 && maxClasses >= 2
      modifies this, solverInstances, solverIntermediate
      ensures Led(maxClasses, guide) ==> verdict == WasUnsat && announced == |guide|
      ensures Decisive(solverInstances.oracle) && Decisive(solverIntermediate.oracle) ==>
                (verdict == WasUnsat ==> CanAnnounce(d, maxClasses, announced)) &&
                (AtMostShared(d, 1) ==> verdict == WasUnsat && announced == 1)
    {
      var r := FindEquivalenceClasses(maxClasses, guide);
      verdict, announced := z3result, instanceId;
    }

    /** The main loop, up to the limit or the first bound that is reached. */
    method MainLoop(maxClasses: nat, ghost guide: seq<Run>) returns (r: Outcome)
      requires Valid() && intermediateStep && IntermediateMeans(d, solverIntermediate.asserted)
      modifies this, solverInstances, solverIntermediate
      ensures r.Found? ==> Valid() && r.family == instTimeIOvals
      ensures r.Found? ==> old(instanceId) <= instanceId && (instanceId <= maxClasses || instanceId == old(instanceId))
      ensures r.Found? && instanceId < maxClasses ==>
                z3result == WasUnsat && AtMostShared(d, instanceId) && instanceId > 0
      ensures r.Found? && old(instanceId) < instanceId && instanceId > 1 && z3result == WasUnsat ==>
                Maximal(d, r.family) && |r.family| == instanceId
      ensures r.Found? && AtMostShared(d, 1) && old(instanceId) == 0 ==> instanceId <= 1
      ensures r.UnknownResult? ==> !Decisive(solverInstances.oracle) || !Decisive(solverIntermediate.oracle)
      ensures Led(maxClasses, guide) && old(instanceId) == 0 ==>
                r.Found? && z3result == WasUnsat && r.family == guide && instanceId == |guide|
    {
      while instanceId < maxClasses
        invariant Valid() && IntermediateMeans(d, solverIntermediate.asserted)
        invariant old(instanceId) <= instanceId && (instanceId <= maxClasses || instanceId == old(instanceId))
        invariant old(instanceId) < instanceId && instanceId > 1 && z3result == WasUnsat ==>
                    Maximal(d, instTimeIOvals) && |instTimeIOvals| == instanceId
        invariant old(instanceId) < instanceId && 1 < instanceId < maxClasses ==> z3result == WasUnsat
        invariant AtMostShared(d, 1) && old(instanceId) == 0 ==> instanceId <= 1
        invariant Led(maxClasses, guide) && old(instanceId) == 0 && instanceId > 1 ==>
                    z3result == WasUnsat && instTimeIOvals == guide && instanceId == |guide|
        decreases maxClasses - instanceId
      {
        var flow := MainIteration(maxClasses, guide);
        if flow == Throw {
          return UnknownResult;
        }
        if flow == Break {
          return Found(instTimeIOvals);
        }
      }
      r := Found(instTimeIOvals);
    }

    /** The number of equivalence classes under one input sequence and initial state,
        for all of them. */
    method FindEquivalenceClasses(maxClasses: nat, ghost guide: seq<Run>) returns (r: Outcome)
      requires Valid() && intermediateStep
      modifies this, solverInstances, solverIntermediate
      ensures r.Found? ==> Valid() && r.family == instTimeIOvals
      // soundness: whatever is returned is a family, and not larger than announced
      ensures r.Found? ==> r.family == [] || Family(d, r.family)
      ensures r.Found? ==> old(instanceId) <= instanceId && (instanceId <= maxClasses || instanceId == old(instanceId))
      ensures r.Found? && old(instanceId) <= maxClasses ==> |r.family| <= maxClasses + 1
      // a stop below the limit is at a bound of the families that agree on x and z
      ensures r.Found? && instanceId < maxClasses ==> z3result == WasUnsat && AtMostShared(d, instanceId)
      ensures r.Found? && 1 < instanceId < maxClasses && (old(instanceId) < instanceId || d.IgnoresUndefined()) ==>
                |r.family| == instanceId
      // an unsat answer of the intermediate solver only means that the family cannot be extended
      ensures r.Found? && old(instanceId) < instanceId && instanceId > 1 && z3result == WasUnsat ==>
                Maximal(d, r.family)
      // which of the two it is: bounds of the design decide it, and where the runs ignore x
      // and z one bound does, which is then the one that was found
      ensures r.Found? && old(instanceId) < maxClasses && maxClasses >= 2 ==>
                (instanceId < maxClasses ==> AtMostShared(d, maxClasses - 1)) &&
                (AtMost(d, maxClasses - 1) ==> instanceId < maxClasses)
      ensures r.Found? && old(instanceId) < maxClasses && maxClasses >= 2 && d.IgnoresUndefined() ==>
                (instanceId < maxClasses <==> AtMost(d, maxClasses - 1)) &&
                (instanceId < maxClasses ==> AtMost(d, instanceId))
      // an unsat answer announces nothing else
      ensures r.Found? && old(instanceId) == 0 && maxClasses >= 2 && z3result == WasUnsat ==>
                CanAnnounce(d, maxClasses, instanceId)
      ensures r.Found? && old(instanceId) == 0 && maxClasses >= 2 && AtMostShared(d, 1) ==> instanceId == 1
      // decisive solvers bring the search to an end, and solvers that follow a stuck family
      // that can be announced bring it to an unsat answer there
      ensures r.UnknownResult? ==> !Decisive(solverInstances.oracle) || !Decisive(solverIntermediate.oracle)
      ensures Led(maxClasses, guide) && old(instanceId) == 0 ==>
                r.Found? && z3result == WasUnsat && instanceId == |guide|
    {
      if intermediateStep && instanceId == 0 {
        CreateIntermediate();
      }
      ghost var before := instanceId;
      r := MainLoop(maxClasses, guide);
      if r.Found? && before < maxClasses && maxClasses >= 2 {
        StopMeans(d, maxClasses, instanceId, r.family);
        assert FamilyValid();
        if before == 0 && z3result == WasUnsat {
          Announced(d, maxClasses, instanceId, r.family);
        }
      }
    }
  }

  /** Where the search stops, for a family of that size. */
  lemma StopMeans(d: Instance, maxClasses: nat, n: nat, rs: seq<Run>)
    requires d.steps > 0 && maxClasses >= 2 && n <= maxClasses
    requires if n < maxClasses then AtMostShared(d, n) else Family(d, rs) && |rs| >= maxClasses
    ensures n < maxClasses ==> AtMostShared(d, maxClasses - 1)
    ensures AtMost(d, maxClasses - 1) ==> n < maxClasses
    ensures d.IgnoresUndefined() ==>
              (n < maxClasses <==> AtMost(d, maxClasses - 1)) && (n < maxClasses ==> AtMost(d, n))
  {
    if d.IgnoresUndefined() {
      IgnoringBounds(d, n);
      IgnoringBounds(d, maxClasses - 1);
    }
  }

  lemma Announced(d: Instance, maxClasses: nat, n: nat, rs: seq<Run>)
    requires d.steps > 0 && 0 < n <= maxClasses && maxClasses >= 2
    requires n < maxClasses ==> AtMostShared(d, n)
    requires n > 1 ==> Family(d, rs) && Paired(d, rs) && Maximal(d, rs) && |rs| == n
    ensures CanAnnounce(d, maxClasses, n)
  {
    if n > 1 {
      assert Stuck(d, n, rs);
    }
  }

  // ----- wrong announcements -----

  /** One step: under input 0 the output is a saturated secret, otherwise the secret. */
  function Saturating(): Instance {
    Instance(1, 1, 1, 1, 0, (r: Run, x: bool, z: bool) =>
      |r| == 1 && |r[0].inputs| == 1 && |r[0].secrets| == 1 && |r[0].outputs| == 1 &&
      r[0].outputs[0] == if r[0].inputs[0] == 0 && r[0].secrets[0] > 1 then 1 else r[0].secrets[0])
  }

  function Sample(input: nat, secret: nat): Run {
    [SmtValues([input], [if input == 0 && secret > 1 then 1 else secret], [secret], [])]
  }

  lemma SamplesDiffer(input: nat, a: nat, b: nat)
    requires a != b && (input > 0 || a == 0 || b == 0)
    ensures Admissible(Saturating(), Sample(input, a)) && Admissible(Saturating(), Sample(input, b))
    ensures Distinguished(Saturating(), Sample(input, a), Sample(input, b))
  {
    var r, q := Sample(input, a), Sample(input, b);
    assert r[0].outputs[0] != q[0].outputs[0];
    assert r[0].outputs != q[0].outputs;
  }

  lemma SaturatedOutput(r: Run)
    requires Admissible(Saturating(), r) && r[0].inputs[0] == 0
    requires r[0].secrets[0] != 0 && r[0].secrets[0] != 1
    ensures r[0].outputs == [1]
  {
  }

  lemma PairIsMaximal(rs: seq<Run>)
    requires rs == [Sample(0, 0), Sample(0, 1)]
    ensures Family(Saturating(), rs) && Maximal(Saturating(), rs)
  {
    var d := Saturating();
    SamplesDiffer(0, 0, 1);
    assert Family(d, rs);
    forall r: Run
      ensures !Family(d, rs + [r])
    {
      FamilyAppend(d, rs, r);
      if Admissible(d, r) && AllSecretsDiffer(d, rs[0], r) && AllSecretsDiffer(d, rs[1], r) &&
        SameControl(d, rs[0], r) {
        SaturatedOutput(r);
        assert !Observable(d, rs[1], r);
      }
    }
  }

  lemma TripleIsFamily(qs: seq<Run>)
    requires qs == [Sample(1, 0), Sample(1, 1), Sample(1, 2)]
    ensures Family(Saturating(), qs)
  {
    SamplesDiffer(1, 0, 1);
    SamplesDiffer(1, 0, 2);
    SamplesDiffer(1, 1, 2);
  }

  /** A family that the intermediate step cannot extend need not be a largest one. */
  lemma {:induction false} GreedyIsNotMaximal()
    ensures exists rs: seq<Run>, qs: seq<Run> ::
              Family(Saturating(), rs) && Maximal(Saturating(), rs) && Family(Saturating(), qs) &&
              |rs| == 2 && |qs| == 3
    ensures Stuck(Saturating(), 2, SaturatedPair()) && Trap(Saturating(), 2)
  {
    var rs, qs := SaturatedPair(), [Sample(1, 0), Sample(1, 1), Sample(1, 2)];
    PairIsMaximal(rs);
    TripleIsFamily(qs);
    SamplesDiffer(0, 0, 1);
    assert SharedFamily(Saturating(), rs, false, false);
    SharedIsPaired(Saturating(), rs, false, false);
    assert Stuck(Saturating(), 2, rs);
  }

  function SaturatedPair(): seq<Run> {
    [Sample(0, 0), Sample(0, 1)]
  }

  /** Every number of two or more that can be announced is announced by some search: for
      every stuck family there are sound solvers (FollowersExist) with which the search ends
      with an unsat answer there. */
  method AnnouncesStuck(d: Instance, maxClasses: nat, oracle: Oracle, single: Oracle, ghost guide: seq<Run>)
    returns (verdict: Verdict, announced: nat)
    requires d.steps > 0 && d.outputs > 0 && maxClasses >= 2 && Sound(d, oracle) && Sound(d, single)
    requires Follow(d, oracle, single, guide) && Stuck(d, |guide|, guide)
    requires |guide| == maxClasses || (|guide| < maxClasses && AtMostShared(d, |guide|))
    ensures verdict == WasUnsat && announced == |guide|
  {
    var search := new QifaSmt(d, true, oracle, single);
    assert search.Led(maxClasses, guide);
    verdict, announced := search.Announce(maxClasses, guide);
  }

  /** One class is announced whenever no two runs that agree on x and z can be told apart:
      without any run at all, and beside families of runs that do not agree. */
  method AnnouncesOne(d: Instance, maxClasses: nat, oracle: Oracle, single: Oracle)
    returns (verdict: Verdict, announced: nat)
    requires d.steps > 0 && d.outputs > 0 && maxClasses >= 2 && Sound(d, oracle) && Sound(d, single)
    requires Decisive(oracle) && Decisive(single) && AtMostShared(d, 1)
    ensures verdict == WasUnsat && announced == 1
    ensures !HasRun(d) ==> IsMaximum(d, 0)
  {
    var search := new QifaSmt(d, true, oracle, single);
    verdict, announced := search.Announce(maxClasses, []);
    if !HasRun(d) {
      NoRunBound(d);
      assert Family(d, []);
    }
  }

  /** The saturating design: two classes are announced although there are three. */
  method SaturatingMisleads(oracle: Oracle, single: Oracle) returns (verdict: Verdict, announced: nat)
    requires Sound(Saturating(), oracle) && Sound(Saturating(), single)
    requires Follow(Saturating(), oracle, single, SaturatedPair())
    ensures verdict == WasUnsat && announced == 2 && !AtMost(Saturating(), 2)
  {
    GreedyIsNotMaximal();
    verdict, announced := AnnouncesStuck(Saturating(), 2, oracle, single, SaturatedPair());
  }
}
