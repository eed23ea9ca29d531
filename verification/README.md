# DuRTL: a verified model of its core

DuRTL reads a Yosys netlist and produces three things from it: instrumented Verilog in
which every signal has a shadow tag, an SMT instance of the design unrolled over time, and
quantitative information flow queries on that instance. This project models the code that
decides what these outputs mean and proves what each of them is for.

| file | what it models |
|---|---|
| `Bitvectors.dfy` | words as bit sequences, their numbers, extensions and bitwise operators |
| `Cells.dfy`, `Pmux.dfy` | typed cells twice: the value a cell of the netlist computes (integers, typed by the signs of its parameters as section 11.7 of IEEE 1800-2012 asks) and the assertion of the SMT back end |
| `CellNumbers.dfy` | what the assertions say in plain numbers and bits |
| `CellSigns.dfy` | when the assertion means that value, and when it means the value of the exported Verilog statement, whose wires are declared without signs |
| `PortExpr.dfy` | how the SMT export rebuilds the word at a port from the nets on its edges |
| `Unroll.dfy`, `VertexRules.dfy` | the export loops, from one vertex to a whole unrolled instance, and what each kind of vertex adds |
| `UnrollProof.dfy`, `Simulation.dfy` | what the emitted constraints mean: existence, uniqueness, equality with the cycle-by-cycle simulation |
| `InstanceEdges.dfy` | how the edges of the instantiation graph are found and which net each of them carries |
| `ToggleDesign.dfy`, `AliasDesign.dfy`, `RefusedDesign.dfy` | a graph with a feedback register that meets the hypotheses, one without a unique solution, and three whose export fails |
| `Qifa.dfy`, `QifaSearch.dfy`, `QifaDesign.dfy`, `UndefinedDesign.dfy` | the search for equivalence classes as a stateful loop over two incremental solvers, its runs as executions of the design, and what undefined bits do to it |
| `Ift.dfy`, `TagPrecision.dfy`, `IftRuns.dfy`, `IftCells.dfy` | the tag rules of the cells, where they are sound and where exact, and clocked runs of an instrumented netlist |
| `ModuleGraph.dfy`, `SourceSelection.dfy`, `PopulatePhases.dfy`, `PopulateGraph.dfy` | the module graph: reachability, the choice of sources for a target, and the three phases that build it |
| `Wiring.dfy` | the assigns of the exported wiring and what they mean |
| `PathSearch.dfy` | the depth first search of `get_path` |
| `TagRows.dfy`, `Batches.dfy` | the layout of injected tags, reading them back and replaying them, and the simulation runs |
| `TagCount.dfy`, `ValueCursor.dfy` | counting tags in value change dumps, and the erasing lookup of input values |

Modelling decisions that hold throughout:

- A bit is an id or one of the four constants; a net and a port are sequences of bits. Two
  signatures are equal when the bit sequences are, since the code treats its hash as injective.
- Iteration over an unordered map picks any remaining element, so that every result holds for
  every order.
- The solver is an oracle that may answer sat with a model of its assertions, unsat when there
  is none, or unknown. Z3 itself, files, JSON and waveforms are parameters or left out.
- A run-time error of the source is a value of an outcome datatype; words whose sorts do not fit
  are one, since building such an expression throws.
- An undefined bit is one constant x, or z, in each solver, shared by all instances in it.
- A cell has the ports that its constructor asserts, and signals with one name have one width, as
  names are keys of the netlist.

Properties that the code does not have, each with its exact condition:

- The unrolled instance is deterministic exactly when every position of every edge net is the
  one its driver's output expression picks (`Simulation.DeterministicIff`). In
  `wire [1:0] w = {~b, a}; y = &w` the edge from `a` carries the net `a`, since that net has the
  bits of its source, while the reader finds its own bits on `w`; so bit 0 of `w` is left free
  (`AliasDesign.AliasIsFree`).
- On a graph as it is built the export of an unrolled instance fails exactly when some vertex is
  refused, a register only from the second step on (`InstanceEdges.ExportGraph`, `Unroll.Refused`):
  nothing is found for one of its ports, or the widths and signs do not fit its assertion
  (`Unroll.Fits`, `Cells.AcceptedWidths`). So it fails for a `$lt` of a signed and an unsigned
  operand and for an `$and` of operands that differ in width (`RefusedDesign.GateIsRefusedIff`),
  for an output of a submodule that is driven inside and unused outside
  (`RefusedDesign.NestedIsRefusedIff`), and for a cell input that nothing drives
  (`RefusedDesign.FloatingIsRefused`).
- The assertion of a cell means what the cell computes, and what the exported statement computes,
  for all operands exactly at the widths and signs of `CellSigns.TypedIff` and
  `CellSigns.ExportedIff` (unary cells: `CellSigns.UnaryIff`). The first fails, for instance, for
  an `$add` with a narrow signed operand next to an unsigned one, the second for a signed `$lt` of
  any widths, because the exported wires are unsigned.
- A rebuilt port expression has the width of its port exactly when every bit is found; otherwise
  the code silently builds a narrower word (`PortExpr.WidthExact`).
- The tag rules of `$or` and `$mux` test whole words; they are sound exactly for one-bit data
  (`Ift.OrRuleSoundIff`, `Ift.MuxRuleSoundIff`). There they are also exact, as are most others
  (`TagPrecision`); the tag of a product is not, since a zero factor keeps a lane from the output
  that the tag shows (`TagPrecision.ProductTagIsCoarse`), and neither are those of `$pmux` and of
  an enabled register (`TagPrecision.PMuxTagIff`, `TagPrecision.DffeTagIff`).
- A tag speaks of its own lane only: of lanes whose sources change together the `$and` rule shows
  one, exactly unless both words are zero and the lanes reach them separately
  (`Ift.JointChangeIff`, with the smallest case in `Ift.JointChangeEscapes`).
- The rule of an enabled register tracks a lane exactly when the register is loaded, the enable is
  free of the lane, or the held value has it already (`Ift.DffeRuleSoundIff`); a register that is
  held in one run and loaded in another differs without a tag (`IftRuns.HeldRegisterEscapes`).
- The number of simulation runs is meant to ensure complete coverage, but a run takes one time
  step less than the formula assumes: coverage is complete exactly when
  `runs * (timesteps - 1)` reaches the number of tag times (`Batches.CoverageIff`,
  `Batches.CoverageFalls`).
- A tag row is read back exactly when its lanes fit the tag width and its delay fits its slice
  (`TagRows.RowRoundTripsIff`).
- The testbench waits for what it reads from the lowest slice of a row, through a signed variable
  of 32 bits. Rows are replayed on time exactly when there is a line for each, the first time and every gap survive both,
  and no gap is below the step size, unless a step size that does not survive is cut down to the
  gap (`TagRows.OnTimeIff`); of a whole analysis that means the
  start of its last run and the step size (`Batches.AnalysisOnTimeIff`). With 8 tag bits the run
  that starts at 300 waits for 44 (`Batches.HeaderIsCut`).
- After an unsat answer the search for equivalence classes announces its counter as their number.
  Instances of the main solver agree on x and z, runs of the intermediate solver have their own. A
  stop below the limit is therefore at a bound of the families that agree on x and z; at the limit
  the answer of the intermediate solver only says that the family cannot be extended
  (`QifaSearch.QifaSmt.FindEquivalenceClasses`). Every number that can be announced is right exactly
  when the design has a run at all, two runs are told apart for common x and z when any two are,
  and no stuck family lies beside a larger one, at the limit or where no larger family agrees on x
  and z (`QifaSearch.AnnouncementsExactIff`). Each of these numbers is announced by a search with
  sound solvers (`QifaSearch.AnnouncesStuck`, `QifaSearch.FollowersExist`, `QifaSearch.AnnouncesOne`).
- On a design that reads no undefined bit, a stop below the limit is a stop at the maximum and
  happens exactly when no family reaches the limit, and the search is right exactly when there is a
  run and no family is stuck at the limit beside a larger one (`QifaDesign.DefinedIgnores`,
  `QifaSearch.IgnoringExactIff`, `UndefinedDesign.DefinedSearchIff`). `QifaSearch.SaturatingMisleads`
  is a wrong search of the latter kind; on a design whose output is the complement of an undefined
  bit one class is announced beside two executions that are told apart
  (`UndefinedDesign.UndefinedMisleads`).
- With one class only, the returned list is empty. Without the intermediate
  step an iteration that finds a family leaves the instance counter where it was
  (`QifaSearch.QifaSmt.MainIteration`), so that the loop repeats the same query.
- The backward phase of `get_path` never extends the path (`PathSearch.Backward`).

The limitations section of the repository's README says that sequential elements with
asynchronous set or reset are not supported, while the code exports them as if they were
synchronous; the model follows the code.

## Model

| member | source | states |
|---|---|---|
| Cells.AssertionIsEval | include/ducode/cell/basic_gate.hpp:116-356 | on typed operands the SMT assertion of every modelled cell holds of exactly one output word, the value that the signs of its parameters give the cell; the exported statement is the subject of CellSigns.AssertionIsExported |
| Cells.ArithmeticAgrees | include/ducode/cell/basic_gate.hpp:212-272 | add, subtract and multiply on own-sign-extended words equal integer arithmetic modulo the output width |
| CellNumbers.ArithmeticIff | include/ducode/cell/basic_gate.hpp:239-272 | in plain numbers: $add accepts exactly the sum of its operands, $mul the product, and $sub exactly the word that gives the minuend when the subtrahend is added to it, modulo the width and for every sign the assertion serves |
| CellNumbers.WordSumIff | include/ducode/cell/basic_gate.hpp:264-266 | for words of one width the output of $add is the sum of the unsigned numbers modulo the width |
| CellNumbers.WordDifferenceIff | include/ducode/cell/basic_gate.hpp:267-269 | for words of one width output plus subtrahend is the minuend, whatever the signs |
| CellNumbers.WordProductIff | include/ducode/cell/basic_gate.hpp:270-272 | for words of one width the output of $mul is the product modulo the width |
| CellNumbers.BitwiseIff | include/ducode/cell/basic_gate.hpp:212-265 | $and, $or, $xor and $xnor of words of one width, bit by bit |
| CellNumbers.ReductionIff | include/ducode/cell/basic_gate.hpp:116-136 | $logic_not and $reduce_or ask whether the number is zero, $reduce_and whether it is the largest of its width |
| CellNumbers.LogicIff | include/ducode/cell/basic_gate.hpp:212-346 | $logic_and and $logic_or ask whether the numbers are zero |
| CellNumbers.ShiftIff | include/ducode/cell/basic_gate.hpp:333-338 | a shift moves each bit of the extended left operand up or down by the number of the extended amount and fills with zeros |
| Cells.CompareAgrees | include/ducode/cell/basic_gate.hpp:287-330 | comparisons of extended words with equal signs are comparisons of the integers, signed or unsigned |
| Cells.EqualAgrees | include/ducode/cell/basic_gate.hpp:281-286 | equality with any signs is that of the integers where a sign extension does no harm; the exact condition is that of CellSigns.TypedIff |
| Cells.ShiftAgrees | include/ducode/cell/basic_gate.hpp:333-338 | shifts by any unsigned or harmlessly signed amount multiply or divide by a power of two; the exact condition is that of CellSigns.TypedIff |
| Cells.SetClearAgrees | include/ducode/cell/dffsre.hpp:153-170 | the per-bit constraints fix the next state as clear over set over data |
| Cells.RegisterAgrees | include/ducode/cell/dffe.hpp:89-98 | a register assertion forces the value loaded or held under its polarity |
| CellNumbers.NaturalIsTyped | include/ducode/cell/basic_gate.hpp:51-81 | every modelled cell whose operands have the width of its output, or one width and sign for a comparison, is accepted and has the typed meaning |
| CellNumbers.AssertedIff | include/ducode/cell/basic_gate.hpp:116-136 | the assertion of an accepted cell that is not binary holds of exactly one output word of its width, whatever it reads: no such cell is accepted whose sorts do not fit |
| CellNumbers.AcceptedReads | include/ducode/cell/basic_gate.hpp:70-81 | no cell is accepted without a bit on every port that its assertion reads and on its output |
| CellSigns.TypedIff | include/ducode/cell/basic_gate.hpp:212-346 | for every binary operator the exact widths and signs on which its assertion means, for all operands, what the cell computes |
| CellSigns.ExportedIff | include/ducode/net.hpp:206-217 | for every binary operator the exact widths and signs on which its assertion means, for all operands, what the exported unsigned statement computes |
| CellSigns.UnaryIff | include/ducode/cell/basic_gate.hpp:116-136 | a unary assertion misses the cell's value exactly for an extended signed $pos, and the exported value never |
| CellSigns.AssertionIsExported | include/ducode/cell/basic_gate.hpp:51-58 | where ExportedIff allows it the assertion of a binary cell, and without any condition that of a unary one, holds of exactly one word, the value of the exported unsigned statement; that of the others where they are typed |
| CellSigns.NarrowUnsolvable | include/ducode/cell/basic_gate.hpp:252-265 | with an output narrower than an operand some operands of add, subtract, multiply, xor and xnor admit no output at all |
| Pmux.ExportArms | include/ducode/cell/pmux.hpp:73-84 | rotating the pattern string yields one arm per select bit that tests this bit only and assigns its slice |
| Pmux.ExportCases | include/ducode/cell/pmux.hpp:73-106 | the value function and the tag function test the same patterns |
| Pmux.FirstMatchIsLowest | include/ducode/cell/pmux.hpp:78-89 | the first matching arm is that of the lowest set select bit |
| Pmux.ExportChain | include/ducode/cell/pmux.hpp:122-129 | the descending loop builds the ite chain that tests select bits upwards |
| Pmux.ChainIsLowest | include/ducode/cell/pmux.hpp:122-129 | the chain selects the slice of the lowest set select bit |
| Pmux.BackendsAgree | include/ducode/cell/pmux.hpp:73-129 | for every width both back ends yield A for a zero select and otherwise the slice of the lowest set bit |
| CellNumbers.PmuxSlice | include/ducode/cell/pmux.hpp:122-129 | bit j of the output is bit i * width + j of B for the lowest set select bit i |
| Pmux.TagArmsTestNonZero | include/ducode/cell/pmux.hpp:90-106 | the tag function takes B's tag exactly when some select bit is set |
| PortExpr.GetPortExpr | src/ducode/instantiation_graph.cpp:69-84 | one edge adds each bit of the port that it carries and no earlier edge carried, at its first position |
| PortExpr.SortExprVector | src/ducode/instantiation_graph.cpp:88-97 | the pieces are put in the order of the port's bits, repeated bits included, missing bits left out |
| PortExpr.PortExpression | src/ducode/instantiation_graph.cpp:109-163 | an exact match is used as a whole, otherwise the collected pieces are concatenated; when each error occurs, an empty concatenation included, and exactly when there is a result or a comparison with no bits |
| PortExpr.WidthExact | src/ducode/instantiation_graph.cpp:88-163 | the expression has the port's width if and only if a net matches or every bit is found |
| PortExpr.PieceExact | src/ducode/instantiation_graph.cpp:69-163 | bit i of the expression is a position that holds bit id i of the port, or its constant |
| PortExpr.ReassemblyExact | src/ducode/instantiation_graph.cpp:109-163 | on nets that carry their bits the expression has the value of the port bit by bit |
| Unroll.CellPredecessors | src/ducode/instantiation_graph.cpp:109-163 | the port map of a cell holds every input port's expression, registers at the step before |
| Unroll.ExportVertex | src/ducode/instantiation_graph.cpp:350-460 | the constraints of VertexRules: none for unread cells, for ports without the nets of their direction and for registers at step 0, none for a port connected to itself, otherwise one; with its signals declared the export fails exactly when the vertex is not passed over and cannot be built |
| VertexRules.CellRule | src/ducode/instantiation_graph.cpp:357-460 | a cell with an out-edge adds exactly one constraint at every step, a register from step 1 on: its operator, the expressions of its input ports at this step or at the step before, its output expression at this step; without an out-edge none |
| VertexRules.ModulePortRule | src/ducode/instantiation_graph.cpp:424-449 | a submodule port with the edges of its direction equates the word outside with the word inside, unless both are one expression; otherwise it adds nothing |
| VertexRules.TopInputRule | src/ducode/instantiation_graph.cpp:424-449 | a primary input that is read equates its nets with the signal of its name |
| VertexRules.TopOutputRule | src/ducode/instantiation_graph.cpp:424-449 | a primary output that is connected equates the signal of its name with what it reads |
| VertexRules.SignalsIff | src/ducode/instantiation_graph.cpp:326-355 | the signals of a step are the nets of all edges and the connected ports of the top module |
| VertexRules.WrittenIsDriven | src/ducode/instantiation_graph.cpp:421-460 | every position that the output expression of a vertex with edges picks is driven |
| Unroll.ExportStep | src/ducode/instantiation_graph.cpp:320-464 | one call adds the constraints of all vertices in order, and every edge has a signal afterwards; it fails exactly when some vertex does |
| Unroll.CreateUnrolledInstance | include/ducode/qifa_smt.hpp:192-216 | all steps give all constraints, which mention declared signals only; a step fails if and only if a vertex is refused, which depends on the vertices alone |
| Unroll.ExportCell | include/ducode/cell/basic_gate.hpp:70-81 | a cell is exported if and only if its words are found, its ports are complete, and the sorts and signs fit its assertion; what is exported mentions declared signals only, of a register that may hold also those of its output at the step before |
| UnrollProof.OkBuilds | include/ducode/cell/basic_gate.hpp:70-81 | every vertex of a well-formed design is exported |
| InstanceEdges.ConnectModule | src/ducode/instantiation_graph.cpp:743-843 | one edge for every output of a module and every input port that share a bit that is not a constant, for any order of the readers |
| VertexRules.EdgeIff | src/ducode/instantiation_graph.cpp:743-843 | an edge joins an output to a port if and only if some bit id is sent by the one and read by the other, for every kind of vertex |
| InstanceEdges.AssociateNet | src/ducode/instantiation_graph.cpp:849-890 | the net with the bits of the source, else with those of the target, else any that meets both; when there is none, and when the search throws |
| InstanceEdges.PopulateModule | src/ducode/instantiation_graph.cpp:725-890 | the edges of a module with their nets; an edge stays without a net only where a bit has no name, and the search throws only with a net of constants and an edge without exact net |
| InstanceEdges.PopulateDesign | src/ducode/instantiation_graph.cpp:725-903 | the whole graph of a design, module by module: every pair of ports that share a bit joined once, by a net of the module where the edge starts |
| InstanceEdges.PortBuildsIff | include/ducode/cell/cell_module.hpp:60-71 | a submodule port of a built graph is exported if and only if it has an edge on either side, or readable constants, and both words have one width |
| InstanceEdges.ExportGraph | src/ducode/instantiation_graph.cpp:320-464 | on a built graph the unrolling fails if and only if some vertex is refused |
| RefusedDesign.GateIsRefusedIff | include/ducode/cell/basic_gate.hpp:281-330 | a built graph around one binary gate is refused if and only if its operator does not accept the widths and signs; a mixed $lt and a mixed-width $and are, an $add is not |
| RefusedDesign.NestedIsRefusedIff | src/ducode/instantiation_graph.cpp:245-283 | a built graph over two modules, both sides of the submodule's ports linked, is refused if and only if the submodule's output is not read |
| RefusedDesign.FloatingIsRefused | src/ducode/instantiation_graph.cpp:151-154 | a built graph with a cell input that nothing drives is refused |
| UnrollProof.VertexMeaning | src/ducode/instantiation_graph.cpp:396-460 | the constraint of a vertex says that its output expression has the value it computes from its input expressions |
| UnrollProof.ExtensionIsSolution | src/ducode/instantiation_graph.cpp:320-464 | any values of the undriven positions extend to a solution of all constraints |
| UnrollProof.UniqueExtension | src/ducode/instantiation_graph.cpp:320-464 | to exactly one |
| Simulation.SimulationIsSolution | src/ducode/instantiation_graph.cpp:127-130 | the step-by-step simulation solves the constraints of any number of steps |
| Simulation.UnrollingIsSimulation | include/ducode/qifa_smt.hpp:192-216 | exactly one solution for each initial state and input sequence, and it is the simulation |
| Simulation.UndrivenIsFree | src/ducode/instantiation_graph.cpp:338-356 | a position that no driver picks can hold either value in the last step |
| Simulation.DeterministicIff | src/ducode/instantiation_graph.cpp:320-464 | two solutions with the same start agree if and only if every position is driven, for any number of steps |
| ToggleDesign.ToggleIsForced | src/ducode/instantiation_graph.cpp:320-464 | the graph of an enabled register and an inverter in a loop is one that is built, is well formed and has every position driven, for any number of steps |
| AliasDesign.AliasIsFree | src/ducode/instantiation_graph.cpp:849-860 | a well-formed graph, with edges and nets as they are built, that is not deterministic for any number of steps: its reader uses a word of which one bit is driven on another net only |
| Qifa.FamilyAppend | include/ducode/qifa_smt.hpp:344-391 | a family grows by exactly the runs that join it |
| Qifa.InstanceExtends | include/ducode/qifa_smt.hpp:340-391 | the conditions asserted for one more instance say that its run joins the family of the instances before it, for the same x and z |
| Qifa.CandidateJoins | include/ducode/qifa_smt.hpp:420-465 | the conditions of the intermediate step say that the single run, for its own x and z, joins the family found |
| QifaSearch.OutputDifference | include/ducode/qifa_smt.hpp:374-389 | the disjunction says that some output differs at some step |
| QifaSearch.UnsatBounds | include/ducode/qifa_smt.hpp:402-527 | unsatisfiable constraints on n + 1 instances bound every family that agrees on x and z by n |
| QifaSearch.CandidateNext | include/ducode/qifa_smt.hpp:483-508 | excluding the last solution keeps the meaning of the intermediate constraints |
| QifaSearch.QifaSmt.CreateIntermediate | include/ducode/qifa_smt.hpp:314-323 | the intermediate solver holds one instance with a constant secret |
| QifaSearch.QifaSmt.AddInstance | include/ducode/qifa_smt.hpp:329-394 | after every added instance the main constraints still mean families of this size that agree on x and z |
| QifaSearch.QifaSmt.NextMember | include/ducode/qifa_smt.hpp:466-521 | one incremental check finds a further member or shows that there is none |
| QifaSearch.QifaSmt.Extend | include/ducode/qifa_smt.hpp:420-523 | the intermediate step grows the family, counts up strictly, and leaves its solver as it was |
| QifaSearch.QifaSmt.MainIteration | include/ducode/qifa_smt.hpp:325-533 | how an iteration ends, what the counter and the family are then, and that it always advances with the intermediate step |
| QifaSearch.QifaSmt.FindEquivalenceClasses | include/ducode/qifa_smt.hpp:311-540 | terminates; what is returned is a family; a stop below the limit is at a bound of the families that agree on x and z, and where runs ignore x and z at the maximum, if and only if no family reaches the limit; an unsat answer announces nothing that CanAnnounce excludes; solvers that follow a stuck family end with unsat there |
| QifaSearch.AnnouncementsExactIff | include/ducode/qifa_smt.hpp:534-538 | all numbers that an unsat answer can announce are right if and only if the design has a run, two runs are told apart for common x and z when any two are, and no stuck family lies beside a larger one |
| QifaSearch.IgnoringExactIff | include/ducode/qifa_smt.hpp:534-538 | where runs ignore x and z they are right if and only if there is a run and no family is stuck at the limit beside a larger one |
| QifaSearch.FollowersExist | include/ducode/qifa_smt.hpp:402-466 | for every family there are sound and decisive solvers that answer along it |
| QifaSearch.AnnouncesStuck | include/ducode/qifa_smt.hpp:466-540 | a search with solvers that follow a stuck family announces its size, at the limit and below it |
| QifaSearch.AnnouncesOne | include/ducode/qifa_smt.hpp:521-538 | every decisive search announces one class where no two runs that agree on x and z are told apart, without any run too |
| QifaSearch.GreedyIsNotMaximal | include/ducode/qifa_smt.hpp:466-540 | an instance with a family of two that cannot be extended although one of three exists |
| QifaSearch.SaturatingMisleads | include/ducode/qifa_smt.hpp:466-540 | a search on this instance ends with unsat and announces two |
| QifaDesign.SolutionStarts | include/ducode/qifa_smt.hpp:192-216 | every solution starts as some initial state and input sequence |
| QifaDesign.RunsAreSimulations | include/ducode/qifa_smt.hpp:161-216 | the runs of an instance for some x and z are exactly the number sequences, step by step and name by name, of the simulated executions of the design with these values |
| QifaDesign.SameControlIff | include/ducode/qifa_smt.hpp:340-367 | two runs are under the same control if and only if their executions have the same number at every state at the start and at every input at every step |
| QifaDesign.SecretsConstantIff | include/ducode/qifa_smt.hpp:314-323 | the secrets of a run are constant if and only if every secret has at every step the number of the start |
| QifaDesign.AllSecretsDifferIff | include/ducode/qifa_smt.hpp:344-352 | all secrets of two runs differ if and only if every secret starts with different numbers |
| QifaDesign.ObservableIff | include/ducode/qifa_smt.hpp:374-389 | two runs are told apart if and only if some output has different numbers at some step |
| QifaDesign.ObliviousHasOneClass | include/ducode/qifa_smt.hpp:311-540 | a design whose outputs are determined by its inputs, initial state, x and z has no family of two, whatever its secrets are |
| QifaDesign.DefinedIgnores | src/ducode/instantiation_graph.cpp:115-122 | a design that reads no undefined bit has the same runs for all x and z |
| UndefinedDesign.DefinedSearchIff | include/ducode/qifa_smt.hpp:534-538 | on such a design the search is right if and only if there is a run and no family is stuck at the limit beside a larger one |
| UndefinedDesign.UndefinedMisleads | src/ducode/instantiation_graph.cpp:115-122 | on a built graph whose output complements an undefined bit every decisive search announces one class although two executions are told apart |
| Ift.AndSound | include/ducode/cell/and.hpp:21-27 | the conjunction rule tracks every lane at any widths and signs |
| Ift.OrRuleSoundIff | include/ducode/cell/or.hpp:47-52 | the disjunction rule tracks every lane if and only if both operands have one bit |
| Ift.MuxRuleSoundIff | include/ducode/cell/mux.hpp:82-87 | the multiplexer rule tracks every lane if and only if the data has one bit |
| Ift.DffeRuleSoundIff | include/ducode/cell/dffe.hpp:77-84 | for registers of any width the exact values and tags for which the enabled register rule tracks a lane |
| TagPrecision.GateTagIff | include/ducode/cell/and.hpp:21-27 | of $and and $or for one-bit operands and of $logic_and and $logic_or for words of any width, the tag is exact: a lane is set if and only if a second run that differs where the operands carry the lane changes the output |
| TagPrecision.ToggleTagIff | include/ducode/cell/basic_gate.hpp:204-210 | so is the tag of $xor, $xnor, $add and $sub for words of any width |
| TagPrecision.UnaryTagIff | include/ducode/cell/basic_gate.hpp:106-114 | so is the tag of every modelled cell with one operand |
| TagPrecision.ProductTagIsCoarse | include/ducode/cell/basic_gate.hpp:204-210 | the tag of $mul is not exact: a zero factor keeps a lane from the output that the tag shows |
| TagPrecision.MuxTagIff | include/ducode/cell/mux.hpp:82-87 | so is the tag of $mux for one-bit data |
| TagPrecision.PMuxTagIff | include/ducode/cell/pmux.hpp:90-106 | the tag of $pmux has every lane of the select word and beside them exactly the lanes that can change the selected data |
| TagPrecision.DffeTagIff | include/ducode/cell/dffe.hpp:77-84 | the tag of an enabled register has the lanes of the enable when it is loaded and beside them exactly the lanes that can change the word it takes |
| Ift.JointChangeIff | include/ducode/cell/and.hpp:21-27 | for operands of any widths the exact values and tags for which the conjunction rule shows some lane of a set that changes together |
| Ift.JointChangeEscapes | include/ducode/cell/and.hpp:21-27 | the smallest case in which two lanes that change together leave no tag |
| IftRuns.TrackedCell | include/ducode/cell/basic_gate.hpp:204-210 | every combinational cell and every net passes on what its inputs track |
| IftRuns.Noninterference | include/ducode/cell/dff.hpp:69-76 | over whole runs in which every hold is one that the enabled register rule covers, where a signal differs between runs whose inputs differ in one lane, its tag shows the lane |
| IftRuns.HeldRegisterEscapes | include/ducode/cell/dffe.hpp:77-84 | with a hold that is not covered this fails |
| IftRuns.LanesIndependent | src/ducode/module.cpp:420-422 | over any run the tags restricted to some lanes are the tags of the run with these lanes only |
| IftCells.CellValue | include/ducode/cell/basic_gate.hpp:204-210 | in a run every combinational cell has the value that its typed semantics gives the words at its ports |
| IftCells.RegisterValue | include/ducode/cell/dffe.hpp:77-98 | a register starts with its initial word and has after every clock edge the value that its semantics gives the words before it |
| IftCells.WireBitValue | src/ducode/module.cpp:371-423 | every bit of a net is its constant or the bit of the source that it is wired to |
| IftRuns.TagHasOrigin | include/ducode/net.hpp:220-222 | a lane on a signal was injected at an input from which a path leads there through at most as many registers as clock edges passed, exactly as many without enables |
| ModuleGraph.FollowPath | include/ducode/utility/graph.hpp:74-92 | terminates on ranked wiring and decides reachability over nets |
| ModuleGraph.SourceReachable | include/ducode/utility/graph.hpp:94-97 | decides whether the source is reachable from the target |
| ModuleGraph.RankedIsAcyclic | src/ducode/module.cpp:129-274 | a rank excludes every cycle of the graph without cells |
| ModuleGraph.Raise | src/ducode/module.cpp:271-273 | several sources that are not behind a target can be attached at once |
| SourceSelection.VectorsIntersection | src/ducode/module.cpp:38-44 | the loop over the first set, in any order, throws exactly on an empty set and otherwise decides whether the sets are disjoint |
| SourceSelection.ExactSource | src/ducode/module.cpp:170-189 | a source with the target's bits if and only if an eligible one exists, for any order |
| SourceSelection.AttachSources | src/ducode/module.cpp:191-269 | every bit is carried by an attached source or by no eligible one, every source brings a bit that was missing and that nothing of an earlier kind could bring, for any order; the throw is not reached |
| SourceSelection.SelectSources | src/ducode/module.cpp:168-269 | a source with all bits if there is one, module ports before nets before cell ports; otherwise module ports, then nets, then cell ports that each bring a bit which nothing of an earlier kind could bring, until no eligible vertex has a missing bit |
| PopulatePhases.AttachKeepsRank | src/ducode/module.cpp:271-273 | after each of the added edges the wiring has no cycle |
| PopulatePhases.AttachSettles | src/ducode/module.cpp:271-273 | a processed target is settled |
| PopulateGraph.Module.ConnectPortNet | src/ducode/module.cpp:69-78 | a module port is joined to exactly the earlier plain nets with its bits, on the side of its direction; the error exactly when it has no direction and there is such a net |
| PopulateGraph.Module.AddNets | src/ducode/module.cpp:49-80 | every net is a vertex, a port net if and only if some port has its bits and its name, and then of the first such port; the edges are exactly those of the module ports; fails exactly when a port without a direction is to be joined |
| PopulateGraph.Module.ConnectPort | src/ducode/module.cpp:90-125 | a cell port is joined by one edge to a net, else a port net, else a vertex of its own, which is added only then; fails exactly when it has no direction and is to be joined |
| PopulateGraph.Module.ConnectTarget | src/ducode/module.cpp:131-273 | a target gets exactly the selected sources and is settled |
| PopulateGraph.Module.ConnectRemaining | src/ducode/module.cpp:129-274 | the wires added are those of a list with the selected sources of every vertex that had none and nothing for the others; all of the former are settled |
| PopulateGraph.Module.Populate | src/ducode/module.cpp:37-275 | the whole graph, vertex by vertex and edge by edge: nets and port nets, cells with one edge per port, the selected wires; the wiring is acyclic, every bit settled, no wire leads to an input port; the exact condition of failure |
| PopulatePhases.InputsAreNotDriven | src/ducode/module.cpp:129-142 | no wire of the graph leads to the net of an input port of the module |
| Wiring.ExportConnection | include/ducode/utility/export_connection.hpp:12-37 | exactly the assigns that join equal bits, or the words when they are equal |
| Wiring.EmittedIsLegal | include/ducode/utility/export_connection.hpp:12-37 | an assign never selects a bit of a word of one bit or out of range, and equal words are assigned as words |
| Wiring.EmittedBitIff | include/ducode/utility/export_connection.hpp:12-37 | of words that differ, bit i is assigned from bit j if and only if both are the same bit and that is no constant |
| Wiring.ExportTarget | src/ducode/module.cpp:371-423 | the assigns of a target are those of all wires to it, and the tags joined are the names of the sources of these wires, in edge order |
| Wiring.FaithfulHolds | include/ducode/utility/export_connection.hpp:12-37 | giving every bit the value of its id satisfies all assigns, repeated ones included |
| Wiring.ConnectionJoins | include/ducode/utility/export_connection.hpp:12-37 | where the assigns hold, equal bits have equal values |
| Wiring.WiringIsFaithful | src/ducode/module.cpp:371-423 | along the wiring that populate_graph builds, every bit that some root carries has the value of its own id |
| Wiring.WiringIsConsistent | src/ducode/module.cpp:371-423 | the assigns of a whole module never disagree |
| PathSearch.Backward | include/ducode/instantiation_graph.hpp:631-665 | the backward phase leaves the path as it was |
| PathSearch.GivesUp | include/ducode/instantiation_graph.hpp:675-682 | when the search is back at its start no sink is reachable |
| PathSearch.SinkIff | include/ducode/instantiation_graph.hpp:671 | the search ends exactly at output ports that no edge starts from |
| PathSearch.Forward | include/ducode/instantiation_graph.hpp:667-690 | terminates; a simple chain of filtered edges that ends at a sink if and only if one is reachable; every step is what the selector chooses among the edges, in edge order, that avoid the path and what the search has left behind, which is no sink and exhausted |
| PathSearch.GetPath | include/ducode/instantiation_graph.hpp:618-693 | the same for the whole search from an initial edge |
| PathSearch.PreferredIsAvoided | include/ducode/instantiation_graph.hpp:667-690 | with a selector of least edges, a filtered edge that is preferred to the one taken leads back to the path, or to a vertex that is no sink and all of whose filtered successors have been visited |
| PathSearch.ChoiceWithoutBacktracking | include/ducode/instantiation_graph.hpp:667-690 | where nothing has been left behind every step is the selector's choice among the edges that do not lead back |
| TagRows.TagLine | src/ducode/testbench.cpp:453-465 | the row holds the delay and one bit for each tagged input, or a bit is out of range |
| TagRows.RowReadsBack | src/ducode/testbench.cpp:190-202 | each slice is the one-hot lane of its input or zero, the lowest is the delay |
| TagRows.RowRoundTripsIff | src/ducode/testbench.cpp:453-463 | a row is read back for every choice of tagged inputs if and only if its lanes and its delay fit |
| TagRows.DelaySlice | src/ducode/testbench.cpp:190-206 | the lowest slice of any row holds the low bits of its delay, whatever is tagged |
| TagRows.WaitedIsExtended | src/ducode/testbench.cpp:184-207 | the wait for a word is the number of its low 32 bits, sign extended to 64 |
| TagRows.LanesDistinct | src/ducode/testbench.cpp:460 | no lane is used twice in a run |
| TagRows.ExportTags | src/ducode/testbench.cpp:421-469 | header row, one row per time with its delay, the number of injected tags, and when each error occurs |
| TagRows.OnTimeIff | src/ducode/testbench.cpp:184-207 | the rows of a file, read back as the testbench reads them, are replayed at their times if and only if the testbench reads as many lines, the first time and all gaps fit the slice and the signed 32 bits and no gap is below the step size, or a step size too wide is cut down to the gap |
| TagRows.RunReadsBack | src/ducode/testbench.cpp:184-207 | a run whose lanes fit the tag width reads back completely |
| TagRows.RunTagsIff | src/ducode/testbench.cpp:184-207 | in every row of such a run the slice of an input is not zero if and only if the input is tagged at the time of the row |
| Batches.TimestepsPerRun | include/ducode/utility/simulation.hpp:125-130 | as many steps as the tag width has room for: the lanes of more than one step fit, and those of one step more do not |
| Batches.RunsCover | include/ducode/utility/simulation.hpp:139-151 | the number of runs is the least that covers the last time, as the code asserts |
| Batches.GetTagsTimes | include/ducode/utility/simulation.hpp:170-179 | exactly the multiples of the step size up to the last time stamp |
| Batches.GetExportedTagsVec | include/ducode/utility/simulation.hpp:181-199 | the batches together are the first entries, each once and in order |
| Batches.BatchesTile | include/ducode/utility/simulation.hpp:181-199 | every batch is in range, not empty, fits the row array with its header, and holds its own stretch of times |
| Batches.CoverageIff | include/ducode/utility/simulation.hpp:145-148 | the batches cover the whole timeline if and only if there are enough of them |
| Batches.CoverageFalls | include/ducode/utility/simulation.hpp:145-148 | ten steps in runs of five leave three entries out |
| Batches.BatchFitsRows | include/ducode/utility/simulation.hpp:125-130 | every batch of an analysis fits the tag width; its rows are replayed on time if and only if its start and the step size can be waited for |
| Batches.AnalysisOnTimeIff | include/ducode/utility/simulation.hpp:125-199 | all runs are replayed on time if and only if the start of the last one and the step size can be waited for |
| Batches.HeaderIsCut | src/ducode/testbench.cpp:434-436 | eight tag bits, two inputs, a step every 10 up to 440: the run that starts at 300 waits for 44 |
| TagCount.InsertTagUpdateCount | src/ducode/signals_data_manager.cpp:363-372 | a pattern is counted once |
| TagCount.PatternsCount | src/ducode/signals_data_manager.cpp:348-361 | distinct lanes have distinct patterns, counting patterns counts lanes |
| TagCount.GetTagCountSignal | src/ducode/signals_data_manager.cpp:374-398 | the sum over all dumps of the distinct tags of a signal |
| TagCount.GetTagCountSignalToSignal | src/ducode/signals_data_manager.cpp:400-478 | the sum over all dumps of the tags both signals carry, at most either signal's own sum |
| TagCount.TotalIsPairs | src/ducode/signals_data_manager.cpp:374-398 | the count of a signal is the size of the set of pairs of a dump and a lane whose bit is 1 in some value of the dump |
| TagCount.SharedIsPairs | src/ducode/signals_data_manager.cpp:400-478 | the count of two signals is the size of the set of such pairs that both have |
| ValueCursor.RestSuffices | src/ducode/testbench.cpp:78-81 | what a lookup leaves answers every later lookup as the whole list would |
| ValueCursor.SignalValues.GetSignalValueAt | src/ducode/testbench.cpp:53-83 | the erasing lookup returns the last value at or before the time in the original list, and its errors |
| ValueCursor.SignalValues.Scan | src/ducode/testbench.cpp:86-98 | a scan over nondecreasing times returns what plain lookups return, up to the first error |

## Left out

- Cells in the unrolling theorem: `$div`, `$mod`, `$pow`, `$sshl`, `$sshr`, `$reduce_xor`, `$reduce_xnor`, `$sdff(e)`, `$aldff(e)`, latches, `$sr` and `$mem_v2`; `$sshr` with a signed left and an unsigned right operand is emitted as a logical shift.
- IftRuns.Noninterference: does not cover `$adff(e)`, `$sdff(e)`, `$aldff(e)`, set and reset registers or latches; it asks that every hold is covered, since the rule of an enabled register does not claim flow through an inactive control (Ift.DffeRuleSoundIff gives the exact case).
- Cells with a reset value that has undefined bits: a constant named after the value, shared by all instances; the model takes a number.
- InstanceEdges.PopulateDesign: the bits of the modules are numbered apart and port identifiers taken as unique; a submodule is its ports from the start, while the source first makes a vertex of it and splits that later; an edge that is left without a net is an outcome, while the source stores a null pointer.
- TagRows.OnTimeIff: simulation time is an unbounded number, so that a wait does not wrap at 64 bits; times are below 2^63, as the source's type has it.
- Tag rules speak of two-valued signals only; their guards against unknown bits are not modelled.
- Batches.RunsCover: exact integer arithmetic instead of double precision; counters do not wrap at 32 bits.
- TagCount.GetTagCountSignalToSignal: values of at most 32 bits, since a wider shift is undefined in the source.
- The generator that decides which ports are tagged at which time is a parameter.
- The printing of input values into the testbench.
- PathSearch.GetPath: the edge filters and orders of the callers are parameters; the selectors that may return the end of the candidate list are not part of the model.
- QifaSearch.QifaSmt.FindEquivalenceClasses: stated for the mode with the intermediate step, since the other one does not advance after a sat answer; numeral strings, unsat cores and debug files are not modelled.
- One clock domain and positive edges, as the limitations section of the repository's README asks; inout ports are refused by the export and not modelled.
- Hierarchy flattening, name legalization, matching of waveform scopes, pipeline heuristics, graph drawing, the experiments and all calls of external tools.
