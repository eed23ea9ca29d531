/** Clocked runs of an instrumented netlist: values and tags side by side. */
module IftRuns {
  import opened Bitvectors
  import opened Ift
  import Cells

  /** A bit of a net: a constant, or a bit of one of the connected sources. */
  datatype WireBit = Fixed(value: bool) | From(source: nat, bit: nat)

  datatype Driver =
    | Input
    | Wired(sources: seq<nat>, bits: seq<WireBit>)
    | Unary(unOp: Cells.UnOp, signed: bool, a: nat)
    | Binary(binOp: Cells.BinOp, aSigned: bool, bSigned: bool, a: nat, b: nat)
    | Mux(a: nat, b: nat, sel: nat)
    | PMux(a: nat, b: nat, sel: nat)
    | Dff(d: nat)
    | Dffe(d: nat, en: nat, enHigh: bool)
  {
    predicate IsRegister() {
      Dff? || Dffe?
    }

    function Reads(): seq<nat> {
      match this
      case Input => []
      case Wired(sources, _) => sources
      case Unary(_, _, a) => [a]
      case Binary(_, _, _, a, b) => [a, b]
      case Mux(a, b, s) => [a, b, s]
      case PMux(a, b, s) => [a, b, s]
      case Dff(d) => [d]
      case Dffe(d, en, _) => [d, en]
    }
  }

  datatype Signal = Signal(width: nat, driver: Driver)

  /** The signals of a netlist, each after the signals it depends on within a cycle. */
  type Netlist = seq<Signal>

  predicate Ordered(n: Netlist, s: nat)
    requires s < |n|
  {
    match n[s].driver
    case Input => true
    case Wired(sources, _) => forall i :: 0 <= i < |sources| ==> sources[i] < s
    case Unary(_, _, a) => a < s
    case Binary(_, _, _, a, b) => a < s && b < s
    case Mux(a, b, sel) => a < s && b < s && sel < s
    case PMux(a, b, sel) => a < s && b < s && sel < s
    case Dff(d) => d < |n|
    case Dffe(d, en, _) => d < |n| && en < |n|
  }

  predicate Sized(n: Netlist, s: nat)
    requires s < |n| && Ordered(n, s)
  {
    var w := n[s].width;
    match n[s].driver
    case Input | Unary(_, _, _) | Binary(_, _, _, _, _) => true
    case Wired(sources, bits) => |bits| == w && forall i :: 0 <= i < |bits| && bits[i].From? ==>
      bits[i].source in sources
    case Mux(a, b, _) => n[a].width == n[b].width == w
    case PMux(a, b, sel) => n[a].width == w && n[b].width == n[sel].width * w
    case Dff(d) => n[d].width == w
    case Dffe(d, en, _) => n[d].width == w && n[en].width == 1
  }

  predicate WellFormed(n: Netlist) {
    forall s :: 0 <= s < |n| ==> Ordered(n, s) && Sized(n, s)
  }

  /** The cells whose tag rule tests whole words work on single bits. */
  predicate Narrow(n: Netlist)
    requires WellFormed(n)
  {
    forall s :: 0 <= s < |n| ==>
      Ordered(n, s) &&
      (n[s].driver.Binary? && n[s].driver.binOp == Cells.OrOp ==>
        n[n[s].driver.a].width == n[n[s].driver.b].width == 1) &&
      (n[s].driver.Mux? ==> n[s].width == 1)
  }

  /** A run: inputs over time, initial register values and injected tags. */
  datatype Run = Run(input: (nat, nat) -> Bv, init: nat -> Bv, inject: (nat, nat) -> Tag)

  predicate IsInput(n: Netlist, s: nat) {
    s < |n| && n[s].driver.Input?
  }

  predicate IsState(n: Netlist, s: nat) {
    s < |n| && n[s].driver.IsRegister()
  }

  ghost predicate Fits(n: Netlist, r: Run) {
    (forall s: nat, t: nat :: IsInput(n, s) ==> |r.input(s, t)| == n[s].width) &&
    (forall s: nat :: IsState(n, s) ==> |r.init(s)| == n[s].width)
  }

  function WireValue(b: WireBit, v: Bv): bool {
    match b
    case Fixed(c) => c
    case From(_, j) => j < |v| && v[j]
  }

  /** The value of signal s after t clock edges. */
  function Val(n: Netlist, r: Run, s: nat, t: nat): Bv
    requires WellFormed(n) && s < |n|
    decreases t, s
  {
    assert Ordered(n, s) && Sized(n, s);
    match n[s].driver
    case Input => r.input(s, t)
    case Wired(_, bits) =>
      seq(|bits|, i requires 0 <= i < |bits| =>
        WireValue(bits[i], if bits[i].From? then Val(n, r, bits[i].source, t) else []))
    case Unary(op, signed, a) => Cells.EvalUnary(op, Val(n, r, a, t), signed, n[s].width)
    case Binary(op, sa, sb, a, b) => Cells.EvalBinary(op, Val(n, r, a, t), Val(n, r, b, t), sa, sb, n[s].width)
    case Mux(a, b, sel) => MuxValue(Val(n, r, a, t), Val(n, r, b, t), Val(n, r, sel, t))
    case PMux(a, b, sel) => PMuxValue(Val(n, r, a, t), Val(n, r, b, t), Val(n, r, sel, t))
    case Dff(d) => if t == 0 then r.init(s) else Val(n, r, d, t - 1)
    case Dffe(d, en, high) =>
      if t == 0 then r.init(s)
      else if Cells.Active(Val(n, r, en, t - 1), high) then Val(n, r, d, t - 1)
      else Val(n, r, s, t - 1)
  }

  /** The tag of signal s after t clock edges; register tags start empty. */
  function TagOf(n: Netlist, r: Run, s: nat, t: nat): Tag
    requires WellFormed(n) && s < |n|
    decreases t, s
  {
    assert Ordered(n, s) && Sized(n, s);
    match n[s].driver
    case Input => r.inject(s, t)
    case Wired(sources, _) => set i, k | 0 <= i < |sources| && k in TagOf(n, r, sources[i], t) :: k
    case Unary(_, _, a) => UnaryTag(TagOf(n, r, a, t))
    case Binary(op, _, _, a, b) => BinaryTag(op, Val(n, r, a, t), Val(n, r, b, t), TagOf(n, r, a, t), TagOf(n, r, b, t))
    case Mux(a, b, sel) =>
      MuxTag(Val(n, r, a, t), Val(n, r, b, t), Val(n, r, sel, t), TagOf(n, r, a, t), TagOf(n, r, b, t),
             TagOf(n, r, sel, t))
    case PMux(a, b, sel) => PMuxTag(Val(n, r, sel, t), TagOf(n, r, a, t), TagOf(n, r, b, t), TagOf(n, r, sel, t))
    case Dff(d) => if t == 0 then {} else TagOf(n, r, d, t - 1)
    case Dffe(d, en, high) =>
      if t == 0 then {}
      else
        DffeTag(Cells.Active(Val(n, r, en, t - 1), high),
                TagOf(n, r, d, t - 1), TagOf(n, r, en, t - 1), TagOf(n, r, s, t - 1))
  }

  lemma {:induction false} ValWidth(n: Netlist, r: Run, s: nat, t: nat)
    requires WellFormed(n) && Fits(n, r) && s < |n|
    ensures |Val(n, r, s, t)| == n[s].width
    decreases t, s
  {
    assert Ordered(n, s) && Sized(n, s);
    match n[s].driver
    case Input => assert IsInput(n, s);
    case Wired(_, _) =>
    case Unary(_, _, _) =>
    case Binary(_, _, _, _, _) =>
    case Mux(a, b, _) =>
      ValWidth(n, r, a, t);
      ValWidth(n, r, b, t);
    case PMux(a, b, sel) =>
      ValWidth(n, r, a, t);
      ValWidth(n, r, b, t);
      ValWidth(n, r, sel, t);
    case Dff(d) =>
      assert IsState(n, s);
      if t > 0 {
        ValWidth(n, r, d, t - 1);
      }
    case Dffe(d, _, _) =>
      assert IsState(n, s);
      if t > 0 {
        ValWidth(n, r, d, t - 1);
        ValWidth(n, r, s, t - 1);
      }
  }

  // ----- noninterference -----

  /** Equal initial states, and inputs that differ only where lane k is injected. */
  ghost predicate DifferOnlyIn(n: Netlist, r: Run, q: Run, k: nat) {
    (forall s: nat :: IsState(n, s) ==> r.init(s) == q.init(s)) &&
    (forall s: nat, t: nat :: IsInput(n, s) ==> Tracks(k, r.input(s, t), q.input(s, t), r.inject(s, t)))
  }

  /** Whenever a register holds its value under an enable that carries lane k, the held
      value carries it as well. */
  ghost predicate HoldsCovered(n: Netlist, r: Run, k: nat)
    requires WellFormed(n)
  {
    forall s: nat, t: nat :: IsState(n, s) && n[s].driver.Dffe? ==> HoldCovered(n, r, s, t, k)
  }

  ghost predicate HoldCovered(n: Netlist, r: Run, s: nat, t: nat, k: nat)
    requires WellFormed(n) && s < |n| && n[s].driver.Dffe?
  {
    assert Ordered(n, s);
    var en := n[s].driver.en;
    Cells.Active(Val(n, r, en, t), n[s].driver.enHigh) || k !in TagOf(n, r, en, t) || k in TagOf(n, r, s, t)
  }

  ghost predicate Tracked(n: Netlist, r: Run, q: Run, k: nat, s: nat, t: nat)
    requires WellFormed(n)
  {
    s < |n| && Tracks(k, Val(n, r, s, t), Val(n, q, s, t), TagOf(n, r, s, t))
  }

  lemma TrackedWire(n: Netlist, r: Run, q: Run, k: nat, s: nat, t: nat)
    requires WellFormed(n) && s < |n| && n[s].driver.Wired?
    requires forall x :: x in n[s].driver.sources ==> Tracked(n, r, q, k, x, t)
    ensures Tracked(n, r, q, k, s, t)
  {
    assert Ordered(n, s) && Sized(n, s);
    var sources, bits := n[s].driver.sources, n[s].driver.bits;
    var x, y := Val(n, r, s, t), Val(n, q, s, t);
    if x != y {
      var i :| 0 <= i < |bits| && x[i] != y[i];
      assert bits[i].From? && bits[i].source in sources;
      assert Tracked(n, r, q, k, bits[i].source, t);
      assert Val(n, r, bits[i].source, t) != Val(n, q, bits[i].source, t);
      var m :| 0 <= m < |sources| && sources[m] == bits[i].source;
      assert k in TagOf(n, r, sources[m], t);
    }
  }

  lemma LogicSound(op: Cells.BinOp, a: Bv, b: Bv, a': Bv, b': Bv, sa: bool, sb: bool, w: nat, at: Tag, bt: Tag, k: nat)
    requires op == Cells.LogicAndOp || op == Cells.LogicOrOp
    requires Tracks(k, a, a', at) && Tracks(k, b, b', bt)
    ensures Tracks(k, Cells.EvalBinary(op, a, b, sa, sb, w), Cells.EvalBinary(op, a', b', sa, sb, w),
                   BinaryTag(op, a, b, at, bt))
  {
  }

  lemma BinarySound(op: Cells.BinOp, a: Bv, b: Bv, a': Bv, b': Bv, sa: bool, sb: bool, w: nat, at: Tag, bt: Tag, k: nat)
    requires |a| == |a'| && |b| == |b'| && Tracks(k, a, a', at) && Tracks(k, b, b', bt)
    requires op == Cells.OrOp ==> |a| == |b| == 1
    ensures Tracks(k, Cells.EvalBinary(op, a, b, sa, sb, w), Cells.EvalBinary(op, a', b', sa, sb, w),
                   BinaryTag(op, a, b, at, bt))
  {
    match op
    case AndOp => AndSound(a, b, a', b', sa, sb, w, at, bt, k);
    case OrOp => OrSound(a, b, a', b', sa, sb, w, at, bt, k);
    case LogicAndOp | LogicOrOp => LogicSound(op, a, b, a', b', sa, sb, w, at, bt, k);
    case _ =>
  }

  lemma PMuxSound(a: Bv, b: Bv, s: Bv, a': Bv, b': Bv, s': Bv, at: Tag, bt: Tag, st: Tag, k: nat)
    requires Tracks(k, a, a', at) && Tracks(k, b, b', bt) && Tracks(k, s, s', st)
    requires |a| == |a'| && |b| == |b'| == |s| * |a|
    ensures Tracks(k, PMuxValue(a, b, s), PMuxValue(a', b', s'), PMuxTag(s, at, bt, st))
  {
  }

  lemma {:induction false} TrackedCell(n: Netlist, r: Run, q: Run, k: nat, s: nat, t: nat)
    requires WellFormed(n) && Narrow(n) && Fits(n, r) && Fits(n, q) && s < |n|
    requires !n[s].driver.IsRegister() && !n[s].driver.Input?
    requires forall x :: x in n[s].driver.Reads() ==> Tracked(n, r, q, k, x, t)
    ensures Tracked(n, r, q, k, s, t)
  {
    assert Ordered(n, s) && Sized(n, s);
    var ports := n[s].driver.Reads();
    forall i | 0 <= i < |ports|
      ensures ports[i] < |n| && Tracked(n, r, q, k, ports[i], t)
      ensures |Val(n, r, ports[i], t)| == |Val(n, q, ports[i], t)| == n[ports[i]].width
    {
      assert ports[i] in ports;
      ValWidth(n, r, ports[i], t);
      ValWidth(n, q, ports[i], t);
    }
    match n[s].driver
    case Wired(_, _) => TrackedWire(n, r, q, k, s, t);
    case Unary(_, _, a) => assert ports[0] == a;
    case Binary(op, sa, sb, a, b) =>
      assert ports[0] == a && ports[1] == b;
      BinarySound(op, Val(n, r, a, t), Val(n, r, b, t), Val(n, q, a, t), Val(n, q, b, t), sa, sb, n[s].width,
                  TagOf(n, r, a, t), TagOf(n, r, b, t), k);
    case Mux(a, b, sel) =>
      assert ports[0] == a && ports[1] == b && ports[2] == sel;
      MuxSound(Val(n, r, a, t), Val(n, r, b, t), Val(n, r, sel, t), Val(n, q, a, t), Val(n, q, b, t), Val(n, q, sel, t),
               TagOf(n, r, a, t), TagOf(n, r, b, t), TagOf(n, r, sel, t), k);
    case PMux(a, b, sel) =>
      assert ports[0] == a && ports[1] == b && ports[2] == sel;
      PMuxSound(Val(n, r, a, t), Val(n, r, b, t), Val(n, r, sel, t), Val(n, q, a, t), Val(n, q, b, t),
                Val(n, q, sel, t), TagOf(n, r, a, t), TagOf(n, r, b, t), TagOf(n, r, sel, t), k);
  }

  /** A clock edge at which the hold is covered: what the enabled register rule is sound for. */
  lemma TrackedRegister(n: Netlist, r: Run, q: Run, k: nat, s: nat, t: nat)
    requires WellFormed(n) && Fits(n, r) && Fits(n, q) && s < |n| && n[s].driver.Dffe?
    requires HoldCovered(n, r, s, t, k) && Tracked(n, r, q, k, s, t)
    requires Tracked(n, r, q, k, n[s].driver.d, t) && Tracked(n, r, q, k, n[s].driver.en, t)
    ensures Tracked(n, r, q, k, s, t + 1)
  {
    assert Ordered(n, s) && Sized(n, s);
    var d, en, high := n[s].driver.d, n[s].driver.en, n[s].driver.enHigh;
    forall x | x in {s, d, en}
      ensures |Val(n, r, x, t)| == |Val(n, q, x, t)| == n[x].width
    {
      ValWidth(n, r, x, t);
      ValWidth(n, q, x, t);
    }
    var dt, et, qt := TagOf(n, r, d, t), TagOf(n, r, en, t), TagOf(n, r, s, t);
    DffeRuleSoundIff(n[s].width, Val(n, r, en, t), high, dt, et, qt, k);
    assert Tracks(k, DffeValue(Cells.Active(Val(n, r, en, t), high), Val(n, r, d, t), Val(n, r, s, t)),
                  DffeValue(Cells.Active(Val(n, q, en, t), high), Val(n, q, d, t), Val(n, q, s, t)),
                  DffeTag(Cells.Active(Val(n, r, en, t), high), dt, et, qt));
  }

  /** Over whole runs: wherever a signal differs between two runs whose inputs
      differ only in lane k, its tag shows lane k. */
  lemma {:induction false} Noninterference(n: Netlist, r: Run, q: Run, k: nat, s: nat, t: nat)
    requires WellFormed(n) && Narrow(n) && Fits(n, r) && Fits(n, q) && s < |n|
    requires DifferOnlyIn(n, r, q, k) && HoldsCovered(n, r, k)
    ensures Tracked(n, r, q, k, s, t)
    ensures Val(n, r, s, t) != Val(n, q, s, t) ==> k in TagOf(n, r, s, t)
    decreases t, s, 0
  {
    assert Ordered(n, s) && Sized(n, s);
    match n[s].driver
    case Input => assert IsInput(n, s);
    case Dff(d) =>
      assert IsState(n, s);
      if t > 0 {
        Noninterference(n, r, q, k, d, t - 1);
      }
    case Dffe(_, _, _) =>
      assert IsState(n, s);
      if t > 0 {
        EnabledNoninterference(n, r, q, k, s, t - 1);
      }
    case _ =>
      forall x | x in n[s].driver.Reads()
        ensures Tracked(n, r, q, k, x, t)
      {
        Noninterference(n, r, q, k, x, t);
      }
      TrackedCell(n, r, q, k, s, t);
  }

  lemma {:induction false} EnabledNoninterference(n: Netlist, r: Run, q: Run, k: nat, s: nat, t: nat)
    requires WellFormed(n) && Narrow(n) && Fits(n, r) && Fits(n, q) && s < |n| && n[s].driver.Dffe?
    requires DifferOnlyIn(n, r, q, k) && HoldsCovered(n, r, k)
    ensures Tracked(n, r, q, k, s, t + 1)
    decreases t, |n|
  {
    assert Ordered(n, s) && IsState(n, s);
    Noninterference(n, r, q, k, n[s].driver.d, t);
    Noninterference(n, r, q, k, n[s].driver.en, t);
    Noninterference(n, r, q, k, s, t);
    assert HoldCovered(n, r, s, t, k);
    TrackedRegister(n, r, q, k, s, t);
  }

  lemma EdgeOfDffe(n: Netlist, r: Run, s: nat)
    requires WellFormed(n) && s < |n| && n[s].driver.Dffe?
    requires n[s].driver.d < |n| && n[s].driver.en < |n|
    ensures var load := Cells.Active(Val(n, r, n[s].driver.en, 0), n[s].driver.enHigh);
            Val(n, r, s, 1) == (if load then Val(n, r, n[s].driver.d, 0) else r.init(s)) &&
            (!load ==> TagOf(n, r, s, 1) == {})
  {
    assert Val(n, r, s, 0) == r.init(s) && TagOf(n, r, s, 0) == {};
  }

  /** An enable, data and a register. */
  function EnabledRegister(): (n: Netlist)
    ensures WellFormed(n) && Narrow(n)
  {
    [Signal(1, Input), Signal(1, Input), Signal(1, Dffe(1, 0, true))]
  }

  /** The enable is constant and carries lane 0, the data is one, the register starts at zero. */
  function EnabledRun(enable: bool): Run {
    Run((s: nat, t: nat) => [if s == 0 then enable else true], (s: nat) => [false],
        (s: nat, t: nat) => if s == 0 then {0} else {})
  }

  /** Held in one run and loaded in the other, a register differs without a tag. */
  lemma HeldRegisterEscapes()
    ensures exists n: Netlist, r: Run, q: Run, s: nat, t: nat ::
              WellFormed(n) && Narrow(n) && Fits(n, r) && Fits(n, q) && DifferOnlyIn(n, r, q, 0) && s < |n| &&
              !HoldsCovered(n, r, 0) && !Tracked(n, r, q, 0, s, t)
  {
    var n, r, q := EnabledRegister(), EnabledRun(false), EnabledRun(true);
    EdgeOfDffe(n, r, 2);
    EdgeOfDffe(n, q, 2);
    assert !Tracked(n, r, q, 0, 2, 1);
    assert IsState(n, 2) && 0 in TagOf(n, r, 0, 0) && !HoldCovered(n, r, 2, 0, 0);
  }

  // ----- lanes are independent -----

  /** The same run with only the lanes of l injected. */
  function Restrict(r: Run, l: Tag): Run {
    Run(r.input, r.init, (s, t) => r.inject(s, t) * l)
  }

  lemma {:induction false} ValIgnoresTags(n: Netlist, r: Run, l: Tag, s: nat, t: nat)
    requires WellFormed(n) && s < |n|
    ensures Val(n, Restrict(r, l), s, t) == Val(n, r, s, t)
    decreases t, s
  {
    assert Ordered(n, s) && Sized(n, s);
    var q := Restrict(r, l);
    match n[s].driver
    case Input =>
    case Wired(sources, bits) =>
      forall i | 0 <= i < |bits| && bits[i].From?
        ensures Val(n, q, bits[i].source, t) == Val(n, r, bits[i].source, t)
      {
        ValIgnoresTags(n, r, l, bits[i].source, t);
      }
      assert Val(n, q, s, t) == Val(n, r, s, t);
    case Unary(_, _, a) => ValIgnoresTags(n, r, l, a, t);
    case Binary(_, _, _, a, b) =>
      ValIgnoresTags(n, r, l, a, t);
      ValIgnoresTags(n, r, l, b, t);
    case Mux(a, b, sel) =>
      ValIgnoresTags(n, r, l, a, t);
      ValIgnoresTags(n, r, l, b, t);
      ValIgnoresTags(n, r, l, sel, t);
    case PMux(a, b, sel) =>
      ValIgnoresTags(n, r, l, a, t);
      ValIgnoresTags(n, r, l, b, t);
      ValIgnoresTags(n, r, l, sel, t);
    case Dff(d) =>
      if t > 0 {
        ValIgnoresTags(n, r, l, d, t - 1);
      }
    case Dffe(d, en, _) =>
      if t > 0 {
        ValIgnoresTags(n, r, l, d, t - 1);
        ValIgnoresTags(n, r, l, en, t - 1);
        ValIgnoresTags(n, r, l, s, t - 1);
      }
  }

  lemma RulesAreLanewise(op: Cells.BinOp, a: Bv, b: Bv, s: Bv, at: Tag, bt: Tag, st: Tag, l: Tag)
    ensures BinaryTag(op, a, b, at * l, bt * l) == BinaryTag(op, a, b, at, bt) * l
    ensures MuxTag(a, b, s, at * l, bt * l, st * l) == MuxTag(a, b, s, at, bt, st) * l
    ensures PMuxTag(s, at * l, bt * l, st * l) == PMuxTag(s, at, bt, st) * l
  {
  }

  lemma InWireTag(n: Netlist, r: Run, s: nat, t: nat, k: nat)
    requires WellFormed(n) && s < |n| && n[s].driver.Wired? && Ordered(n, s)
    ensures k in TagOf(n, r, s, t) <==>
            exists i :: 0 <= i < |n[s].driver.sources| && k in TagOf(n, r, n[s].driver.sources[i], t)
  {
  }

  /** Lanes do not mix: one run with many lanes is many runs with one lane each. */
  lemma {:induction false} LanesIndependent(n: Netlist, r: Run, l: Tag, s: nat, t: nat)
    requires WellFormed(n) && s < |n|
    ensures TagOf(n, Restrict(r, l), s, t) == TagOf(n, r, s, t) * l
    decreases t, s
  {
    assert Ordered(n, s) && Sized(n, s);
    match n[s].driver
    case Input =>
    case Wired(_, _) => LanesOfWire(n, r, l, s, t);
    case Unary(_, _, a) => LanesIndependent(n, r, l, a, t);
    case Binary(op, _, _, a, b) => LanesOfBinary(n, r, l, op, a, b, t, s);
    case Mux(a, b, sel) => LanesOfMux(n, r, l, a, b, sel, t, s);
    case PMux(a, b, sel) => LanesOfMux(n, r, l, a, b, sel, t, s);
    case Dff(d) =>
      if t > 0 {
        LanesIndependent(n, r, l, d, t - 1);
      }
    case Dffe(_, _, _) =>
      if t > 0 {
        LanesOfRegister(n, r, l, s, t - 1);
      }
  }

  lemma {:induction false} LanesOfRegister(n: Netlist, r: Run, l: Tag, s: nat, t: nat)
    requires WellFormed(n) && s < |n| && n[s].driver.Dffe?
    ensures TagOf(n, Restrict(r, l), s, t + 1) == TagOf(n, r, s, t + 1) * l
    decreases t, |n|
  {
    assert Ordered(n, s) && Sized(n, s);
    ValIgnoresTags(n, r, l, n[s].driver.en, t);
    LanesIndependent(n, r, l, n[s].driver.d, t);
    LanesIndependent(n, r, l, n[s].driver.en, t);
    LanesIndependent(n, r, l, s, t);
  }

  lemma {:induction false} LanesOfWire(n: Netlist, r: Run, l: Tag, s: nat, t: nat)
    requires WellFormed(n) && s < |n| && n[s].driver.Wired?
    ensures TagOf(n, Restrict(r, l), s, t) == TagOf(n, r, s, t) * l
    decreases t, s, 0
  {
    assert Ordered(n, s) && Sized(n, s);
    var sources, q := n[s].driver.sources, Restrict(r, l);
    forall i | 0 <= i < |sources|
      ensures TagOf(n, q, sources[i], t) == TagOf(n, r, sources[i], t) * l
    {
      LanesIndependent(n, r, l, sources[i], t);
    }
    forall k: nat
      ensures k in TagOf(n, q, s, t) <==> k in TagOf(n, r, s, t) * l
    {
      InWireTag(n, q, s, t, k);
      InWireTag(n, r, s, t, k);
    }
  }

  lemma {:induction false} LanesOfBinary(n: Netlist, r: Run, l: Tag, op: Cells.BinOp, a: nat, b: nat, t: nat, s: nat)
    requires WellFormed(n) && a < s && b < s < |n|
    requires n[s].driver.Binary? && n[s].driver.binOp == op && n[s].driver.a == a && n[s].driver.b == b
    ensures TagOf(n, Restrict(r, l), s, t) == TagOf(n, r, s, t) * l
    decreases t, s, 0
  {
    ValIgnoresTags(n, r, l, a, t);
    ValIgnoresTags(n, r, l, b, t);
    LanesIndependent(n, r, l, a, t);
    LanesIndependent(n, r, l, b, t);
    RulesAreLanewise(op, Val(n, r, a, t), Val(n, r, b, t), [], TagOf(n, r, a, t), TagOf(n, r, b, t), {}, l);
  }

  lemma {:induction false} LanesOfMux(n: Netlist, r: Run, l: Tag, a: nat, b: nat, sel: nat, t: nat, s: nat)
    requires WellFormed(n) && a < s && b < s && sel < s < |n|
    requires n[s].driver == Mux(a, b, sel) || n[s].driver == PMux(a, b, sel)
    ensures TagOf(n, Restrict(r, l), s, t) == TagOf(n, r, s, t) * l
    decreases t, s, 0
  {
    ValIgnoresTags(n, r, l, a, t);
    ValIgnoresTags(n, r, l, b, t);
    ValIgnoresTags(n, r, l, sel, t);
    LanesIndependent(n, r, l, a, t);
    LanesIndependent(n, r, l, b, t);
    LanesIndependent(n, r, l, sel, t);
    RulesAreLanewise(Cells.AndOp, Val(n, r, a, t), Val(n, r, b, t), Val(n, r, sel, t),
                     TagOf(n, r, a, t), TagOf(n, r, b, t), TagOf(n, r, sel, t), l);
  }

  // ----- tags have an origin -----

  /** Each signal of the path reads its predecessor. */
  ghost predicate IsPath(n: Netlist, p: seq<nat>) {
    |p| > 0 && (forall i :: 0 <= i < |p| ==> p[i] < |n|) &&
    forall i :: 0 < i < |p| ==> p[i - 1] in n[p[i]].driver.Reads()
  }

  /** The registers a path passes through. */
  function Crossings(n: Netlist, p: seq<nat>): nat {
    if |p| <= 1 then 0
    else Crossings(n, p[..|p| - 1]) + if IsState(n, p[|p| - 1]) then 1 else 0
  }

  ghost predicate PlainRegisters(n: Netlist, p: seq<nat>) {
    forall i :: 0 < i < |p| && IsState(n, p[i]) ==> n[p[i]].driver.Dff?
  }

  /** Lane k was injected at the start of path p at time t0, and p leads to s by time t. */
  ghost predicate Origin(n: Netlist, r: Run, k: nat, p: seq<nat>, t0: nat, s: nat, t: nat) {
    IsPath(n, p) && p[|p| - 1] == s && IsInput(n, p[0]) && k in r.inject(p[0], t0) &&
    t0 + Crossings(n, p) <= t &&
    (PlainRegisters(n, p) ==> t0 + Crossings(n, p) == t)
  }

  lemma OriginStep(n: Netlist, r: Run, k: nat, p: seq<nat>, t0: nat, x: nat, u: nat, s: nat, t: nat)
    requires s < |n| && x in n[s].driver.Reads() && Origin(n, r, k, p, t0, x, u)
    requires t == if n[s].driver.IsRegister() then u + 1 else u
    ensures Origin(n, r, k, p + [s], t0, s, t)
  {
    var q := p + [s];
    assert q[..|q| - 1] == p;
    assert forall i :: 0 <= i < |p| ==> q[i] == p[i];
    forall i | 0 < i < |q|
      ensures q[i - 1] in n[q[i]].driver.Reads()
    {
      if i == |p| {
        assert q[i - 1] == x;
      }
    }
    if PlainRegisters(n, q) {
      assert PlainRegisters(n, p);
    }
  }

  /** A held tag has the origin it had before. */
  lemma OriginHold(n: Netlist, r: Run, k: nat, p: seq<nat>, t0: nat, s: nat, u: nat)
    requires s < |n| && n[s].driver.Dffe? && Origin(n, r, k, p, t0, s, u)
    ensures Origin(n, r, k, p, t0, s, u + 1)
  {
    assert |p| > 1;
    assert IsState(n, p[|p| - 1]);
    assert !PlainRegisters(n, p);
  }

  /** A signal read by s whose tag explains lane k of s. */
  lemma CarrierRead(n: Netlist, r: Run, k: nat, s: nat, t: nat) returns (x: nat)
    requires WellFormed(n) && s < |n| && k in TagOf(n, r, s, t)
    requires !n[s].driver.IsRegister() && !n[s].driver.Input?
    ensures x in n[s].driver.Reads() && x < s && k in TagOf(n, r, x, t)
  {
    assert Ordered(n, s) && Sized(n, s);
    match n[s].driver
    case Wired(sources, _) =>
      var i :| 0 <= i < |sources| && k in TagOf(n, r, sources[i], t);
      x := sources[i];
    case Unary(_, _, a) => x := a;
    case Binary(op, _, _, a, b) => x := if k in TagOf(n, r, a, t) then a else b;
    case Mux(a, b, sel) =>
      x := if k in TagOf(n, r, a, t) then a else if k in TagOf(n, r, b, t) then b else sel;
    case PMux(a, b, sel) =>
      x := if k in TagOf(n, r, a, t) then a else if k in TagOf(n, r, b, t) then b else sel;
  }

  /** No tag from nowhere: a lane on a signal was injected at an input from which a
      path leads to the signal through at most as many registers as clock edges have
      passed; exactly as many when no register of the path has an enable. */
  lemma {:induction false} TagHasOrigin(n: Netlist, r: Run, k: nat, s: nat, t: nat) returns (p: seq<nat>, t0: nat)
    requires WellFormed(n) && s < |n| && k in TagOf(n, r, s, t)
    ensures Origin(n, r, k, p, t0, s, t)
    decreases t, s
  {
    assert Ordered(n, s) && Sized(n, s);
    match n[s].driver
    case Input =>
      p, t0 := [s], t;
    case Dff(d) =>
      p, t0 := TagHasOrigin(n, r, k, d, t - 1);
      OriginStep(n, r, k, p, t0, d, t - 1, s, t);
      p := p + [s];
    case Dffe(d, en, high) =>
      if Cells.Active(Val(n, r, en, t - 1), high) {
        var x := if k in TagOf(n, r, d, t - 1) then d else en;
        p, t0 := TagHasOrigin(n, r, k, x, t - 1);
        OriginStep(n, r, k, p, t0, x, t - 1, s, t);
        p := p + [s];
      } else {
        p, t0 := TagHasOrigin(n, r, k, s, t - 1);
        OriginHold(n, r, k, p, t0, s, t - 1);
      }
    case _ =>
      var x := CarrierRead(n, r, k, s, t);
      p, t0 := TagHasOrigin(n, r, k, x, t);
      OriginStep(n, r, k, p, t0, x, t, s, t);
      p := p + [s];
  }
}
