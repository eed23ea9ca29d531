/** Cells with typed semantics, twice: the value that a cell of the netlist gives its
    output (integers, as section 11.7 of IEEE 1800-2012 types them by the signs of the
    cell's parameters) and the bit vector assertion that the SMT back end adds. */
module Cells {
  import opened Bitvectors
  import Pmux

  datatype PortName = A | B | S | Y | CLK | D | EN | ARST | SET | CLR | Q

  type Values = map<PortName, Bv>

  datatype UnOp = NotOp | LogicNotOp | PosOp | NegOp | ReduceAndOp | ReduceOrOp

  datatype BinOp =
    | AndOp | OrOp | XorOp | XnorOp
    | AddOp | SubOp | MulOp
    | EqOp | NeOp | LtOp | LeOp | GtOp | GeOp
    | LogicAndOp | LogicOrOp
    | ShlOp | ShrOp

  datatype Kind =
    | Unary(unOp: UnOp, aSigned: bool)
    | Binary(binOp: BinOp, aSigned: bool, bSigned: bool)
    | Mux
    | PMux
    | Dff
    | Dffe(enHigh: bool)
    | Adff(rstHigh: bool, rstValue: Bv)
    | Adffe(rstHigh: bool, rstValue: Bv, enHigh: bool)
    | Dffsr(setHigh: bool, clrHigh: bool)
    | Dffsre(setHigh: bool, clrHigh: bool, enHigh: bool)
  {
    predicate HasRegister() {
      !Unary? && !Binary? && !Mux? && !PMux?
    }

    /** The register types whose assertion reads the previous Q. */
    predicate HasEnable() {
      Dffe? || Adffe? || Dffsre?
    }

    /** The input ports, the clock of a register included. */
    function Arity(): nat {
      match this
      case Unary(_, _) => 1
      case Binary(_, _, _) | Dff => 2
      case Mux | PMux | Dffe(_) | Adff(_, _) => 3
      case Adffe(_, _, _) | Dffsr(_, _) => 4
      case Dffsre(_, _, _) => 5
    }
  }

  function Arg(v: Values, p: PortName): Bv {
    if p in v then v[p] else []
  }

  function Widths(v: Values): map<PortName, nat> {
    map p | p in v :: |v[p]|
  }

  function WidthOf(ws: map<PortName, nat>, p: PortName): nat {
    if p in ws then ws[p] else 0
  }

  function Max(x: nat, y: nat): nat {
    if x < y then y else x
  }

  // ----- what the cell computes -----

  /** The integer an operand denotes; the whole expression is signed only if all
      operands are, and that decides how each operand is read. */
  function Operand(b: Bv, signed: bool): int {
    if signed then ToInt(b) else ToNat(b)
  }

  function EvalUnary(op: UnOp, a: Bv, signed: bool, w: nat): (y: Bv)
    ensures |y| == w
  {
    match op
    case NotOp => FromInt(w, -1 - Operand(a, signed))
    case LogicNotOp => Truth(!NonZero(a), w)
    case PosOp => FromInt(w, Operand(a, signed))
    case NegOp => FromInt(w, -Operand(a, signed))
    case ReduceAndOp => Truth(AllOnes(a), w)
    case ReduceOrOp => Truth(NonZero(a), w)
  }

  function Bitwise(op: BinOp, a: Bv, b: Bv): (y: Bv)
    requires |a| == |b|
    ensures |y| == |a|
  {
    if op == AndOp then And(a, b)
    else if op == OrOp then Or(a, b)
    else if op == XnorOp then Not(Xor(a, b))
    else Xor(a, b)
  }

  function Combine(op: BinOp, x: int, z: int): int {
    if op == AddOp then x + z else if op == SubOp then x - z else x * z
  }

  /** A left shift multiplies, a logical right shift divides, by a power of two. */
  function Shifted(op: BinOp, x: int, amount: nat): int {
    if op == ShlOp then x * Pow2(amount) else x / Pow2(amount)
  }

  function EvalBinary(op: BinOp, a: Bv, b: Bv, aSigned: bool, bSigned: bool, w: nat): (y: Bv)
    ensures |y| == w
  {
    var signed := aSigned && bSigned;
    var x, z := Operand(a, signed), Operand(b, signed);
    match op
    case AndOp | OrOp | XorOp | XnorOp =>
      var width := Max(w, Max(|a|, |b|));
      Bitwise(op, Ext(a, width, signed), Ext(b, width, signed))[..w]
    case AddOp | SubOp | MulOp => FromInt(w, Combine(op, x, z))
    case EqOp => Truth(x == z, w)
    case NeOp => Truth(x != z, w)
    case LtOp => Truth(x < z, w)
    case LeOp => Truth(x <= z, w)
    case GtOp => Truth(x > z, w)
    case GeOp => Truth(x >= z, w)
    case LogicAndOp => Truth(NonZero(a) && NonZero(b), w)
    case LogicOrOp => Truth(NonZero(a) || NonZero(b), w)
    // a shift takes its type from the left operand alone, its amount is unsigned
    case ShlOp => FromInt(w, Shifted(op, Operand(a, aSigned), ToNat(b)))
    case ShrOp => FromInt(w, Shifted(op, ToNat(Ext(a, Max(w, |a|), aSigned)), ToNat(b)))
  }

  /** A control bit compared with the polarity parameter. */
  predicate Active(control: Bv, high: bool) {
    (|control| > 0 && control[0]) == high
  }

  /** The next value of a register, bit by bit: clear over set over data. */
  function SetClear(clr: Bv, set': Bv, data: Bv, clrHigh: bool, setHigh: bool): (q: Bv)
    requires |clr| == |set'| == |data|
    ensures |q| == |data|
  {
    seq(|data|, i requires 0 <= i < |data| =>
      if clr[i] == clrHigh then false else if set'[i] == setHigh then true else data[i])
  }

  /** The value a cell gives its output. For a register this is the value after
      the clock edge and prev the value before it. */
  function Eval(k: Kind, v: Values, w: nat, prev: Bv): Bv
    requires Typed(k, v, w, |prev|)
  {
    match k
    case Unary(op, s) => EvalUnary(op, Arg(v, A), s, w)
    case Binary(op, sa, sb) => EvalBinary(op, Arg(v, A), Arg(v, B), sa, sb, w)
    case Mux => if Arg(v, S)[0] then Arg(v, B) else Arg(v, A)
    case PMux => Pmux.Select(Arg(v, A), Arg(v, B), Arg(v, S))
    case Dff => Arg(v, D)
    case Dffe(en) => if Active(Arg(v, EN), en) then Arg(v, D) else prev
    case Adff(rst, value) => if Active(Arg(v, ARST), rst) then value else Arg(v, D)
    case Adffe(rst, value, en) =>
      if Active(Arg(v, ARST), rst) then value
      else if Active(Arg(v, EN), en) then Arg(v, D) else prev
    case Dffsr(sh, ch) => SetClear(Arg(v, CLR), Arg(v, SET), Arg(v, D), ch, sh)
    case Dffsre(sh, ch, en) =>
      SetClear(Arg(v, CLR), Arg(v, SET), if Active(Arg(v, EN), en) then Arg(v, D) else prev, ch, sh)
  }

  // ----- what the SMT back end asserts -----

  predicate AcceptedUnary(op: UnOp, wa: nat, w: nat) {
    wa > 0 && w > 0 &&
    match op
    case NotOp | NegOp => wa == w
    case PosOp => wa <= w
    case LogicNotOp | ReduceAndOp | ReduceOrOp => w == 1
  }

  predicate AcceptedBinary(op: BinOp, wa: nat, wb: nat, w: nat, sa: bool, sb: bool) {
    wa > 0 && wb > 0 && w > 0 &&
    match op
    case AndOp => wa == wb == w
    case OrOp => w == Max(wa, wb)
    case LtOp | LeOp | GtOp | GeOp => sa == sb
    case ShlOp | ShrOp => wa <= w && wb <= w
    case _ => true
  }

  const UINT64 := 0x1_0000_0000_0000_0000

  /** The assertion is well sorted and building it does not throw. Control words may be
      wider than one bit and the per-bit loops may leave bits over; a reset value is read as
      a number of 64 bits. */
  predicate AcceptedWidths(k: Kind, ws: map<PortName, nat>, w: nat, wPrev: nat) {
    var a, b, s, d, en := WidthOf(ws, A), WidthOf(ws, B), WidthOf(ws, S), WidthOf(ws, D), WidthOf(ws, EN);
    w > 0 &&
    match k
    case Unary(op, _) => AcceptedUnary(op, a, w)
    case Binary(op, sa, sb) => AcceptedBinary(op, a, b, w, sa, sb)
    case Mux => s > 0 && a == b == w
    case PMux => s > 0 && a == w && b >= s * w
    case Dff => d == w
    case Dffe(_) => en > 0 && d == w && wPrev == w
    case Adff(_, value) => WidthOf(ws, ARST) > 0 && |value| == w && ToNat(value) < UINT64 && d == w
    case Adffe(_, value, _) =>
      WidthOf(ws, ARST) > 0 && en > 0 && |value| == w && ToNat(value) < UINT64 && d == w && wPrev == w
    case Dffsr(_, _) => WidthOf(ws, SET) >= w && WidthOf(ws, CLR) >= w && d >= w
    case Dffsre(_, _, _) =>
      WidthOf(ws, SET) >= w && WidthOf(ws, CLR) >= w && d >= w && en > 0 && wPrev >= w
  }

  predicate Accepted(k: Kind, v: Values, w: nat, wPrev: nat) {
    AcceptedWidths(k, Widths(v), w, wPrev)
  }

  /** Both operands are widened by their own sign; that is the widening the type
      of the expression asks for unless a signed operand narrower than the result
      meets an unsigned one. */
  predicate OperandsFaithful(wa: nat, wb: nat, w: nat, aSigned: bool, bSigned: bool) {
    wa <= w && wb <= w && (aSigned && !bSigned ==> wa == w) && (bSigned && !aSigned ==> wb == w)
  }

  /** Operands of different signs are compared for equality as unsigned numbers; the
      assertion sign extends one of them, which does no harm when it is not extended
      or its negative values are out of the range of the other one. */
  predicate EqualFaithful(wa: nat, wb: nat, w: nat, sa: bool, sb: bool) {
    var m := Max(wa, Max(wb, w));
    sa == sb || if sa then wa == m || wb < wa else wb == m || wa < wb
  }

  /** The amount of a shift is unsigned; the assertion sign extends a signed one, which
      does no harm when it is not extended or every such amount shifts all bits out. */
  predicate AmountFaithful(wb: nat, w: nat, shifted: nat, sb: bool)
    requires wb > 0
  {
    sb ==> wb == w || shifted <= Pow2(wb - 1)
  }

  predicate TypedBinary(op: BinOp, wa: nat, wb: nat, w: nat, sa: bool, sb: bool) {
    AcceptedBinary(op, wa, wb, w, sa, sb) &&
    match op
    case OrOp | XorOp | XnorOp | AddOp | SubOp | MulOp => OperandsFaithful(wa, wb, w, sa, sb)
    case EqOp | NeOp => EqualFaithful(wa, wb, w, sa, sb)
    case ShlOp => AmountFaithful(wb, w, w, sb)
    case ShrOp => AmountFaithful(wb, w, if sa then w else wa, sb)
    case _ => true
  }

  /** The widths and signs on which the assertion has the typed meaning of the cell. */
  predicate Typed(k: Kind, v: Values, w: nat, wPrev: nat) {
    var d, en := |Arg(v, D)|, |Arg(v, EN)|;
    Accepted(k, v, w, wPrev) &&
    match k
    case Unary(op, s) => op == PosOp && s ==> |Arg(v, A)| == w
    case Binary(op, sa, sb) => TypedBinary(op, |Arg(v, A)|, |Arg(v, B)|, w, sa, sb)
    case Mux => |Arg(v, S)| == 1
    case PMux => |Arg(v, B)| == |Arg(v, S)| * w
    case Dff => true
    case Dffe(_) => en == 1
    case Adff(_, _) => |Arg(v, ARST)| == 1
    case Adffe(_, _, _) => |Arg(v, ARST)| == 1 && en == 1
    case Dffsr(_, _) => |Arg(v, SET)| == w && |Arg(v, CLR)| == w && d == w
    case Dffsre(_, _, _) => |Arg(v, SET)| == w && |Arg(v, CLR)| == w && d == w && en == 1 && wPrev == w
  }

  predicate AssertUnary(op: UnOp, a: Bv, y: Bv)
    requires |a| > 0 && |y| > 0
    requires op == PosOp ==> |a| <= |y|
  {
    match op
    case NotOp => y == Not(a)
    case LogicNotOp => y == (if !NonZero(a) then [true] else [false])
    case PosOp => y == ZExt(a, |y|)
    case NegOp => y == FromInt(|a|, ToNat(Not(a)) + 1)
    case ReduceAndOp => y == [AllOnes(a)]
    case ReduceOrOp => y == [NonZero(a)]
  }

  predicate AssertBinary(op: BinOp, a: Bv, b: Bv, aSigned: bool, bSigned: bool, y: Bv)
    requires op == AndOp ==> |a| == |b|
  {
    var w := Max(|a|, Max(|b|, |y|));
    var x, z := Ext(a, w, aSigned), Ext(b, w, bSigned);
    var out := Ext(y, w, aSigned && bSigned);
    var signed := aSigned && bSigned;
    match op
    case AndOp => y == And(a, b)
    case OrOp =>
      var l := Max(|a|, |b|);
      y == Or(Ext(a, l, aSigned), Ext(b, l, bSigned))
    case XorOp => out == Xor(x, z)
    case XnorOp => out == Not(Xor(x, z))
    case AddOp | SubOp | MulOp => out == FromInt(w, Combine(op, ToNat(x), ToNat(z)))
    case EqOp => y == Truth(x == z, |y|)
    case NeOp => y == Truth(x != z, |y|)
    case LtOp => y == Truth(if signed then ToInt(x) < ToInt(z) else ToNat(x) < ToNat(z), |y|)
    case LeOp => y == Truth(if signed then ToInt(x) <= ToInt(z) else ToNat(x) <= ToNat(z), |y|)
    case GtOp => y == Truth(if signed then ToInt(x) > ToInt(z) else ToNat(x) > ToNat(z), |y|)
    case GeOp => y == Truth(if signed then ToInt(x) >= ToInt(z) else ToNat(x) >= ToNat(z), |y|)
    case LogicAndOp => y == Truth(NonZero(a) && NonZero(b), |y|)
    case LogicOrOp => y == Truth(NonZero(a) || NonZero(b), |y|)
    case ShlOp | ShrOp => y == FromInt(w, Shifted(op, ToNat(x), ToNat(z)))
  }

  /** The per-bit loops of $dffsr and $dffsre add one constraint for every bit. */
  predicate AssertSetClear(q: Bv, clr: Bv, set': Bv, data: Bv, clrHigh: bool, setHigh: bool)
    requires |q| == |clr| == |set'| == |data|
  {
    forall i :: 0 <= i < |q| ==>
      q[i] == (if clr[i] == clrHigh then false else if set'[i] == setHigh then true else data[i])
  }

  /** A control word compared with the number 1 or 0. */
  predicate Equals(control: Bv, high: bool) {
    control == FromInt(|control|, Bit(high))
  }

  predicate Assertion(k: Kind, v: Values, y: Bv, prev: Bv)
    requires Accepted(k, v, |y|, |prev|)
  {
    assert forall p :: WidthOf(Widths(v), p) == |Arg(v, p)|;
    var n := |y|;
    match k
    case Unary(op, s) => AssertUnary(op, Arg(v, A), y)
    case Binary(op, sa, sb) => AssertBinary(op, Arg(v, A), Arg(v, B), sa, sb, y)
    case Mux => y == (if Equals(Arg(v, S), true) then Arg(v, B) else Arg(v, A))
    case PMux => y == Pmux.ChainValue(Pmux.Chain(|Arg(v, S)|, 0), Arg(v, A), Arg(v, B), Arg(v, S))
    case Dff => y == Arg(v, D)
    case Dffe(en) => y == (if Equals(Arg(v, EN), en) then Arg(v, D) else prev)
    case Adff(rst, value) => y == (if Equals(Arg(v, ARST), rst) then value else Arg(v, D))
    case Adffe(rst, value, en) =>
      y == (if Equals(Arg(v, ARST), rst) then value else if Equals(Arg(v, EN), en) then Arg(v, D) else prev)
    case Dffsr(sh, ch) => AssertSetClear(y, Arg(v, CLR)[..n], Arg(v, SET)[..n], Arg(v, D)[..n], ch, sh)
    case Dffsre(sh, ch, en) =>
      AssertSetClear(y, Arg(v, CLR)[..n], Arg(v, SET)[..n],
                     if Equals(Arg(v, EN), en) then Arg(v, D)[..n] else prev[..n], ch, sh)
  }

  // ----- the two agree -----

  lemma OneBit(c: bool)
    ensures Truth(c, 1) == [c]
  {
    assert FromInt(0, Bit(c) / 2) == [];
  }

  lemma UnaryAgrees(op: UnOp, a: Bv, s: bool, y: Bv)
    requires AcceptedUnary(op, |a|, |y|)
    requires op == PosOp && s ==> |a| == |y|
    ensures AssertUnary(op, a, y) <==> y == EvalUnary(op, a, s, |y|)
  {
    match op
    case NotOp => ComplementWord(a, Operand(a, s));
    case NegOp => NegatedWord(a, Operand(a, s));
    case PosOp =>
      if s {
        SameWord(a, Operand(a, s));
        assert ZExt(a, |y|) == a;
      } else {
        ExtNat(a, |y|, false);
        FromToNat(Ext(a, |y|, false));
      }
    case LogicNotOp => OneBit(!NonZero(a));
    case ReduceAndOp => OneBit(AllOnes(a));
    case ReduceOrOp => OneBit(NonZero(a));
  }

  /** Under OperandsFaithful the widened operands are the integers of the LRM
      modulo the width. */
  lemma OperandValue(a: Bv, w: nat, own: bool, signed: bool)
    requires 0 < |a| <= w
    requires own == signed || |a| == w
    ensures ToNat(Ext(a, w, own)) == Operand(a, signed) || ToNat(Ext(a, w, own)) == Operand(a, signed) + Pow2(w)
    ensures Ext(a, w, own) == Ext(a, w, signed)
  {
    if own != signed {
      assert Ext(a, w, own) == a == Ext(a, w, signed);
    }
    ExtValue(a, w, signed);
  }

  lemma CombineCong(op: BinOp, w: nat, x: int, z: int, x': int, z': int)
    requires x' == x || x' == x + Pow2(w)
    requires z' == z || z' == z + Pow2(w)
    ensures FromInt(w, Combine(op, x', z')) == FromInt(w, Combine(op, x, z))
  {
    if op == AddOp || op == SubOp {
      AddCong(w, x, z, x', z');
    } else {
      MulCong(w, x, z, x', z');
    }
  }

  lemma ArithmeticAgrees(op: BinOp, a: Bv, b: Bv, sa: bool, sb: bool, y: Bv)
    requires op in {AddOp, SubOp, MulOp}
    requires |a| > 0 && |b| > 0 && OperandsFaithful(|a|, |b|, |y|, sa, sb)
    ensures AssertBinary(op, a, b, sa, sb, y) <==> y == EvalBinary(op, a, b, sa, sb, |y|)
  {
    var w, s := |y|, sa && sb;
    assert Max(|a|, Max(|b|, w)) == w;
    assert Ext(y, w, s) == y;
    OperandValue(a, w, sa, s);
    OperandValue(b, w, sb, s);
    CombineCong(op, w, Operand(a, s), Operand(b, s), ToNat(Ext(a, w, sa)), ToNat(Ext(b, w, sb)));
  }

  lemma BitwiseAgrees(op: BinOp, a: Bv, b: Bv, sa: bool, sb: bool, y: Bv)
    requires op in {AndOp, OrOp, XorOp, XnorOp}
    requires Accepted(Binary(op, sa, sb), map[A := a, B := b], |y|, 0)
    requires op == AndOp || OperandsFaithful(|a|, |b|, |y|, sa, sb)
    ensures AssertBinary(op, a, b, sa, sb, y) <==> y == EvalBinary(op, a, b, sa, sb, |y|)
  {
    var w, s := |y|, sa && sb;
    assert Max(|a|, Max(|b|, w)) == w && Max(w, Max(|a|, |b|)) == w;
    assert Ext(y, w, s) == y;
    if op == AndOp {
      assert Ext(a, w, s) == a && Ext(b, w, s) == b;
    } else {
      OperandValue(a, w, sa, s);
      OperandValue(b, w, sb, s);
    }
    assert EvalBinary(op, a, b, sa, sb, w) == Bitwise(op, Ext(a, w, s), Ext(b, w, s));
  }

  lemma CompareAgrees(op: BinOp, a: Bv, b: Bv, s: bool, y: Bv)
    requires op in {EqOp, NeOp, LtOp, LeOp, GtOp, GeOp}
    requires |a| > 0 && |b| > 0 && |y| > 0
    ensures AssertBinary(op, a, b, s, s, y) <==> y == EvalBinary(op, a, b, s, s, |y|)
  {
    var w := Max(|a|, Max(|b|, |y|));
    ExtValue(a, w, s);
    ExtValue(b, w, s);
    if s {
      ToIntInjective(Ext(a, w, s), Ext(b, w, s));
    } else {
      ToNatInjective(Ext(a, w, s), Ext(b, w, s));
    }
  }

  /** A sign extended operand next to a zero extended one. */
  lemma MixedEqual(a: Bv, b: Bv, m: nat)
    requires 0 < |a| <= m && 0 < |b| <= m && (|a| == m || |b| < |a|)
    ensures Ext(a, m, true) == Ext(b, m, false) <==> ToNat(a) == ToNat(b)
  {
    ExtNat(b, m, false);
    ToNatInjective(Ext(a, m, true), Ext(b, m, false));
    if |a| == m {
      assert Ext(a, m, true) == a;
    } else {
      ToNatBound(b);
      ExtendedApart(a, |b|, m);
    }
  }

  /** A sign extension moves a number out of the range of a narrower word, or nowhere. */
  lemma ExtendedApart(a: Bv, wb: nat, m: nat)
    requires wb < |a| <= m
    ensures ToNat(Ext(a, m, true)) == ToNat(a) || (ToNat(Ext(a, m, true)) >= Pow2(wb) && ToNat(a) >= Pow2(wb))
  {
    ExtNat(a, m, true);
    PowMonotone(|a|, m);
    if Msb(a) {
      MsbValue(a);
      PowMonotone(wb, |a| - 1);
    }
  }

  /** Equality is the typed one for all operands of these widths and signs. */
  lemma EqualAgrees(op: BinOp, a: Bv, b: Bv, sa: bool, sb: bool, y: Bv)
    requires op in {EqOp, NeOp}
    requires |a| > 0 && |b| > 0 && |y| > 0 && EqualFaithful(|a|, |b|, |y|, sa, sb)
    ensures AssertBinary(op, a, b, sa, sb, y) <==> y == EvalBinary(op, a, b, sa, sb, |y|)
  {
    var m := Max(|a|, Max(|b|, |y|));
    if sa == sb {
      CompareAgrees(op, a, b, sa, y);
    } else if sa {
      MixedEqual(a, b, m);
    } else {
      MixedEqual(b, a, m);
    }
  }

  /** Shifting left by the width or more leaves no bit. */
  lemma ShiftedOut(w: nat, x: int, n: nat)
    requires w <= n
    ensures FromInt(w, x * Pow2(n)) == FromInt(w, 0)
  {
    PowSplit(w, n - w);
    assert x * Pow2(n) == 0 + (x * Pow2(n - w)) * Pow2(w) by {
      Regroup(x, Pow2(w), Pow2(n - w));
    }
    FromIntCong(w, 0, x * Pow2(n - w));
  }

  lemma Regroup(x: int, p: int, q: int)
    ensures x * (p * q) == (x * q) * p
  {
  }

  /** So does shifting a word right by its width or more. */
  lemma ShiftedDown(x: nat, width: nat, n: nat)
    requires x < Pow2(width) && width <= n
    ensures x / Pow2(n) == 0
  {
    PowMonotone(width, n);
    SmallQuotient(x, Pow2(n));
  }

  lemma SmallQuotient(x: nat, p: nat)
    requires x < p
    ensures x / p == 0
  {
  }

  /** What the amount is in the assertion and for the cell. */
  lemma AmountValue(b: Bv, w: nat, sb: bool, shifted: nat)
    requires 0 < |b| <= w && AmountFaithful(|b|, w, shifted, sb)
    ensures ToNat(Ext(b, w, sb)) == ToNat(b) || (shifted <= ToNat(b) && shifted <= ToNat(Ext(b, w, sb)))
  {
    ExtNat(b, w, sb);
    MsbValue(b);
    PowMonotone(|b|, w);
  }

  lemma ShiftAgrees(op: BinOp, a: Bv, b: Bv, sa: bool, sb: bool, y: Bv)
    requires op in {ShlOp, ShrOp} && TypedBinary(op, |a|, |b|, |y|, sa, sb)
    ensures AssertBinary(op, a, b, sa, sb, y) <==> y == EvalBinary(op, a, b, sa, sb, |y|)
  {
    var w := |y|;
    assert Max(|a|, Max(|b|, w)) == w && Max(w, |a|) == w;
    var asserted, amount, word := ToNat(Ext(b, w, sb)), ToNat(b), ToNat(Ext(a, w, sa));
    if op == ShlOp {
      AmountValue(b, w, sb, w);
      if asserted != amount {
        ShiftedOut(w, word, asserted);
        ShiftedOut(w, Operand(a, sa), amount);
      } else {
        ExtValue(a, w, sa);
        if word != Operand(a, sa) {
          DistributeRight(Operand(a, sa), Pow2(w), Pow2(amount));
          FromIntCong(w, Shifted(op, Operand(a, sa), amount), Pow2(amount));
        }
      }
    } else {
      var shifted := if sa then w else |a|;
      AmountValue(b, w, sb, shifted);
      ShiftWidth(a, w, sa);
      if asserted != amount {
        ShiftedDown(word, shifted, asserted);
        ShiftedDown(word, shifted, amount);
      }
    }
  }

  lemma ShiftWidth(a: Bv, w: nat, sa: bool)
    requires 0 < |a| <= w
    ensures ToNat(Ext(a, w, sa)) < Pow2(if sa then w else |a|)
  {
    ExtNat(a, w, false);
    ToNatBound(a);
    ToNatBound(Ext(a, w, sa));
  }

  lemma DistributeRight(x: int, q: int, p: int)
    ensures (x + q) * p == x * p + p * q
  {
  }

  lemma BinaryAgrees(op: BinOp, a: Bv, b: Bv, sa: bool, sb: bool, y: Bv)
    requires Typed(Binary(op, sa, sb), map[A := a, B := b], |y|, 0)
    ensures AssertBinary(op, a, b, sa, sb, y) <==> y == EvalBinary(op, a, b, sa, sb, |y|)
  {
    assert Arg(map[A := a, B := b], A) == a && Arg(map[A := a, B := b], B) == b;
    match op
    case AndOp | OrOp | XorOp | XnorOp => BitwiseAgrees(op, a, b, sa, sb, y);
    case AddOp | SubOp | MulOp => ArithmeticAgrees(op, a, b, sa, sb, y);
    case EqOp | NeOp => EqualAgrees(op, a, b, sa, sb, y);
    case LtOp | LeOp | GtOp | GeOp => CompareAgrees(op, a, b, sa, y);
    case LogicAndOp | LogicOrOp =>
    case ShlOp | ShrOp => ShiftAgrees(op, a, b, sa, sb, y);
  }

  lemma ActiveIsEqual(control: Bv, high: bool)
    requires |control| == 1
    ensures Active(control, high) <==> Equals(control, high)
  {
    assert FromInt(0, Bit(high) / 2) == [];
  }

  lemma SetClearWords(v: Values, n: nat)
    requires |Arg(v, CLR)| == |Arg(v, SET)| == |Arg(v, D)| == n
    ensures Arg(v, CLR)[..n] == Arg(v, CLR) && Arg(v, SET)[..n] == Arg(v, SET) && Arg(v, D)[..n] == Arg(v, D)
  {
  }

  lemma SetClearAgrees(q: Bv, clr: Bv, set': Bv, data: Bv, clrHigh: bool, setHigh: bool)
    requires |q| == |clr| == |set'| == |data|
    ensures AssertSetClear(q, clr, set', data, clrHigh, setHigh) <==> q == SetClear(clr, set', data, clrHigh, setHigh)
  {
    var r := SetClear(clr, set', data, clrHigh, setHigh);
    if AssertSetClear(q, clr, set', data, clrHigh, setHigh) {
      assert forall i :: 0 <= i < |q| ==> q[i] == r[i];
    }
  }

  lemma RegisterAgrees(k: Kind, v: Values, y: Bv, prev: Bv)
    requires Typed(k, v, |y|, |prev|) && k.HasRegister()
    ensures |Eval(k, v, |y|, prev)| == |y|
    ensures Assertion(k, v, y, prev) <==> y == Eval(k, v, |y|, prev)
  {
    match k
    case Dff =>
    case Dffe(en) => ActiveIsEqual(Arg(v, EN), en);
    case Adff(rst, _) => ActiveIsEqual(Arg(v, ARST), rst);
    case Adffe(rst, _, en) =>
      ActiveIsEqual(Arg(v, ARST), rst);
      ActiveIsEqual(Arg(v, EN), en);
    case Dffsr(sh, ch) =>
      SetClearWords(v, |y|);
      SetClearAgrees(y, Arg(v, CLR), Arg(v, SET), Arg(v, D), ch, sh);
    case Dffsre(sh, ch, en) =>
      ActiveIsEqual(Arg(v, EN), en);
      SetClearWords(v, |y|);
      assert prev[..|y|] == prev;
      var data := if Equals(Arg(v, EN), en) then Arg(v, D) else prev;
      SetClearAgrees(y, Arg(v, CLR), Arg(v, SET), data, ch, sh);
  }

  lemma PMuxAgrees(a: Bv, b: Bv, s: Bv, y: Bv)
    requires |s| > 0 && |a| == |y| && |b| == |s| * |a|
    ensures y == Pmux.ChainValue(Pmux.Chain(|s|, 0), a, b, s) <==> y == Pmux.Select(a, b, s)
  {
    if NonZero(s) {
      Pmux.ChainIsLowest(|s|, 0, s);
      Pmux.SliceInRange(Pmux.LowestSet(s), |s|, |a|);
    }
  }

  /** The assertion of a typed cell holds of exactly one output word: the one the
      cell computes. */
  lemma AssertionIsEval(k: Kind, v: Values, y: Bv, prev: Bv)
    requires Typed(k, v, |y|, |prev|)
    ensures |Eval(k, v, |y|, prev)| == |y|
    ensures Assertion(k, v, y, prev) <==> y == Eval(k, v, |y|, prev)
  {
    if k.HasRegister() {
      RegisterAgrees(k, v, y, prev);
    } else {
      match k
      case Unary(op, s) => UnaryAgrees(op, Arg(v, A), s, y);
      case Binary(op, sa, sb) => BinaryAgrees(op, Arg(v, A), Arg(v, B), sa, sb, y);
      case PMux => PMuxAgrees(Arg(v, A), Arg(v, B), Arg(v, S), y);
      case Mux => ActiveIsEqual(Arg(v, S), true);
    }
  }
}
