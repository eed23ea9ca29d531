/** Signs and widths of the binary cells: exactly when the SMT assertion has the typed
    meaning of the cell, and exactly when it has the value of the exported Verilog
    statement, whose nets and ports are declared without signs. */
module CellSigns {
  import opened Bitvectors
  import opened Cells

  /** What the exported statement computes: its wires are declared without signs. */
  function ExportedValue(k: Kind, v: Values, w: nat, prev: Bv): Bv
    requires k.Unary? || k.Binary? || Typed(k, v, w, |prev|)
  {
    match k
    case Unary(op, _) => EvalUnary(op, Arg(v, A), false, w)
    case Binary(op, _, _) => EvalBinary(op, Arg(v, A), Arg(v, B), false, false, w)
    case _ => Eval(k, v, w, prev)
  }

  /** On all operands of these widths the assertion for the signs sa and sb forces the
      value that the operator has for the signs ta and tb. */
  ghost predicate Means(op: BinOp, wa: nat, wb: nat, w: nat, sa: bool, sb: bool, ta: bool, tb: bool)
    requires AcceptedBinary(op, wa, wb, w, sa, sb)
  {
    forall a: Bv, b: Bv, y: Bv :: |a| == wa && |b| == wb && |y| == w ==> Forces(op, a, b, sa, sb, y, ta, tb)
  }

  ghost predicate Forces(op: BinOp, a: Bv, b: Bv, sa: bool, sb: bool, y: Bv, ta: bool, tb: bool)
    requires AcceptedBinary(op, |a|, |b|, |y|, sa, sb)
  {
    AssertBinary(op, a, b, sa, sb, y) <==> y == EvalBinary(op, a, b, ta, tb, |y|)
  }

  predicate Unextended(width: nat, w: nat, signed: bool) {
    width <= w && (signed ==> width == w)
  }

  /** Where the assertion has the value of the exported statement. */
  predicate Exported(op: BinOp, wa: nat, wb: nat, w: nat, sa: bool, sb: bool) {
    AcceptedBinary(op, wa, wb, w, sa, sb) &&
    match op
    case AndOp | LogicAndOp | LogicOrOp => true
    case OrOp | XorOp | XnorOp | AddOp | SubOp => Unextended(wa, w, sa) && Unextended(wb, w, sb)
    case MulOp => (Unextended(wa, w, sa) && Unextended(wb, w, sb)) || (sa && sb && wa == 1 && wb == 1)
    case EqOp | NeOp => EqualFaithful(wa, wb, w, sa, sb) && (sa && sb ==> wa == wb)
    case LtOp | LeOp | GtOp | GeOp => !sa
    case ShlOp => Unextended(wa, w, sa) && AmountFaithful(wb, w, w, sb)
    case ShrOp => Unextended(wa, w, sa) && AmountFaithful(wb, w, wa, sb)
  }

  // ----- where the exported statement agrees -----

  /** Signs do not matter for operands that are not extended. */
  lemma SignsDropped(op: BinOp, a: Bv, b: Bv, sa: bool, sb: bool, y: Bv)
    requires op in {OrOp, XorOp, XnorOp, AddOp, SubOp, MulOp} && AcceptedBinary(op, |a|, |b|, |y|, sa, sb)
    requires Unextended(|a|, |y|, sa) && Unextended(|b|, |y|, sb)
    ensures AssertBinary(op, a, b, sa, sb, y) <==> AssertBinary(op, a, b, false, false, y)
  {
    var w := |y|;
    assert Max(|a|, Max(|b|, w)) == w;
    assert Ext(a, w, sa) == Ext(a, w, false) && Ext(b, w, sb) == Ext(b, w, false);
    assert Ext(y, w, sa && sb) == y == Ext(y, w, false);
  }

  lemma OneBitOperand(a: Bv)
    requires |a| == 1
    ensures Operand(a, true) == 0 - Operand(a, false)
  {
    assert a[1..] == [] && Pow2(1) == 2;
    assert ToNat(a) == Bit(a[0]);
  }

  /** One-bit signed operands are 0 and -1, whose products are those of 0 and 1. */
  lemma OneBitProduct(a: Bv, b: Bv, y: Bv)
    requires |a| == |b| == 1 && |y| > 0
    ensures AssertBinary(MulOp, a, b, true, true, y) <==> y == EvalBinary(MulOp, a, b, false, false, |y|)
  {
    var w := |y|;
    assert Max(1, Max(1, w)) == w && Ext(y, w, true) == y;
    ArithmeticAgrees(MulOp, a, b, true, true, y);
    OneBitOperand(a);
    OneBitOperand(b);
    assert Operand(a, true) * Operand(b, true) == Operand(a, false) * Operand(b, false);
  }

  lemma EqualExported(op: BinOp, a: Bv, b: Bv, sa: bool, sb: bool, y: Bv)
    requires op in {EqOp, NeOp} && Exported(op, |a|, |b|, |y|, sa, sb)
    ensures AssertBinary(op, a, b, sa, sb, y) <==> y == EvalBinary(op, a, b, false, false, |y|)
  {
    EqualAgrees(op, a, b, sa, sb, y);
    if sa && sb {
      ToIntInjective(a, b);
      ToNatInjective(a, b);
    }
  }

  lemma ShiftExported(op: BinOp, a: Bv, b: Bv, sa: bool, sb: bool, y: Bv)
    requires op in {ShlOp, ShrOp} && Exported(op, |a|, |b|, |y|, sa, sb)
    ensures AssertBinary(op, a, b, sa, sb, y) <==> y == EvalBinary(op, a, b, false, false, |y|)
  {
    var w := |y|;
    assert Max(|a|, Max(|b|, w)) == w;
    assert Ext(a, w, sa) == Ext(a, w, false);
    ShiftAgrees(op, a, b, false, sb, y);
  }

  lemma BinaryExported(op: BinOp, a: Bv, b: Bv, sa: bool, sb: bool, y: Bv)
    requires Exported(op, |a|, |b|, |y|, sa, sb)
    ensures AssertBinary(op, a, b, sa, sb, y) <==> y == EvalBinary(op, a, b, false, false, |y|)
  {
    match op
    case AndOp | LogicAndOp | LogicOrOp => AgreesUnsigned(op, a, b, y);
    case OrOp | XorOp | XnorOp | AddOp | SubOp =>
      SignsDropped(op, a, b, sa, sb, y);
      AgreesUnsigned(op, a, b, y);
    case MulOp =>
      if Unextended(|a|, |y|, sa) && Unextended(|b|, |y|, sb) {
        SignsDropped(op, a, b, sa, sb, y);
        AgreesUnsigned(op, a, b, y);
      } else {
        OneBitProduct(a, b, y);
      }
    case EqOp | NeOp => EqualExported(op, a, b, sa, sb, y);
    case LtOp | LeOp | GtOp | GeOp => CompareAgrees(op, a, b, false, y);
    case ShlOp | ShrOp => ShiftExported(op, a, b, sa, sb, y);
  }

  lemma AgreesUnsigned(op: BinOp, a: Bv, b: Bv, y: Bv)
    requires TypedBinary(op, |a|, |b|, |y|, false, false)
    ensures AssertBinary(op, a, b, false, false, y) <==> y == EvalBinary(op, a, b, false, false, |y|)
  {
    BinaryAgrees(op, a, b, false, false, y);
  }

  // ----- words for the operands -----

  /** The word with only its top bit set. */
  function Top(w: nat): (b: Bv)
    requires w > 0
    ensures |b| == w
  {
    Repeat(false, w - 1) + [true]
  }

  function One(w: nat): (b: Bv)
    requires w > 0
    ensures |b| == w
  {
    [true] + Repeat(false, w - 1)
  }

  lemma TopValue(w: nat)
    requires w > 0
    ensures ToNat(Top(w)) == Pow2(w - 1) && Msb(Top(w)) && Pow2(w) == 2 * Pow2(w - 1)
  {
    ToNatConcat(Repeat(false, w - 1), [true]);
    ToNatRepeat(false, w - 1);
    assert [true][1..] == [];
  }

  lemma OneValue(w: nat)
    requires w > 0
    ensures ToNat(One(w)) == 1 && (Msb(One(w)) <==> w == 1)
  {
    assert One(w)[1..] == Repeat(false, w - 1);
    ToNatRepeat(false, w - 1);
  }

  /** A top bit that is sign extended, and one that is not. */
  lemma TopExtended(n: nat, w: nat)
    requires 0 < n <= w
    ensures ToNat(Ext(Top(n), w, true)) == Pow2(w) - Pow2(n - 1)
    ensures ToNat(Ext(Top(n), w, false)) == Pow2(n - 1)
    ensures n < w ==> 2 * Pow2(n - 1) < Pow2(w)
  {
    TopValue(n);
    ExtNat(Top(n), w, true);
    ExtNat(Top(n), w, false);
    if n < w {
      PowMonotone(n, w - 1);
    }
  }

  /** What a one becomes: it stays one unless it is a single sign bit that is extended. */
  lemma OneExtended(n: nat, w: nat, signed: bool)
    requires 0 < n <= w
    ensures ToNat(Ext(One(n), w, signed)) == if signed && n == 1 then Pow2(w) - 1 else 1
  {
    OneValue(n);
    ExtNat(One(n), w, signed);
  }

  lemma ZeroExtended(n: nat, w: nat, signed: bool)
    requires n <= w
    ensures Ext(Repeat(false, n), w, signed) == Repeat(false, w) && ToNat(Repeat(false, w)) == 0
    ensures ToNat(Repeat(false, n)) == 0
  {
    ToNatRepeat(false, w);
    ToNatRepeat(false, n);
  }

  lemma DifferentWords(w: nat, m: nat, n: nat)
    requires m < Pow2(w) && n < Pow2(w) && m != n
    ensures FromInt(w, m) != FromInt(w, n)
  {
    ToFromNat(w, m);
    ToFromNat(w, n);
  }

  /** One mismatch refutes the meaning. */
  lemma Refuted(op: BinOp, a: Bv, b: Bv, w: nat, sa: bool, sb: bool, ta: bool, tb: bool)
    requires AcceptedBinary(op, |a|, |b|, w, sa, sb)
    requires !AssertBinary(op, a, b, sa, sb, EvalBinary(op, a, b, ta, tb, w))
    ensures !Means(op, |a|, |b|, w, sa, sb, ta, tb)
  {
    var y := EvalBinary(op, a, b, ta, tb, w);
    assert !Forces(op, a, b, sa, sb, y, ta, tb);
  }

  // ----- an output narrower than an operand -----

  lemma TopIsNoExtension(y: Bv, w: nat, signed: bool)
    requires 0 < |y| < w
    ensures Ext(y, w, signed) != Top(w)
  {
    assert Ext(y, w, signed)[w - 1] == (signed && y[|y| - 1]);
    assert Ext(y, w, signed)[|y| - 1] == y[|y| - 1];
    assert !Top(w)[|y| - 1] && Top(w)[w - 1];
  }

  predicate Extending(op: BinOp) {
    op in {XorOp, XnorOp, AddOp, SubOp, MulOp}
  }

  /** The operand as wide as the computation, and the other one. */
  function Wide(op: BinOp, m: nat): (b: Bv)
    requires m > 0
    ensures |b| == m
  {
    if op == XnorOp then Not(Top(m)) else Top(m)
  }

  function Other(op: BinOp, n: nat): (b: Bv)
    requires n > 0
    ensures |b| == n
  {
    if op == MulOp then One(n) else Repeat(false, n)
  }

  lemma TimesLess(t: int, p: int)
    ensures t * (p - 1) == -t + t * p && (p - 1) * t == -t + t * p
  {
  }

  /** Whatever the signs, the result in the width of the computation is the top bit. */
  lemma ProductIsTop(m: nat, z: nat)
    requires m > 0 && (z == 1 || z == Pow2(m) - 1)
    ensures FromInt(m, Pow2(m - 1) * z) == Top(m) && FromInt(m, z * Pow2(m - 1)) == Top(m)
  {
    var t: int := Pow2(m - 1);
    TopValue(m);
    FromToNat(Top(m));
    if z != 1 {
      TimesLess(t, Pow2(m));
      FromIntCong(m, -t, t);
      FromIntCong(m, -t, 1);
    }
  }

  lemma WideBits(n: nat, m: nat, sWide: bool, sOther: bool)
    requires 0 < n <= m
    ensures var x, z := Ext(Top(m), m, sWide), Ext(Repeat(false, n), m, sOther);
            Xor(x, z) == Top(m) == Xor(z, x)
    ensures var x, z := Ext(Not(Top(m)), m, sWide), Ext(Repeat(false, n), m, sOther);
            Not(Xor(x, z)) == Top(m) == Not(Xor(z, x))
  {
    ZeroExtended(n, m, sOther);
    assert Ext(Top(m), m, sWide) == Top(m) && Ext(Not(Top(m)), m, sWide) == Not(Top(m));
  }

  lemma WideSum(op: BinOp, n: nat, m: nat, sWide: bool, sOther: bool)
    requires op in {AddOp, SubOp} && 0 < n <= m
    ensures var x, z := ToNat(Ext(Top(m), m, sWide)), ToNat(Ext(Repeat(false, n), m, sOther));
            FromInt(m, Combine(op, x, z)) == Top(m) == FromInt(m, Combine(op, z, x))
  {
    ZeroExtended(n, m, sOther);
    assert Ext(Top(m), m, sWide) == Top(m);
    TopValue(m);
    FromToNat(Top(m));
    var t: int := Pow2(m - 1);
    FromIntCong(m, -t, 1);
  }

  lemma WideProduct(n: nat, m: nat, sWide: bool, sOther: bool)
    requires 0 < n <= m
    ensures var x, z := ToNat(Ext(Top(m), m, sWide)), ToNat(Ext(One(n), m, sOther));
            FromInt(m, x * z) == Top(m) == FromInt(m, z * x)
  {
    assert Ext(Top(m), m, sWide) == Top(m);
    TopValue(m);
    OneExtended(n, m, sOther);
    ProductIsTop(m, ToNat(Ext(One(n), m, sOther)));
  }

  /** With an output narrower than an operand some operands leave the assertion without
      any solution. */
  lemma NarrowUnsolvable(op: BinOp, wa: nat, wb: nat, w: nat, sa: bool, sb: bool, y: Bv)
    requires Extending(op) && wa > 0 && wb > 0 && |y| == w > 0 && w < Max(wa, wb)
    ensures wa >= wb ==> !AssertBinary(op, Wide(op, wa), Other(op, wb), sa, sb, y)
    ensures wa < wb ==> !AssertBinary(op, Other(op, wa), Wide(op, wb), sa, sb, y)
  {
    var m := Max(wa, wb);
    assert Max(wa, Max(wb, w)) == m;
    TopIsNoExtension(y, m, sa && sb);
    var n, sWide, sOther := if wa >= wb then wb else wa, if wa >= wb then sa else sb, if wa >= wb then sb else sa;
    if op == XorOp || op == XnorOp {
      WideBits(n, m, sWide, sOther);
    } else if op == MulOp {
      WideProduct(n, m, sWide, sOther);
    } else {
      WideSum(op, n, m, sWide, sOther);
    }
  }

  lemma NarrowRefuted(op: BinOp, wa: nat, wb: nat, w: nat, sa: bool, sb: bool, ta: bool, tb: bool)
    requires Extending(op) && AcceptedBinary(op, wa, wb, w, sa, sb) && w < Max(wa, wb)
    ensures !Means(op, wa, wb, w, sa, sb, ta, tb)
  {
    var a := if wa >= wb then Wide(op, wa) else Other(op, wa);
    var b := if wa >= wb then Other(op, wb) else Wide(op, wb);
    NarrowUnsolvable(op, wa, wb, w, sa, sb, EvalBinary(op, a, b, ta, tb, w));
    Refuted(op, a, b, w, sa, sb, ta, tb);
  }

  // ----- an operand that is extended by its own sign only -----

  predicate Arithmetic(op: BinOp) {
    op == AddOp || op == SubOp || op == MulOp
  }

  /** The one value that an arithmetic assertion allows when no operand is too wide. */
  function AssertedValue(op: BinOp, a: Bv, b: Bv, sa: bool, sb: bool, w: nat): Bv
    requires |a| <= w && |b| <= w
  {
    FromInt(w, Combine(op, ToNat(Ext(a, w, sa)), ToNat(Ext(b, w, sb))))
  }

  lemma ValueIsAsserted(op: BinOp, a: Bv, b: Bv, sa: bool, sb: bool, y: Bv)
    requires Arithmetic(op) && 0 < |a| <= |y| && 0 < |b| <= |y|
    ensures AssertBinary(op, a, b, sa, sb, y) <==> y == AssertedValue(op, a, b, sa, sb, |y|)
  {
    var w := |y|;
    assert Max(|a|, Max(|b|, w)) == w && Ext(y, w, sa && sb) == y;
  }

  lemma ValuesDiffer(op: BinOp, a: Bv, b: Bv, w: nat, sa: bool, sb: bool, ta: bool, tb: bool)
    requires Arithmetic(op) && 0 < |a| <= w && 0 < |b| <= w
    requires AssertedValue(op, a, b, sa, sb, w) != EvalBinary(op, a, b, ta, tb, w)
    ensures !Means(op, |a|, |b|, w, sa, sb, ta, tb)
  {
    ValueIsAsserted(op, a, b, sa, sb, EvalBinary(op, a, b, ta, tb, w));
    Refuted(op, a, b, w, sa, sb, ta, tb);
  }

  lemma UnsignedValue(op: BinOp, a: Bv, b: Bv, ta: bool, tb: bool, w: nat)
    requires Arithmetic(op) && !(ta && tb)
    ensures EvalBinary(op, a, b, ta, tb, w) == FromInt(w, Combine(op, ToNat(a), ToNat(b)))
  {
  }

  lemma NegatedDiffers(w: nat, t: nat)
    requires 0 < t && 2 * t < Pow2(w)
    ensures FromInt(w, Pow2(w) - t) == FromInt(w, 0 - t) != FromInt(w, t) == FromInt(w, 0 - (Pow2(w) - t))
  {
    FromIntCong(w, 0 - t, 1);
    FromIntCong(w, t, 0 - 1);
    DifferentWords(w, Pow2(w) - t, t);
  }

  /** The top bit of n bits as the operand and, sign extended, as it is asserted; added
      to or taken from zero the two words differ. */
  lemma SumWords(op: BinOp, n: nat, w: nat) returns (x: nat)
    requires op in {AddOp, SubOp} && 0 < n < w
    ensures x == ToNat(Ext(Top(n), w, true))
    ensures FromInt(w, Combine(op, x, 0)) != FromInt(w, Combine(op, ToNat(Top(n)), 0))
    ensures FromInt(w, Combine(op, 0, x)) != FromInt(w, Combine(op, 0, ToNat(Top(n))))
  {
    TopValue(n);
    TopExtended(n, w);
    NegatedDiffers(w, Pow2(n - 1));
    x := Pow2(w) - Pow2(n - 1);
  }

  /** A negative first operand, and zero. */
  lemma SumsLeft(op: BinOp, wa: nat, wb: nat, w: nat, sb: bool, ta: bool, tb: bool)
    requires op in {AddOp, SubOp} && 0 < wa < w && 0 < wb <= w && !(ta && tb)
    ensures !Means(op, wa, wb, w, true, sb, ta, tb)
  {
    ZeroExtended(wb, w, sb);
    var x := SumWords(op, wa, w);
    UnsignedValue(op, Top(wa), Repeat(false, wb), ta, tb, w);
    ValuesDiffer(op, Top(wa), Repeat(false, wb), w, true, sb, ta, tb);
  }

  /** Zero, and a negative second operand. */
  lemma SumsRight(op: BinOp, wa: nat, wb: nat, w: nat, sa: bool, ta: bool, tb: bool)
    requires op in {AddOp, SubOp} && 0 < wa <= w && 0 < wb < w && !(ta && tb)
    ensures !Means(op, wa, wb, w, sa, true, ta, tb)
  {
    ZeroExtended(wa, w, sa);
    var x := SumWords(op, wb, w);
    UnsignedValue(op, Repeat(false, wa), Top(wb), ta, tb, w);
    ValuesDiffer(op, Repeat(false, wa), Top(wb), w, sa, true, ta, tb);
  }

  lemma OneIsOne(o: nat, w: nat, so: bool)
    requires 0 < o <= w && (so && o == 1 ==> o == w)
    ensures ToNat(Ext(One(o), w, so)) == 1 == ToNat(One(o))
  {
    OneValue(o);
    OneExtended(o, w, so);
    if so && o == 1 {
      assert Ext(One(o), w, so) == One(o);
    }
  }

  /** A factor of one leaves the other operand as it is read. */
  lemma TimesOne(x: Bv, o: nat, w: nat, sx: bool, so: bool)
    requires 0 < |x| <= w && 0 < o <= w && (so && o == 1 ==> o == w)
    ensures AssertedValue(MulOp, x, One(o), sx, so, w) == FromInt(w, ToNat(Ext(x, w, sx)))
    ensures AssertedValue(MulOp, One(o), x, so, sx, w) == FromInt(w, ToNat(Ext(x, w, sx)))
  {
    OneIsOne(o, w, so);
    ByOne(ToNat(Ext(x, w, sx)));
  }

  lemma ComputesTimesOne(x: Bv, o: nat, w: nat, ta: bool, tb: bool)
    requires o > 0 && !(ta && tb)
    ensures EvalBinary(MulOp, x, One(o), ta, tb, w) == FromInt(w, ToNat(x))
    ensures EvalBinary(MulOp, One(o), x, ta, tb, w) == FromInt(w, ToNat(x))
  {
    OneValue(o);
    UnsignedValue(MulOp, x, One(o), ta, tb, w);
    UnsignedValue(MulOp, One(o), x, ta, tb, w);
    ByOne(ToNat(x));
  }

  lemma ByOne(x: nat)
    ensures Combine(MulOp, x, 1) == x == Combine(MulOp, 1, x)
  {
  }

  /** A word that the assertion reads as another number than the cell does, times one. */
  lemma FactorDiffers(x: Bv, o: nat, w: nat, sx: bool, so: bool, ta: bool, tb: bool, asserted: nat)
    requires 0 < |x| <= w && 0 < o <= w && !(ta && tb) && asserted == ToNat(Ext(x, w, sx)) && asserted != ToNat(x)
    requires so && o == 1 ==> o == w
    ensures !Means(MulOp, |x|, o, w, sx, so, ta, tb)
    ensures !Means(MulOp, o, |x|, w, so, sx, ta, tb)
  {
    FactorWords(x, w, sx, asserted);
    TimesOne(x, o, w, sx, so);
    ComputesTimesOne(x, o, w, ta, tb);
    ValuesDiffer(MulOp, x, One(o), w, sx, so, ta, tb);
    ValuesDiffer(MulOp, One(o), x, w, so, sx, ta, tb);
  }

  lemma FactorWords(x: Bv, w: nat, sx: bool, asserted: nat)
    requires 0 < |x| <= w && asserted == ToNat(Ext(x, w, sx)) && asserted != ToNat(x)
    ensures FromInt(w, asserted) != FromInt(w, ToNat(x))
  {
    ToNatBound(x);
    PowMonotone(|x|, w);
    ToNatBound(Ext(x, w, sx));
    DifferentWords(w, asserted, ToNat(x));
  }

  lemma ProductsDiffer(wa: nat, wb: nat, w: nat, sa: bool, sb: bool, ta: bool, tb: bool, left: bool)
    requires 0 < wa <= w && 0 < wb <= w && !(ta && tb) && !(sa && sb && wa == 1 && wb == 1)
    requires if left then sa && wa < w else sb && wb < w
    ensures !Means(MulOp, wa, wb, w, sa, sb, ta, tb)
  {
    var n, o, so := if left then wa else wb, if left then wb else wa, if left then sb else sa;
    if so && o == 1 && o < w {
      // the one-bit operand is the one that is read differently
      TopValue(1);
      TopExtended(1, w);
      FactorDiffers(Top(1), n, w, true, true, ta, tb, Pow2(w) - Pow2(0));
    } else {
      TopValue(n);
      TopExtended(n, w);
      FactorDiffers(Top(n), o, w, true, so, ta, tb, Pow2(w) - Pow2(n - 1));
    }
  }

  /** Operands whose asserted top bits differ, and which have none themselves. */
  lemma TopsRefute(op: BinOp, a: Bv, b: Bv, w: nat, sa: bool, sb: bool, ta: bool, tb: bool)
    requires op in {OrOp, XorOp, XnorOp} && AcceptedBinary(op, |a|, |b|, w, sa, sb) && |a| <= w && |b| <= w &&
             !(ta && tb)
    requires (|a| < w || !a[w - 1]) && (|b| < w || !b[w - 1])
    requires Ext(a, w, sa)[w - 1] != Ext(b, w, sb)[w - 1]
    ensures !Means(op, |a|, |b|, w, sa, sb, ta, tb)
  {
    var y := ComputedTop(op, a, b, ta, tb, w);
    AssertedTop(op, a, b, sa, sb, y);
    Mismatch(op, a, b, sa, sb, ta, tb, y);
  }

  lemma Mismatch(op: BinOp, a: Bv, b: Bv, sa: bool, sb: bool, ta: bool, tb: bool, y: Bv)
    requires AcceptedBinary(op, |a|, |b|, |y|, sa, sb)
    requires !AssertBinary(op, a, b, sa, sb, y) && y == EvalBinary(op, a, b, ta, tb, |y|)
    ensures !Means(op, |a|, |b|, |y|, sa, sb, ta, tb)
  {
    Refuted(op, a, b, |y|, sa, sb, ta, tb);
  }

  lemma BitsDiffer(op: BinOp, wa: nat, wb: nat, w: nat, sa: bool, sb: bool, ta: bool, tb: bool, left: bool)
    requires op in {OrOp, XorOp, XnorOp} && AcceptedBinary(op, wa, wb, w, sa, sb) && wa <= w && wb <= w && !(ta && tb)
    requires if left then sa && wa < w else sb && wb < w
    ensures !Means(op, wa, wb, w, sa, sb, ta, tb)
  {
    if left {
      TopsRefute(op, Top(wa), Repeat(false, wb), w, sa, sb, ta, tb);
    } else {
      TopsRefute(op, Repeat(false, wa), Top(wb), w, sa, sb, ta, tb);
    }
  }

  /** With one operand negative and the other one zero the top bit is asserted to differ. */
  lemma AssertedTop(op: BinOp, a: Bv, b: Bv, sa: bool, sb: bool, y: Bv)
    requires op in {OrOp, XorOp, XnorOp} && AcceptedBinary(op, |a|, |b|, |y|, sa, sb) && |a| <= |y| && |b| <= |y|
    requires Ext(a, |y|, sa)[|y| - 1] != Ext(b, |y|, sb)[|y| - 1]
    ensures y[|y| - 1] == (op == XnorOp) ==> !AssertBinary(op, a, b, sa, sb, y)
  {
    var w := |y|;
    assert Max(|a|, Max(|b|, w)) == w && Ext(y, w, sa && sb) == y;
  }

  /** Without signs the top bits of two narrow operands, or of a zero one, are clear. */
  lemma ComputedTop(op: BinOp, a: Bv, b: Bv, ta: bool, tb: bool, w: nat) returns (y: Bv)
    requires op in {OrOp, XorOp, XnorOp} && 0 < |a| <= w && 0 < |b| <= w && !(ta && tb)
    requires (|a| < w || !a[w - 1]) && (|b| < w || !b[w - 1])
    ensures |y| == w && y == EvalBinary(op, a, b, ta, tb, w) && y[w - 1] == (op == XnorOp)
  {
    y := EvalBinary(op, a, b, ta, tb, w);
    assert Max(w, Max(|a|, |b|)) == w;
    var x, z := Ext(a, w, false), Ext(b, w, false);
    assert y == Bitwise(op, x, z);
    assert !x[w - 1] && !z[w - 1];
  }

  lemma OperandRefuted(op: BinOp, wa: nat, wb: nat, w: nat, sa: bool, sb: bool, ta: bool, tb: bool)
    requires op in {OrOp, XorOp, XnorOp, AddOp, SubOp, MulOp} && AcceptedBinary(op, wa, wb, w, sa, sb)
    requires wa <= w && wb <= w && !(ta && tb) && ((sa && wa < w) || (sb && wb < w))
    requires op == MulOp ==> !(sa && sb && wa == 1 && wb == 1)
    ensures !Means(op, wa, wb, w, sa, sb, ta, tb)
  {
    var left := sa && wa < w;
    match op
    case OrOp | XorOp | XnorOp => BitsDiffer(op, wa, wb, w, sa, sb, ta, tb, left);
    case AddOp | SubOp =>
      if left {
        SumsLeft(op, wa, wb, w, sb, ta, tb);
      } else {
        SumsRight(op, wa, wb, w, sa, ta, tb);
      }
    case MulOp => ProductsDiffer(wa, wb, w, sa, sb, ta, tb, left);
  }

  // ----- comparisons -----

  lemma TruthsDiffer(w: nat)
    requires w > 0
    ensures Truth(true, w) != Truth(false, w)
  {
    assert Truth(true, w)[0] && !Truth(false, w)[0];
  }

  lemma EqualRefuted(op: BinOp, a: Bv, b: Bv, w: nat, sa: bool, sb: bool)
    requires op in {EqOp, NeOp} && |a| > 0 && |b| > 0 && w > 0
    requires var m := Max(|a|, Max(|b|, w)); Ext(a, m, sa) == Ext(b, m, sb) <==> ToNat(a) != ToNat(b)
    ensures forall ta, tb :: !(ta && tb) ==> !Means(op, |a|, |b|, w, sa, sb, ta, tb)
  {
    TruthsDiffer(w);
    forall ta, tb | !(ta && tb)
      ensures !Means(op, |a|, |b|, w, sa, sb, ta, tb)
    {
      Refuted(op, a, b, w, sa, sb, ta, tb);
    }
  }

  /** A negative operand next to an unsigned one that has the same number. */
  lemma MixedRefuted(op: BinOp, wa: nat, wb: nat, w: nat, sa: bool, sb: bool, ta: bool, tb: bool)
    requires op in {EqOp, NeOp} && wa > 0 && wb > 0 && w > 0 && sa != sb && !EqualFaithful(wa, wb, w, sa, sb) &&
             !(ta && tb)
    ensures !Means(op, wa, wb, w, sa, sb, ta, tb)
  {
    var m := Max(wa, Max(wb, w));
    var n, o := if sa then wa else wb, if sa then wb else wa;
    var x, z := Top(n), Ext(Top(n), o, false);
    TopValue(n);
    TopExtended(n, m);
    TopExtended(n, o);
    ExtNat(z, m, false);
    EqualRefuted(op, if sa then x else z, if sa then z else x, w, sa, sb);
  }

  /** Minus one in two widths. */
  lemma WidthsRefuted(op: BinOp, wa: nat, wb: nat, w: nat)
    requires op in {EqOp, NeOp} && wa > 0 && wb > 0 && w > 0 && wa != wb
    ensures !Means(op, wa, wb, w, true, true, false, false)
  {
    var m := Max(wa, Max(wb, w));
    var a, b := Repeat(true, wa), Repeat(true, wb);
    assert Ext(a, m, true) == Repeat(true, m) == Ext(b, m, true);
    ToNatRepeat(true, wa);
    ToNatRepeat(true, wb);
    PowRises(if wa < wb then wa else wb, if wa < wb then wb else wa);
    EqualRefuted(op, a, b, w, true, true);
  }

  lemma PowRises(i: nat, j: nat)
    requires i < j
    ensures Pow2(i) < Pow2(j)
  {
    PowMonotone(i, j - 1);
  }

  /** A negative number next to zero. */
  lemma OrderRefuted(op: BinOp, wa: nat, wb: nat, w: nat)
    requires op in {LtOp, LeOp, GtOp, GeOp} && wa > 0 && wb > 0 && w > 0
    ensures !Means(op, wa, wb, w, true, true, false, false)
  {
    var m := Max(wa, Max(wb, w));
    var a, b := Top(wa), Repeat(false, wb);
    TopValue(wa);
    ExtValue(a, m, true);
    ExtValue(b, m, true);
    ZeroExtended(wb, m, true);
    TruthsDiffer(w);
    Refuted(op, a, b, w, true, true, false, false);
  }

  // ----- shifts -----

  /** The asserted amount of a negative word shifts everything out. */
  lemma HugeAmount(wb: nat, w: nat)
    requires 0 < wb < w
    ensures w <= ToNat(Ext(Top(wb), w, true)) && ToNat(Top(wb)) == Pow2(wb - 1)
  {
    TopValue(wb);
    TopExtended(wb, w);
    PowAbove(w - 1);
  }

  lemma LeftKeeps(w: nat, n: nat)
    requires n < w
    ensures FromInt(w, 1 * Pow2(n)) != FromInt(w, 0)
  {
    PowRises(n, w);
    DifferentWords(w, Pow2(n), 0);
  }

  lemma LeftRefuted(wa: nat, wb: nat, w: nat, sa: bool, ta: bool, tb: bool)
    requires AcceptedBinary(ShlOp, wa, wb, w, sa, true) && !AmountFaithful(wb, w, w, true) && (ta ==> sa)
    ensures !Means(ShlOp, wa, wb, w, sa, true, ta, tb)
  {
    var a, b := One(wa), Top(wb);
    assert Max(wa, Max(wb, w)) == w;
    HugeAmount(wb, w);
    ShiftedOut(w, ToNat(Ext(a, w, sa)), ToNat(Ext(b, w, true)));
    OneValue(wa);
    var n := Pow2(wb - 1);
    LeftKeeps(w, n);
    if ta && wa == 1 {
      // a signed one-bit one is -1
      FromIntNegated(w, n);
    }
    Refuted(ShlOp, a, b, w, sa, true, ta, tb);
  }

  lemma FromIntNegated(w: nat, n: nat)
    requires n < w
    ensures FromInt(w, (0 - 1) * Pow2(n)) != FromInt(w, 0)
  {
    PowRises(n, w);
    MinusOneTimes(Pow2(n));
    NegatedIsNotZero(w, Pow2(n));
  }

  lemma MinusOneTimes(p: nat)
    ensures (0 - 1) * p == 0 - p
  {
  }

  lemma NegatedIsNotZero(w: nat, t: nat)
    requires 0 < t < Pow2(w)
    ensures FromInt(w, 0 - t) != FromInt(w, 0)
  {
    FromIntCong(w, 0 - t, 1);
    DifferentWords(w, Pow2(w) - t, 0);
  }

  /** A word whose bit is not shifted out. */
  lemma RightKeeps(x: nat, width: nat, n: nat, w: nat)
    requires 0 < width <= w && n < width && Pow2(width - 1) <= x < Pow2(w)
    ensures FromInt(w, x / Pow2(n)) != FromInt(w, 0)
  {
    PowMonotone(n, width - 1);
    QuotientPositive(x, Pow2(n));
    DifferentWords(w, x / Pow2(n), 0);
  }

  lemma QuotientPositive(x: nat, p: nat)
    requires 0 < p <= x
    ensures 1 <= x / p <= x
  {
    QuotientBounds(x / p, p, x % p);
  }

  lemma QuotientBounds(q: int, p: nat, r: nat)
    requires r < p <= q * p + r
    ensures 1 <= q <= q * p + r
  {
    if q <= 0 {
      NonPositive(q, p);
    } else {
      assert q * (p - 1) >= 0;
    }
  }

  lemma NonPositive(q: int, p: nat)
    requires q <= 0
    ensures q * p <= 0
  {
  }

  lemma RightRefuted(wa: nat, wb: nat, w: nat, sa: bool, ta: bool, tb: bool)
    requires AcceptedBinary(ShrOp, wa, wb, w, sa, true) && (ta ==> sa)
    requires !AmountFaithful(wb, w, if ta then w else wa, true)
    ensures !Means(ShrOp, wa, wb, w, sa, true, ta, tb)
  {
    HugeAmount(wb, w);
    RightAsserts(Top(wa), Top(wb), w, sa, EvalBinary(ShrOp, Top(wa), Top(wb), ta, tb, w));
    RightComputes(wa, wb, w, ta, tb);
    Refuted(ShrOp, Top(wa), Top(wb), w, sa, true, ta, tb);
  }

  lemma RightAsserts(a: Bv, b: Bv, w: nat, sa: bool, y: Bv)
    requires 0 < |a| <= w && 0 < |b| <= w && |y| == w <= ToNat(Ext(b, w, true))
    ensures AssertBinary(ShrOp, a, b, sa, true, y) <==> y == FromInt(w, 0)
  {
    assert Max(|a|, Max(|b|, w)) == w;
    ToNatBound(Ext(a, w, sa));
    ShiftedDown(ToNat(Ext(a, w, sa)), w, ToNat(Ext(b, w, true)));
  }

  lemma RightComputes(wa: nat, wb: nat, w: nat, ta: bool, tb: bool)
    requires 0 < wa <= w && 0 < wb < w && Pow2(wb - 1) < (if ta then w else wa)
    ensures EvalBinary(ShrOp, Top(wa), Top(wb), ta, tb, w) != FromInt(w, 0)
  {
    assert Max(w, wa) == w;
    RightWord(wa, wb, w, ta);
    RightValue(Top(wa), Top(wb), ta, tb, w);
  }

  lemma RightValue(a: Bv, b: Bv, ta: bool, tb: bool, w: nat)
    ensures EvalBinary(ShrOp, a, b, ta, tb, w) == FromInt(w, ToNat(Ext(a, Max(w, |a|), ta)) / Pow2(ToNat(b)))
  {
  }

  lemma RightWord(wa: nat, wb: nat, w: nat, ta: bool)
    requires 0 < wa <= w && 0 < wb < w && Pow2(wb - 1) < (if ta then w else wa)
    ensures FromInt(w, ToNat(Ext(Top(wa), w, ta)) / Pow2(ToNat(Top(wb)))) != FromInt(w, 0)
  {
    TopValue(wb);
    TopRange(wa, w, ta);
    RightKeeps(ToNat(Ext(Top(wa), w, ta)), if ta then w else wa, Pow2(wb - 1), w);
  }

  lemma TopRange(n: nat, w: nat, signed: bool)
    requires 0 < n <= w
    ensures Pow2((if signed then w else n) - 1) <= ToNat(Ext(Top(n), w, signed)) < Pow2(w)
  {
    ToNatBound(Ext(Top(n), w, signed));
    TopExtended(n, w);
    TopValue(w);
    PowMonotone(n - 1, w - 1);
  }

  /** A sign extended left operand, not shifted at all. */
  lemma ShiftedOperandRefuted(op: BinOp, wa: nat, wb: nat, w: nat, sb: bool)
    requires op in {ShlOp, ShrOp} && AcceptedBinary(op, wa, wb, w, true, sb) && wa < w
    ensures !Means(op, wa, wb, w, true, sb, false, false)
  {
    var a, b := Top(wa), Repeat(false, wb);
    assert Max(wa, Max(wb, w)) == w && Max(w, wa) == w;
    ZeroExtended(wb, w, sb);
    TopValue(wa);
    TopExtended(wa, w);
    DifferentWords(w, Pow2(w) - Pow2(wa - 1), Pow2(wa - 1));
    ByZero(Pow2(w) - Pow2(wa - 1));
    ByZero(Pow2(wa - 1));
    Refuted(op, a, b, w, true, sb, false, false);
  }

  lemma ByZero(x: nat)
    ensures x * Pow2(0) == x && x / Pow2(0) == x
  {
  }

  // ----- the exact conditions -----

  /** On all operands the assertion of a unary cell forces the value for sign t. */
  ghost predicate UnaryMeans(op: UnOp, wa: nat, w: nat, t: bool)
    requires AcceptedUnary(op, wa, w)
  {
    forall a: Bv, y: Bv :: |a| == wa && |y| == w ==> UnaryForces(op, a, y, t)
  }

  ghost predicate UnaryForces(op: UnOp, a: Bv, y: Bv, t: bool)
    requires AcceptedUnary(op, |a|, |y|)
  {
    AssertUnary(op, a, y) <==> y == EvalUnary(op, a, t, |y|)
  }

  /** A signed operand of $pos that is extended is the only unary cell that the assertion
      misses; the exported statement, without signs, it never does. */
  lemma UnaryIff(op: UnOp, wa: nat, w: nat, t: bool)
    requires AcceptedUnary(op, wa, w)
    ensures UnaryMeans(op, wa, w, t) <==> (op == PosOp && t ==> wa == w)
  {
    if op == PosOp && t ==> wa == w {
      forall a: Bv, y: Bv | |a| == wa && |y| == w
        ensures UnaryForces(op, a, y, t)
      {
        UnaryAgrees(op, a, t, y);
      }
    } else {
      PositiveDiffers(wa, w);
      assert !UnaryForces(PosOp, Top(wa), ZExt(Top(wa), w), t);
    }
  }

  lemma PositiveDiffers(wa: nat, w: nat)
    requires 0 < wa < w
    ensures ZExt(Top(wa), w) != EvalUnary(PosOp, Top(wa), true, w)
  {
    TopIsNegative(wa);
    TopExtended(wa, w);
    NegatedDiffers(w, Pow2(wa - 1));
    FromToNat(Ext(Top(wa), w, false));
  }

  lemma TopIsNegative(w: nat)
    requires w > 0
    ensures ToInt(Top(w)) == 0 - Pow2(w - 1)
  {
    TopValue(w);
  }

  /** The assertion has the typed meaning of the cell exactly under TypedBinary. */
  lemma TypedIff(op: BinOp, wa: nat, wb: nat, w: nat, sa: bool, sb: bool)
    requires AcceptedBinary(op, wa, wb, w, sa, sb)
    ensures Means(op, wa, wb, w, sa, sb, sa, sb) <==> TypedBinary(op, wa, wb, w, sa, sb)
  {
    if TypedBinary(op, wa, wb, w, sa, sb) {
      forall a: Bv, b: Bv, y: Bv | |a| == wa && |b| == wb && |y| == w
        ensures Forces(op, a, b, sa, sb, y, sa, sb)
      {
        TypedAgrees(op, a, b, sa, sb, y);
      }
    } else {
      TypedRefuted(op, wa, wb, w, sa, sb);
    }
  }

  lemma TypedAgrees(op: BinOp, a: Bv, b: Bv, sa: bool, sb: bool, y: Bv)
    requires TypedBinary(op, |a|, |b|, |y|, sa, sb)
    ensures Forces(op, a, b, sa, sb, y, sa, sb)
  {
    BinaryAgrees(op, a, b, sa, sb, y);
  }

  lemma TypedRefuted(op: BinOp, wa: nat, wb: nat, w: nat, sa: bool, sb: bool)
    requires AcceptedBinary(op, wa, wb, w, sa, sb) && !TypedBinary(op, wa, wb, w, sa, sb)
    ensures !Means(op, wa, wb, w, sa, sb, sa, sb)
  {
    match op
    case OrOp => OperandRefuted(op, wa, wb, w, sa, sb, sa, sb);
    case XorOp | XnorOp | AddOp | SubOp | MulOp =>
      if w < Max(wa, wb) {
        NarrowRefuted(op, wa, wb, w, sa, sb, sa, sb);
      } else {
        OperandRefuted(op, wa, wb, w, sa, sb, sa, sb);
      }
    case EqOp | NeOp => MixedRefuted(op, wa, wb, w, sa, sb, sa, sb);
    case ShlOp => LeftRefuted(wa, wb, w, sa, sa, sb);
    case ShrOp => RightRefuted(wa, wb, w, sa, sa, sb);
  }

  /** It has the value of the exported statement exactly under Exported. */
  lemma ExportedIff(op: BinOp, wa: nat, wb: nat, w: nat, sa: bool, sb: bool)
    requires AcceptedBinary(op, wa, wb, w, sa, sb)
    ensures Means(op, wa, wb, w, sa, sb, false, false) <==> Exported(op, wa, wb, w, sa, sb)
  {
    if Exported(op, wa, wb, w, sa, sb) {
      forall a: Bv, b: Bv, y: Bv | |a| == wa && |b| == wb && |y| == w
        ensures Forces(op, a, b, sa, sb, y, false, false)
      {
        ExportedAgrees(op, a, b, sa, sb, y);
      }
    } else {
      ExportedRefuted(op, wa, wb, w, sa, sb);
    }
  }

  lemma ExportedAgrees(op: BinOp, a: Bv, b: Bv, sa: bool, sb: bool, y: Bv)
    requires Exported(op, |a|, |b|, |y|, sa, sb)
    ensures Forces(op, a, b, sa, sb, y, false, false)
  {
    BinaryExported(op, a, b, sa, sb, y);
  }

  lemma ExportedRefuted(op: BinOp, wa: nat, wb: nat, w: nat, sa: bool, sb: bool)
    requires AcceptedBinary(op, wa, wb, w, sa, sb) && !Exported(op, wa, wb, w, sa, sb)
    ensures !Means(op, wa, wb, w, sa, sb, false, false)
  {
    match op
    case OrOp => OperandRefuted(op, wa, wb, w, sa, sb, false, false);
    case XorOp | XnorOp | AddOp | SubOp | MulOp =>
      if w < Max(wa, wb) {
        NarrowRefuted(op, wa, wb, w, sa, sb, false, false);
      } else {
        OperandRefuted(op, wa, wb, w, sa, sb, false, false);
      }
    case EqOp | NeOp =>
      if sa && sb {
        WidthsRefuted(op, wa, wb, w);
      } else {
        MixedRefuted(op, wa, wb, w, sa, sb, false, false);
      }
    case LtOp | LeOp | GtOp | GeOp => OrderRefuted(op, wa, wb, w);
    case ShlOp | ShrOp =>
      if !Unextended(wa, w, sa) {
        ShiftedOperandRefuted(op, wa, wb, w, sb);
      } else if op == ShlOp {
        LeftRefuted(wa, wb, w, sa, false, false);
      } else {
        RightRefuted(wa, wb, w, sa, false, false);
      }
  }

  /** What the exported statement computes is what is asserted: for unary cells always, for
      binary ones under Exported, and for the others where they are typed. */
  lemma AssertionIsExported(k: Kind, v: Values, y: Bv, prev: Bv)
    requires Accepted(k, v, |y|, |prev|)
    requires k.Binary? ==> Exported(k.binOp, |Arg(v, A)|, |Arg(v, B)|, |y|, k.aSigned, k.bSigned)
    requires !k.Unary? && !k.Binary? ==> Typed(k, v, |y|, |prev|)
    ensures Assertion(k, v, y, prev) <==> y == ExportedValue(k, v, |y|, prev)
  {
    assert forall p :: WidthOf(Widths(v), p) == |Arg(v, p)|;
    if k.Binary? {
      BinaryExported(k.binOp, Arg(v, A), Arg(v, B), k.aSigned, k.bSigned, y);
    } else if k.Unary? {
      UnaryAgrees(k.unOp, Arg(v, A), false, y);
    } else {
      AssertionIsEval(k, v, y, prev);
    }
  }
}
