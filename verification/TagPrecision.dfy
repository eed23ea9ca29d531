/** Where the tag rules are exact: a lane is in the tag of a cell if and only if a second run,
    whose operands differ only where they carry the lane, can change the output. */
module TagPrecision {
  import opened Bitvectors
  import opened Ift
  import Cells
  import Pmux

  // ----- low bits -----

  lemma LowBit(w: nat, n: int)
    requires w > 0
    ensures FromInt(w, n)[0] == (n % 2 == 1)
  {
  }

  lemma TruthApart(w: nat, c: bool, d: bool)
    requires w > 0 && c != d
    ensures Truth(c, w) != Truth(d, w)
  {
    LowBit(w, Bit(c));
    LowBit(w, Bit(d));
  }

  /** The remainder of a number that is given as an even one and a bit. */
  lemma Remainder(n: int, half: int, odd: bool)
    requires n == 2 * half + Bit(odd)
    ensures (n % 2 == 1) == odd
  {
  }

  lemma OperandParity(a: Bv, signed: bool)
    requires |a| > 0
    ensures (Cells.Operand(a, signed) % 2 == 1) == a[0]
  {
    var high, p := ToNat(a[1..]), Pow2(|a| - 1);
    assert ToNat(a) == 2 * high + Bit(a[0]) && Pow2(|a|) == 2 * p;
    Remainder(Cells.Operand(a, signed), if signed && Msb(a) then high - p else high, a[0]);
  }

  lemma SumParity(x: int, z: int)
    ensures ((x + z) % 2 == 1) == ((x % 2 == 1) != (z % 2 == 1))
    ensures ((x - z) % 2 == 1) == ((x % 2 == 1) != (z % 2 == 1))
  {
    var i, j, r, s := x / 2, z / 2, x % 2 == 1, z % 2 == 1;
    assert x == 2 * i + Bit(r) && z == 2 * j + Bit(s);
    Remainder(x + z, i + j + (if r && s then 1 else 0), r != s);
    Remainder(x - z, i - j - (if !r && s then 1 else 0), r != s);
  }

  lemma ParityApart(w: nat, n: int, m: int)
    requires w > 0 && (n % 2 == 1) != (m % 2 == 1)
    ensures FromInt(w, n) != FromInt(w, m)
  {
    LowBit(w, n);
    LowBit(w, m);
  }

  /** The word with bit 0 flipped. */
  function Flipped(a: Bv): (r: Bv)
    requires |a| > 0
    ensures |r| == |a| && r[0] == !a[0]
  {
    [!a[0]] + a[1..]
  }

  /** A word that is zero when a is not, and the other way round. */
  function Opposite(a: Bv): (r: Bv)
    requires |a| > 0
    ensures |r| == |a| && NonZero(r) != NonZero(a)
  {
    if NonZero(a) then Repeat(false, |a|)
    else
      var r := Repeat(true, |a|);
      assert r[0];
      r
  }

  // ----- one operand -----

  ghost predicate UnaryChanges(op: Cells.UnOp, a: Bv, signed: bool, w: nat, at: Tag, k: nat) {
    exists a': Bv :: |a'| == |a| && Tracks(k, a, a', at) &&
                     Cells.EvalUnary(op, a', signed, w) != Cells.EvalUnary(op, a, signed, w)
  }

  /** A second operand that changes the output. */
  function UnaryWitness(op: Cells.UnOp, a: Bv): (r: Bv)
    requires |a| > 0
    ensures |r| == |a|
  {
    match op
    case NotOp | PosOp | NegOp => Flipped(a)
    case LogicNotOp | ReduceOrOp => Opposite(a)
    case ReduceAndOp => if AllOnes(a) then Repeat(false, |a|) else Repeat(true, |a|)
  }

  lemma UnaryWitnessChanges(op: Cells.UnOp, a: Bv, signed: bool, w: nat)
    requires |a| > 0 && w > 0
    ensures Cells.EvalUnary(op, UnaryWitness(op, a), signed, w) != Cells.EvalUnary(op, a, signed, w)
  {
    var a' := UnaryWitness(op, a);
    var x, x' := Cells.Operand(a, signed), Cells.Operand(a', signed);
    OperandParity(a, signed);
    OperandParity(a', signed);
    match op
    case NotOp =>
      SumParity(-1, x);
      SumParity(-1, x');
      ParityApart(w, -1 - x, -1 - x');
    case PosOp => ParityApart(w, x, x');
    case NegOp =>
      SumParity(0, x);
      SumParity(0, x');
      ParityApart(w, 0 - x, 0 - x');
    case LogicNotOp => TruthApart(w, !NonZero(a), !NonZero(a'));
    case ReduceOrOp => TruthApart(w, NonZero(a), NonZero(a'));
    case ReduceAndOp =>
      assert AllOnes(a) ==> !a'[0];
      TruthApart(w, AllOnes(a), AllOnes(a'));
  }

  /** The tag of a cell with one operand is exact, for words of any width. */
  lemma UnaryTagIff(op: Cells.UnOp, a: Bv, signed: bool, w: nat, at: Tag, k: nat)
    requires |a| > 0 && w > 0
    ensures k in UnaryTag(at) <==> UnaryChanges(op, a, signed, w, at, k)
  {
    if k in UnaryTag(at) {
      UnaryWitnessChanges(op, a, signed, w);
      assert Tracks(k, a, UnaryWitness(op, a), at);
    }
  }

  // ----- two operands -----

  ghost predicate BinaryChanges(op: Cells.BinOp, a: Bv, b: Bv, sa: bool, sb: bool, w: nat, at: Tag, bt: Tag, k: nat) {
    exists a': Bv, b': Bv ::
      |a'| == |a| && |b'| == |b| && Tracks(k, a, a', at) && Tracks(k, b, b', bt) &&
      Cells.EvalBinary(op, a', b', sa, sb, w) != Cells.EvalBinary(op, a, b, sa, sb, w)
  }

  lemma Changes(op: Cells.BinOp, a: Bv, b: Bv, sa: bool, sb: bool, w: nat, at: Tag, bt: Tag, k: nat, a': Bv, b': Bv)
    requires |a'| == |a| && |b'| == |b| && Tracks(k, a, a', at) && Tracks(k, b, b', bt)
    requires Cells.EvalBinary(op, a', b', sa, sb, w) != Cells.EvalBinary(op, a, b, sa, sb, w)
    ensures BinaryChanges(op, a, b, sa, sb, w, at, bt, k)
  {
  }

  /** The operators whose tag is the union of the operand tags, and whose low bit depends on
      the low bit of either operand whatever the other one is. */
  predicate Toggles(op: Cells.BinOp) {
    op in {Cells.XorOp, Cells.XnorOp, Cells.AddOp, Cells.SubOp}
  }

  lemma XorLowBit(op: Cells.BinOp, a: Bv, b: Bv, sa: bool, sb: bool, w: nat)
    requires op in {Cells.XorOp, Cells.XnorOp} && |a| > 0 && |b| > 0 && w > 0
    ensures Cells.EvalBinary(op, a, b, sa, sb, w)[0] == ((a[0] != b[0]) == (op == Cells.XorOp))
  {
    var width := Cells.Max(w, Cells.Max(|a|, |b|));
    var x, z := Ext(a, width, sa && sb), Ext(b, width, sa && sb);
    assert x[0] == a[0] && z[0] == b[0];
    assert Cells.EvalBinary(op, a, b, sa, sb, w) == Cells.Bitwise(op, x, z)[..w];
  }

  lemma SumLowBit(op: Cells.BinOp, a: Bv, b: Bv, sa: bool, sb: bool, w: nat)
    requires op in {Cells.AddOp, Cells.SubOp} && |a| > 0 && |b| > 0 && w > 0
    ensures Cells.EvalBinary(op, a, b, sa, sb, w)[0] == (a[0] != b[0])
  {
    var x, z := Cells.Operand(a, sa && sb), Cells.Operand(b, sa && sb);
    OperandParity(a, sa && sb);
    OperandParity(b, sa && sb);
    LowBit(w, Cells.Combine(op, x, z));
    SumParity(x, z);
  }

  lemma ToggleChanges(op: Cells.BinOp, a: Bv, b: Bv, a': Bv, b': Bv, sa: bool, sb: bool, w: nat)
    requires Toggles(op) && |a| == |a'| > 0 && |b| == |b'| > 0 && w > 0 && (a[0] != b[0]) != (a'[0] != b'[0])
    ensures Cells.EvalBinary(op, a', b', sa, sb, w) != Cells.EvalBinary(op, a, b, sa, sb, w)
  {
    if op in {Cells.XorOp, Cells.XnorOp} {
      XorLowBit(op, a, b, sa, sb, w);
      XorLowBit(op, a', b', sa, sb, w);
    } else {
      SumLowBit(op, a, b, sa, sb, w);
      SumLowBit(op, a', b', sa, sb, w);
    }
  }

  lemma ToggleTagIff(op: Cells.BinOp, a: Bv, b: Bv, sa: bool, sb: bool, w: nat, at: Tag, bt: Tag, k: nat)
    requires Toggles(op) && |a| > 0 && |b| > 0 && w > 0
    ensures k in BinaryTag(op, a, b, at, bt) <==> BinaryChanges(op, a, b, sa, sb, w, at, bt, k)
  {
    UnionTagIff(op, a, b, at, bt, k);
    if k in at {
      ToggleChanges(op, a, b, Flipped(a), b, sa, sb, w);
      Changes(op, a, b, sa, sb, w, at, bt, k, Flipped(a), b);
    } else if k in bt {
      ToggleChanges(op, a, b, a, Flipped(b), sa, sb, w);
      Changes(op, a, b, sa, sb, w, at, bt, k, a, Flipped(b));
    }
  }

  /** The other operators pass on every lane of both operands. */
  lemma UnionTagIff(op: Cells.BinOp, a: Bv, b: Bv, at: Tag, bt: Tag, k: nat)
    requires !Conjunction(op) && !Disjunction(op)
    ensures k in BinaryTag(op, a, b, at, bt) <==> k in at || k in bt
  {
  }

  lemma TimesZero(a: Bv, b: Bv, sa: bool, sb: bool, w: nat)
    requires !NonZero(b)
    ensures Cells.EvalBinary(Cells.MulOp, a, b, sa, sb, w) == FromInt(w, 0)
  {
    assert b == Repeat(false, |b|);
    ToNatRepeat(false, |b|);
    assert Cells.Operand(b, sa && sb) == 0;
  }

  /** So the tag of a product shows a lane that a zero factor keeps from the output. */
  lemma ProductTagIsCoarse(a: Bv, b: Bv, sa: bool, sb: bool, w: nat, at: Tag, k: nat)
    requires !NonZero(b) && k in at
    ensures k in BinaryTag(Cells.MulOp, a, b, at, {}) && !BinaryChanges(Cells.MulOp, a, b, sa, sb, w, at, {}, k)
  {
    UnionTagIff(Cells.MulOp, a, b, at, {}, k);
    forall a': Bv, b': Bv | |a'| == |a| && |b'| == |b| && Tracks(k, a, a', at) && Tracks(k, b, b', {})
      ensures Cells.EvalBinary(Cells.MulOp, a', b', sa, sb, w) == Cells.EvalBinary(Cells.MulOp, a, b, sa, sb, w)
    {
      TimesZero(a, b, sa, sb, w);
      TimesZero(a', b, sa, sb, w);
    }
  }

  /** Operands of a second run: each one is changed when it is to be and carries the lane. */
  function Second(a: Bv, change: bool, logic: bool): (r: Bv)
    requires |a| > 0
    ensures |r| == |a|
  {
    if !change then a else if logic then Opposite(a) else Flipped(a)
  }

  /** The conjunctions and disjunctions. */
  predicate Conjunction(op: Cells.BinOp) {
    op in {Cells.AndOp, Cells.LogicAndOp}
  }

  predicate Disjunction(op: Cells.BinOp) {
    op in {Cells.OrOp, Cells.LogicOrOp}
  }

  predicate IsLogic(op: Cells.BinOp) {
    op in {Cells.LogicAndOp, Cells.LogicOrOp}
  }

  /** Whole words for the logical operators, single bits for the bitwise ones. */
  predicate Exactly(op: Cells.BinOp, a: Bv, b: Bv) {
    (Conjunction(op) || Disjunction(op)) && |a| > 0 && |b| > 0 && (IsLogic(op) || |a| == |b| == 1)
  }

  lemma OneBitNonZero(a: Bv)
    requires |a| == 1
    ensures NonZero(a) == a[0]
  {
    if a[0] {
      assert NonZero(a);
    }
  }

  lemma SecondNonZero(op: Cells.BinOp, a: Bv, change: bool)
    requires |a| > 0 && (IsLogic(op) || |a| == 1)
    ensures NonZero(Second(a, change, IsLogic(op))) == (NonZero(a) != change)
  {
    if !IsLogic(op) {
      OneBitNonZero(a);
      OneBitNonZero(Second(a, change, false));
    }
  }

  /** The truth value of the output. */
  function Decided(op: Cells.BinOp, x: bool, z: bool): bool {
    if Conjunction(op) then x && z else x || z
  }

  lemma DecidedApart(op: Cells.BinOp, a: Bv, b: Bv, a': Bv, b': Bv, sa: bool, sb: bool, w: nat)
    requires Exactly(op, a, b) && |a'| == |a| && |b'| == |b| && w > 0
    requires Decided(op, NonZero(a), NonZero(b)) != Decided(op, NonZero(a'), NonZero(b'))
    ensures Cells.EvalBinary(op, a', b', sa, sb, w) != Cells.EvalBinary(op, a, b, sa, sb, w)
  {
    if IsLogic(op) {
      TruthApart(w, Decided(op, NonZero(a), NonZero(b)), Decided(op, NonZero(a'), NonZero(b')));
    } else {
      BitDecides(op, a, b, sa, sb, w);
      BitDecides(op, a', b', sa, sb, w);
    }
  }

  lemma BitDecides(op: Cells.BinOp, a: Bv, b: Bv, sa: bool, sb: bool, w: nat)
    requires op in {Cells.AndOp, Cells.OrOp} && |a| == |b| == 1 && w > 0
    ensures Cells.EvalBinary(op, a, b, sa, sb, w)[0] == Decided(op, NonZero(a), NonZero(b))
  {
    OneBitNonZero(a);
    OneBitNonZero(b);
    if op == Cells.AndOp {
      AndLowBit(a, b, sa, sb, w);
    } else {
      OrLowBit(a, b, sa, sb, w);
    }
  }

  /** The logical operators decide by whole words. */
  lemma LogicSound(op: Cells.BinOp, a: Bv, b: Bv, a': Bv, b': Bv, sa: bool, sb: bool, w: nat, at: Tag, bt: Tag, k: nat)
    requires IsLogic(op) && Tracks(k, a, a', at) && Tracks(k, b, b', bt) && k !in BinaryTag(op, a, b, at, bt)
    ensures Cells.EvalBinary(op, a', b', sa, sb, w) == Cells.EvalBinary(op, a, b, sa, sb, w)
  {
  }

  lemma Unchanged(op: Cells.BinOp, a: Bv, b: Bv, a': Bv, b': Bv, sa: bool, sb: bool, w: nat, at: Tag, bt: Tag, k: nat)
    requires Exactly(op, a, b) && |a'| == |a| && |b'| == |b| && Tracks(k, a, a', at) && Tracks(k, b, b', bt)
    requires k !in BinaryTag(op, a, b, at, bt)
    ensures Cells.EvalBinary(op, a', b', sa, sb, w) == Cells.EvalBinary(op, a, b, sa, sb, w)
  {
    if IsLogic(op) {
      LogicSound(op, a, b, a', b', sa, sb, w, at, bt, k);
    } else if op == Cells.AndOp {
      AndSound(a, b, a', b', sa, sb, w, at, bt, k);
    } else {
      OrSound(a, b, a', b', sa, sb, w, at, bt, k);
    }
  }

  /** Which operands the second run changes: an operand that decides alone, or both. */
  lemma DecidingChange(op: Cells.BinOp, a: Bv, b: Bv, at: Tag, bt: Tag, k: nat) returns (left: bool, right: bool)
    requires Exactly(op, a, b) && k in BinaryTag(op, a, b, at, bt)
    ensures (left ==> k in at) && (right ==> k in bt)
    ensures Decided(op, NonZero(a) != left, NonZero(b) != right) != Decided(op, NonZero(a), NonZero(b))
  {
    var open := Conjunction(op);
    if k in bt && NonZero(a) == open {
      left, right := false, true;
    } else if k in at && NonZero(b) == open {
      left, right := true, false;
    } else {
      left, right := true, true;
    }
  }

  /** The tags of conjunctions and disjunctions are exact: of the bitwise ones for one-bit
      operands, of the logical ones for words of any width. */
  lemma GateTagIff(op: Cells.BinOp, a: Bv, b: Bv, sa: bool, sb: bool, w: nat, at: Tag, bt: Tag, k: nat)
    requires Exactly(op, a, b) && w > 0
    ensures k in BinaryTag(op, a, b, at, bt) <==> BinaryChanges(op, a, b, sa, sb, w, at, bt, k)
  {
    if k in BinaryTag(op, a, b, at, bt) {
      var left, right := DecidingChange(op, a, b, at, bt, k);
      var a', b' := Second(a, left, IsLogic(op)), Second(b, right, IsLogic(op));
      SecondNonZero(op, a, left);
      SecondNonZero(op, b, right);
      DecidedApart(op, a, b, a', b', sa, sb, w);
      Changes(op, a, b, sa, sb, w, at, bt, k, a', b');
    } else if BinaryChanges(op, a, b, sa, sb, w, at, bt, k) {
      var a': Bv, b': Bv :| |a'| == |a| && |b'| == |b| && Tracks(k, a, a', at) && Tracks(k, b, b', bt) &&
        Cells.EvalBinary(op, a', b', sa, sb, w) != Cells.EvalBinary(op, a, b, sa, sb, w);
      Unchanged(op, a, b, a', b', sa, sb, w, at, bt, k);
    }
  }

  // ----- multiplexers -----

  ghost predicate MuxChanges(a: Bv, b: Bv, s: Bv, at: Tag, bt: Tag, st: Tag, k: nat) {
    exists a': Bv, b': Bv, s': Bv ::
      |a'| == |a| && |b'| == |b| && |s'| == |s| &&
      Tracks(k, a, a', at) && Tracks(k, b, b', bt) && Tracks(k, s, s', st) &&
      MuxValue(a', b', s') != MuxValue(a, b, s)
  }

  lemma OneBitParity(a: Bv, b: Bv)
    requires |a| == |b| == 1
    ensures Parity(Xor(a, b)) <==> a != b
  {
    var x := Xor(a, b);
    assert x[1..] == [];
    assert a != b <==> a[0] != b[0];
  }

  lemma MuxChange(a: Bv, b: Bv, s: Bv, at: Tag, bt: Tag, st: Tag, k: nat, a': Bv, b': Bv, s': Bv)
    requires |a'| == |a| && |b'| == |b| && |s'| == |s|
    requires Tracks(k, a, a', at) && Tracks(k, b, b', bt) && Tracks(k, s, s', st)
    requires MuxValue(a', b', s') != MuxValue(a, b, s)
    ensures MuxChanges(a, b, s, at, bt, st, k)
  {
  }

  /** The tag of a multiplexer of one-bit data is exact. */
  lemma MuxTagIff(a: Bv, b: Bv, s: Bv, at: Tag, bt: Tag, st: Tag, k: nat)
    requires |a| == |b| == 1 && |s| > 0
    ensures k in MuxTag(a, b, s, at, bt, st) <==> MuxChanges(a, b, s, at, bt, st, k)
  {
    OneBitParity(a, b);
    if k in (if NonZero(s) then bt else at) {
      var a', b' := if NonZero(s) then a else Flipped(a), if NonZero(s) then Flipped(b) else b;
      MuxChange(a, b, s, at, bt, st, k, a', b', s);
    } else if k in st && a != b {
      MuxChange(a, b, s, at, bt, st, k, a, b, Opposite(s));
    } else if k in (at + bt) * st {
      var a', b' := if NonZero(s) then Flipped(a) else a, if NonZero(s) then b else Flipped(b);
      MuxChange(a, b, s, at, bt, st, k, a', b', Opposite(s));
    } else if MuxChanges(a, b, s, at, bt, st, k) {
      var a': Bv, b': Bv, s': Bv :| |a'| == |a| && |b'| == |b| && |s'| == |s| &&
        Tracks(k, a, a', at) && Tracks(k, b, b', bt) && Tracks(k, s, s', st) &&
        MuxValue(a', b', s') != MuxValue(a, b, s);
      MuxSound(a, b, s, a', b', s', at, bt, st, k);
    }
  }

  ghost predicate PMuxDataChanges(a: Bv, b: Bv, s: Bv, at: Tag, bt: Tag, k: nat) {
    exists a': Bv, b': Bv ::
      |a'| == |a| && |b'| == |b| && Tracks(k, a, a', at) && Tracks(k, b, b', bt) &&
      PMuxValue(a', b', s) != PMuxValue(a, b, s)
  }

  /** Where the selected slice begins. */
  function SliceStart(s: Bv, width: nat): nat
    requires NonZero(s)
  {
    Pmux.LowestSet(s) * width
  }

  lemma SelectFirst(a: Bv, b: Bv, s: Bv)
    requires |b| == |s| * |a| && |a| > 0 && NonZero(s)
    ensures SliceStart(s, |a|) < |b| && PMuxValue(a, b, s) != [] && PMuxValue(a, b, s)[0] == b[SliceStart(s, |a|)]
  {
    var i := Pmux.LowestSet(s);
    Pmux.SliceInRange(i, |s|, |a|);
    assert (i + 1) * |a| == i * |a| + |a|;
  }

  lemma SliceFlips(a: Bv, b: Bv, s: Bv)
    requires |b| == |s| * |a| && |a| > 0 && NonZero(s)
    ensures PMuxValue(a, Not(b), s) != PMuxValue(a, b, s)
  {
    SelectFirst(a, b, s);
    SelectFirst(a, Not(b), s);
  }

  /** The tag of a parallel multiplexer has every lane of the select word, and besides them
      exactly the lanes that can change the selected data. */
  lemma PMuxTagIff(a: Bv, b: Bv, s: Bv, at: Tag, bt: Tag, st: Tag, k: nat)
    requires |b| == |s| * |a| && |a| > 0
    ensures k in PMuxTag(s, at, bt, st) <==> k in st || PMuxDataChanges(a, b, s, at, bt, k)
  {
    if NonZero(s) {
      SliceFlips(a, b, s);
      assert k in bt ==> Tracks(k, b, Not(b), bt) && PMuxDataChanges(a, b, s, at, bt, k);
    } else {
      assert k in at ==> Tracks(k, a, Flipped(a), at) && PMuxDataChanges(a, b, s, at, bt, k);
    }
  }

  // ----- registers -----

  ghost predicate NextChanges(enabled: bool, d: Bv, q: Bv, dt: Tag, qt: Tag, k: nat) {
    exists d': Bv, q': Bv ::
      |d'| == |d| && |q'| == |q| && Tracks(k, d, d', dt) && Tracks(k, q, q', qt) &&
      DffeValue(enabled, d', q') != DffeValue(enabled, d, q)
  }

  /** The tag of a register with an enable has the lanes of the enable when it is loaded, and
      besides them exactly the lanes that can change the word it takes. */
  lemma DffeTagIff(enabled: bool, d: Bv, q: Bv, dt: Tag, et: Tag, qt: Tag, k: nat)
    requires |d| == |q| > 0
    ensures k in DffeTag(enabled, dt, et, qt) <==> (enabled && k in et) || NextChanges(enabled, d, q, dt, qt, k)
  {
    if enabled && k in dt {
      assert Tracks(k, d, Flipped(d), dt) && DffeValue(enabled, Flipped(d), q) != DffeValue(enabled, d, q);
    }
    if !enabled && k in qt {
      assert Tracks(k, q, Flipped(q), qt) && DffeValue(enabled, d, Flipped(q)) != DffeValue(enabled, d, q);
    }
  }
}
