/** What the assertions of the operators say about numbers and about single bits, in plain
    arithmetic: the results of Cells compare two readings of a cell that share their words
    and their integer operations. */
module CellNumbers {
  import opened Bitvectors
  import opened Cells
  import Pmux

  // ----- arithmetic -----

  /** A word denotes its number up to a multiple of 2^w. */
  lemma {:induction false} NumberOfWord(w: nat, n: int) returns (k: int)
    ensures ToNat(FromInt(w, n)) == n + k * Pow2(w)
  {
    if w == 0 {
      k := -n;
    } else {
      var l := NumberOfWord(w - 1, n / 2);
      assert FromInt(w, n)[1..] == FromInt(w - 1, n / 2);
      k := l;
      assert 2 * (l * Pow2(w - 1)) == l * Pow2(w) by {
        Regroup(l, 2, Pow2(w - 1));
      }
    }
  }

  /** Equal words are equal numbers up to a multiple of 2^w. */
  lemma SameWordNumbers(w: nat, n: int, m: int) returns (k: int)
    requires FromInt(w, n) == FromInt(w, m)
    ensures n == m + k * Pow2(w)
  {
    var i := NumberOfWord(w, n);
    var j := NumberOfWord(w, m);
    k := j - i;
    assert (j - i) * Pow2(w) == j * Pow2(w) - i * Pow2(w);
  }

  lemma Moved(w: nat, n: int, k: int, z: int)
    requires FromInt(w, n) == FromInt(w, k)
    ensures FromInt(w, n + z) == FromInt(w, k + z)
  {
    var i := SameWordNumbers(w, n, k);
    FromIntCong(w, k + z, i);
  }

  /** y is the word of x - z exactly when adding z gives the word of x back. */
  lemma DifferenceIff(w: nat, y: Bv, x: int, z: int)
    requires |y| == w
    ensures y == FromInt(w, x - z) <==> FromInt(w, ToNat(y) + z) == FromInt(w, x)
  {
    FromToNat(y);
    if y == FromInt(w, x - z) {
      Moved(w, ToNat(y), x - z, z);
    }
    if FromInt(w, ToNat(y) + z) == FromInt(w, x) {
      Moved(w, ToNat(y) + z, x, -z);
    }
  }

  /** The number of an operand in an expression of one sign. */
  function Number(b: Bv, signed: bool): int {
    if signed && Msb(b) then ToNat(b) - Pow2(|b|) else ToNat(b)
  }

  lemma NumberIsOperand(a: Bv, signed: bool)
    ensures Number(a, signed) == Operand(a, signed)
  {
  }

  /** The words that the assertions force on y. */
  lemma SumIs(a: Bv, b: Bv, sa: bool, sb: bool, y: Bv, x: int, z: int)
    requires |a| > 0 && |b| > 0 && OperandsFaithful(|a|, |b|, |y|, sa, sb)
    requires x == Number(a, sa && sb) && z == Number(b, sa && sb)
    ensures AssertBinary(AddOp, a, b, sa, sb, y) <==> y == FromInt(|y|, x + z)
  {
    ArithmeticAgrees(AddOp, a, b, sa, sb, y);
    NumberIsOperand(a, sa && sb);
    NumberIsOperand(b, sa && sb);
  }

  lemma DifferenceIs(a: Bv, b: Bv, sa: bool, sb: bool, y: Bv, x: int, z: int)
    requires |a| > 0 && |b| > 0 && OperandsFaithful(|a|, |b|, |y|, sa, sb)
    requires x == Number(a, sa && sb) && z == Number(b, sa && sb)
    ensures AssertBinary(SubOp, a, b, sa, sb, y) <==> y == FromInt(|y|, x - z)
  {
    ArithmeticAgrees(SubOp, a, b, sa, sb, y);
    NumberIsOperand(a, sa && sb);
    NumberIsOperand(b, sa && sb);
  }

  lemma ProductIs(a: Bv, b: Bv, sa: bool, sb: bool, y: Bv, x: int, z: int)
    requires |a| > 0 && |b| > 0 && OperandsFaithful(|a|, |b|, |y|, sa, sb)
    requires x == Number(a, sa && sb) && z == Number(b, sa && sb)
    ensures AssertBinary(MulOp, a, b, sa, sb, y) <==> y == FromInt(|y|, x * z)
  {
    ArithmeticAgrees(MulOp, a, b, sa, sb, y);
    NumberIsOperand(a, sa && sb);
    NumberIsOperand(b, sa && sb);
  }

  /** The output of $add is the sum of the operands, of $mul their product, and $sub gives the
      minuend when the subtrahend is added to it, all modulo the width. */
  lemma ArithmeticIff(op: BinOp, a: Bv, b: Bv, sa: bool, sb: bool, y: Bv, x: int, z: int)
    requires op in {AddOp, SubOp, MulOp}
    requires |a| > 0 && |b| > 0 && OperandsFaithful(|a|, |b|, |y|, sa, sb)
    requires x == Number(a, sa && sb) && z == Number(b, sa && sb)
    ensures op == AddOp ==> (AssertBinary(op, a, b, sa, sb, y) <==> y == FromInt(|y|, x + z))
    ensures op == SubOp ==> (AssertBinary(op, a, b, sa, sb, y) <==> FromInt(|y|, ToNat(y) + z) == FromInt(|y|, x))
    ensures op == MulOp ==> (AssertBinary(op, a, b, sa, sb, y) <==> y == FromInt(|y|, x * z))
  {
    if op == AddOp {
      SumIs(a, b, sa, sb, y, x, z);
    } else if op == SubOp {
      DifferenceIs(a, b, sa, sb, y, x, z);
      DifferenceIff(|y|, y, x, z);
    } else {
      ProductIs(a, b, sa, sb, y, x, z);
    }
  }

  lemma NumberCong(a: Bv, signed: bool)
    ensures ToNat(a) == Number(a, signed) || ToNat(a) == Number(a, signed) + Pow2(|a|)
  {
  }

  /** The same for words of one width, without any sign. */
  lemma WordSumIff(a: Bv, b: Bv, sa: bool, sb: bool, y: Bv)
    requires |a| == |b| == |y| > 0
    ensures AssertBinary(AddOp, a, b, sa, sb, y) <==> y == FromInt(|y|, ToNat(a) + ToNat(b))
  {
    var w, x, z := |y|, Number(a, sa && sb), Number(b, sa && sb);
    SumWords(w, x, z, a, b, sa && sb);
    SumIs(a, b, sa, sb, y, x, z);
  }

  lemma WordDifferenceIff(a: Bv, b: Bv, sa: bool, sb: bool, y: Bv)
    requires |a| == |b| == |y| > 0
    ensures AssertBinary(SubOp, a, b, sa, sb, y) <==> FromInt(|y|, ToNat(y) + ToNat(b)) == a
  {
    var w, x, z := |y|, Number(a, sa && sb), Number(b, sa && sb);
    DifferenceWords(w, x, z, a, b, sa && sb, y);
    DifferenceIs(a, b, sa, sb, y, x, z);
  }

  lemma DifferenceWords(w: nat, x: int, z: int, a: Bv, b: Bv, signed: bool, y: Bv)
    requires |a| == |b| == |y| == w && x == Number(a, signed) && z == Number(b, signed)
    ensures y == FromInt(w, x - z) <==> FromInt(w, ToNat(y) + ToNat(b)) == a
  {
    SumWords(w, x, z, a, b, signed);
    FromToNat(a);
    DifferenceIff(w, y, ToNat(a), ToNat(b));
  }

  lemma SumWords(w: nat, x: int, z: int, a: Bv, b: Bv, signed: bool)
    requires |a| == |b| == w && x == Number(a, signed) && z == Number(b, signed)
    ensures FromInt(w, x + z) == FromInt(w, ToNat(a) + ToNat(b))
    ensures FromInt(w, x - z) == FromInt(w, ToNat(a) - ToNat(b))
  {
    NumberCong(a, signed);
    NumberCong(b, signed);
    AddCong(w, x, z, ToNat(a), ToNat(b));
  }

  lemma WordProductIff(a: Bv, b: Bv, sa: bool, sb: bool, y: Bv)
    requires |a| == |b| == |y| > 0
    ensures AssertBinary(MulOp, a, b, sa, sb, y) <==> y == FromInt(|y|, ToNat(a) * ToNat(b))
  {
    var w, x, z := |y|, Number(a, sa && sb), Number(b, sa && sb);
    ProductWord(w, x, z, a, b, sa && sb);
    ProductIs(a, b, sa, sb, y, x, z);
  }

  lemma ProductWord(w: nat, x: int, z: int, a: Bv, b: Bv, signed: bool)
    requires |a| == |b| == w && x == Number(a, signed) && z == Number(b, signed)
    ensures FromInt(w, x * z) == FromInt(w, ToNat(a) * ToNat(b))
  {
    NumberCong(a, signed);
    NumberCong(b, signed);
    MulCong(w, x, z, ToNat(a), ToNat(b));
  }

  // ----- bits -----

  /** The operators on bits. */
  lemma BitwiseIff(op: BinOp, a: Bv, b: Bv, sa: bool, sb: bool, y: Bv)
    requires op in {AndOp, OrOp, XorOp, XnorOp} && |a| == |b| == |y| > 0
    ensures AssertBinary(op, a, b, sa, sb, y) <==>
            forall i :: 0 <= i < |y| ==>
              y[i] == if op == AndOp then a[i] && b[i]
                      else if op == OrOp then a[i] || b[i]
                      else if op == XorOp then a[i] != b[i]
                      else a[i] == b[i]
  {
    var w := |y|;
    assert Max(w, Max(w, w)) == w;
    assert Ext(a, w, sa) == a && Ext(b, w, sb) == b && Ext(y, w, sa && sb) == y;
  }

  lemma {:induction false} NonZeroIff(a: Bv)
    ensures NonZero(a) <==> ToNat(a) != 0
  {
    if |a| > 0 {
      NonZeroIff(a[1..]);
      assert a == [a[0]] + a[1..];
      assert NonZero(a) <==> a[0] || NonZero(a[1..]) by {
        if k :| 0 <= k < |a[1..]| && a[1..][k] {
          assert a[k + 1];
        }
        if k :| 1 <= k < |a| && a[k] {
          assert a[1..][k - 1];
        }
      }
    }
  }

  lemma {:induction false} AllOnesIff(a: Bv)
    ensures AllOnes(a) <==> ToNat(a) == Pow2(|a|) - 1
  {
    if |a| > 0 {
      AllOnesIff(a[1..]);
      ToNatBound(a[1..]);
      assert AllOnes(a) <==> a[0] && AllOnes(a[1..]) by {
        if AllOnes(a[1..]) {
          assert forall k :: 1 <= k < |a| ==> a[k] == a[1..][k - 1];
        }
      }
    }
  }

  /** The reductions and the logical operators ask whether a number is zero, or the largest. */
  lemma ReductionIff(op: UnOp, a: Bv, c: bool)
    requires op in {LogicNotOp, ReduceAndOp, ReduceOrOp} && |a| > 0
    ensures AssertUnary(op, a, [c]) <==>
            c == if op == LogicNotOp then ToNat(a) == 0
                 else if op == ReduceOrOp then ToNat(a) != 0
                 else ToNat(a) == Pow2(|a|) - 1
  {
    NonZeroIff(a);
    AllOnesIff(a);
  }

  lemma LogicIff(op: BinOp, a: Bv, b: Bv, sa: bool, sb: bool, c: bool)
    requires op in {LogicAndOp, LogicOrOp} && |a| > 0 && |b| > 0
    ensures AssertBinary(op, a, b, sa, sb, [c]) <==>
            c == if op == LogicAndOp then ToNat(a) != 0 && ToNat(b) != 0 else ToNat(a) != 0 || ToNat(b) != 0
  {
    NonZeroIff(a);
    NonZeroIff(b);
    OneBit(NonZero(a) && NonZero(b));
    OneBit(NonZero(a) || NonZero(b));
  }

  // ----- shifts -----

  /** A word holds the low bits of a longer one with the same number. */
  lemma LowBits(z: Bv, w: nat)
    requires w <= |z|
    ensures FromInt(w, ToNat(z)) == z[..w]
  {
    assert z == z[..w] + z[w..];
    ToNatConcat(z[..w], z[w..]);
    FromToNat(z[..w]);
    Commute(Pow2(w), ToNat(z[w..]));
    FromIntCong(w, ToNat(z[..w]), ToNat(z[w..]));
  }

  lemma Commute(x: int, y: int)
    ensures x * y == y * x
  {
  }

  lemma LeftWord(x: Bv, n: nat)
    ensures FromInt(|x|, ToNat(x) * Pow2(n)) == (Repeat(false, n) + x)[..|x|]
  {
    ToNatConcat(Repeat(false, n), x);
    ToNatRepeat(false, n);
    Commute(Pow2(n), ToNat(x));
    LowBits(Repeat(false, n) + x, |x|);
  }

  lemma Factor(p: int, i: int, j: int)
    ensures p * i - p * j == p * (i - j)
  {
  }

  lemma {:induction false} AtLeast(p: nat, k: nat)
    requires k > 0
    ensures p * k >= p
  {
    if k > 1 {
      AtLeast(p, k - 1);
      Factor(p, k, k - 1);
    }
  }

  lemma Multiples(p: nat, i: int, j: int)
    requires p > 0 && p * i - p * j < p && p * j - p * i < p
    ensures i == j
  {
    Factor(p, i, j);
    Factor(p, j, i);
    if i > j {
      AtLeast(p, i - j);
    }
    if i < j {
      AtLeast(p, j - i);
    }
  }

  lemma Quotient(low: nat, p: nat, high: nat)
    requires low < p
    ensures (low + p * high) / p == high
  {
    var n: int := low + p * high;
    var q, r := n / p, n % p;
    assert n == p * q + r;
    Multiples(p, q, high);
  }

  lemma HighPart(x: Bv, n: nat)
    requires n <= |x|
    ensures ToNat(x) / Pow2(n) == ToNat(x[n..])
  {
    assert x == x[..n] + x[n..];
    ToNatConcat(x[..n], x[n..]);
    ToNatBound(x[..n]);
    Quotient(ToNat(x[..n]), Pow2(n), ToNat(x[n..]));
  }

  lemma RightWord(x: Bv, n: nat)
    requires n <= |x|
    ensures FromInt(|x|, ToNat(x) / Pow2(n)) == x[n..] + Repeat(false, n)
  {
    HighPart(x, n);
    ExtNat(x[n..], |x|, false);
    FromToNat(Ext(x[n..], |x|, false));
  }

  lemma RightOut(x: Bv, n: nat)
    requires n > |x|
    ensures FromInt(|x|, ToNat(x) / Pow2(n)) == Repeat(false, |x|)
  {
    ToNatBound(x);
    ShiftedDown(ToNat(x), |x|, n);
    ToNatRepeat(false, |x|);
    FromToNat(Repeat(false, |x|));
  }

  /** Bit i of a word that is shifted by n. */
  function ShiftedBit(op: BinOp, x: Bv, n: nat, i: nat): bool
    requires i < |x|
  {
    if op == ShlOp then i >= n && x[i - n] else i + n < |x| && x[i + n]
  }

  lemma ShiftedWord(op: BinOp, x: Bv, n: nat, y: Bv)
    requires op in {ShlOp, ShrOp} && |x| == |y|
    ensures y == FromInt(|x|, if op == ShlOp then ToNat(x) * Pow2(n) else ToNat(x) / Pow2(n)) <==>
            forall i :: 0 <= i < |y| ==> y[i] == ShiftedBit(op, x, n, i)
  {
    LeftWord(x, n);
    if n <= |x| {
      RightWord(x, n);
    } else {
      RightOut(x, n);
    }
    var word := FromInt(|x|, if op == ShlOp then ToNat(x) * Pow2(n) else ToNat(x) / Pow2(n));
    assert forall i :: 0 <= i < |x| ==> word[i] == ShiftedBit(op, x, n, i);
  }

  /** A shift moves the bits of its left operand, widened by its sign, up or down by the
      amount and fills with zeros. */
  lemma ShiftIff(op: BinOp, a: Bv, b: Bv, sa: bool, sb: bool, y: Bv)
    requires op in {ShlOp, ShrOp} && 0 < |a| <= |y| && 0 < |b| <= |y|
    ensures AssertBinary(op, a, b, sa, sb, y) <==>
            forall i :: 0 <= i < |y| ==> y[i] == ShiftedBit(op, Ext(a, |y|, sa), ToNat(Ext(b, |y|, sb)), i)
  {
    var w := |y|;
    assert Max(|a|, Max(|b|, w)) == w;
    ShiftedWord(op, Ext(a, w, sa), ToNat(Ext(b, w, sb)), y);
  }

  // ----- the cells that are covered -----

  /** The operands have the width of the output, or one width for a comparison, with equal
      signs; a result of one bit for the logical ones; control words of one bit. */
  predicate Natural(k: Kind, v: Values, w: nat, wPrev: nat) {
    var a, b, s, d := |Arg(v, A)|, |Arg(v, B)|, |Arg(v, S)|, |Arg(v, D)|;
    w > 0 &&
    match k
    case Unary(op, _) => if op in {NotOp, PosOp, NegOp} then a == w else a > 0 && w == 1
    case Binary(op, sa, sb) =>
      a > 0 && b > 0 &&
      if op in {EqOp, NeOp, LtOp, LeOp, GtOp, GeOp} then a == b && sa == sb
      else if op in {LogicAndOp, LogicOrOp} then true
      else a == b == w && (op in {ShlOp, ShrOp} ==> !sb)
    case Mux => a == b == w && s == 1
    case PMux => a == w && s > 0 && b == s * w
    case Dff => d == w
    case Dffe(_) => d == w && wPrev == w && |Arg(v, EN)| == 1
    case Adff(_, value) => d == w && |value| == w && ToNat(value) < UINT64 && |Arg(v, ARST)| == 1
    case Adffe(_, value, _) =>
      d == w && wPrev == w && |value| == w && ToNat(value) < UINT64 && |Arg(v, ARST)| == 1 && |Arg(v, EN)| == 1
    case Dffsr(_, _) => d == w && |Arg(v, SET)| == |Arg(v, CLR)| == w
    case Dffsre(_, _, _) =>
      d == w && wPrev == w && |Arg(v, SET)| == |Arg(v, CLR)| == w && |Arg(v, EN)| == 1
  }

  lemma WidthIs(v: Values, p: PortName)
    ensures Cells.WidthOf(Widths(v), p) == |Arg(v, p)|
  {
  }

  /** Every modelled cell with such operands is accepted and has the typed meaning. */
  lemma NaturalIsTyped(k: Kind, v: Values, w: nat, wPrev: nat)
    requires Natural(k, v, w, wPrev)
    ensures Accepted(k, v, w, wPrev) && Typed(k, v, w, wPrev)
  {
    forall p
      ensures Cells.WidthOf(Widths(v), p) == |Arg(v, p)|
    {
      WidthIs(v, p);
    }
  }

  /** The word that the assertion of a cell other than a binary one gives its output. */
  function AssertedWord(k: Kind, v: Values, w: nat, prev: Bv): (y: Bv)
    requires Accepted(k, v, w, |prev|) && !k.Binary?
    ensures |y| == w
  {
    assert forall p :: Cells.WidthOf(Widths(v), p) == |Arg(v, p)|;
    match k
    case Unary(op, _) => EvalUnary(op, Arg(v, A), false, w)
    case Mux => if Equals(Arg(v, S), true) then Arg(v, B) else Arg(v, A)
    case PMux => PmuxWord(Arg(v, A), Arg(v, B), Arg(v, S))
    case Dff => Arg(v, D)
    case Dffe(en) => if Equals(Arg(v, EN), en) then Arg(v, D) else prev
    case Adff(rst, value) => if Equals(Arg(v, ARST), rst) then value else Arg(v, D)
    case Adffe(rst, value, en) =>
      if Equals(Arg(v, ARST), rst) then value else if Equals(Arg(v, EN), en) then Arg(v, D) else prev
    case Dffsr(sh, ch) => SetClear(Arg(v, CLR)[..w], Arg(v, SET)[..w], Arg(v, D)[..w], ch, sh)
    case Dffsre(sh, ch, en) =>
      SetClear(Arg(v, CLR)[..w], Arg(v, SET)[..w], if Equals(Arg(v, EN), en) then Arg(v, D)[..w] else prev[..w], ch, sh)
  }

  /** The slice of B at the lowest set select bit, or A; B may be longer than the slices. */
  function PmuxWord(a: Bv, b: Bv, s: Bv): (y: Bv)
    requires |b| >= |s| * |a|
    ensures |y| == |a|
  {
    if NonZero(s) then
      Pmux.SliceInRange(Pmux.LowestSet(s), |s|, |a|);
      Pmux.SliceOrEmpty(b, Pmux.LowestSet(s), |a|)
    else a
  }

  /** Such an assertion always has exactly one solution for the output, whatever is read: a cell
      is accepted only where the sorts fit. */
  lemma AssertedIff(k: Kind, v: Values, y: Bv, prev: Bv)
    requires Accepted(k, v, |y|, |prev|) && !k.Binary?
    ensures Assertion(k, v, y, prev) <==> y == AssertedWord(k, v, |y|, prev)
  {
    assert forall p :: Cells.WidthOf(Widths(v), p) == |Arg(v, p)|;
    var w := |y|;
    match k
    case Unary(op, _) => UnaryAgrees(op, Arg(v, A), false, y);
    case PMux =>
      if NonZero(Arg(v, S)) {
        Pmux.ChainIsLowest(|Arg(v, S)|, 0, Arg(v, S));
      }
    case Dffsr(sh, ch) => SetClearAgrees(y, Arg(v, CLR)[..w], Arg(v, SET)[..w], Arg(v, D)[..w], ch, sh);
    case Dffsre(sh, ch, en) =>
      SetClearAgrees(y, Arg(v, CLR)[..w], Arg(v, SET)[..w],
        if Equals(Arg(v, EN), en) then Arg(v, D)[..w] else prev[..w], ch, sh);
    case _ =>
  }

  /** The input ports that an assertion reads. */
  function ReadPorts(k: Kind): set<PortName> {
    match k
    case Unary(_, _) => {A}
    case Binary(_, _, _) => {A, B}
    case Mux | PMux => {A, B, S}
    case Dff => {D}
    case Dffe(_) => {D, EN}
    case Adff(_, _) => {D, ARST}
    case Adffe(_, _, _) => {D, ARST, EN}
    case Dffsr(_, _) => {D, SET, CLR}
    case Dffsre(_, _, _) => {D, SET, CLR, EN}
  }

  /** No cell is accepted without a bit on each of them and on its output. */
  lemma AcceptedReads(k: Kind, v: Values, w: nat, wPrev: nat, p: PortName)
    requires Accepted(k, v, w, wPrev) && p in ReadPorts(k)
    ensures w > 0 && p in v && |v[p]| > 0
  {
    WidthIs(v, p);
    if k.PMux? {
      Pmux.SliceInRange(0, |Arg(v, S)|, w);
    }
  }

  // ----- multiplexers -----

  /** The output of $pmux is, bit by bit, the slice of B at the lowest set select bit. */
  lemma PmuxSlice(a: Bv, b: Bv, s: Bv, i: nat, j: nat)
    requires |b| == |s| * |a| && i < |s| && s[i] && (forall k :: 0 <= k < i ==> !s[k]) && j < |a|
    ensures i * |a| + j < |b| && Pmux.Select(a, b, s)[j] == b[i * |a| + j]
  {
    assert NonZero(s) && Pmux.LowestSet(s) == i;
    Pmux.SliceInRange(i, |s|, |a|);
    assert (i + 1) * |a| == i * |a| + |a|;
  }
}
