/** Two-state bit vectors, least significant bit first, with the SMT-LIB
    operations the cell assertions are written in and the integers that the
    same words denote in Verilog. */
module Bitvectors {

  type Bv = seq<bool>

  function Bit(b: bool): nat {
    if b then 1 else 0
  }

  function Pow2(n: nat): nat
    ensures Pow2(n) >= 1
  {
    if n == 0 then 1 else 2 * Pow2(n - 1)
  }

  /** The unsigned number a word denotes. */
  function ToNat(b: Bv): nat {
    if |b| == 0 then 0 else Bit(b[0]) + 2 * ToNat(b[1..])
  }

  predicate Msb(b: Bv) {
    |b| > 0 && b[|b| - 1]
  }

  /** The two's complement number a word denotes. */
  function ToInt(b: Bv): int {
    if Msb(b) then ToNat(b) - Pow2(|b|) else ToNat(b)
  }

  /** The low w bits of any integer, in two's complement. */
  function FromInt(w: nat, n: int): (b: Bv)
    ensures |b| == w
  {
    if w == 0 then [] else [n % 2 == 1] + FromInt(w - 1, n / 2)
  }

  function Repeat(x: bool, w: nat): (b: Bv)
    ensures |b| == w
  {
    seq(w, _ => x)
  }

  function ZExt(b: Bv, w: nat): (r: Bv)
    requires |b| <= w
    ensures |r| == w
  {
    b + Repeat(false, w - |b|)
  }

  function SExt(b: Bv, w: nat): (r: Bv)
    requires |b| <= w
    ensures |r| == w
  {
    b + Repeat(Msb(b), w - |b|)
  }

  function Ext(b: Bv, w: nat, signed: bool): (r: Bv)
    requires |b| <= w
    ensures |r| == w
  {
    if signed then SExt(b, w) else ZExt(b, w)
  }

  function Not(a: Bv): (r: Bv)
    ensures |r| == |a| && forall i :: 0 <= i < |a| ==> r[i] == !a[i]
  {
    if |a| == 0 then [] else [!a[0]] + Not(a[1..])
  }

  function And(a: Bv, b: Bv): (r: Bv)
    requires |a| == |b|
    ensures |r| == |a|
  {
    seq(|a|, i requires 0 <= i < |a| => a[i] && b[i])
  }

  function Or(a: Bv, b: Bv): (r: Bv)
    requires |a| == |b|
    ensures |r| == |a|
  {
    seq(|a|, i requires 0 <= i < |a| => a[i] || b[i])
  }

  function Xor(a: Bv, b: Bv): (r: Bv)
    requires |a| == |b|
    ensures |r| == |a|
  {
    seq(|a|, i requires 0 <= i < |a| => a[i] != b[i])
  }

  predicate NonZero(a: Bv) {
    exists i :: 0 <= i < |a| && a[i]
  }

  predicate AllOnes(a: Bv) {
    forall i :: 0 <= i < |a| ==> a[i]
  }

  /** Parity: the Verilog reduction xor. */
  predicate Parity(a: Bv) {
    if |a| == 0 then false else a[0] != Parity(a[1..])
  }

  /** The w-bit word for 1 or 0. */
  function Truth(c: bool, w: nat): (r: Bv)
    ensures |r| == w
  {
    FromInt(w, Bit(c))
  }

  lemma {:induction false} ToNatBound(b: Bv)
    ensures ToNat(b) < Pow2(|b|)
  {
    if |b| > 0 {
      ToNatBound(b[1..]);
    }
  }

  lemma {:induction false} PowMonotone(i: nat, j: nat)
    requires i <= j
    ensures Pow2(i) <= Pow2(j)
    decreases j
  {
    if i < j {
      PowMonotone(i, j - 1);
    }
  }

  lemma {:induction false} PowAbove(n: nat)
    ensures n < Pow2(n)
  {
    if n > 0 {
      PowAbove(n - 1);
    }
  }

  /** The top bit of a word is set exactly in the upper half of its numbers. */
  lemma {:induction false} MsbValue(b: Bv)
    requires |b| > 0
    ensures Msb(b) <==> ToNat(b) >= Pow2(|b| - 1)
  {
    if |b| > 1 {
      MsbValue(b[1..]);
    }
  }

  lemma {:induction false} FromToNat(b: Bv)
    ensures FromInt(|b|, ToNat(b)) == b
  {
    if |b| > 0 {
      FromToNat(b[1..]);
      assert b == [b[0]] + b[1..];
      assert ToNat(b) % 2 == Bit(b[0]) && ToNat(b) / 2 == ToNat(b[1..]);
    }
  }

  lemma {:induction false} ToFromNat(w: nat, n: nat)
    requires n < Pow2(w)
    ensures ToNat(FromInt(w, n)) == n
  {
    if w > 0 {
      ToFromNat(w - 1, n / 2);
      assert FromInt(w, n)[1..] == FromInt(w - 1, n / 2);
    }
  }

  /** FromInt sees its argument only modulo 2^w. */
  lemma {:induction false} FromIntCong(w: nat, n: int, k: int)
    ensures FromInt(w, n + k * Pow2(w)) == FromInt(w, n)
  {
    if w > 0 {
      var p := Pow2(w - 1);
      assert n + k * Pow2(w) == n + 2 * (k * p) by {
        assert k * Pow2(w) == k * (2 * p);
        assert k * (2 * p) == 2 * (k * p);
      }
      assert (n + 2 * (k * p)) % 2 == n % 2 && (n + 2 * (k * p)) / 2 == n / 2 + k * p;
      FromIntCong(w - 1, n / 2, k);
    }
  }

  lemma {:induction false} PowSplit(a: nat, b: nat)
    ensures Pow2(a + b) == Pow2(a) * Pow2(b)
  {
    if a > 0 {
      PowSplit(a - 1, b);
      assert Pow2(a + b) == 2 * Pow2(a - 1 + b);
      assert 2 * (Pow2(a - 1) * Pow2(b)) == (2 * Pow2(a - 1)) * Pow2(b);
    }
  }

  lemma {:induction false} ToNatConcat(a: Bv, b: Bv)
    ensures ToNat(a + b) == ToNat(a) + Pow2(|a|) * ToNat(b)
  {
    if |a| == 0 {
      assert a + b == b;
    } else {
      ToNatConcat(a[1..], b);
      assert (a + b)[1..] == a[1..] + b;
      assert 2 * (Pow2(|a| - 1) * ToNat(b)) == (2 * Pow2(|a| - 1)) * ToNat(b);
    }
  }

  lemma {:induction false} ToNatRepeat(x: bool, w: nat)
    ensures ToNat(Repeat(x, w)) == if x then Pow2(w) - 1 else 0
  {
    if w > 0 {
      ToNatRepeat(x, w - 1);
      assert Repeat(x, w)[1..] == Repeat(x, w - 1);
    }
  }

  lemma ExtNat(b: Bv, w: nat, signed: bool)
    requires |b| <= w
    ensures ToNat(Ext(b, w, signed)) == ToNat(b) + (if signed && Msb(b) then Pow2(w) - Pow2(|b|) else 0)
  {
    var k := w - |b|;
    var x := signed && Msb(b);
    var tail := Repeat(x, k);
    assert Ext(b, w, signed) == b + tail;
    ToNatConcat(b, tail);
    ToNatRepeat(x, k);
    PowSplit(|b|, k);
    assert |b| + k == w;
    Distribute(Pow2(|b|), Pow2(k), ToNat(tail), x);
  }

  lemma Distribute(p: nat, q: nat, t: int, x: bool)
    requires t == if x then q - 1 else 0
    ensures p * t == if x then p * q - p else 0
  {
  }

  /** Zero extension keeps the unsigned number, sign extension the signed one;
      either extension denotes the same integer modulo the new width. */
  lemma ExtValue(b: Bv, w: nat, signed: bool)
    requires 0 < |b| <= w
    ensures !signed ==> ToNat(Ext(b, w, signed)) == ToNat(b)
    ensures signed ==> ToInt(Ext(b, w, signed)) == ToInt(b)
    ensures ToNat(Ext(b, w, signed)) == (if signed then ToInt(b) else ToNat(b))
         || ToNat(Ext(b, w, signed)) == (if signed then ToInt(b) else ToNat(b)) + Pow2(w)
  {
    ExtNat(b, w, signed);
    if signed {
      assert Msb(Ext(b, w, signed)) == Msb(b);
    }
  }

  lemma ToNatInjective(a: Bv, b: Bv)
    requires |a| == |b|
    ensures ToNat(a) == ToNat(b) <==> a == b
  {
    FromToNat(a);
    FromToNat(b);
  }

  lemma ToIntInjective(a: Bv, b: Bv)
    requires |a| == |b|
    ensures ToInt(a) == ToInt(b) <==> a == b
  {
    ToNatInjective(a, b);
    ToNatBound(a);
    ToNatBound(b);
  }

  /** Word arithmetic agrees with integer arithmetic modulo the width, whatever
      representatives modulo 2^w the operands are given by. */
  lemma AddCong(w: nat, x: int, y: int, x': int, y': int)
    requires x' == x || x' == x + Pow2(w)
    requires y' == y || y' == y + Pow2(w)
    ensures FromInt(w, x' + y') == FromInt(w, x + y)
    ensures FromInt(w, x' - y') == FromInt(w, x - y)
  {
    var k := (if x' == x then 0 else 1) + (if y' == y then 0 else 1);
    var l := (if x' == x then 0 else 1) - (if y' == y then 0 else 1);
    FromIntCong(w, x + y, k);
    FromIntCong(w, x - y, l);
  }

  lemma MulCong(w: nat, x: int, y: int, x': int, y': int)
    requires x' == x || x' == x + Pow2(w)
    requires y' == y || y' == y + Pow2(w)
    ensures FromInt(w, x' * y') == FromInt(w, x * y)
  {
    var p := Pow2(w);
    var i := if x' == x then 0 else 1;
    var j := if y' == y then 0 else 1;
    assert x' == x + i * p && y' == y + j * p;
    var k := i * y + j * x + i * j * p;
    assert x' * y' == x * y + k * p by {
      MulExpand(x, y, i, j, p);
    }
    FromIntCong(w, x * y, k);
  }

  lemma MulExpand(x: int, y: int, i: int, j: int, p: int)
    ensures (x + i * p) * (y + j * p) == x * y + (i * y + j * x + i * j * p) * p
  {
    var u := i * p;
    var v := j * p;
    assert (x + u) * (y + v) == x * y + x * v + u * y + u * v;
    assert u * y == (i * y) * p;
    assert x * v == (j * x) * p;
    assert u * v == (i * j * p) * p;
  }

  lemma {:induction false} NotIsComplement(a: Bv)
    ensures ToNat(Not(a)) == Pow2(|a|) - 1 - ToNat(a)
  {
    if |a| > 0 {
      NotIsComplement(a[1..]);
      assert Not(a)[1..] == Not(a[1..]);
      assert Not(a)[0] == !a[0];
      assert ToNat(Not(a)) == Bit(!a[0]) + 2 * ToNat(Not(a)[1..]);
    }
  }

  /** v is the unsigned or the signed number that a word denotes. */
  predicate Denotes(a: Bv, v: int) {
    v == ToNat(a) || v == ToNat(a) - Pow2(|a|)
  }

  lemma SameWord(a: Bv, v: int)
    requires Denotes(a, v)
    ensures FromInt(|a|, v) == a
  {
    FromToNat(a);
    FromIntCong(|a|, ToNat(a), -1);
  }

  lemma ComplementWord(a: Bv, v: int)
    requires Denotes(a, v)
    ensures FromInt(|a|, -1 - v) == Not(a)
  {
    NotIsComplement(a);
    var m := ToNat(Not(a));
    SameWord(Not(a), if v == ToNat(a) then m - Pow2(|a|) else m);
  }

  lemma NegatedWord(a: Bv, v: int)
    requires Denotes(a, v)
    ensures FromInt(|a|, 0 - v) == FromInt(|a|, ToNat(Not(a)) + 1)
  {
    NotIsComplement(a);
    var m := ToNat(Not(a)) + 1;
    FromIntCong(|a|, m, -1);
  }
}
