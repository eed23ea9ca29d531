/** Information flow tracking: every signal has a shadow tag, a set of lanes, that
    the exported Verilog computes beside the value (two-valued signals only). A value is
    the typed one of the cell, for any signs; the exported statement, whose wires are
    declared without signs, has the value of the unsigned case. */
module Ift {
  import opened Bitvectors
  import Cells
  import Pmux

  type Tag = set<nat>

  // ----- the tag rules of the cells -----

  function UnaryTag(at: Tag): Tag {
    at
  }

  function When(c: bool, t: Tag): Tag {
    if c then t else {}
  }

  function BinaryTag(op: Cells.BinOp, a: Bv, b: Bv, at: Tag, bt: Tag): Tag {
    match op
    case AndOp | LogicAndOp => When(NonZero(a), bt) + When(NonZero(b), at) + at * bt
    case OrOp | LogicOrOp => When(!NonZero(a), bt) + When(!NonZero(b), at) + at * bt
    case _ => at + bt
  }

  function MuxTag(a: Bv, b: Bv, s: Bv, at: Tag, bt: Tag, st: Tag): Tag {
    (if NonZero(s) then bt else at) + When(|a| == |b| && Parity(Xor(a, b)), st) + at * st + bt * st
  }

  /** The generated casez function has one arm per select bit, all with the tag of B. */
  function PMuxTag(s: Bv, at: Tag, bt: Tag, st: Tag): Tag {
    (if NonZero(s) then bt else at) + st
  }

  function DffeTag(enabled: bool, dt: Tag, et: Tag, qt: Tag): Tag {
    if enabled then dt + et else qt
  }

  function DffeValue(enabled: bool, d: Bv, q: Bv): Bv {
    if enabled then d else q
  }

  function MuxValue(a: Bv, b: Bv, s: Bv): Bv {
    if NonZero(s) then b else a
  }

  function PMuxValue(a: Bv, b: Bv, s: Bv): Bv {
    if |b| == |s| * |a| then Pmux.Select(a, b, s) else []
  }

  // ----- when a rule is sound for one lane -----

  /** What lane k is to say of a word in two runs: where they differ, k is set. */
  predicate Tracks(k: nat, x: Bv, x': Bv, t: Tag) {
    x != x' ==> k in t
  }

  lemma AndSound(a: Bv, b: Bv, a': Bv, b': Bv, sa: bool, sb: bool, w: nat, at: Tag, bt: Tag, k: nat)
    requires |a| == |a'| && |b| == |b'| && Tracks(k, a, a', at) && Tracks(k, b, b', bt)
    ensures Tracks(k, Cells.EvalBinary(Cells.AndOp, a, b, sa, sb, w), Cells.EvalBinary(Cells.AndOp, a', b', sa, sb, w),
                   BinaryTag(Cells.AndOp, a, b, at, bt))
  {
    if k !in bt && !NonZero(b) {
      AndZero(a, b, sa, sb, w);
      AndZero(a', b, sa, sb, w);
    }
    if k !in at && !NonZero(a) {
      AndZero(b, a, sb, sa, w);
      AndZero(b', a, sb, sa, w);
      AndCommutes(a, b, sa, sb, w);
      AndCommutes(a, b', sa, sb, w);
    }
  }

  /** A zero operand, extended either way, forces the conjunction to zero. */
  lemma AndZero(a: Bv, b: Bv, sa: bool, sb: bool, w: nat)
    requires !NonZero(b)
    ensures Cells.EvalBinary(Cells.AndOp, a, b, sa, sb, w) == Repeat(false, w)
  {
    var width := Cells.Max(w, Cells.Max(|a|, |b|));
    var z := Ext(b, width, sa && sb);
    assert forall i :: 0 <= i < width ==> !z[i];
  }

  lemma AndCommutes(a: Bv, b: Bv, sa: bool, sb: bool, w: nat)
    ensures Cells.EvalBinary(Cells.AndOp, a, b, sa, sb, w) == Cells.EvalBinary(Cells.AndOp, b, a, sb, sa, w)
  {
    var width := Cells.Max(w, Cells.Max(|a|, |b|));
    var x, z := Ext(a, width, sa && sb), Ext(b, width, sa && sb);
    assert And(x, z) == And(z, x);
  }

  /** One-bit operands of $or. */
  lemma OrSound(a: Bv, b: Bv, a': Bv, b': Bv, sa: bool, sb: bool, w: nat, at: Tag, bt: Tag, k: nat)
    requires |a| == |a'| == |b| == |b'| == 1 && Tracks(k, a, a', at) && Tracks(k, b, b', bt)
    ensures Tracks(k, Cells.EvalBinary(Cells.OrOp, a, b, sa, sb, w), Cells.EvalBinary(Cells.OrOp, a', b', sa, sb, w),
                   BinaryTag(Cells.OrOp, a, b, at, bt))
  {
    if k !in at && NonZero(a) {
      OrOne(a, b, sa, sb, w);
      OrOne(a, b', sa, sb, w);
    }
    if k !in bt && NonZero(b) {
      OrOne(b, a, sb, sa, w);
      OrOne(b, a', sb, sa, w);
      OrCommutes(a, b, sa, sb, w);
      OrCommutes(a', b, sa, sb, w);
    }
  }

  function OneOr(w: nat, signed: bool): (y: Bv)
    ensures |y| == w
  {
    seq(w, i => i == 0 || signed)
  }

  lemma OrOne(a: Bv, b: Bv, sa: bool, sb: bool, w: nat)
    requires |a| == |b| == 1 && NonZero(a)
    ensures Cells.EvalBinary(Cells.OrOp, a, b, sa, sb, w) == OneOr(w, sa && sb)
  {
    var width := Cells.Max(w, 1);
    var x, z := Ext(a, width, sa && sb), Ext(b, width, sa && sb);
    assert x[0] && forall i :: 1 <= i < width ==> x[i] == (sa && sb) && (z[i] ==> sa && sb);
    var y := Cells.EvalBinary(Cells.OrOp, a, b, sa, sb, w);
    assert y == Or(x, z)[..w];
    assert forall i :: 0 <= i < w ==> y[i] == (x[i] || z[i]);
  }

  lemma OrCommutes(a: Bv, b: Bv, sa: bool, sb: bool, w: nat)
    ensures Cells.EvalBinary(Cells.OrOp, a, b, sa, sb, w) == Cells.EvalBinary(Cells.OrOp, b, a, sb, sa, w)
  {
    var width := Cells.Max(w, Cells.Max(|a|, |b|));
    var x, z := Ext(a, width, sa && sb), Ext(b, width, sa && sb);
    assert Or(x, z) == Or(z, x);
  }

  ghost predicate OrRuleSound(wa: nat, wb: nat, w: nat, sa: bool, sb: bool) {
    forall a: Bv, b: Bv, a': Bv, b': Bv, at: Tag, bt: Tag, k: nat ::
      |a| == |a'| == wa && |b| == |b'| == wb && Tracks(k, a, a', at) && Tracks(k, b, b', bt) ==>
        Tracks(k, Cells.EvalBinary(Cells.OrOp, a, b, sa, sb, w), Cells.EvalBinary(Cells.OrOp, a', b', sa, sb, w),
               BinaryTag(Cells.OrOp, a, b, at, bt))
  }

  /** The $or rule tests whole words against zero: it tracks every lane exactly for
      one-bit operands. */
  lemma OrRuleSoundIff(wa: nat, wb: nat, w: nat, sa: bool, sb: bool)
    requires wa > 0 && wb > 0 && w > 0
    ensures OrRuleSound(wa, wb, w, sa, sb) <==> wa == 1 && wb == 1
  {
    if wa == 1 && wb == 1 {
      forall a: Bv, b: Bv, a': Bv, b': Bv, at: Tag, bt: Tag, k: nat |
        |a| == |a'| == wa && |b| == |b'| == wb && Tracks(k, a, a', at) && Tracks(k, b, b', bt)
        ensures Tracks(k, Cells.EvalBinary(Cells.OrOp, a, b, sa, sb, w),
                       Cells.EvalBinary(Cells.OrOp, a', b', sa, sb, w),
                       BinaryTag(Cells.OrOp, a, b, at, bt))
      {
        OrSound(a, b, a', b', sa, sb, w, at, bt, k);
      }
    } else {
      OrEscapes(wa, wb, w, sa, sb, wa > 1);
    }
  }

  /** A word whose bit 1 is set hides a change of bit 0 in the other operand. */
  lemma OrEscapes(wa: nat, wb: nat, w: nat, sa: bool, sb: bool, left: bool)
    requires wa > 0 && wb > 0 && w > 0 && if left then wa > 1 else wb > 1
    ensures !OrRuleSound(wa, wb, w, sa, sb)
  {
    var n, m := if left then wa else wb, if left then wb else wa;
    var held: Bv := [false] + Repeat(true, n - 1);
    var low: Bv := Repeat(false, m);
    var high: Bv := [true] + Repeat(false, m - 1);
    assert held[1];
    assert low[0] != high[0];
    var none: Tag, lane: Tag := {}, {0};
    var a, b := if left then held else low, if left then low else held;
    var a', b' := if left then held else high, if left then high else held;
    var at, bt := if left then none else lane, if left then lane else none;
    assert Tracks(0, a, a', at) && Tracks(0, b, b', bt);
    OrLowBit(a, b, sa, sb, w);
    OrLowBit(a', b', sa, sb, w);
    assert 0 !in BinaryTag(Cells.OrOp, a, b, at, bt);
    assert !Tracks(0, Cells.EvalBinary(Cells.OrOp, a, b, sa, sb, w), Cells.EvalBinary(Cells.OrOp, a', b', sa, sb, w),
                   BinaryTag(Cells.OrOp, a, b, at, bt));
  }

  lemma OrLowBit(a: Bv, b: Bv, sa: bool, sb: bool, w: nat)
    requires |a| > 0 && |b| > 0 && w > 0
    ensures Cells.EvalBinary(Cells.OrOp, a, b, sa, sb, w)[0] == (a[0] || b[0])
  {
    var width := Cells.Max(w, Cells.Max(|a|, |b|));
    var x, z := Ext(a, width, sa && sb), Ext(b, width, sa && sb);
    assert x[0] == a[0] && z[0] == b[0];
    assert Cells.EvalBinary(Cells.OrOp, a, b, sa, sb, w) == Or(x, z)[..w];
  }

  /** One-bit data of $mux. */
  lemma MuxSound(a: Bv, b: Bv, s: Bv, a': Bv, b': Bv, s': Bv, at: Tag, bt: Tag, st: Tag, k: nat)
    requires |a| == |a'| == |b| == |b'| == 1
    requires Tracks(k, a, a', at) && Tracks(k, b, b', bt) && Tracks(k, s, s', st)
    ensures Tracks(k, MuxValue(a, b, s), MuxValue(a', b', s'), MuxTag(a, b, s, at, bt, st))
  {
    assert Parity(Xor(a, b)) <==> a[0] != b[0] by {
      var x := Xor(a, b);
      assert x[1..] == [];
    }
  }

  ghost predicate MuxRuleSound(w: nat) {
    forall a: Bv, b: Bv, s: Bv, a': Bv, b': Bv, s': Bv, at: Tag, bt: Tag, st: Tag, k: nat ::
      |a| == |a'| == |b| == |b'| == w && |s| == |s'| == 1 &&
      Tracks(k, a, a', at) && Tracks(k, b, b', bt) && Tracks(k, s, s', st) ==>
        Tracks(k, MuxValue(a, b, s), MuxValue(a', b', s'), MuxTag(a, b, s, at, bt, st))
  }

  /** The $mux rule compares the data words by the parity of their difference: it
      tracks every lane exactly for one-bit data. */
  lemma MuxRuleSoundIff(w: nat)
    requires w > 0
    ensures MuxRuleSound(w) <==> w == 1
  {
    if w == 1 {
      forall a: Bv, b: Bv, s: Bv, a': Bv, b': Bv, s': Bv, at: Tag, bt: Tag, st: Tag, k: nat |
        |a| == |a'| == |b| == |b'| == w && |s| == |s'| == 1 &&
        Tracks(k, a, a', at) && Tracks(k, b, b', bt) && Tracks(k, s, s', st)
        ensures Tracks(k, MuxValue(a, b, s), MuxValue(a', b', s'), MuxTag(a, b, s, at, bt, st))
      {
        MuxSound(a, b, s, a', b', s', at, bt, st, k);
      }
    } else {
      var a: Bv, b: Bv := Repeat(false, w), [true, true] + Repeat(false, w - 2);
      TwoBitsAreEven(a, b);
      assert a[0] != b[0];
      var none: Tag, lane: Tag := {}, {0};
      assert Tracks(0, a, a, none) && Tracks(0, b, b, none) && Tracks(0, [false], [true], lane);
      assert 0 !in MuxTag(a, b, [false], none, none, lane);
      assert NonZero([true]) by {
        assert [true][0];
      }
      assert MuxValue(a, b, [false]) == a && MuxValue(a, b, [true]) == b;
      assert !Tracks(0, MuxValue(a, b, [false]), MuxValue(a, b, [true]), MuxTag(a, b, [false], none, none, lane));
    }
  }

  lemma TwoBitsAreEven(a: Bv, b: Bv)
    requires |a| == |b| >= 2 && a == Repeat(false, |a|) && b == [true, true] + Repeat(false, |a| - 2)
    ensures !Parity(Xor(a, b))
  {
    var x := Xor(a, b);
    assert x == b;
    ZerosAreEven(|a| - 2);
    assert x[1..][1..] == Repeat(false, |a| - 2);
  }

  lemma {:induction false} ZerosAreEven(w: nat)
    ensures !Parity(Repeat(false, w))
  {
    if w > 0 {
      assert Repeat(false, w)[1..] == Repeat(false, w - 1);
      ZerosAreEven(w - 1);
    }
  }

  // ----- registers with an enable -----

  /** Lane k tracks the next value of a register of w bits, whatever data, held value and
      enable the other run has, as far as their tags allow. */
  ghost predicate DffeRuleSound(w: nat, en: Bv, high: bool, dt: Tag, et: Tag, qt: Tag, k: nat) {
    forall d: Bv, d': Bv, q: Bv, q': Bv, en': Bv ::
      |d| == |d'| == |q| == |q'| == w && |en'| == 1 &&
      Tracks(k, d, d', dt) && Tracks(k, en, en', et) && Tracks(k, q, q', qt) ==>
        Tracks(k, DffeValue(Cells.Active(en, high), d, q), DffeValue(Cells.Active(en', high), d', q'),
               DffeTag(Cells.Active(en, high), dt, et, qt))
  }

  /** The $dffe rule takes the tag of the branch that is taken: it tracks a lane exactly
      when the register is loaded, its enable is free of the lane, the held value has the
      lane already, or there is no bit to track. */
  lemma DffeRuleSoundIff(w: nat, en: Bv, high: bool, dt: Tag, et: Tag, qt: Tag, k: nat)
    requires |en| == 1
    ensures DffeRuleSound(w, en, high, dt, et, qt, k) <==>
            Cells.Active(en, high) || k !in et || k in qt || w == 0
  {
    if !(Cells.Active(en, high) || k !in et || k in qt || w == 0) {
      var d, q, en' := Repeat(true, w), Repeat(false, w), [high];
      assert d[0] != q[0];
      assert Tracks(k, d, d, dt) && Tracks(k, q, q, qt) && Tracks(k, en, en', et);
      assert !Tracks(k, DffeValue(false, d, q), DffeValue(Cells.Active(en', high), d, q), DffeTag(false, dt, et, qt));
    }
  }

  // ----- lanes that change together -----

  /** What the lanes of l together are to say of a word in two runs: where they differ,
      one of the lanes is set. */
  predicate JointlyTracks(l: Tag, x: Bv, x': Bv, t: Tag) {
    x != x' ==> l * t != {}
  }

  /** The $and rule shows some lane of l, whatever change the lanes of l allow. */
  ghost predicate JointRuleSound(l: Tag, a: Bv, b: Bv, sa: bool, sb: bool, w: nat, at: Tag, bt: Tag) {
    forall a': Bv, b': Bv ::
      |a'| == |a| && |b'| == |b| && JointlyTracks(l, a, a', at) && JointlyTracks(l, b, b', bt) ==>
        JointlyTracks(l, Cells.EvalBinary(Cells.AndOp, a, b, sa, sb, w),
                      Cells.EvalBinary(Cells.AndOp, a', b', sa, sb, w), BinaryTag(Cells.AndOp, a, b, at, bt))
  }

  /** Of lanes that change together the $and rule shows one, unless both words are zero
      and the lanes reach them separately. */
  lemma JointChangeIff(l: Tag, a: Bv, b: Bv, sa: bool, sb: bool, w: nat, at: Tag, bt: Tag)
    requires |a| > 0 && |b| > 0 && w > 0
    ensures JointRuleSound(l, a, b, sa, sb, w, at, bt) <==>
            NonZero(a) || NonZero(b) || l * at == {} || l * bt == {} || l * (at * bt) != {}
  {
    if NonZero(a) || NonZero(b) || l * at == {} || l * bt == {} || l * (at * bt) != {} {
      forall a': Bv, b': Bv |
        |a'| == |a| && |b'| == |b| && JointlyTracks(l, a, a', at) && JointlyTracks(l, b, b', bt)
        ensures JointlyTracks(l, Cells.EvalBinary(Cells.AndOp, a, b, sa, sb, w),
                              Cells.EvalBinary(Cells.AndOp, a', b', sa, sb, w),
                              BinaryTag(Cells.AndOp, a, b, at, bt))
      {
        JointSound(l, a, b, a', b', sa, sb, w, at, bt);
      }
    } else {
      JointEscapes(l, a, b, sa, sb, w, at, bt);
    }
  }

  lemma JointSound(l: Tag, a: Bv, b: Bv, a': Bv, b': Bv, sa: bool, sb: bool, w: nat, at: Tag, bt: Tag)
    requires |a'| == |a| && |b'| == |b| && JointlyTracks(l, a, a', at) && JointlyTracks(l, b, b', bt)
    requires NonZero(a) || NonZero(b) || l * at == {} || l * bt == {} || l * (at * bt) != {}
    ensures JointlyTracks(l, Cells.EvalBinary(Cells.AndOp, a, b, sa, sb, w),
                          Cells.EvalBinary(Cells.AndOp, a', b', sa, sb, w), BinaryTag(Cells.AndOp, a, b, at, bt))
  {
    var t := BinaryTag(Cells.AndOp, a, b, at, bt);
    if l * t == {} {
      assert forall k :: k in l ==> k !in t;
      assert l * (at * bt) == {};
      assert NonZero(a) ==> l * bt == {};
      assert NonZero(b) ==> l * at == {};
      if l * bt == {} && !NonZero(b) {
        AndZero(a, b, sa, sb, w);
        AndZero(a', b, sa, sb, w);
      }
      if l * at == {} && !NonZero(a) {
        AndZero(b, a, sb, sa, w);
        AndZero(b', a, sb, sa, w);
        AndCommutes(a, b, sa, sb, w);
        AndCommutes(a, b', sa, sb, w);
      }
    }
  }

  lemma JointEscapes(l: Tag, a: Bv, b: Bv, sa: bool, sb: bool, w: nat, at: Tag, bt: Tag)
    requires |a| > 0 && |b| > 0 && w > 0 && !NonZero(a) && !NonZero(b)
    requires l * at != {} && l * bt != {} && l * (at * bt) == {}
    ensures !JointRuleSound(l, a, b, sa, sb, w, at, bt)
  {
    var a', b' := Repeat(true, |a|), Repeat(true, |b|);
    assert !a[0] && !b[0];
    AndLowBit(a, b, sa, sb, w);
    AndLowBit(a', b', sa, sb, w);
    assert l * BinaryTag(Cells.AndOp, a, b, at, bt) == {};
    assert JointlyTracks(l, a, a', at) && JointlyTracks(l, b, b', bt);
  }

  lemma AndLowBit(a: Bv, b: Bv, sa: bool, sb: bool, w: nat)
    requires |a| > 0 && |b| > 0 && w > 0
    ensures Cells.EvalBinary(Cells.AndOp, a, b, sa, sb, w)[0] == (a[0] && b[0])
  {
    var width := Cells.Max(w, Cells.Max(|a|, |b|));
    var x, z := Ext(a, width, sa && sb), Ext(b, width, sa && sb);
    assert x[0] == a[0] && z[0] == b[0];
    assert Cells.EvalBinary(Cells.AndOp, a, b, sa, sb, w) == And(x, z)[..w];
  }

  /** The smallest such case: two zeros that become ones, each with a lane of its own. */
  lemma JointChangeEscapes()
    ensures exists a: Bv, b: Bv, a': Bv, b': Bv, at: Tag, bt: Tag, j: nat, k: nat ::
              Tracks(j, a, a', at) && Tracks(k, b, b', bt) &&
              Cells.EvalBinary(Cells.AndOp, a, b, false, false, 1) !=
                Cells.EvalBinary(Cells.AndOp, a', b', false, false, 1) &&
              j !in BinaryTag(Cells.AndOp, a, b, at, bt) && k !in BinaryTag(Cells.AndOp, a, b, at, bt)
  {
    var z: Bv, o: Bv := [false], [true];
    var x := Cells.EvalBinary(Cells.AndOp, z, z, false, false, 1);
    var y := Cells.EvalBinary(Cells.AndOp, o, o, false, false, 1);
    AndZero(z, z, false, false, 1);
    assert Ext(o, 1, false) == o;
    assert y == And(o, o)[..1];
    assert x[0] != y[0];
    assert Tracks(1, z, o, {1}) && Tracks(2, z, o, {2});
    assert 1 !in BinaryTag(Cells.AndOp, z, z, {1}, {2}) && 2 !in BinaryTag(Cells.AndOp, z, z, {1}, {2});
  }
}
