/** The parallel multiplexer: the casez statement of the Verilog back end, its
    shadow tag function and the ite chain of the SMT back end. */
module Pmux {
  import opened Bitvectors

  /** The priority a parallel multiplexer resolves its select word by. */
  function LowestSet(s: Bv): (i: nat)
    requires NonZero(s)
    ensures i < |s| && s[i] && forall j :: 0 <= j < i ==> !s[j]
  {
    if s[0] then 0 else
      assert NonZero(s[1..]) by {
        var k :| 0 <= k < |s| && s[k];
        assert s[1..][k - 1];
      }
      1 + LowestSet(s[1..])
  }

  function SliceOrEmpty(b: Bv, i: nat, width: nat): Bv {
    if i * width <= (i + 1) * width <= |b| then b[i * width..(i + 1) * width] else []
  }

  lemma {:induction false} SliceInRange(i: nat, n: nat, width: nat)
    requires i < n
    ensures i * width <= (i + 1) * width <= n * width
    decreases n - i
  {
    assert (i + 1) * width == i * width + width;
    if i + 1 < n {
      SliceInRange(i + 1, n, width);
    }
  }

  /** What the cell means: A when no select bit is set, otherwise the slice of B
      at the lowest set select bit. */
  function Select(a: Bv, b: Bv, s: Bv): (y: Bv)
    requires |b| == |s| * |a|
    ensures |y| == |a|
  {
    if NonZero(s) then
      SliceInRange(LowestSet(s), |s|, |a|);
      SliceOrEmpty(b, LowestSet(s), |a|)
    else a
  }

  // ----- the casez back end -----

  /** One arm: a pattern, written most significant character first, and the index
      of the slice of B it assigns. */
  datatype Arm = Arm(pattern: string, slice: nat)

  predicate Matches(pattern: string, s: Bv) {
    |pattern| == |s| &&
    forall j :: 0 <= j < |pattern| ==>
      (pattern[j] == '1' ==> s[|s| - 1 - j]) && (pattern[j] == '0' ==> !s[|s| - 1 - j])
  }

  /** casez takes the first arm that matches. */
  function FirstMatch(arms: seq<Arm>, s: Bv): (r: int)
    ensures -1 <= r < |arms|
    ensures r >= 0 ==> Matches(arms[r].pattern, s) && forall k :: 0 <= k < r ==> !Matches(arms[k].pattern, s)
    ensures r < 0 ==> forall k :: 0 <= k < |arms| ==> !Matches(arms[k].pattern, s)
  {
    if |arms| == 0 then -1
    else if Matches(arms[0].pattern, s) then 0
    else
      var r := FirstMatch(arms[1..], s);
      assert forall k :: 1 <= k < |arms| ==> arms[k] == arms[1..][k - 1];
      if r < 0 then -1 else r + 1
  }

  /** The pattern that tests select bit i only. */
  ghost predicate TestsBit(pattern: string, n: nat, i: nat) {
    |pattern| == n && i < n && forall j :: 0 <= j < n ==> pattern[j] == if j == n - 1 - i then '1' else '?'
  }

  ghost predicate CasesFor(arms: seq<Arm>, n: nat) {
    |arms| == n && forall i :: 0 <= i < n ==> TestsBit(arms[i].pattern, n, i) && arms[i].slice == i
  }

  /** Both casez statements: the pattern string is rotated in place after every
      arm, and the second statement goes on from where the first one left it. */
  method ExportCases(sWidth: nat) returns (valueArms: seq<Arm>, tagArms: seq<Arm>)
    requires sWidth > 0
    ensures CasesFor(valueArms, sWidth) && CasesFor(tagArms, sWidth)
  {
    var caseVec := seq(sWidth - 1, _ => '?') + ['1'];
    valueArms, caseVec := ExportArms(sWidth, caseVec);
    tagArms, caseVec := ExportArms(sWidth, caseVec);
  }

  method ExportArms(sWidth: nat, start: string) returns (arms: seq<Arm>, caseVec: string)
    requires sWidth > 0 && TestsBit(start, sWidth, 0)
    ensures CasesFor(arms, sWidth)
    ensures TestsBit(caseVec, sWidth, 0)
  {
    arms, caseVec := [], start;
    for i := 0 to sWidth
      invariant |arms| == i
      invariant forall k :: 0 <= k < i ==> TestsBit(arms[k].pattern, sWidth, k) && arms[k].slice == k
      invariant TestsBit(caseVec, sWidth, if i < sWidth then i else 0)
    {
      arms := arms + [Arm(caseVec, i)];
      caseVec := caseVec[1..] + [caseVec[0]];
    }
  }

  lemma TestMatches(pattern: string, n: nat, i: nat, s: Bv)
    requires TestsBit(pattern, n, i) && |s| == n
    ensures Matches(pattern, s) <==> s[i]
  {
    assert pattern[n - 1 - i] == '1';
  }

  lemma FirstMatchIsLowest(arms: seq<Arm>, s: Bv)
    requires CasesFor(arms, |s|)
    ensures FirstMatch(arms, s) == if NonZero(s) then LowestSet(s) else -1
  {
    forall k | 0 <= k < |s|
      ensures Matches(arms[k].pattern, s) <==> s[k]
    {
      TestMatches(arms[k].pattern, |s|, k, s);
    }
  }

  // ----- the SMT back end -----

  datatype Term =
    | Slice(index: nat)
    | Ite(selectBit: nat, index: nat, els: Term)

  function TermIndex(t: Term, s: Bv): nat {
    match t
    case Slice(i) => i
    case Ite(bit, i, els) => if bit < |s| && s[bit] then i else TermIndex(els, s)
  }

  /** The chain that tests select bits i, i + 1, ... in this order. */
  function Chain(n: nat, i: nat): Term
    requires i < n
    decreases n - i
  {
    if i == n - 1 then Slice(i) else Ite(i, i, Chain(n, i + 1))
  }

  /** The vector of partial ite chains, grown from the top slice downwards. */
  method ExportChain(selectSize: nat) returns (results: seq<Term>)
    requires selectSize > 0
    ensures |results| == selectSize && results[selectSize - 1] == Chain(selectSize, 0)
  {
    results := [Slice(selectSize - 1)];
    var i := selectSize - 1;
    while i > 0
      invariant 0 <= i < selectSize && |results| == selectSize - i
      invariant results[|results| - 1] == Chain(selectSize, i)
    {
      results := results + [Ite(i - 1, i - 1, results[(selectSize - i) - 1])];
      i := i - 1;
    }
  }

  lemma {:induction false} ChainIsLowest(n: nat, i: nat, s: Bv)
    requires |s| == n && NonZero(s) && i <= LowestSet(s)
    ensures TermIndex(Chain(n, i), s) == LowestSet(s)
    decreases n - i
  {
    if i < n - 1 && !s[i] {
      ChainIsLowest(n, i + 1, s);
    }
  }

  function CaseValue(arms: seq<Arm>, a: Bv, b: Bv, s: Bv): Bv {
    var r := FirstMatch(arms, s);
    if r < 0 then a else SliceOrEmpty(b, arms[r].slice, |a|)
  }

  /** The value the asserted ite forces on Y. */
  function ChainValue(chain: Term, a: Bv, b: Bv, s: Bv): Bv {
    if !NonZero(s) then a else SliceOrEmpty(b, TermIndex(chain, s), |a|)
  }

  /** The Verilog and the SMT back end give the cell the same value, for every
      select width, data width and input. */
  lemma BackendsAgree(arms: seq<Arm>, a: Bv, b: Bv, s: Bv)
    requires |s| > 0 && |b| == |s| * |a| && CasesFor(arms, |s|)
    ensures CaseValue(arms, a, b, s) == Select(a, b, s)
    ensures ChainValue(Chain(|s|, 0), a, b, s) == Select(a, b, s)
  {
    FirstMatchIsLowest(arms, s);
    if NonZero(s) {
      ChainIsLowest(|s|, 0, s);
      SliceInRange(LowestSet(s), |s|, |a|);
    }
  }

  /** The shadow function passes B's tag when some select bit is set and A's tag
      otherwise, since both casez statements test the same patterns. */
  lemma TagArmsTestNonZero(arms: seq<Arm>, s: Bv)
    requires CasesFor(arms, |s|)
    ensures FirstMatch(arms, s) >= 0 <==> NonZero(s)
  {
    FirstMatchIsLowest(arms, s);
  }
}
