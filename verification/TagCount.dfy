/** Counting the tags that a signal has seen, and those that two signals have seen in
    common, over all value change dumps of an analysis. */
module TagCount {
  import opened Bitvectors

  datatype VcdBit = Zero | One | X | Z

  /** The bits of a value, most significant first. */
  type Value = seq<VcdBit>

  /** The bit positions of a 32-bit word. */
  const WORD := 32

  predicate Narrow(v: Value) {
    |v| <= WORD
  }

  /** The one-hot pattern of a set bit, zero for any other. */
  function TagPattern(size: nat, index: nat, bit: VcdBit): nat
    requires index < size <= WORD
  {
    if bit == One then Pow2(size - index - 1) else 0
  }

  method InsertTagUpdateCount(tags: set<nat>, size: nat, index: nat, bit: VcdBit, tagCount: nat)
    returns (inserted: set<nat>, count: nat)
    requires index < size <= WORD
    ensures inserted == if bit == One then tags + {Pow2(size - index - 1)} else tags
    ensures count == tagCount + |inserted| - |tags|
  {
    var pattern := TagPattern(size, index, bit);
    inserted, count := tags, tagCount;
    if pattern != 0 {
      if pattern !in tags {
        inserted := tags + {pattern};
        count := tagCount + 1;
      } else {
        assert tags + {pattern} == tags;
      }
    }
  }

  // ----- the sets behind the counters -----

  /** The lanes set in the first n bits of a value. */
  function LanesUpTo(v: Value, n: nat): set<nat>
    requires n <= |v|
  {
    set i | 0 <= i < n && v[i] == One :: |v| - 1 - i
  }

  /** The lanes seen in a list of values. */
  function Lanes(values: seq<Value>): set<nat> {
    if |values| == 0 then {}
    else Lanes(values[..|values| - 1]) + LanesUpTo(values[|values| - 1], |values[|values| - 1]|)
  }

  function Patterns(lanes: set<nat>): set<nat> {
    set p | p in lanes :: Pow2(p)
  }

  lemma {:induction false} PowInjective(p: nat, q: nat)
    requires p < q
    ensures Pow2(p) < Pow2(q)
  {
    if p + 1 < q {
      PowInjective(p, q - 1);
    }
  }

  lemma PatternOf(lanes: set<nat>, p: nat)
    ensures Pow2(p) in Patterns(lanes) <==> p in lanes
  {
    if Pow2(p) in Patterns(lanes) {
      var q :| q in lanes && Pow2(q) == Pow2(p);
      if p < q {
        PowInjective(p, q);
      } else if q < p {
        PowInjective(q, p);
      }
    }
  }

  /** Distinct lanes have distinct patterns, so that counting patterns counts lanes. */
  lemma {:induction false} PatternsCount(lanes: set<nat>)
    ensures |Patterns(lanes)| == |lanes|
    decreases |lanes|
  {
    if lanes != {} {
      var p :| p in lanes;
      var rest := lanes - {p};
      PatternsCount(rest);
      PatternOf(rest, p);
      assert Patterns(lanes) == Patterns(rest) + {Pow2(p)};
    } else {
      assert Patterns(lanes) == {};
    }
  }

  lemma PatternsMeet(a: set<nat>, b: set<nat>)
    ensures Patterns(a) * Patterns(b) == Patterns(a * b)
  {
    forall x | x in Patterns(a) * Patterns(b)
      ensures x in Patterns(a * b)
    {
      var p :| p in a && Pow2(p) == x;
      PatternOf(b, p);
      assert p in a * b;
    }
  }

  lemma PatternsGrow(a: set<nat>, p: nat)
    ensures Patterns(a + {p}) == Patterns(a) + {Pow2(p)}
  {
  }

  lemma NoLane(v: Value, seen: set<nat>)
    ensures seen + LanesUpTo(v, 0) == seen
  {
  }

  /** A bit more of a value. */
  lemma NextLane(v: Value, n: nat, seen: set<nat>)
    requires n < |v|
    ensures seen + LanesUpTo(v, n + 1) == (seen + LanesUpTo(v, n)) + if v[n] == One then {|v| - 1 - n} else {}
  {
    assert LanesUpTo(v, n + 1) == LanesUpTo(v, n) + if v[n] == One then {|v| - 1 - n} else {};
  }

  /** The distinct tags a signal carries, summed over the dumps. */
  function TotalLanes(dumps: seq<seq<Value>>): nat {
    if |dumps| == 0 then 0 else TotalLanes(dumps[..|dumps| - 1]) + |Lanes(dumps[|dumps| - 1])|
  }

  /** The distinct tags two signals both carry, summed over the dumps. */
  function TotalShared(sources: seq<seq<Value>>, targets: seq<seq<Value>>): nat
    requires |sources| == |targets|
  {
    if |sources| == 0 then 0
    else
      var n := |sources| - 1;
      TotalShared(sources[..n], targets[..n]) + |Lanes(sources[n]) * Lanes(targets[n])|
  }

  ghost predicate AllNarrow(dumps: seq<seq<Value>>) {
    forall i :: 0 <= i < |dumps| ==> forall j :: 0 <= j < |dumps[i]| ==> Narrow(dumps[i][j])
  }

  /** The values of a signal in a dump; a signal without one has none. */
  function Recorded(present: bool, dumps: seq<seq<Value>>): seq<seq<Value>> {
    if present then dumps else seq(|dumps|, i => [])
  }

  // ----- the loops -----

  /** The patterns of the lanes that count. */
  function Counted(lanes: set<nat>, allowed: set<nat>, restricted: bool): set<nat> {
    if restricted then Patterns(lanes) * allowed else Patterns(lanes)
  }

  /** One bit of a value: a lane counts once, and only if it is allowed. */
  lemma CountedStep(lanes: set<nat>, p: nat, allowed: set<nat>, restricted: bool)
    ensures Counted(lanes + {p}, allowed, restricted) ==
            Counted(lanes, allowed, restricted) + if !restricted || Pow2(p) in allowed then {Pow2(p)} else {}
  {
    PatternsGrow(lanes, p);
  }

  /** One bit. */
  method CountBit(size: nat, index: nat, bit: VcdBit, allowed: set<nat>, restricted: bool, tags: set<nat>,
                  tagCount: nat, ghost seen: set<nat>)
    returns (more: set<nat>, count: nat, ghost lanes: set<nat>)
    requires index < size <= WORD && tags == Counted(seen, allowed, restricted)
    ensures lanes == seen + if bit == One then {size - 1 - index} else {}
    ensures more == Counted(lanes, allowed, restricted) && count == tagCount + |more| - |tags|
  {
    more, count, lanes := tags, tagCount, seen;
    var pattern := TagPattern(size, index, bit);
    if pattern != 0 {
      CountedStep(seen, size - 1 - index, allowed, restricted);
      lanes := seen + {size - 1 - index};
      if !restricted || pattern in allowed {
        more, count := InsertTagUpdateCount(tags, size, index, bit, tagCount);
      }
    }
  }

  /** The bits of one value. */
  method CountValue(v: Value, allowed: set<nat>, restricted: bool, tags: set<nat>, tagCount: nat, ghost seen: set<nat>)
    returns (more: set<nat>, count: nat)
    requires Narrow(v) && tags == Counted(seen, allowed, restricted)
    ensures more == Counted(seen + LanesUpTo(v, |v|), allowed, restricted)
    ensures count == tagCount + |more| - |tags|
  {
    more, count := tags, tagCount;
    ghost var lanes := seen;
    NoLane(v, seen);
    for index := 0 to |v|
      invariant lanes == seen + LanesUpTo(v, index)
      invariant more == Counted(lanes, allowed, restricted)
      invariant count == tagCount + |more| - |tags|
    {
      NextLane(v, index, seen);
      more, count, lanes := CountBit(|v|, index, v[index], allowed, restricted, more, count, lanes);
    }
  }

  /** The tags in a list of values that are also allowed, each counted once. */
  method CountTags(values: seq<Value>, allowed: set<nat>, restricted: bool, tagCount: nat)
    returns (tags: set<nat>, count: nat)
    requires forall j :: 0 <= j < |values| ==> Narrow(values[j])
    ensures tags == Counted(Lanes(values), allowed, restricted)
    ensures count == tagCount + |tags|
  {
    tags, count := {}, tagCount;
    assert Patterns({}) == {};
    for j := 0 to |values|
      invariant tags == Counted(Lanes(values[..j]), allowed, restricted)
      invariant count == tagCount + |tags|
    {
      assert values[..j + 1][..j] == values[..j];
      tags, count := CountValue(values[j], allowed, restricted, tags, count, Lanes(values[..j]));
    }
    assert values[..|values|] == values;
  }

  /** The number of distinct tags of a signal, dump by dump. */
  method GetTagCountSignal(present: bool, dumps: seq<seq<Value>>) returns (tagCount: nat)
    requires AllNarrow(dumps)
    ensures tagCount == TotalLanes(Recorded(present, dumps))
  {
    tagCount := 0;
    ghost var recorded := Recorded(present, dumps);
    for i := 0 to |dumps|
      invariant tagCount == TotalLanes(recorded[..i])
    {
      assert recorded[..i + 1][..i] == recorded[..i];
      var tags;
      tags, tagCount := CountTags(if present then dumps[i] else [], {}, false, tagCount);
      PatternsCount(Lanes(recorded[i]));
    }
    assert recorded[..|dumps|] == recorded;
  }

  /** The tags of the source, dump by dump. */
  method CollectTags(present: bool, dumps: seq<seq<Value>>) returns (tags: seq<set<nat>>)
    requires AllNarrow(dumps)
    ensures |tags| == |dumps| && forall k :: 0 <= k < |dumps| ==>
            tags[k] == Patterns(Lanes(Recorded(present, dumps)[k]))
  {
    tags := [];
    for i := 0 to |dumps|
      invariant |tags| == i
      invariant forall k :: 0 <= k < i ==> tags[k] == Patterns(Lanes(Recorded(present, dumps)[k]))
    {
      var next, count := CountTags(if present then dumps[i] else [], {}, false, 0);
      tags := tags + [next];
    }
  }

  /** The tags of the target that the source has in the same dump. */
  method CountShared(present: bool, dumps: seq<seq<Value>>, tagsOfInputs: seq<set<nat>>, ghost sources: seq<seq<Value>>)
    returns (tagCount: nat)
    requires AllNarrow(dumps) && |dumps| == |tagsOfInputs| == |sources|
    requires forall k :: 0 <= k < |dumps| ==> tagsOfInputs[k] == Patterns(Lanes(sources[k]))
    ensures tagCount == TotalShared(sources, Recorded(present, dumps))
  {
    tagCount := 0;
    ghost var targets := Recorded(present, dumps);
    for i := 0 to |dumps|
      invariant tagCount == TotalShared(sources[..i], targets[..i])
    {
      var tags;
      tags, tagCount := CountTags(if present then dumps[i] else [], tagsOfInputs[i], true, tagCount);
      SharedPatterns(Lanes(sources[i]), Lanes(targets[i]));
      SharedNext(sources, targets, i);
    }
    assert sources[..|dumps|] == sources && targets[..|dumps|] == targets;
  }

  /** The number of distinct tags that both signals carry, dump by dump. */
  method GetTagCountSignalToSignal(sourcePresent: bool, sources: seq<seq<Value>>, targetPresent: bool,
                                   targets: seq<seq<Value>>)
    returns (tagCount: nat)
    requires |sources| == |targets| && AllNarrow(sources) && AllNarrow(targets)
    ensures tagCount == TotalShared(Recorded(sourcePresent, sources), Recorded(targetPresent, targets))
    ensures tagCount <= TotalLanes(Recorded(sourcePresent, sources)) &&
            tagCount <= TotalLanes(Recorded(targetPresent, targets))
  {
    var tagsOfInputs := CollectTags(sourcePresent, sources);
    tagCount := CountShared(targetPresent, targets, tagsOfInputs, Recorded(sourcePresent, sources));
    SharedAtMost(Recorded(sourcePresent, sources), Recorded(targetPresent, targets));
  }

  lemma SharedNext(sources: seq<seq<Value>>, targets: seq<seq<Value>>, i: nat)
    requires i < |sources| == |targets|
    ensures TotalShared(sources[..i + 1], targets[..i + 1]) ==
            TotalShared(sources[..i], targets[..i]) + |Lanes(sources[i]) * Lanes(targets[i])|
  {
    assert sources[..i + 1][..i] == sources[..i] && targets[..i + 1][..i] == targets[..i];
  }

  // ----- what is counted -----

  /** Some value of the list has lane p: its bit p, counted from the least significant one, is 1. */
  ghost predicate Carries(values: seq<Value>, p: nat) {
    exists j :: 0 <= j < |values| && p < |values[j]| && values[j][|values[j]| - 1 - p] == One
  }

  lemma LaneOfValue(v: Value, p: nat)
    ensures p in LanesUpTo(v, |v|) <==> p < |v| && v[|v| - 1 - p] == One
  {
    if p < |v| && v[|v| - 1 - p] == One {
      var i := |v| - 1 - p;
      assert |v| - 1 - i == p;
    }
  }

  lemma CarriesNext(values: seq<Value>, v: Value, p: nat)
    ensures Carries(values + [v], p) <==> Carries(values, p) || (p < |v| && v[|v| - 1 - p] == One)
  {
    var more := values + [v];
    if Carries(values, p) {
      var j :| 0 <= j < |values| && p < |values[j]| && values[j][|values[j]| - 1 - p] == One;
      assert more[j] == values[j];
    }
    if p < |v| && v[|v| - 1 - p] == One {
      assert more[|values|] == v;
    }
  }

  lemma {:induction false} LanesAre(values: seq<Value>, p: nat)
    ensures p in Lanes(values) <==> Carries(values, p)
  {
    if |values| > 0 {
      var n := |values| - 1;
      LanesAre(values[..n], p);
      LaneOfValue(values[n], p);
      CarriesNext(values[..n], values[n], p);
      assert values == values[..n] + [values[n]];
    }
  }

  /** The pairs of a dump and a lane that the signal has in it. */
  ghost predicate ArePairs(dumps: seq<seq<Value>>, pairs: set<(nat, nat)>) {
    forall d: nat, p: nat :: (d, p) in pairs <==> d < |dumps| && Carries(dumps[d], p)
  }

  ghost predicate AreSharedPairs(sources: seq<seq<Value>>, targets: seq<seq<Value>>, pairs: set<(nat, nat)>)
    requires |sources| == |targets|
  {
    forall d: nat, p: nat ::
      (d, p) in pairs <==> d < |sources| && Carries(sources[d], p) && Carries(targets[d], p)
  }

  function PairsOf(d: nat, lanes: set<nat>): set<(nat, nat)> {
    set p | p in lanes :: (d, p)
  }

  lemma {:induction false} PairsCount(d: nat, lanes: set<nat>)
    ensures |PairsOf(d, lanes)| == |lanes|
    decreases |lanes|
  {
    if lanes != {} {
      var p :| p in lanes;
      PairsCount(d, lanes - {p});
      assert PairsOf(d, lanes) == PairsOf(d, lanes - {p}) + {(d, p)};
    } else {
      assert PairsOf(d, lanes) == {};
    }
  }

  lemma NoPairs(pairs: set<(nat, nat)>)
    requires forall d: nat, p: nat :: (d, p) !in pairs
    ensures pairs == {}
  {
    forall x: (nat, nat)
      ensures x !in pairs
    {
      var (d, p) := x;
      assert x == (d, p);
    }
  }

  /** The pairs of all dumps before dump n, and those of dump n. */
  lemma SplitPairs(pairs: set<(nat, nat)>, n: nat, lanes: set<nat>) returns (before: set<(nat, nat)>)
    requires forall d: nat, p: nat :: (d, p) in pairs ==> d <= n
    requires forall p: nat :: (n, p) in pairs <==> p in lanes
    ensures |pairs| == |before| + |lanes|
    ensures forall d: nat, p: nat :: (d, p) in before <==> (d, p) in pairs && d < n
  {
    before := set x | x in pairs && x.0 < n;
    assert pairs == before + PairsOf(n, lanes);
    PairsCount(n, lanes);
  }

  /** The count of a signal is the number of pairs of a dump and a lane seen in it. */
  lemma {:induction false} TotalIsPairs(dumps: seq<seq<Value>>, pairs: set<(nat, nat)>)
    requires ArePairs(dumps, pairs)
    ensures TotalLanes(dumps) == |pairs|
  {
    if |dumps| == 0 {
      NoPairs(pairs);
    } else {
      var n := |dumps| - 1;
      forall p: nat
        ensures (n, p) in pairs <==> p in Lanes(dumps[n])
      {
        LanesAre(dumps[n], p);
      }
      var before := SplitPairs(pairs, n, Lanes(dumps[n]));
      assert forall d :: 0 <= d < n ==> dumps[..n][d] == dumps[d];
      TotalIsPairs(dumps[..n], before);
    }
  }

  /** The count of two signals is the number of pairs of a dump and a lane that both have in it. */
  lemma {:induction false} SharedIsPairs(sources: seq<seq<Value>>, targets: seq<seq<Value>>, pairs: set<(nat, nat)>)
    requires |sources| == |targets| && AreSharedPairs(sources, targets, pairs)
    ensures TotalShared(sources, targets) == |pairs|
  {
    if |sources| == 0 {
      NoPairs(pairs);
    } else {
      var n := |sources| - 1;
      forall p: nat
        ensures (n, p) in pairs <==> p in Lanes(sources[n]) * Lanes(targets[n])
      {
        LanesAre(sources[n], p);
        LanesAre(targets[n], p);
      }
      var before := SplitPairs(pairs, n, Lanes(sources[n]) * Lanes(targets[n]));
      assert forall d :: 0 <= d < n ==> sources[..n][d] == sources[d] && targets[..n][d] == targets[d];
      SharedIsPairs(sources[..n], targets[..n], before);
    }
  }

  lemma SharedPatterns(a: set<nat>, b: set<nat>)
    ensures |Patterns(b) * Patterns(a)| == |a * b|
  {
    PatternsMeet(b, a);
    PatternsCount(b * a);
    assert b * a == a * b;
  }

  /** Two signals share no more tags than either of them carries. */
  lemma {:induction false} SharedAtMost(sources: seq<seq<Value>>, targets: seq<seq<Value>>)
    requires |sources| == |targets|
    ensures TotalShared(sources, targets) <= TotalLanes(sources) && TotalShared(sources, targets) <= TotalLanes(targets)
  {
    if |sources| > 0 {
      var n := |sources| - 1;
      SharedAtMost(sources[..n], targets[..n]);
      SubsetAtMost(Lanes(sources[n]) * Lanes(targets[n]), Lanes(sources[n]));
      SubsetAtMost(Lanes(sources[n]) * Lanes(targets[n]), Lanes(targets[n]));
    }
  }

  lemma SubsetAtMost(a: set<nat>, b: set<nat>)
    requires a <= b
    ensures |a| <= |b|
  {
    assert b == a + (b - a);
  }
}
