/** The lookup of input values for the testbench: each lookup erases the values that
    come before the one it found. */
module ValueCursor {

  datatype TimedValue<T> = TimedValue(time: nat, value: T)

  datatype Lookup<T> = Value(value: T) | ElementNotFound | EmptySignal

  predicate Sorted<T>(vs: seq<TimedValue<T>>) {
    forall i, j :: 0 <= i < j < |vs| ==> vs[i].time <= vs[j].time
  }

  /** The plain lookup: the last value at or before the time. */
  function LastAt<T>(vs: seq<TimedValue<T>>, time: nat): Lookup<T> {
    if |vs| == 0 then ElementNotFound
    else if vs[|vs| - 1].time <= time then Value(vs[|vs| - 1].value)
    else LastAt(vs[..|vs| - 1], time)
  }

  lemma {:induction false} LastAtIs<T>(vs: seq<TimedValue<T>>, time: nat, k: nat)
    requires Sorted(vs) && k < |vs| && vs[k].time <= time && (k + 1 < |vs| ==> vs[k + 1].time > time)
    ensures LastAt(vs, time) == Value(vs[k].value)
  {
    if k + 1 < |vs| {
      LastAtIs(vs[..|vs| - 1], time, k);
    }
  }

  lemma {:induction false} NoneAt<T>(vs: seq<TimedValue<T>>, time: nat)
    requires Sorted(vs) && (|vs| > 0 ==> vs[0].time > time)
    ensures LastAt(vs, time) == ElementNotFound
  {
    if |vs| > 0 {
      assert vs[0].time <= vs[|vs| - 1].time;
      NoneAt(vs[..|vs| - 1], time);
    }
  }

  /** The rest of the list that a lookup leaves. */
  ghost predicate IsRest<T>(rest: seq<TimedValue<T>>, vs: seq<TimedValue<T>>, k: nat) {
    k < |vs| && rest == vs[k..]
  }

  /** Later lookups in the rest find what they would find in the whole list. */
  lemma RestSuffices<T>(vs: seq<TimedValue<T>>, rest: seq<TimedValue<T>>, k: nat, time: nat)
    requires Sorted(vs) && IsRest(rest, vs, k) && vs[k].time <= time
    ensures LastAt(rest, time) == LastAt(vs, time)
  {
    var i := Last(vs, k, time);
    LastAtIs(vs, time, i);
    assert rest[i - k] == vs[i];
    assert i + 1 < |vs| ==> rest[i - k + 1] == vs[i + 1];
    LastAtIs(rest, time, i - k);
  }

  ghost function Last<T>(vs: seq<TimedValue<T>>, k: nat, time: nat): (i: nat)
    requires Sorted(vs) && k < |vs| && vs[k].time <= time
    ensures k <= i < |vs| && vs[i].time <= time && (i + 1 < |vs| ==> vs[i + 1].time > time)
    decreases |vs| - k
  {
    if k + 1 < |vs| && vs[k + 1].time <= time then Last(vs, k + 1, time) else k
  }

  /** The values of one signal, consumed from the front. */
  class SignalValues<T(==)> {
    var timedValues: seq<TimedValue<T>>
    ghost const all: seq<TimedValue<T>>
    ghost var consumed: nat

    constructor (vs: seq<TimedValue<T>>)
      requires Sorted(vs)
      ensures Valid() && all == vs && timedValues == vs && consumed == 0
    {
      timedValues, all, consumed := vs, vs, 0;
    }

    /** What is left is a suffix of the list. */
    ghost predicate Valid()
      reads this
    {
      Sorted(all) && consumed <= |all| && timedValues == all[consumed..] && (all != [] ==> timedValues != [])
    }

    /** Times before the first value that is left have been given up. */
    ghost predicate Ready(time: nat)
      reads this
    {
      timedValues == [] || consumed == 0 || timedValues[0].time <= time
    }

    method GetSignalValueAt(time: nat) returns (r: Lookup<T>)
      requires Valid() && Ready(time)
      modifies this
      ensures Valid() && forall later :: time <= later ==> Ready(later)
      ensures r == if all == [] then EmptySignal else LastAt(all, time)
      ensures r.Value? ==> timedValues != [] && timedValues[0].time <= time && timedValues[0].value == r.value
    {
      if timedValues == [] {
        return EmptySignal;
      }
      var eraseUntil, found := 0, false;
      var it := 0;
      while it < |timedValues|
        invariant it <= |timedValues| && eraseUntil < |timedValues|
        invariant found <==> it > 0
        invariant found ==> eraseUntil == it - 1 && timedValues[eraseUntil].time <= time
        invariant timedValues == old(timedValues) && consumed == old(consumed)
      {
        if timedValues[it].time <= time {
          eraseUntil := it;
          found := true;
        } else {
          break;
        }
        it := it + 1;
      }
      if !found {
        NoneAt(all, time);
        return ElementNotFound;
      }
      LastAtIs(timedValues, time, eraseUntil);
      RestSuffices(all, timedValues, consumed, time);
      r := Value(timedValues[eraseUntil].value);
      timedValues := timedValues[eraseUntil..];
      consumed := consumed + eraseUntil;
    }

    /** A scan over the time stamps; the first lookup that fails ends it. */
    method Scan(times: seq<nat>) returns (results: seq<Lookup<T>>)
      requires Valid() && consumed == 0 && forall i, j :: 0 <= i < j < |times| ==> times[i] <= times[j]
      modifies this
      ensures |results| <= |times|
      ensures forall i :: 0 <= i < |results| ==> results[i] == if all == [] then EmptySignal else LastAt(all, times[i])
      ensures forall i :: 0 <= i < |results| - 1 ==> results[i].Value?
      ensures |results| < |times| ==> |results| > 0 && !results[|results| - 1].Value?
    {
      results := [];
      for i := 0 to |times|
        invariant Valid() && |results| == i
        invariant forall j :: i <= j < |times| ==> Ready(times[j])
        invariant forall k :: 0 <= k < i ==> results[k].Value? && results[k] == LastAt(all, times[k]) && all != []
      {
        var r := GetSignalValueAt(times[i]);
        results := results + [r];
        if !r.Value? {
          return;
        }
      }
    }
  }
}
