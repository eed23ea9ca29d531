/** How the tag times are split into simulation runs. */
module Batches {
  import TagRows
  import Bitvectors

  /** At least one time step per run; every input takes one lane per step. */
  function TimestepsPerRun(width: nat, inputs: nat): (ts: nat)
    requires width > 0 && inputs > 0
    ensures ts >= 1 && (ts > 1 ==> ts * inputs <= width) && (ts + 1) * inputs > width
  {
    LanesFit(width, inputs);
    if width / inputs > 1 then width / inputs else 1
  }

  lemma LanesFit(width: nat, inputs: nat)
    requires inputs > 0
    ensures (width / inputs) * inputs <= width < (width / inputs + 1) * inputs
    ensures width / inputs <= 1 ==> width < (1 + 1) * inputs
  {
    var q := width / inputs;
    assert width == q * inputs + width % inputs;
    assert (q + 1) * inputs == q * inputs + inputs;
  }

  /** The time that one run is taken to cover. */
  function Period(stepsize: nat, ts: nat): (p: nat)
    requires stepsize > 0 && ts > 0
    ensures p == stepsize * ts && p > 0
  {
    TagRows.Multiple(stepsize, ts);
    stepsize * ts
  }

  /** The last time divided by the period, rounded up. */
  function NumberOfRuns(last: nat, stepsize: nat, ts: nat): (runs: nat)
    requires stepsize > 0 && ts > 0
  {
    (last + Period(stepsize, ts) - 1) / Period(stepsize, ts)
  }

  lemma CeilingIs(a: nat, p: nat, q: nat)
    requires p > 0 && q == (a + p - 1) / p
    ensures q * p >= a && (q > 0 ==> (q - 1) * p < a)
  {
    var r := (a + p - 1) % p;
    assert a + p - 1 == q * p + r;
    assert (q - 1) * p == q * p - p;
  }

  lemma RunsCover(last: nat, stepsize: nat, ts: nat)
    requires stepsize > 0 && ts > 0
    ensures NumberOfRuns(last, stepsize, ts) * Period(stepsize, ts) >= last
    ensures NumberOfRuns(last, stepsize, ts) > 0 ==>
            (NumberOfRuns(last, stepsize, ts) - 1) * Period(stepsize, ts) < last
  {
    CeilingIs(last, Period(stepsize, ts), NumberOfRuns(last, stepsize, ts));
  }

  function Times(count: nat, stepsize: nat): (times: seq<nat>)
    ensures |times| == count
  {
    seq(count, i requires 0 <= i < count => i * stepsize)
  }

  /** All multiples of the step size up to the last time stamp. */
  method GetTagsTimes(last: nat, stepsize: nat) returns (times: seq<nat>)
    requires stepsize > 0
    ensures times == AllTimes(last, stepsize)
    ensures forall t: nat :: t in times <==> t <= last && t % stepsize == 0
  {
    times := [];
    var time := 0;
    while time <= last
      invariant time == |times| * stepsize && |times| <= last / stepsize + 1
      invariant times == Times(|times|, stepsize)
      decreases last + stepsize - time
    {
      Reaches(last, stepsize, |times|);
      times := times + [time];
      time := time + stepsize;
    }
    Reaches(last, stepsize, |times|);
    forall t: nat
      ensures t in times <==> t <= last && t % stepsize == 0
    {
      if t in times {
        var i :| 0 <= i < |times| && times[i] == t;
        Reaches(last, stepsize, i);
        RemainderOfMultiple(i, stepsize);
      }
      if t <= last && t % stepsize == 0 {
        MultipleAt(t, stepsize, last);
        assert times[t / stepsize] == t;
      }
    }
  }

  lemma Reaches(last: nat, stepsize: nat, n: nat)
    requires stepsize > 0
    ensures n * stepsize <= last <==> n <= last / stepsize
  {
    var q, r := last / stepsize, last % stepsize;
    assert last == q * stepsize + r;
    TagRows.Factor(stepsize, n, q);
    TagRows.Factor(stepsize, q, n);
    if n > q {
      TagRows.Multiple(stepsize, n - q);
    } else {
      assert stepsize * (q - n) >= 0;
    }
  }

  lemma MultipleAt(t: nat, stepsize: nat, last: nat)
    requires stepsize > 0 && t <= last && t % stepsize == 0
    ensures (t / stepsize) * stepsize == t && t / stepsize <= last / stepsize
  {
    assert t == (t / stepsize) * stepsize + t % stepsize;
    Reaches(last, stepsize, t / stepsize);
  }

  lemma RemainderOfMultiple(i: nat, stepsize: nat)
    requires stepsize > 0
    ensures (i * stepsize) % stepsize == 0
  {
    var q, r := (i * stepsize) / stepsize, (i * stepsize) % stepsize;
    assert i * stepsize == q * stepsize + r;
    TagRows.Factor(stepsize, i, q);
    TagRows.Factor(stepsize, q, i);
    if i > q {
      TagRows.Multiple(stepsize, i - q);
    } else if i < q {
      TagRows.Multiple(stepsize, q - i);
    }
  }

  // ----- the batches -----

  function Min(a: nat, b: nat): nat {
    if a < b then a else b
  }

  function Flatten(batches: seq<seq<nat>>): seq<nat> {
    if |batches| == 0 then [] else Flatten(batches[..|batches| - 1]) + batches[|batches| - 1]
  }

  /** The i-th range of items entries, cut off at the end; out of range it is not defined
      by the program. */
  function Batch(times: seq<nat>, items: nat, i: nat): seq<nat> {
    if i * items <= Min((i + 1) * items, |times|) then times[i * items..Min((i + 1) * items, |times|)] else []
  }

  lemma MulOrder(i: nat, j: nat, m: nat)
    requires i <= j
    ensures i * m <= j * m
  {
    assert j * m == (j - i) * m + i * m;
    assert (j - i) * m >= 0;
  }

  lemma NextBatch(items: nat, i: nat)
    ensures (i + 1) * items == i * items + items
  {
  }

  lemma StartsInRange(items: nat, i: nat, runs: nat, size: nat)
    requires i < runs && (runs - 1) * items <= size
    ensures i * items <= size
  {
    MulOrder(i, runs - 1, items);
  }

  function AllBatches(times: seq<nat>, items: nat, n: nat): (batches: seq<seq<nat>>)
    ensures |batches| == n
  {
    if n == 0 then [] else AllBatches(times, items, n - 1) + [Batch(times, items, n - 1)]
  }

  lemma {:induction false} BatchAt(times: seq<nat>, items: nat, n: nat, k: nat)
    requires k < n
    ensures AllBatches(times, items, n)[k] == Batch(times, items, k)
  {
    if k < n - 1 {
      BatchAt(times, items, n - 1, k);
    }
  }

  /** Where batch i starts and ends. */
  lemma BatchEnds(times: seq<nat>, items: nat, i: nat)
    requires i * items <= |times|
    ensures Min(i * items, |times|) == i * items <= Min((i + 1) * items, |times|)
    ensures times[..Min(i * items, |times|)] + Batch(times, items, i) == times[..Min((i + 1) * items, |times|)]
  {
    NextBatch(items, i);
  }

  /** The batches together are a prefix of the times. */
  lemma {:induction false} BatchesFlatten(times: seq<nat>, items: nat, n: nat)
    requires n > 0 ==> (n - 1) * items <= |times|
    ensures Flatten(AllBatches(times, items, n)) == times[..Min(n * items, |times|)]
  {
    if n > 0 {
      var batches := AllBatches(times, items, n);
      if n > 1 {
        MulOrder(n - 2, n - 1, items);
      }
      BatchesFlatten(times, items, n - 1);
      BatchEnds(times, items, n - 1);
      assert batches[..n - 1] == AllBatches(times, items, n - 1);
    }
  }

  /** The slice of one run. */
  method SliceOf(times: seq<nat>, itemsPerBatch: nat, i: nat, runs: nat) returns (batch: seq<nat>)
    requires i < runs && (runs - 1) * itemsPerBatch <= |times|
    ensures batch == Batch(times, itemsPerBatch, i)
  {
    StartsInRange(itemsPerBatch, i, runs, |times|);
    BatchEnds(times, itemsPerBatch, i);
    var start, end := i * itemsPerBatch, Min((i + 1) * itemsPerBatch, |times|);
    batch := times[start..end];
  }

  method AllSlices(runs: nat, times: seq<nat>, itemsPerBatch: nat) returns (batches: seq<seq<nat>>)
    requires runs > 0 ==> (runs - 1) * itemsPerBatch <= |times|
    ensures batches == AllBatches(times, itemsPerBatch, runs)
  {
    batches := [];
    for i := 0 to runs
      invariant batches == AllBatches(times, itemsPerBatch, i)
    {
      var batch := SliceOf(times, itemsPerBatch, i, runs);
      batches := batches + [batch];
    }
  }

  /** All slices, one per run: together the first entries, each once and in order. */
  method GetExportedTagsVec(runs: nat, times: seq<nat>, ts: nat) returns (batches: seq<seq<nat>>)
    requires ts >= 1 && (runs > 0 ==> (runs - 1) * (ts - 1) <= |times|)
    ensures batches == AllBatches(times, ts - 1, runs)
    ensures Flatten(batches) == times[..Min(runs * (ts - 1), |times|)]
  {
    batches := AllSlices(runs, times, ts - 1);
    BatchesFlatten(times, ts - 1, runs);
  }

  // ----- a whole analysis -----

  function AllTimes(last: nat, stepsize: nat): (times: seq<nat>)
    requires stepsize > 0
    ensures |times| == last / stepsize + 1
  {
    Times(last / stepsize + 1, stepsize)
  }

  /** The batches of all runs over all tag times. */
  function Analysis(last: nat, stepsize: nat, ts: nat): seq<seq<nat>>
    requires stepsize > 0 && ts > 0
  {
    AllBatches(AllTimes(last, stepsize), ts - 1, NumberOfRuns(last, stepsize, ts))
  }

  lemma StartBelow(i: nat, runs: nat, ts: nat, stepsize: nat, last: nat)
    requires i < runs && ts > 0 && stepsize > 0 && (runs - 1) * Period(stepsize, ts) < last
    ensures i * (ts - 1) * stepsize <= last
  {
    MulOrder(i, runs - 1, Period(stepsize, ts));
    MulOrder((i * (ts - 1)) * stepsize, (i * ts) * stepsize, 1) by {
      MulOrder(ts - 1, ts, i);
      MulOrder(i * (ts - 1), i * ts, stepsize);
    }
    Associate(i, ts, stepsize);
  }

  lemma Associate(i: nat, ts: nat, stepsize: nat)
    ensures (i * ts) * stepsize == i * (stepsize * ts)
  {
  }

  /** No slice starts beyond the end. */
  lemma StartsBelow(last: nat, stepsize: nat, ts: nat, i: nat)
    requires stepsize > 0 && ts > 0 && i < NumberOfRuns(last, stepsize, ts)
    ensures i * (ts - 1) < |AllTimes(last, stepsize)|
  {
    RunsCover(last, stepsize, ts);
    StartBelow(i, NumberOfRuns(last, stepsize, ts), ts, stepsize, last);
    Reaches(last, stepsize, i * (ts - 1));
  }

  /** Every batch of a whole analysis is in range, not empty, fits the row array below
      its header row, and starts where the one before it ended. */
  lemma BatchesTile(last: nat, stepsize: nat, ts: nat, i: nat)
    requires stepsize > 0 && ts >= 2 && i < |Analysis(last, stepsize, ts)|
    ensures var batch := Analysis(last, stepsize, ts)[i];
            0 < |batch| && 1 + |batch| <= ts && i * (ts - 1) + |batch| <= |AllTimes(last, stepsize)| &&
            forall k :: 0 <= k < |batch| ==> batch[k] == (i * (ts - 1) + k) * stepsize
  {
    StartsBelow(last, stepsize, ts, i);
    BatchAt(AllTimes(last, stepsize), ts - 1, NumberOfRuns(last, stepsize, ts), i);
    NextBatch(ts - 1, i);
  }

  /** The batches cover the whole timeline exactly when there are enough of them; the
      number of runs is computed as if a run took one entry more. */
  lemma CoverageIff(last: nat, stepsize: nat, ts: nat)
    requires stepsize > 0 && ts > 0
    ensures Flatten(Analysis(last, stepsize, ts)) == AllTimes(last, stepsize) <==>
            NumberOfRuns(last, stepsize, ts) * (ts - 1) >= last / stepsize + 1
    ensures |Flatten(Analysis(last, stepsize, ts))| ==
            Min(NumberOfRuns(last, stepsize, ts) * (ts - 1), last / stepsize + 1)
  {
    var times, runs := AllTimes(last, stepsize), NumberOfRuns(last, stepsize, ts);
    if runs > 0 {
      StartsBelow(last, stepsize, ts, runs - 1);
    }
    BatchesFlatten(times, ts - 1, runs);
    assert times[..|times|] == times;
  }

  /** Ten steps in runs of five: two runs, which take eight of the eleven entries. */
  lemma CoverageFalls(last: nat, stepsize: nat, ts: nat)
    requires last == 10 && stepsize == 1 && ts == 5
    ensures NumberOfRuns(last, stepsize, ts) == 2 && |AllTimes(last, stepsize)| == 11
    ensures |Flatten(Analysis(last, stepsize, ts))| == 8
  {
    assert Period(stepsize, ts) == 5;
    CoverageIff(last, stepsize, ts);
  }

  /** The first time of run i. */
  function Start(i: nat, ts: nat, stepsize: nat): nat
    requires ts > 0
  {
    i * (ts - 1) * stepsize
  }

  /** What the testbench can wait for: the first time and, between rows, the step size. */
  predicate Replayable(width: nat, start: nat, rows: nat, stepsize: nat) {
    TagRows.Waitable(width, start) && (rows > 1 ==> TagRows.Waitable(width, stepsize))
  }

  /** Every row of a batch fits the tag width, so that no lane of a run is lost. Its rows are
      replayed at their times exactly when its first time and the step size survive the
      slice that the testbench waits for. */
  lemma BatchFitsRows(width: nat, inputs: nat, last: nat, stepsize: nat, i: nat, rows: seq<Bitvectors.Bv>,
                      isTagged: (nat, nat) -> bool)
    requires width > 0 && inputs > 0 && stepsize > 0 && TimestepsPerRun(width, inputs) >= 2
    requires i < |Analysis(last, stepsize, TimestepsPerRun(width, inputs))| && last < 0x8000_0000_0000_0000
    requires TagRows.IsFile(rows, Analysis(last, stepsize, TimestepsPerRun(width, inputs))[i],
                            inputs, width, stepsize, isTagged)
    ensures var batch := Analysis(last, stepsize, TimestepsPerRun(width, inputs))[i];
            |batch| * inputs <= width &&
            (TagRows.OnTime(rows, batch, inputs, width, TimestepsPerRun(width, inputs)) <==>
              Replayable(width, Start(i, TimestepsPerRun(width, inputs), stepsize), |batch|, stepsize))
  {
    var ts := TimestepsPerRun(width, inputs);
    var batch := EvenBatch(last, stepsize, ts, i);
    MulOrder(|batch|, ts, inputs);
    EvenBatchOnTimeIff(rows, batch, i * (ts - 1), inputs, width, stepsize, isTagged, ts);
  }

  lemma EvenBatch(last: nat, stepsize: nat, ts: nat, i: nat) returns (batch: seq<nat>)
    requires stepsize > 0 && ts >= 2 && i < |Analysis(last, stepsize, ts)|
    ensures batch == Analysis(last, stepsize, ts)[i] && 0 < |batch| < ts
    ensures batch[0] == i * (ts - 1) * stepsize
    ensures forall k :: 0 <= k < |batch| ==> batch[k] == (i * (ts - 1) + k) * stepsize && batch[k] <= last
  {
    batch := Analysis(last, stepsize, ts)[i];
    BatchesTile(last, stepsize, ts, i);
    assert batch[0] == (i * (ts - 1) + 0) * stepsize;
    forall k | 0 <= k < |batch|
      ensures batch[k] <= last
    {
      Reaches(last, stepsize, i * (ts - 1) + k);
    }
  }

  lemma EvenBatchOnTimeIff(rows: seq<Bitvectors.Bv>, batch: seq<nat>, start: nat, inputs: nat, width: nat,
                           stepsize: nat, isTagged: (nat, nat) -> bool, lines: nat)
    requires |batch| < lines
    requires TagRows.IsFile(rows, batch, inputs, width, stepsize, isTagged)
    requires forall k :: 0 <= k < |batch| ==> batch[k] == (start + k) * stepsize && batch[k] < 0x8000_0000_0000_0000
    ensures TagRows.OnTime(rows, batch, inputs, width, lines) <==>
            TagRows.Waitable(width, batch[0]) && (|batch| > 1 ==> TagRows.Waitable(width, stepsize))
  {
    TagRows.OnTimeIff(rows, batch, inputs, width, stepsize, isTagged, lines);
    EvenGaps(batch, start, width, stepsize);
  }

  lemma EvenGaps(batch: seq<nat>, start: nat, width: nat, stepsize: nat)
    requires |batch| > 0 && forall k :: 0 <= k < |batch| ==> batch[k] == (start + k) * stepsize
    ensures TagRows.InTime(batch, width, stepsize) <==>
            TagRows.Waitable(width, batch[0]) && (|batch| > 1 ==> TagRows.Waitable(width, stepsize))
  {
    forall k | 0 <= k < |batch| - 1
      ensures TagRows.Gap(batch, k) == stepsize
    {
      assert (start + (k + 1)) * stepsize == (start + k) * stepsize + stepsize;
    }
    if |batch| > 1 {
      assert TagRows.GapKept(width, TagRows.Gap(batch, 0), stepsize) <==> TagRows.Waitable(width, stepsize);
    }
  }

  /** The tag files of all runs of an analysis. */
  ghost predicate AreFiles(files: seq<seq<Bitvectors.Bv>>, batches: seq<seq<nat>>, inputs: nat, width: nat,
                           stepsize: nat, isTagged: (nat, nat) -> bool) {
    |files| == |batches| &&
    forall i :: 0 <= i < |files| ==> TagRows.IsFile(files[i], batches[i], inputs, width, stepsize, isTagged)
  }

  ghost predicate AllOnTime(files: seq<seq<Bitvectors.Bv>>, batches: seq<seq<nat>>, inputs: nat, width: nat,
                            lines: nat)
    requires |files| == |batches|
  {
    forall i :: 0 <= i < |files| ==>
      |files[i]| == |batches[i]| + 1 && TagRows.OnTime(files[i], batches[i], inputs, width, lines)
  }

  /** All runs of an analysis are replayed on time exactly when the start of the last run
      survives its slice, and the step size does if the first run has two rows. */
  lemma AnalysisOnTimeIff(width: nat, inputs: nat, last: nat, stepsize: nat, files: seq<seq<Bitvectors.Bv>>,
                          isTagged: (nat, nat) -> bool)
    requires width > 0 && inputs > 0 && stepsize > 0 && TimestepsPerRun(width, inputs) >= 2
    requires 0 < last < 0x8000_0000_0000_0000
    requires AreFiles(files, Analysis(last, stepsize, TimestepsPerRun(width, inputs)), inputs, width, stepsize,
                      isTagged)
    ensures var ts := TimestepsPerRun(width, inputs);
            AllOnTime(files, Analysis(last, stepsize, ts), inputs, width, ts) <==>
              TagRows.Waitable(width, Start(NumberOfRuns(last, stepsize, ts) - 1, ts, stepsize)) &&
              (ts > 2 && stepsize <= last ==> TagRows.Waitable(width, stepsize))
  {
    var ts := TimestepsPerRun(width, inputs);
    var runs, batches := NumberOfRuns(last, stepsize, ts), Analysis(last, stepsize, ts);
    FirstBatch(last, stepsize, ts);
    forall i | 0 <= i < runs
      ensures Start(i, ts, stepsize) <= Start(runs - 1, ts, stepsize)
      ensures |batches[i]| <= |batches[0]| && |files[i]| == |batches[i]| + 1
      ensures TagRows.OnTime(files[i], batches[i], inputs, width, ts) <==>
              Replayable(width, Start(i, ts, stepsize), |batches[i]|, stepsize)
    {
      RunOnTime(width, inputs, last, stepsize, files, isTagged, i);
    }
    AllOnTimeIff(files, batches, inputs, width, stepsize, ts);
  }

  lemma RunOnTime(width: nat, inputs: nat, last: nat, stepsize: nat, files: seq<seq<Bitvectors.Bv>>,
                  isTagged: (nat, nat) -> bool, i: nat)
    requires width > 0 && inputs > 0 && stepsize > 0 && TimestepsPerRun(width, inputs) >= 2
    requires 0 < last < 0x8000_0000_0000_0000 && i < |files|
    requires AreFiles(files, Analysis(last, stepsize, TimestepsPerRun(width, inputs)), inputs, width, stepsize,
                      isTagged)
    ensures var ts := TimestepsPerRun(width, inputs);
            var batches := Analysis(last, stepsize, ts);
            Start(i, ts, stepsize) <= Start(|files| - 1, ts, stepsize) && |batches[i]| <= |batches[0]| &&
            |files[i]| == |batches[i]| + 1 &&
            (TagRows.OnTime(files[i], batches[i], inputs, width, ts) <==>
             Replayable(width, Start(i, ts, stepsize), |batches[i]|, stepsize))
  {
    var ts := TimestepsPerRun(width, inputs);
    StartOrder(i, |files| - 1, ts, stepsize);
    BatchFitsRows(width, inputs, last, stepsize, i, files[i], isTagged);
    BatchSizes(last, stepsize, ts, i);
    BatchSizes(last, stepsize, ts, 0);
  }

  lemma AllOnTimeIff(files: seq<seq<Bitvectors.Bv>>, batches: seq<seq<nat>>, inputs: nat, width: nat, stepsize: nat,
                     ts: nat)
    requires |files| == |batches| > 0 && ts > 0
    requires forall i :: 0 <= i < |files| ==> |files[i]| == |batches[i]| + 1 && |batches[i]| <= |batches[0]|
    requires forall i :: 0 <= i < |files| ==> Start(i, ts, stepsize) <= Start(|files| - 1, ts, stepsize)
    requires forall i :: 0 <= i < |files| ==>
               (TagRows.OnTime(files[i], batches[i], inputs, width, ts) <==>
                Replayable(width, Start(i, ts, stepsize), |batches[i]|, stepsize))
    ensures AllOnTime(files, batches, inputs, width, ts) <==>
            Replayable(width, Start(|files| - 1, ts, stepsize), |batches[0]|, stepsize)
  {
    if AllOnTime(files, batches, inputs, width, ts) {
      assert TagRows.OnTime(files[|files| - 1], batches[|files| - 1], inputs, width, ts);
      assert TagRows.OnTime(files[0], batches[0], inputs, width, ts);
    }
  }

  lemma FirstBatch(last: nat, stepsize: nat, ts: nat)
    requires stepsize > 0 && ts >= 2 && last > 0
    ensures NumberOfRuns(last, stepsize, ts) > 0
    ensures |Analysis(last, stepsize, ts)[0]| > 1 <==> ts > 2 && stepsize <= last
  {
    RunsCover(last, stepsize, ts);
    BatchSizes(last, stepsize, ts, 0);
    Reaches(last, stepsize, 1);
  }

  lemma StartOrder(i: nat, j: nat, ts: nat, stepsize: nat)
    requires i <= j && ts > 0
    ensures Start(i, ts, stepsize) <= Start(j, ts, stepsize)
  {
    MulOrder(i, j, ts - 1);
    MulOrder(i * (ts - 1), j * (ts - 1), stepsize);
  }

  lemma BatchSizes(last: nat, stepsize: nat, ts: nat, i: nat)
    requires stepsize > 0 && ts >= 2 && i < NumberOfRuns(last, stepsize, ts)
    ensures |Analysis(last, stepsize, ts)[i]| <= Min(ts - 1, last / stepsize + 1)
    ensures i == 0 ==> |Analysis(last, stepsize, ts)[i]| == Min(ts - 1, last / stepsize + 1)
  {
    StartsBelow(last, stepsize, ts, i);
    BatchAt(AllTimes(last, stepsize), ts - 1, NumberOfRuns(last, stepsize, ts), i);
    NextBatch(ts - 1, i);
  }

  /** Eight bits for two inputs, a step every 10 up to 440: the eleventh run starts at 300,
      but its header is read back as 44. */
  lemma HeaderIsCut(rows: seq<Bitvectors.Bv>, isTagged: (nat, nat) -> bool)
    requires TagRows.IsFile(rows, [300, 310, 320], 2, 8, 10, isTagged)
    ensures TimestepsPerRun(8, 2) == 4 && NumberOfRuns(440, 10, 4) == 11
    ensures Analysis(440, 10, 4)[10] == [300, 310, 320]
    ensures TagRows.ReplayTime(rows, 2, 8, 0) == 44
  {
    var times := AllTimes(440, 10);
    assert Period(10, 4) == 40;
    BatchAt(times, 3, 11, 10);
    assert Batch(times, 3, 10) == times[30..33];
    TagRows.HeaderWait(rows, [300, 310, 320], 2, 8, 10, isTagged);
    assert Bitvectors.Pow2(8) == 256;
  }
}
