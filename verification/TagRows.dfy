/** The rows of injected tags: how export_tags lays them out and how the testbench
    reads them back. */
module TagRows {
  import opened Bitvectors

  /** Which inputs are tagged. */
  type Tagged = seq<bool>

  /** The number of bits of a row: a slice for every input and one for the delay. */
  function RowSize(n: nat, width: nat): nat {
    n * width + width
  }

  /** Where the tag of input i in row idx is set. */
  function Position(n: nat, width: nat, idx: nat, i: nat): int {
    (RowSize(n, width) - width) - (i * width - i) + idx * n
  }

  function Positions(n: nat, width: nat, idx: nat): (ps: seq<int>)
    ensures |ps| == n
  {
    seq(n, i requires 0 <= i < n => Position(n, width, idx, i))
  }

  /** The low end of the slice that is read back for input i; the delay is in slice n. */
  function SliceLow(n: nat, width: nat, i: nat): int {
    (width * (n + 1) - 1 - width * i) - (width - 1)
  }

  /** One of the first m inputs sets bit k. */
  ghost predicate SetBy(ps: seq<int>, tagged: Tagged, m: nat, k: int) {
    exists i :: 0 <= i < m && i < |ps| && i < |tagged| && tagged[i] && ps[i] == k
  }

  /** A row as the export leaves it: the delay in binary and one bit per tagged input. */
  ghost predicate IsRow(row: Bv, size: nat, ps: seq<int>, delay: nat, tagged: Tagged) {
    |row| == size && |ps| == |tagged| &&
    forall k :: 0 <= k < size ==> (row[k] <==> FromInt(size, delay)[k] || SetBy(ps, tagged, |ps|, k))
  }

  predicate InRow(ps: seq<int>, tagged: Tagged, m: nat, size: nat) {
    forall i :: 0 <= i < m && i < |ps| && i < |tagged| && tagged[i] ==> 0 <= ps[i] < size
  }

  function Count(tagged: Tagged): nat {
    if |tagged| == 0 then 0 else Count(tagged[..|tagged| - 1]) + Bit(tagged[|tagged| - 1])
  }

  /** One row: bits outside of it cannot be set. */
  method TagLine(n: nat, width: nat, idx: nat, delay: nat, tagged: Tagged) returns (inRow: bool, row: Bv, injected: nat)
    requires |tagged| == n
    ensures inRow <==> InRow(Positions(n, width, idx), tagged, n, RowSize(n, width))
    ensures inRow ==> IsRow(row, RowSize(n, width), Positions(n, width, idx), delay, tagged)
    ensures inRow ==> injected == Count(tagged)
  {
    var size := RowSize(n, width);
    var start := FromInt(size, delay);
    ghost var ps := Positions(n, width, idx);
    var tagLine := new bool[size](k requires 0 <= k < size => start[k]);
    injected := 0;
    for index := 0 to n
      invariant forall k :: 0 <= k < size ==> (tagLine[k] <==> start[k] || SetBy(ps, tagged, index, k))
      invariant InRow(ps, tagged, index, size)
      invariant injected == Count(tagged[..index])
    {
      assert tagged[..index + 1][..index] == tagged[..index];
      if tagged[index] {
        var position := Position(n, width, idx, index);
        assert position == ps[index];
        if !(0 <= position < size) {
          return false, [], injected;
        }
        tagLine[position] := true;
        injected := injected + 1;
      }
    }
    assert tagged[..n] == tagged;
    inRow, row := true, tagLine[..];
  }

  // ----- arithmetic of the layout -----

  lemma Multiple(w: nat, x: int)
    requires x >= 1
    ensures w * x >= w
  {
  }

  lemma Factor(w: int, p: int, q: int)
    ensures w * (p - q) == w * p - w * q
  {
  }

  lemma SliceLowIs(n: nat, width: nat, i: nat)
    requires i <= n
    ensures SliceLow(n, width, i) == width * (n - i)
    ensures 0 <= width * (n - i) && width * (n - i) + width <= RowSize(n, width)
    ensures i < n ==> width * (n - i) >= width
  {
    Factor(width, n + 1, i);
    Factor(width, n, i);
    if i < n {
      Multiple(width, n - i);
    }
  }

  lemma PositionIs(n: nat, width: nat, idx: nat, i: nat)
    requires i <= n
    ensures Position(n, width, idx, i) == width * (n - i) + (i + idx * n)
  {
    Factor(width, n, i);
  }

  lemma RowFits(n: nat, width: nat, idx: nat, i: nat)
    requires i < n && (idx + 1) * n <= width
    ensures i + idx * n < width
  {
    Factor(n, idx + 1, 1);
  }

  /** Positions of other inputs are outside of a slice. */
  lemma OtherSlice(n: nat, width: nat, i: nat, j: nat, c: nat)
    requires i <= n && j <= n && i != j && c < width
    ensures width * (n - j) + c < width * (n - i) || width * (n - j) + c >= width * (n - i) + width
  {
    Factor(width, n - i, n - j);
    if j < i {
      Factor(width, i - j, 0);
      Multiple(width, i - j);
      assert width * (n - j) - width * (n - i) == width * (i - j) by {
        Factor(width, n - j, n - i);
      }
    } else {
      Multiple(width, j - i);
    }
  }

  // ----- reading back -----

  function Slice(row: Bv, low: int, width: nat): Bv {
    if 0 <= low <= low + width <= |row| then row[low..low + width] else []
  }

  /** A delay that fits its slice leaves the others clear. */
  lemma {:induction false} WiderWord(w: nat, width: nat, v: nat)
    requires width <= w && v < Pow2(width)
    ensures FromInt(w, v) == FromInt(width, v) + Repeat(false, w - width)
  {
    if width > 0 {
      WiderWord(w - 1, width - 1, v / 2);
    } else if w > 0 {
      WiderWord(w - 1, 0, 0);
    }
  }

  function OneHot(width: nat, p: nat): (b: Bv)
    ensures |b| == width
  {
    seq(width, k => k == p)
  }

  lemma {:induction false} OneHotValue(width: nat, p: nat)
    requires p < width
    ensures ToNat(OneHot(width, p)) == Pow2(p)
  {
    var b := OneHot(width, p);
    if p > 0 {
      assert b[1..] == OneHot(width - 1, p - 1);
      OneHotValue(width - 1, p - 1);
    } else {
      assert b[1..] == Repeat(false, width - 1);
      ToNatRepeat(false, width - 1);
    }
  }

  /** No position but that of the i-th input is in the slice at low. */
  ghost predicate OnlyInSlice(ps: seq<int>, low: nat, width: nat, i: nat) {
    forall j :: 0 <= j < |ps| && j != i ==> !(low <= ps[j] < low + width)
  }

  /** A slice above the delay that belongs to input i. */
  lemma SliceOfInput(row: Bv, size: nat, ps: seq<int>, delay: nat, tagged: Tagged, low: nat, width: nat, i: nat,
                     lane: nat)
    requires IsRow(row, size, ps, delay, tagged) && i < |ps| && width <= low && low + width <= size &&
             delay < Pow2(width)
    requires OnlyInSlice(ps, low, width, i) && ps[i] == low + lane && lane < width
    ensures ToNat(Slice(row, low, width)) == if tagged[i] then Pow2(lane) else 0
  {
    WiderWord(size, width, delay);
    var s := Slice(row, low, width);
    forall b | 0 <= b < width
      ensures s[b] == (tagged[i] && b == lane)
    {
      assert row[low + b] == SetBy(ps, tagged, |ps|, low + b);
    }
    if tagged[i] {
      assert s == OneHot(width, lane);
      OneHotValue(width, lane);
    } else {
      assert s == Repeat(false, width);
      ToNatRepeat(false, width);
    }
  }

  lemma PositionsOutside(n: nat, width: nat, idx: nat, i: nat, ps: seq<int>)
    requires ps == Positions(n, width, idx) && i <= n && (idx + 1) * n <= width
    ensures width * (n - i) >= 0 && OnlyInSlice(ps, width * (n - i), width, i)
    ensures i < n ==> ps[i] == width * (n - i) + (i + idx * n) && i + idx * n < width
  {
    SliceLowIs(n, width, i);
    forall j | 0 <= j < |ps|
      ensures ps[j] == width * (n - j) + (j + idx * n) && j + idx * n < width
      ensures j != i ==> !(width * (n - i) <= ps[j] < width * (n - i) + width)
    {
      PositionIs(n, width, idx, j);
      RowFits(n, width, idx, j);
      if j != i {
        OtherSlice(n, width, i, j, j + idx * n);
      }
    }
  }

  function SliceValue(row: Bv, n: nat, width: nat, i: nat): nat {
    ToNat(Slice(row, SliceLow(n, width, i), width))
  }

  /** What the testbench gets from a row: the lane of every tagged input, and the delay. */
  ghost predicate ReadsBack(row: Bv, n: nat, width: nat, idx: nat, delay: nat, tagged: Tagged)
    requires |tagged| == n
  {
    (forall i :: 0 <= i < n ==> SliceValue(row, n, width, i) == if tagged[i] then Pow2(idx * n + i) else 0) &&
    SliceValue(row, n, width, n) == delay
  }

  lemma RowReadsBack(row: Bv, n: nat, width: nat, idx: nat, delay: nat, tagged: Tagged)
    requires |tagged| == n && IsRow(row, RowSize(n, width), Positions(n, width, idx), delay, tagged)
    requires (idx + 1) * n <= width && delay < Pow2(width)
    ensures ReadsBack(row, n, width, idx, delay, tagged)
  {
    forall i | 0 <= i < n
      ensures SliceValue(row, n, width, i) == if tagged[i] then Pow2(idx * n + i) else 0
    {
      InputSlice(row, n, width, idx, delay, tagged, i);
    }
    DelaySlice(row, n, width, idx, delay, tagged);
    ModuloSmaller(delay, Pow2(width));
  }

  lemma InputSlice(row: Bv, n: nat, width: nat, idx: nat, delay: nat, tagged: Tagged, i: nat)
    requires |tagged| == n && IsRow(row, RowSize(n, width), Positions(n, width, idx), delay, tagged)
    requires i < n && (idx + 1) * n <= width && delay < Pow2(width)
    ensures SliceValue(row, n, width, i) == if tagged[i] then Pow2(idx * n + i) else 0
  {
    var ps := Positions(n, width, idx);
    SliceLowIs(n, width, i);
    PositionsOutside(n, width, idx, i, ps);
    SliceOfInput(row, RowSize(n, width), ps, delay, tagged, width * (n - i), width, i, i + idx * n);
  }

  /** A choice of tagged inputs is written inside the row and read back. */
  ghost predicate RoundTrips(n: nat, width: nat, idx: nat, delay: nat, tagged: Tagged)
    requires |tagged| == n
  {
    InRow(Positions(n, width, idx), tagged, n, RowSize(n, width)) &&
    forall row: Bv :: IsRow(row, RowSize(n, width), Positions(n, width, idx), delay, tagged) ==>
                        ReadsBack(row, n, width, idx, delay, tagged)
  }

  ghost predicate AllRoundTrip(n: nat, width: nat, idx: nat, delay: nat) {
    forall tagged: Tagged :: |tagged| == n ==> RoundTrips(n, width, idx, delay, tagged)
  }

  lemma PositionsInRow(n: nat, width: nat, idx: nat, tagged: Tagged)
    requires |tagged| == n && (idx + 1) * n <= width
    ensures InRow(Positions(n, width, idx), tagged, n, RowSize(n, width))
  {
    var ps := Positions(n, width, idx);
    forall i | 0 <= i < n
      ensures 0 <= ps[i] < RowSize(n, width)
    {
      PositionsOutside(n, width, idx, i, ps);
      SliceLowIs(n, width, i);
    }
  }

  ghost function RowOf(size: nat, ps: seq<int>, delay: nat, tagged: Tagged): (row: Bv)
    requires |ps| == |tagged|
    ensures IsRow(row, size, ps, delay, tagged)
  {
    seq(size, k requires 0 <= k < size => FromInt(size, delay)[k] || SetBy(ps, tagged, |ps|, k))
  }

  lemma DelayLost(n: nat, width: nat, idx: nat, delay: nat)
    requires delay >= Pow2(width)
    ensures !AllRoundTrip(n, width, idx, delay)
  {
    var none: Tagged := Repeat(false, n);
    var row := RowOf(RowSize(n, width), Positions(n, width, idx), delay, none);
    SliceLowIs(n, width, n);
    ToNatBound(Slice(row, SliceLow(n, width, n), width));
    assert SliceValue(row, n, width, n) < delay;
    assert !RoundTrips(n, width, idx, delay, none);
  }

  /** A lane beyond the tag width is not in the slice of its input. */
  lemma LaneLost(n: nat, width: nat, idx: nat, delay: nat)
    requires n > 0 && (idx + 1) * n > width && delay < Pow2(width)
    ensures !AllRoundTrip(n, width, idx, delay)
  {
    var last := n - 1;
    var one: Tagged := OneHot(n, last);
    var size, ps := RowSize(n, width), Positions(n, width, idx);
    var row := RowOf(size, ps, delay, one);
    Factor(n, idx + 1, 1);
    PositionIs(n, width, idx, last);
    SliceLowIs(n, width, last);
    assert width * (n - last) == width;
    assert ps[last] >= width + width;
    OnlyLastSet(row, size, ps, delay, one, width);
    assert SliceValue(row, n, width, last) == 0;
    assert Pow2(idx * n + last) > 0;
    assert !ReadsBack(row, n, width, idx, delay, one);
    assert !RoundTrips(n, width, idx, delay, one);
  }

  lemma OnlyLastSet(row: Bv, size: nat, ps: seq<int>, delay: nat, one: Tagged, width: nat)
    requires |ps| > 0 && one == OneHot(|ps|, |ps| - 1) && IsRow(row, size, ps, delay, one)
    requires delay < Pow2(width) && width + width <= size && ps[|ps| - 1] >= width + width
    ensures ToNat(Slice(row, width, width)) == 0
  {
    WiderWord(size, width, delay);
    var s := Slice(row, width, width);
    forall b | 0 <= b < width
      ensures !s[b]
    {
      assert row[width + b] == SetBy(ps, one, |ps|, width + b);
    }
    assert s == Repeat(false, width);
    ToNatRepeat(false, width);
  }

  /** A row round-trips for every choice of tagged inputs exactly when its lanes fit
      the tag width and its delay does. */
  lemma RowRoundTripsIff(n: nat, width: nat, idx: nat, delay: nat)
    requires n > 0
    ensures AllRoundTrip(n, width, idx, delay) <==> (idx + 1) * n <= width && delay < Pow2(width)
  {
    if delay >= Pow2(width) {
      DelayLost(n, width, idx, delay);
    } else if (idx + 1) * n > width {
      LaneLost(n, width, idx, delay);
    } else {
      forall tagged: Tagged | |tagged| == n
        ensures RoundTrips(n, width, idx, delay, tagged)
      {
        PositionsInRow(n, width, idx, tagged);
        forall row: Bv | IsRow(row, RowSize(n, width), Positions(n, width, idx), delay, tagged)
          ensures ReadsBack(row, n, width, idx, delay, tagged)
        {
          RowReadsBack(row, n, width, idx, delay, tagged);
        }
      }
    }
  }

  /** Lanes are not reused within a run. */
  lemma LanesDistinct(n: nat, idx: nat, i: nat, idx': nat, i': nat)
    requires i < n && i' < n && idx * n + i == idx' * n + i'
    ensures idx == idx' && i == i'
  {
    Factor(n, idx, idx');
    if idx != idx' {
      Factor(n, idx', idx);
      Multiple(n, if idx > idx' then idx - idx' else idx' - idx);
    }
  }

  // ----- a whole file -----

  datatype TagsFile = Rows(rows: seq<Bv>, injected: nat) | TagSizeTooSmall | NarrowingError | BitOutOfRange

  const UINT32 := 0x1_0000_0000

  function Difference(later: int, earlier: int): int {
    later - earlier
  }

  /** The time to the next entry; the last entry repeats the gap before it. */
  function Gap(times: seq<nat>, idx: nat): int
    requires idx < |times|
  {
    if idx + 1 < |times| then Difference(times[idx + 1], times[idx])
    else if idx > 0 then Difference(times[idx], times[idx - 1])
    else 0
  }

  function Delay(times: seq<nat>, idx: nat, stepsize: nat): (d: nat)
    requires idx < |times|
    ensures d >= stepsize && d >= Gap(times, idx) && (d == stepsize || d == Gap(times, idx))
  {
    if Gap(times, idx) < stepsize then stepsize else Gap(times, idx)
  }

  function TaggedInputs(n: nat, time: nat, isTagged: (nat, nat) -> bool): (tagged: Tagged)
    ensures |tagged| == n
  {
    seq(n, i requires 0 <= i < n => isTagged(i, time))
  }

  function TotalCount(times: seq<nat>, n: nat, isTagged: (nat, nat) -> bool): nat {
    if |times| == 0 then 0
    else TotalCount(times[..|times| - 1], n, isTagged) + Count(TaggedInputs(n, times[|times| - 1], isTagged))
  }

  /** The gap fits 32 bits and every tag bit is inside the row. */
  predicate Writable(times: seq<nat>, idx: nat, n: nat, width: nat, isTagged: (nat, nat) -> bool)
    requires idx < |times|
  {
    0 <= Gap(times, idx) < UINT32 &&
    InRow(Positions(n, width, idx), TaggedInputs(n, times[idx], isTagged), n, RowSize(n, width))
  }

  ghost predicate RowAt(rows: seq<Bv>, times: seq<nat>, idx: nat, n: nat, width: nat, stepsize: nat,
                        isTagged: (nat, nat) -> bool)
    requires idx < |times|
  {
    idx + 1 < |rows| &&
    IsRow(rows[idx + 1], RowSize(n, width), Positions(n, width, idx), Delay(times, idx, stepsize),
      TaggedInputs(n, times[idx], isTagged))
  }

  /** A header row with the first time, then a row for every time. */
  method ExportTags(times: seq<nat>, n: nat, width: nat, taggedPorts: nat, stepsize: nat, isTagged: (nat, nat) -> bool)
    returns (r: TagsFile)
    requires |times| > 0
    ensures r.TagSizeTooSmall? <==> width < taggedPorts
    ensures r.Rows? <==> width >= taggedPorts && forall idx :: 0 <= idx < |times| ==>
            Writable(times, idx, n, width, isTagged)
    ensures r.Rows? ==> IsFile(r.rows, times, n, width, stepsize, isTagged)
    ensures r.Rows? ==> r.injected == TotalCount(times, n, isTagged)
  {
    if width < taggedPorts {
      return TagSizeTooSmall;
    }
    var rows, injected := [FromInt(RowSize(n, width), times[0])], 0;
    var previous: int := 0;
    for idx := 0 to |times|
      invariant |rows| == idx + 1 && rows[0] == FromInt(RowSize(n, width), times[0])
      invariant forall k :: 0 <= k < idx ==> RowAt(rows, times, k, n, width, stepsize, isTagged)
      invariant forall k :: 0 <= k < idx ==> Writable(times, k, n, width, isTagged)
      invariant previous == if idx == 0 then 0 else Gap(times, idx - 1)
      invariant injected == TotalCount(times[..idx], n, isTagged)
    {
      var delta := previous;
      if idx < |times| - 1 {
        delta := Difference(times[idx + 1], times[idx]);
        previous := delta;
      }
      assert delta == Gap(times, idx);
      if !(0 <= delta < UINT32) {
        assert !Writable(times, idx, n, width, isTagged);
        return NarrowingError;
      }
      var delay := if delta < stepsize then stepsize else delta;
      var inRow, row, count := TagLine(n, width, idx, delay, TaggedInputs(n, times[idx], isTagged));
      if !inRow {
        assert !Writable(times, idx, n, width, isTagged);
        return BitOutOfRange;
      }
      ghost var before := rows;
      rows, injected := rows + [row], injected + count;
      assert forall k :: 0 <= k < |before| ==> rows[k] == before[k];
      forall k | 0 <= k < idx
        ensures RowAt(rows, times, k, n, width, stepsize, isTagged)
      {
        assert RowAt(before, times, k, n, width, stepsize, isTagged);
      }
      assert RowAt(rows, times, idx, n, width, stepsize, isTagged);
      assert times[..idx + 1][..idx] == times[..idx];
    }
    assert times[..|times|] == times;
    r := Rows(rows, injected);
  }

  /** What the export leaves in the file of one run. */
  ghost predicate IsFile(rows: seq<Bv>, times: seq<nat>, n: nat, width: nat, stepsize: nat,
                         isTagged: (nat, nat) -> bool) {
    |times| > 0 && |rows| == |times| + 1 && rows[0] == FromInt(RowSize(n, width), times[0]) &&
    forall idx :: 0 <= idx < |times| ==> RowAt(rows, times, idx, n, width, stepsize, isTagged)
  }

  // ----- replay -----

  const INT32 := 0x8000_0000

  /** Waiting for a word that is first assigned to an integer variable: the variable has 32
      bits and a sign, and a negative delay is read as an unsigned number of 64 bits
      (section 9.4.1 of IEEE 1800-2012). */
  function Waited(v: nat): nat {
    var u := v % UINT32;
    if u < INT32 then u else 0x1_0000_0000_0000_0000 - UINT32 + u
  }

  lemma WordSizes()
    ensures Pow2(31) == INT32 && Pow2(32) == UINT32 && Pow2(64) == 0x1_0000_0000_0000_0000
  {
    assert Pow2(8) == 256;
    PowSplit(8, 8);
    assert Pow2(16) == 65536;
    PowSplit(16, 16);
    assert Pow2(32) == UINT32;
    PowSplit(32, 32);
    assert Pow2(32) == 2 * Pow2(31);
  }

  lemma SignExtended(v: nat, n: nat, m: nat)
    requires 0 < n <= m
    ensures ToNat(SExt(FromInt(n, v), m)) ==
            if v % Pow2(n) < Pow2(n - 1) then v % Pow2(n) else Pow2(m) - Pow2(n) + v % Pow2(n)
  {
    var low := FromInt(n, v);
    WordValue(n, v);
    MsbValue(low);
    ExtNat(low, m, true);
    assert SExt(low, m) == Ext(low, m, true);
  }

  /** So it is the number of the low 32 bits, sign extended to 64. */
  lemma WaitedIsExtended(v: nat)
    ensures Waited(v) == ToNat(SExt(FromInt(32, v), 64))
  {
    WordSizes();
    SignExtended(v, 32, 64);
  }

  /** When the testbench applies row idx: after the wait of the header row and the waits of
      the rows before it. */
  function ReplayTime(rows: seq<Bv>, n: nat, width: nat, idx: nat): nat
    requires idx < |rows|
  {
    (if idx == 0 then 0 else ReplayTime(rows, n, width, idx - 1)) + Waited(SliceValue(rows[idx], n, width, n))
  }

  /** The testbench reads a given number of lines; the loop over the rows ends there. */
  predicate Applied(lines: nat, idx: nat) {
    idx + 1 < lines
  }

  /** Every row is applied, and at its time. */
  ghost predicate OnTime(rows: seq<Bv>, times: seq<nat>, n: nat, width: nat, lines: nat)
    requires |rows| == |times| + 1
  {
    forall idx :: 0 <= idx < |times| ==> Applied(lines, idx) && ReplayTime(rows, n, width, idx) == times[idx]
  }

  lemma {:induction false} LowBits(size: nat, width: nat, v: int)
    requires width <= size
    ensures FromInt(size, v)[..width] == FromInt(width, v)
  {
    if width > 0 {
      LowBits(size - 1, width - 1, v / 2);
      assert FromInt(size, v)[..width] == [v % 2 == 1] + FromInt(size - 1, v / 2)[..width - 1];
    }
  }

  lemma WordValue(width: nat, v: nat)
    ensures ToNat(FromInt(width, v)) == v % Pow2(width)
  {
    var q, r := v / Pow2(width), v % Pow2(width);
    assert v == r + q * Pow2(width);
    FromIntCong(width, r, q);
    ToFromNat(width, r);
  }

  lemma LowSlice(row: Bv, n: nat, width: nat, v: nat)
    requires |row| == RowSize(n, width)
    requires forall k :: 0 <= k < width ==> row[k] == FromInt(|row|, v)[k]
    ensures SliceValue(row, n, width, n) == v % Pow2(width)
  {
    SliceLowIs(n, width, n);
    assert SliceLow(n, width, n) == 0;
    LowBits(|row|, width, v);
    assert Slice(row, 0, width) == FromInt(|row|, v)[..width];
    WordValue(width, v);
  }

  /** The lowest slice of any row holds the low bits of its delay: no tag bit is there. */
  lemma DelaySlice(row: Bv, n: nat, width: nat, idx: nat, delay: nat, tagged: Tagged)
    requires IsRow(row, RowSize(n, width), Positions(n, width, idx), delay, tagged)
    ensures SliceValue(row, n, width, n) == delay % Pow2(width)
  {
    var ps := Positions(n, width, idx);
    forall j | 0 <= j < |ps|
      ensures ps[j] >= width
    {
      PositionIs(n, width, idx, j);
      Multiple(width, n - j);
      assert idx * n >= 0;
    }
    forall k | 0 <= k < width
      ensures k < |row| && row[k] == FromInt(|row|, delay)[k]
    {
      SliceLowIs(n, width, n);
    }
    LowSlice(row, n, width, delay);
  }

  /** A time that the slice and the integer variable hold without loss. */
  predicate Waitable(width: nat, time: int) {
    0 <= time < Pow2(width) && time < INT32
  }

  /** The wait of a row for a delay takes the time g exactly when the delay is g and does
      not lose a bit, or loses bits and comes out as g. */
  lemma WaitedIs(width: nat, delay: nat, g: int)
    requires g <= delay && g < 0x8000_0000_0000_0000
    ensures Waited(delay % Pow2(width)) == g <==>
            if g == delay then Waitable(width, g) else (delay % Pow2(width)) % UINT32 == g && g < INT32
  {
    if g == delay {
      ModuloSmaller(delay, Pow2(width));
      ModuloSmaller(delay % Pow2(width), UINT32);
    }
  }

  lemma ModuloSmaller(x: nat, p: nat)
    requires p > 0
    ensures x % p <= x && (x % p == x <==> x < p)
  {
    var q := x / p;
    assert x == q * p + x % p;
    assert q > 0 ==> q * p >= p;
  }

  /** The wait before the next row ends at its time: the gap is no smaller than the step
      size and fits its slice, or a step size that does not fit is cut down to the gap. */
  predicate GapKept(width: nat, gap: int, stepsize: nat) {
    if gap >= stepsize then Waitable(width, gap) else (stepsize % Pow2(width)) % UINT32 == gap && gap < INT32
  }

  predicate InTime(times: seq<nat>, width: nat, stepsize: nat)
    requires |times| > 0
  {
    Waitable(width, times[0]) && forall k :: 0 <= k < |times| - 1 ==> GapKept(width, Gap(times, k), stepsize)
  }

  lemma HeaderWait(rows: seq<Bv>, times: seq<nat>, n: nat, width: nat, stepsize: nat, isTagged: (nat, nat) -> bool)
    requires IsFile(rows, times, n, width, stepsize, isTagged) && times[0] < 0x8000_0000_0000_0000
    ensures SliceValue(rows[0], n, width, n) == times[0] % Pow2(width)
    ensures Waited(SliceValue(rows[0], n, width, n)) == times[0] <==> Waitable(width, times[0])
  {
    SliceLowIs(n, width, n);
    LowSlice(rows[0], n, width, times[0]);
    WaitedIs(width, times[0], times[0]);
  }

  lemma RowWait(rows: seq<Bv>, times: seq<nat>, n: nat, width: nat, stepsize: nat, isTagged: (nat, nat) -> bool, k: nat)
    requires IsFile(rows, times, n, width, stepsize, isTagged)
    requires k + 1 < |times| && times[k + 1] < 0x8000_0000_0000_0000
    ensures Waited(SliceValue(rows[k + 1], n, width, n)) == Gap(times, k) <==> GapKept(width, Gap(times, k), stepsize)
  {
    assert RowAt(rows, times, k, n, width, stepsize, isTagged);
    var delay := Delay(times, k, stepsize);
    DelaySlice(rows[k + 1], n, width, k, delay, TaggedInputs(n, times[k], isTagged));
    WaitedIs(width, delay, Gap(times, k));
  }

  lemma {:induction false} OnTimeUpTo(rows: seq<Bv>, times: seq<nat>, n: nat, width: nat, stepsize: nat,
                                      isTagged: (nat, nat) -> bool, idx: nat)
    requires IsFile(rows, times, n, width, stepsize, isTagged) && idx < |times| && InTime(times, width, stepsize)
    requires forall k :: 0 <= k < |times| ==> times[k] < 0x8000_0000_0000_0000
    ensures ReplayTime(rows, n, width, idx) == times[idx]
  {
    if idx == 0 {
      HeaderWait(rows, times, n, width, stepsize, isTagged);
    } else {
      OnTimeUpTo(rows, times, n, width, stepsize, isTagged, idx - 1);
      RowWait(rows, times, n, width, stepsize, isTagged, idx - 1);
    }
  }

  /** The rows of a file are replayed at their times exactly when the testbench has a line
      for the header and each of them, the first time and every gap survive their slices and
      no gap is below the step size. */
  lemma OnTimeIff(rows: seq<Bv>, times: seq<nat>, n: nat, width: nat, stepsize: nat, isTagged: (nat, nat) -> bool,
                  lines: nat)
    requires IsFile(rows, times, n, width, stepsize, isTagged)
    requires forall k :: 0 <= k < |times| ==> times[k] < 0x8000_0000_0000_0000
    ensures OnTime(rows, times, n, width, lines) <==> |times| < lines && InTime(times, width, stepsize)
    ensures stepsize < Pow2(width) && stepsize < UINT32 && InTime(times, width, stepsize) ==>
              forall k :: 0 <= k < |times| - 1 ==> Gap(times, k) >= stepsize
  {
    if InTime(times, width, stepsize) {
      forall idx | 0 <= idx < |times|
        ensures ReplayTime(rows, n, width, idx) == times[idx]
      {
        OnTimeUpTo(rows, times, n, width, stepsize, isTagged, idx);
      }
      NoGapBelow(times, width, stepsize);
      assert OnTime(rows, times, n, width, lines) ==> Applied(lines, |times| - 1);
    } else {
      HeaderWait(rows, times, n, width, stepsize, isTagged);
      if Waitable(width, times[0]) {
        var k :| 0 <= k < |times| - 1 && !GapKept(width, Gap(times, k), stepsize);
        RowWait(rows, times, n, width, stepsize, isTagged, k);
        assert ReplayTime(rows, n, width, k + 1) ==
               ReplayTime(rows, n, width, k) + Waited(SliceValue(rows[k + 1], n, width, n));
      } else {
        assert ReplayTime(rows, n, width, 0) != times[0];
      }
    }
  }

  /** Only a step size that does not fit the slice can be cut down to a smaller gap. */
  lemma NoGapBelow(times: seq<nat>, width: nat, stepsize: nat)
    requires |times| > 0 && InTime(times, width, stepsize)
    ensures stepsize < Pow2(width) && stepsize < UINT32 ==>
              forall k :: 0 <= k < |times| - 1 ==> Gap(times, k) >= stepsize
  {
    ModuloSmaller(stepsize, Pow2(width));
    ModuloSmaller(stepsize % Pow2(width), UINT32);
    forall k | 0 <= k < |times| - 1 && stepsize < Pow2(width) && stepsize < UINT32
      ensures Gap(times, k) >= stepsize
    {
      assert GapKept(width, Gap(times, k), stepsize);
    }
  }

  lemma LanesOfRun(count: nat, n: nat, width: nat, idx: nat)
    requires idx < count && count * n <= width
    ensures (idx + 1) * n <= width
  {
    Factor(n, count, idx + 1);
    if count > idx + 1 {
      Multiple(n, count - (idx + 1));
    }
  }

  /** A run whose lanes fit reads back completely: every row gives each tagged input
      its own lane, and its delay. */
  lemma RunReadsBack(rows: seq<Bv>, times: seq<nat>, n: nat, width: nat, stepsize: nat, isTagged: (nat, nat) -> bool,
                     idx: nat)
    requires idx < |times| && |times| * n <= width && RowAt(rows, times, idx, n, width, stepsize, isTagged)
    requires Delay(times, idx, stepsize) < Pow2(width)
    ensures ReadsBack(rows[idx + 1], n, width, idx, Delay(times, idx, stepsize), TaggedInputs(n, times[idx], isTagged))
  {
    var delay, tagged := Delay(times, idx, stepsize), TaggedInputs(n, times[idx], isTagged);
    LanesOfRun(|times|, n, width, idx);
    RowReadsBack(rows[idx + 1], n, width, idx, delay, tagged);
  }

  lemma TaggedSlice(row: Bv, n: nat, width: nat, idx: nat, delay: nat, tagged: Tagged, i: nat)
    requires |tagged| == n && i < n && ReadsBack(row, n, width, idx, delay, tagged)
    ensures SliceValue(row, n, width, i) != 0 <==> tagged[i]
  {
    assert SliceValue(row, n, width, i) == if tagged[i] then Pow2(idx * n + i) else 0;
  }

  /** In every row of such a run exactly the inputs that are tagged at its time have a slice
      that is not zero. */
  lemma RunTagsIff(rows: seq<Bv>, times: seq<nat>, n: nat, width: nat, stepsize: nat, isTagged: (nat, nat) -> bool,
                   idx: nat, i: nat)
    requires idx < |times| && |times| * n <= width && RowAt(rows, times, idx, n, width, stepsize, isTagged)
    requires Delay(times, idx, stepsize) < Pow2(width) && i < n
    ensures SliceValue(rows[idx + 1], n, width, i) != 0 <==> isTagged(i, times[idx])
  {
    RunReadsBack(rows, times, n, width, stepsize, isTagged, idx);
    var delay, tagged := Delay(times, idx, stepsize), TaggedInputs(n, times[idx], isTagged);
    TaggedSlice(rows[idx + 1], n, width, idx, delay, tagged, i);
  }
}
