/**
 Axis and tick detection (pic2func/detect.py: detect_line, detect_axes,
 get_ticks, get_tickmeans).

 An axis is the row or column holding the longest run of black pixels that
 reaches a minimum length; a tick is the midpoint of a run of green pixels
 along an axis. Both rest on the run-pairing facts proved in Runs.
 */
module Axes {
  import opened Base
  import opened Runs

  /**
   detect_line: whether the longest run of 1s in `v` reaches `L`, and that
   run's length. The source asserts `L <= len(v)`.
   */
  function DetectLine(v: seq<Bit>, L: int): (r: (bool, int))
    requires L <= |v|
  {
    var p := Pad(v);
    var starts, stops := Starts(p), Stops(p);
    if |starts| == 0 then (false, 0)
    else if |stops| == 0 then (|v| - starts[0] >= L, |v| - starts[0])
    else
      var maxL := MaxOf(PairDiffs(stops, starts));
      (maxL >= L, maxL)
  }

  /** detect_line reports no line exactly for an all-zero vector, and otherwise the longest run of 1s. */
  lemma DetectLineSpec(v: seq<Bit>, L: int)
    requires L <= |v|
    ensures NoOnes(v) ==> DetectLine(v, L) == (false, 0)
    ensures !NoOnes(v) ==> DetectLine(v, L) == (LongestRun(v) >= L, LongestRun(v))
    ensures DetectLine(v, L).0 <==> !NoOnes(v) && LongestRun(v) >= L
  {
    PaddedLongest(v);
  }

  /** Column `j` of a rectangular grid, `pic[:, j]`. */
  function Column<T>(g: seq<seq<T>>, j: nat): (c: seq<T>)
    requires IsRect(g) && j < Width(g)
    ensures |c| == |g| && forall i :: 0 <= i < |g| ==> c[i] == g[i][j]
  {
    seq(|g|, i requires 0 <= i < |g| => g[i][j])
  }

  /** The indices of the detected lines among detect_line's results, with the detected lengths. */
  function Candidates(found: seq<(bool, int)>): (c: seq<(nat, int)>)
    ensures forall n :: 0 <= n < |c| ==> c[n].0 < |found| && found[c[n].0] == (true, c[n].1)
    ensures forall m, n :: 0 <= m < n < |c| ==> c[m].0 < c[n].0
    ensures forall k :: 0 <= k < |found| && found[k].0 ==> exists n :: 0 <= n < |c| && c[n].0 == k
  {
    if |found| == 0 then []
    else
      var last := |found| - 1;
      var c := Candidates(found[..last]);
      assert forall k :: 0 <= k < last ==> found[..last][k] == found[k];
      if found[last].0 then
        var c' := c + [(last, found[last].1)];
        assert c'[|c|].0 == last;
        assert forall n :: 0 <= n < |c| ==> c'[n] == c[n];
        c'
      else c
  }

  /**
   The line detect_axes settles on, given detect_line's result for every
   line: the first of the longest detected lines, or `default` when no line
   is detected.
   */
  function LongestLine(found: seq<(bool, int)>, default: int): (k: int)
    ensures (forall j :: 0 <= j < |found| ==> !found[j].0) ==> k == default
    ensures (exists j :: 0 <= j < |found| && found[j].0) ==> IsFirstLongest(found, k)
  {
    var c := Candidates(found);
    if |c| == 0 then default
    else
      var lens := seq(|c|, n requires 0 <= n < |c| => c[n].1);
      var best := ArgMax(lens);
      FirstLongestPicked(found, c, lens, best);
      c[best].0
  }

  /** `k` is a detected line, no detected line is longer, and every earlier detected line is shorter. */
  predicate IsFirstLongest(found: seq<(bool, int)>, k: int) {
    && 0 <= k < |found| && found[k].0
    && (forall j :: 0 <= j < |found| && found[j].0 ==> found[j].1 <= found[k].1)
    && (forall j :: 0 <= j < k && found[j].0 ==> found[j].1 < found[k].1)
  }

  lemma FirstLongestPicked(found: seq<(bool, int)>, c: seq<(nat, int)>, lens: seq<int>, best: nat)
    requires c == Candidates(found) && |c| > 0
    requires |lens| == |c| && forall n :: 0 <= n < |c| ==> lens[n] == c[n].1
    requires best == ArgMax(lens)
    ensures IsFirstLongest(found, c[best].0)
  {
    forall j | 0 <= j < |found| && found[j].0 ensures found[j].1 <= found[c[best].0].1 {
      var n :| 0 <= n < |c| && c[n].0 == j;
      assert lens[n] <= lens[best];
    }
    forall j | 0 <= j < c[best].0 && found[j].0 ensures found[j].1 < found[c[best].0].1 {
      var n :| 0 <= n < |c| && c[n].0 == j;
      KeyOrder(c, n, best);
      assert lens[n] < lens[best];
    }
  }

  /** In a list with strictly increasing keys, a smaller key sits earlier. */
  lemma KeyOrder(c: seq<(nat, int)>, m: nat, n: nat)
    requires forall a, b :: 0 <= a < b < |c| ==> c[a].0 < c[b].0
    requires m < |c| && n < |c| && c[m].0 < c[n].0
    ensures m < n
  {
  }

  /** The columns of a rectangular grid, `pic[:, j]` for every `j`. */
  function Columns(g: Mask): (cs: seq<seq<Bit>>)
    requires IsRect(g)
    ensures |cs| == Width(g) && forall j :: 0 <= j < Width(g) ==> cs[j] == Column(g, j)
  {
    seq(Width(g), j requires 0 <= j < Width(g) => Column(g, j))
  }

  /** detect_line on every line, with one minimum length for all. */
  function Scan(lines: seq<seq<Bit>>, L: int): (found: seq<(bool, int)>)
    requires forall k :: 0 <= k < |lines| ==> L <= |lines[k]|
    ensures |found| == |lines| && forall k :: 0 <= k < |lines| ==> found[k] == DetectLine(lines[k], L)
  {
    seq(|lines|, k requires 0 <= k < |lines| => DetectLine(lines[k], L))
  }

  /**
   detect_axes: (Iaxis, Jaxis), the column of the I-axis and the row of the
   J-axis. `minI` and `minJ` are the already truncated minimum lengths.
   */
  function DetectAxes(g: Mask, minI: int, minJ: int): (axes: (int, int))
    requires IsRect(g) && minI <= |g| && minJ <= Width(g)
  {
    (LongestLine(Scan(Columns(g), minI), |g|), LongestLine(Scan(g, minJ), 0))
  }

  /** A line qualifies as an axis when it has a 1 and its longest run reaches the minimum. */
  predicate Qualifies(v: seq<Bit>, L: int) {
    !NoOnes(v) && LongestRun(v) >= L
  }

  /** Line `k` qualifies, no qualifying line has a longer run, and every earlier qualifying line a shorter one. */
  predicate IsFirstLongestRun(lines: seq<seq<Bit>>, L: int, k: int) {
    && 0 <= k < |lines| && Qualifies(lines[k], L)
    && (forall j :: 0 <= j < |lines| && Qualifies(lines[j], L) ==> LongestRun(lines[j]) <= LongestRun(lines[k]))
    && (forall j :: 0 <= j < k && Qualifies(lines[j], L) ==> LongestRun(lines[j]) < LongestRun(lines[k]))
  }

  /** detect_line's verdict on every line, in terms of the line's longest run. */
  lemma ScanSpec(lines: seq<seq<Bit>>, L: int)
    requires forall k :: 0 <= k < |lines| ==> L <= |lines[k]|
    ensures forall j :: 0 <= j < |lines| ==> (Scan(lines, L)[j].0 <==> Qualifies(lines[j], L))
    ensures forall j :: 0 <= j < |lines| && Scan(lines, L)[j].0 ==> Scan(lines, L)[j].1 == LongestRun(lines[j])
  {
    forall j | 0 <= j < |lines|
      ensures Scan(lines, L)[j].0 <==> Qualifies(lines[j], L)
      ensures Scan(lines, L)[j].0 ==> Scan(lines, L)[j].1 == LongestRun(lines[j])
    {
      DetectLineSpec(lines[j], L);
    }
  }

  /** The line detect_axes picks among `lines` is the first with the longest qualifying run, or `default`. */
  lemma PickedLineSpec(lines: seq<seq<Bit>>, L: int, default: int)
    requires forall k :: 0 <= k < |lines| ==> L <= |lines[k]|
    ensures (forall j :: 0 <= j < |lines| ==> !Qualifies(lines[j], L)) ==> LongestLine(Scan(lines, L), default) == default
    ensures (exists j :: 0 <= j < |lines| && Qualifies(lines[j], L)) ==> IsFirstLongestRun(lines, L, LongestLine(Scan(lines, L), default))
  {
    var found := Scan(lines, L);
    var k := LongestLine(found, default);
    ScanSpec(lines, L);
    if exists j :: 0 <= j < |lines| && Qualifies(lines[j], L) {
      assert IsFirstLongest(found, k);
    } else {
      assert forall j :: 0 <= j < |found| ==> !found[j].0;
    }
  }

  /**
   Each axis is the first line among those with the longest qualifying run;
   without a qualifying column the I-axis sits at J = NI, and without a
   qualifying row the J-axis sits at I = 0.
   */
  lemma DetectAxesSpec(g: Mask, minI: int, minJ: int)
    requires IsRect(g) && minI <= |g| && minJ <= Width(g)
    ensures var cs := Columns(g);
      && ((forall j :: 0 <= j < |cs| ==> !Qualifies(cs[j], minI)) ==> DetectAxes(g, minI, minJ).0 == |g|)
      && ((exists j :: 0 <= j < |cs| && Qualifies(cs[j], minI)) ==> IsFirstLongestRun(cs, minI, DetectAxes(g, minI, minJ).0))
    ensures (forall i :: 0 <= i < |g| ==> !Qualifies(g[i], minJ)) ==> DetectAxes(g, minI, minJ).1 == 0
    ensures (exists i :: 0 <= i < |g| && Qualifies(g[i], minJ)) ==> IsFirstLongestRun(g, minJ, DetectAxes(g, minI, minJ).1)
  {
    PickedLineSpec(Columns(g), minI, |g|);
    PickedLineSpec(g, minJ, 0);
  }

  /** What get_tickmeans returns: the tick midpoints, or the pair `([0], [0])` when the line holds no 1. */
  datatype TickMeans = Midpoints(ticks: seq<int>) | NoTickPair

  /**
   get_tickmeans on an already padded vector: each tick is its start index
   plus half its length, truncated.
   */
  function GetTickMeans(p: seq<Bit>): (r: Result<TickMeans>)
  {
    var starts, stops := Starts(p), Stops(p);
    if |starts| == 0 then Success(NoTickPair)
    else if |stops| == 0 then Failure(TickNotClosed)
    else if |stops| != |starts| then Failure(TickCountMismatch)
    else Success(Midpoints(seq(|starts|, k requires 0 <= k < |starts| =>
      starts[k] + TruncHalf(stops[k] as int - starts[k] as int))))
  }

  /** The tick get_tickmeans places on a maximal run `[a, b)` of the padded vector, in unpadded coordinates. */
  function RunMidpoint(a: int, b: int): int {
    (a - 1) + (b - a) / 2
  }

  /** `x` is the midpoint of some maximal run of `p`. */
  ghost predicate IsRunMidpoint(p: seq<Bit>, x: int) {
    exists a, b :: IsMaximalRun(p, a, b) && x == RunMidpoint(a, b)
  }

  /**
   `t` marks the maximal runs of `p`: one midpoint per run and nothing else,
   in increasing order, each on a 1.
   */
  ghost predicate MarksRuns(p: seq<Bit>, t: seq<int>) {
    && (forall k :: 0 <= k < |t| ==> IsRunMidpoint(p, t[k]))
    && (forall a, b :: IsMaximalRun(p, a, b) ==> RunMidpoint(a, b) in t)
    && (forall k :: 0 <= k < |t| ==> 0 <= t[k] && t[k] + 1 < |p| && p[t[k] + 1] == 1)
    && (forall m, n :: 0 <= m < n < |t| ==> t[m] < t[n])
  }

  /**
   On a padded line, get_tickmeans never fails; it reports no ticks exactly
   when the line has no 1, and otherwise one tick per maximal run, in
   increasing order, each on a 1 of the line.
   */
  lemma GetTickMeansSpec(v: seq<Bit>)
    ensures GetTickMeans(Pad(v)).Success?
    ensures GetTickMeans(Pad(v)) == Success(NoTickPair) <==> NoOnes(v)
    ensures GetTickMeans(Pad(v)).Success? && GetTickMeans(Pad(v)).value.Midpoints? ==>
      && MarksRuns(Pad(v), GetTickMeans(Pad(v)).value.ticks)
      && forall k :: 0 <= k < |GetTickMeans(Pad(v)).value.ticks| ==>
        var t := GetTickMeans(Pad(v)).value.ticks[k]; 0 <= t < |v| && v[t] == 1
  {
    TickMeansOutcome(v);
    if !NoOnes(v) {
      TickMeansMarkRuns(v);
    }
  }

  lemma TickMeansOutcome(v: seq<Bit>)
    ensures GetTickMeans(Pad(v)).Success?
    ensures GetTickMeans(Pad(v)) == Success(NoTickPair) <==> NoOnes(v)
    ensures !NoOnes(v) ==> GetTickMeans(Pad(v)) == Success(Midpoints(GetTickMeans(Pad(v)).value.ticks))
    ensures !NoOnes(v) ==> TicksOfTable(Starts(Pad(v)), Stops(Pad(v)), GetTickMeans(Pad(v)).value.ticks)
  {
    PaddedLongest(v);
    TableTickMeans(Pad(v));
  }

  /** When every start has its stop, get_tickmeans succeeds, with no tick pair exactly when there is no start. */
  lemma TableTickMeans(p: seq<Bit>)
    requires |Starts(p)| == |Stops(p)|
    ensures GetTickMeans(p).Success?
    ensures GetTickMeans(p) == Success(NoTickPair) <==> |Starts(p)| == 0
    ensures |Starts(p)| > 0 ==> GetTickMeans(p) == Success(Midpoints(GetTickMeans(p).value.ticks))
    ensures |Starts(p)| > 0 ==> TicksOfTable(Starts(p), Stops(p), GetTickMeans(p).value.ticks)
  {
  }

  lemma TickMeansMarkRuns(v: seq<Bit>)
    requires !NoOnes(v)
    ensures GetTickMeans(Pad(v)).Success? && GetTickMeans(Pad(v)).value.Midpoints?
    ensures MarksRuns(Pad(v), GetTickMeans(Pad(v)).value.ticks)
    ensures forall k :: 0 <= k < |GetTickMeans(Pad(v)).value.ticks| ==>
      var t := GetTickMeans(Pad(v)).value.ticks[k]; 0 <= t < |v| && v[t] == 1
  {
    TickMeansOutcome(v);
    var p := Pad(v);
    var t := GetTickMeans(p).value.ticks;
    PaddedRunTable(v);
    TableMarksRuns(p, Starts(p), Stops(p), t);
    forall k | 0 <= k < |t| ensures 0 <= t[k] < |v| && v[t[k]] == 1 {
      PadAt(v, t[k] + 1);
    }
  }

  /** The ticks get_tickmeans computes from a run table. */
  ghost predicate TicksOfTable(S: seq<nat>, E: seq<nat>, t: seq<int>) {
    |t| == |S| == |E| && forall k :: 0 <= k < |S| ==> t[k] == S[k] + TruncHalf(E[k] as int - S[k] as int)
  }

  /** The midpoints computed from a run table mark the runs. */
  lemma TableMarksRuns(p: seq<Bit>, S: seq<nat>, E: seq<nat>, t: seq<int>)
    requires RunTable(p, S, E) && TicksOfTable(S, E, t)
    ensures MarksRuns(p, t)
  {
    TableTicksAreMidpoints(p, S, E, t);
    TableTicksCoverRuns(p, S, E, t);
    TableTicksIncrease(p, S, E, t);
  }

  lemma TableTicksAreMidpoints(p: seq<Bit>, S: seq<nat>, E: seq<nat>, t: seq<int>)
    requires RunTable(p, S, E) && TicksOfTable(S, E, t)
    ensures forall k :: 0 <= k < |t| ==> IsRunMidpoint(p, t[k])
    ensures forall k :: 0 <= k < |t| ==> 0 <= t[k] && t[k] + 1 < |p| && p[t[k] + 1] == 1
  {
    forall k | 0 <= k < |t| ensures IsRunMidpoint(p, t[k]) && 0 <= t[k] && t[k] + 1 < |p| && p[t[k] + 1] == 1 {
      assert IsMaximalRun(p, S[k] + 1, E[k] + 1);
      assert t[k] == RunMidpoint(S[k] + 1, E[k] + 1);
    }
  }

  lemma TableTicksCoverRuns(p: seq<Bit>, S: seq<nat>, E: seq<nat>, t: seq<int>)
    requires RunTable(p, S, E) && TicksOfTable(S, E, t)
    ensures forall a, b :: IsMaximalRun(p, a, b) ==> RunMidpoint(a, b) in t
  {
    forall a, b | IsMaximalRun(p, a, b) ensures RunMidpoint(a, b) in t {
      var k := CoveringPair(p, S, E, a, b);
      assert t[k] == RunMidpoint(a, b);
    }
  }

  lemma TableTicksIncrease(p: seq<Bit>, S: seq<nat>, E: seq<nat>, t: seq<int>)
    requires RunTable(p, S, E) && TicksOfTable(S, E, t)
    ensures forall m, n :: 0 <= m < n < |t| ==> t[m] < t[n]
  {
    forall m, n | 0 <= m < n < |t| ensures t[m] < t[n] {
      assert IsMaximalRun(p, S[m] + 1, E[m] + 1);
      assert IsMaximalRun(p, S[n] + 1, E[n] + 1);
      assert E[m] < S[n];
    }
  }

  /** A maximal run is bounded by one start/stop pair of the run table. */
  lemma CoveringPair(p: seq<Bit>, S: seq<nat>, E: seq<nat>, a: int, b: int) returns (k: nat)
    requires RunTable(p, S, E) && IsMaximalRun(p, a, b)
    ensures k < |S| && S[k] + 1 == a && E[k] + 1 == b
  {
    assert p[a] == 1;
    k :| 0 <= k < |S| && S[k] < a <= E[k];
    assert IsMaximalRun(p, S[k] + 1, E[k] + 1);
  }

  /** Python indexing of a length-`n` axis, where `-n <= i < 0` counts from the end. */
  function PyIndex(n: nat, i: int): (r: Option<nat>)
    ensures r.Some? <==> -(n as int) <= i < n
    ensures r.Some? ==> r.value < n && (r.value == i || r.value == i + n)
  {
    if 0 <= i < n then Some(i) else if -(n as int) <= i < 0 then Some(i + n) else None
  }

  /**
   get_ticks: the ticks along the I-axis (the column `axes.0`) and along the
   J-axis (the row `axes.1`), each line bordered with 0s.
   */
  function GetTicks(g: Mask, axes: (int, int)): (r: Result<(TickMeans, TickMeans)>)
    requires IsRect(g)
    ensures r.Failure? <==> PyIndex(Width(g), axes.0).None? || PyIndex(|g|, axes.1).None?
    ensures r.Failure? ==> r.error == AxisOutOfRange
    ensures r.Success? ==> var c := Column(g, PyIndex(Width(g), axes.0).value);
      && (r.value.0 == NoTickPair <==> NoOnes(c))
      && (r.value.0.Midpoints? ==> MarksRuns(Pad(c), r.value.0.ticks))
    ensures r.Success? ==> var w := g[PyIndex(|g|, axes.1).value];
      && (r.value.1 == NoTickPair <==> NoOnes(w))
      && (r.value.1.Midpoints? ==> MarksRuns(Pad(w), r.value.1.ticks))
  {
    var col, row := PyIndex(Width(g), axes.0), PyIndex(|g|, axes.1);
    if col.None? || row.None? then Failure(AxisOutOfRange)
    else
      var ci, rj := Column(g, col.value), g[row.value];
      GetTickMeansSpec(ci);
      GetTickMeansSpec(rj);
      Success((GetTickMeans(Pad(ci)).value, GetTickMeans(Pad(rj)).value))
  }
}
