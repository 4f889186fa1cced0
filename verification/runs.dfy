/**
 Run-length detection on 0/1 vectors (pic2func/detect.py, detect_line and
 get_tickmeans).

 The source finds runs of 1s by differencing: after a vector is bordered by
 0s, the indices where the first difference is +1 are run starts and those
 where it is -1 are run stops. The central fact proved here, RunPairing, is
 that for a vector that starts with 0 the k-th start and the k-th stop
 bound the k-th maximal run of 1s, that every 1 lies in one of those runs,
 and that the longest stop-minus-start gap is the longest run of 1s.
 */
module Runs {
  import opened Base

  /** Borders a vector with a 0 at each end, as `[0] + v + [0]`. */
  function Pad(v: seq<Bit>): seq<Bit> {
    [0] + v + [0]
  }

  /** Reading the padded vector: the border cells are 0 and cell `x` holds `v[x - 1]`. */
  lemma PadAt(v: seq<Bit>, x: int)
    requires 0 <= x < |v| + 2
    ensures |Pad(v)| == |v| + 2
    ensures Pad(v)[x] == if 1 <= x <= |v| then v[x - 1] else 0
  {
  }

  /** The first difference `v0[1:] - v0[:-1]`. */
  function Diff(p: seq<Bit>): (d: seq<int>)
    ensures |d| == if |p| == 0 then 0 else |p| - 1
    ensures forall k :: 0 <= k < |d| ==> d[k] == p[k + 1] as int - p[k] as int
  {
    if |p| == 0 then [] else seq(|p| - 1, k requires 0 <= k < |p| - 1 => p[k + 1] as int - p[k] as int)
  }

  /**
   `r` lists, in ascending order, exactly the indices at which `d` holds `x`.
   Membership rather than indexing states the first two conjuncts, so that a
   mere `r[a]` does not bring in facts about `d`.
   */
  ghost predicate IsWhere(d: seq<int>, x: int, r: seq<nat>) {
    && (forall k :: k in r ==> 0 <= k < |d| && d[k] == x)
    && (forall k :: 0 <= k < |d| && d[k] == x ==> k in r)
    && (forall a, b :: 0 <= a < b < |r| ==> r[a] < r[b])
  }

  /** `np.where(d == x)[0]`: the indices at which `d` holds `x`, ascending. */
  function Where(d: seq<int>, x: int): (r: seq<nat>)
    ensures IsWhere(d, x, r)
  {
    if |d| == 0 then []
    else
      var r := Where(d[..|d| - 1], x);
      WhereExtends(d, x, r);
      r + (if d[|d| - 1] == x then [|d| - 1] else [])
  }

  /** The indices for `d` are those for all but its last element, then the last index if it holds `x`. */
  lemma WhereExtends(d: seq<int>, x: int, r: seq<nat>)
    requires |d| > 0 && IsWhere(d[..|d| - 1], x, r)
    ensures IsWhere(d, x, r + (if d[|d| - 1] == x then [|d| - 1] else []))
  {
    var q := d[..|d| - 1];
    var r' := r + (if d[|d| - 1] == x then [|d| - 1] else []);
    forall k | k in r' ensures 0 <= k < |d| && d[k] == x {
      if k in r {
        assert q[k] == d[k];
      }
    }
    forall k | 0 <= k < |d| && d[k] == x ensures k in r' {
      if k < |q| {
        assert q[k] == d[k];
      }
    }
    forall a, b | 0 <= a < b < |r'| ensures r'[a] < r'[b] {
      assert r'[a] == r[a] && r[a] in r;
      if b < |r| {
        assert r'[b] == r[b];
      }
    }
  }

  /** Run starts: the difference indices where a 0 is followed by a 1. */
  function Starts(p: seq<Bit>): seq<nat> {
    Where(Diff(p), 1)
  }

  /** Run stops: the difference indices where a 1 is followed by a 0. */
  function Stops(p: seq<Bit>): seq<nat> {
    Where(Diff(p), -1)
  }

  /** `stopids - startids`, elementwise over the common length. */
  function PairDiffs(stops: seq<nat>, starts: seq<nat>): (r: seq<int>)
    ensures |r| == Min(|stops|, |starts|)
    ensures forall k :: 0 <= k < |r| ==> r[k] == stops[k] as int - starts[k] as int
  {
    seq(Min(|stops|, |starts|), k requires 0 <= k < Min(|stops|, |starts|) => stops[k] as int - starts[k] as int)
  }

  predicate NoOnes(v: seq<Bit>) {
    forall k :: 0 <= k < |v| ==> v[k] == 0
  }

  ghost predicate AllOnes(v: seq<Bit>, s: int, e: int) {
    forall k :: s <= k < e ==> 0 <= k < |v| && v[k] == 1
  }

  /** `v[s .. s + len]` lies inside the vector and holds only 1s. */
  ghost predicate OnesAt(v: seq<Bit>, s: int, len: int) {
    0 <= s && s + len <= |v| && AllOnes(v, s, s + len)
  }

  /** `[a, b)` is a maximal run of 1s: all 1s, with a 0 just before and just after. */
  ghost predicate IsMaximalRun(v: seq<Bit>, a: int, b: int) {
    1 <= a < b < |v| && AllOnes(v, a, b) && v[a - 1] == 0 && v[b] == 0
  }

  /** The number of 1s at the end of the vector (reference definition). */
  function TrailingOnes(v: seq<Bit>): (t: nat)
    ensures t <= |v|
  {
    if |v| == 0 || v[|v| - 1] == 0 then 0 else TrailingOnes(v[..|v| - 1]) + 1
  }

  /** The length of the longest run of consecutive 1s (reference definition). */
  function LongestRun(v: seq<Bit>): (m: nat)
    ensures m <= |v|
  {
    if |v| == 0 then 0 else Max(LongestRun(v[..|v| - 1]), TrailingOnes(v))
  }

  lemma {:induction false} TrailingOnesAreOnes(v: seq<Bit>)
    ensures AllOnes(v, |v| - TrailingOnes(v), |v|)
    ensures forall s :: 0 <= s <= |v| && AllOnes(v, s, |v|) ==> |v| - s <= TrailingOnes(v)
    decreases |v|
  {
    if |v| == 0 {
    } else if v[|v| - 1] == 0 {
      forall s | 0 <= s < |v| ensures !AllOnes(v, s, |v|) {
        assert v[|v| - 1] == 0;
      }
    } else {
      var q := v[..|v| - 1];
      TrailingOnesAreOnes(q);
      forall s | 0 <= s <= |v| && AllOnes(v, s, |v|) ensures |v| - s <= TrailingOnes(v) {
        if s < |v| {
          assert AllOnes(q, s, |q|);
        }
      }
    }
  }

  /** LongestRun really is the longest all-ones segment: it bounds every one and is attained. */
  lemma {:induction false} LongestRunIsLongest(v: seq<Bit>)
    ensures forall s, e :: 0 <= s <= e <= |v| && AllOnes(v, s, e) ==> e - s <= LongestRun(v)
    ensures exists s :: OnesAt(v, s, LongestRun(v))
    decreases |v|
  {
    if |v| == 0 {
      assert OnesAt(v, 0, 0);
    } else {
      var q := v[..|v| - 1];
      LongestRunIsLongest(q);
      TrailingOnesAreOnes(v);
      forall s, e | 0 <= s <= e <= |v| && AllOnes(v, s, e) ensures e - s <= LongestRun(v) {
        if e < |v| {
          assert AllOnes(q, s, e);
        } else {
          assert AllOnes(v, s, |v|);
        }
      }
      if LongestRun(q) >= TrailingOnes(v) {
        var s :| OnesAt(q, s, LongestRun(q));
        assert OnesAt(v, s, LongestRun(v));
      } else {
        assert OnesAt(v, |v| - LongestRun(v), LongestRun(v));
      }
    }
  }

  /** A vector has no run of 1s exactly when it holds no 1 at all. */
  lemma {:induction false} LongestRunZero(v: seq<Bit>)
    ensures LongestRun(v) == 0 <==> NoOnes(v)
    decreases |v|
  {
    if |v| > 0 {
      var q := v[..|v| - 1];
      LongestRunZero(q);
      if NoOnes(v) {
        assert NoOnes(q);
      } else if NoOnes(q) {
        assert v[|v| - 1] == 1;
      }
    }
  }

  lemma {:induction false} TrailingOnesLeadingZero(v: seq<Bit>)
    ensures TrailingOnes([0] + v) == TrailingOnes(v)
    decreases |v|
  {
    if |v| > 0 && v[|v| - 1] == 1 {
      assert ([0] + v)[..|v|] == [0] + v[..|v| - 1];
      TrailingOnesLeadingZero(v[..|v| - 1]);
    }
  }

  lemma {:induction false} LongestRunLeadingZero(v: seq<Bit>)
    ensures LongestRun([0] + v) == LongestRun(v)
    decreases |v|
  {
    if |v| > 0 {
      assert ([0] + v)[..|v|] == [0] + v[..|v| - 1];
      LongestRunLeadingZero(v[..|v| - 1]);
      TrailingOnesLeadingZero(v);
    }
  }

  /** Bordering with 0s changes neither the longest run nor the trailing 1s count. */
  lemma PadLongestRun(v: seq<Bit>)
    ensures LongestRun(Pad(v)) == LongestRun(v)
    ensures TrailingOnes(Pad(v)) == 0
  {
    assert Pad(v)[..|Pad(v)| - 1] == [0] + v;
    LongestRunLeadingZero(v);
  }

  /** `S` and `E` alternate: the k-th start comes before the k-th stop, which comes before every later start. */
  ghost predicate Alternate(S: seq<nat>, E: seq<nat>) {
    && (forall k :: 0 <= k < |E| && k < |S| ==> S[k] < E[k])
    && (forall k, l :: 0 <= k < |E| && k < l < |S| ==> E[k] < S[l])
  }

  /** Every closed pair bounds a block of 1s, and an unmatched last start opens the trailing block of 1s. */
  ghost predicate PairsHoldOnes(p: seq<Bit>, S: seq<nat>, E: seq<nat>)
    requires |p| >= 1 && |S| == |E| + p[|p| - 1]
  {
    && (forall k :: 0 <= k < |E| ==> AllOnes(p, S[k] + 1, E[k] + 1))
    && (p[|p| - 1] == 1 ==> AllOnes(p, S[|S| - 1] + 1, |p|) && TrailingOnes(p) == |p| - 1 - S[|S| - 1])
  }

  /** Every 1 lies inside a closed pair or after the unmatched last start. */
  ghost predicate PairsCover(p: seq<Bit>, S: seq<nat>, E: seq<nat>) {
    forall t :: 0 <= t < |p| && p[t] == 1 ==>
      exists k :: 0 <= k < |S| && S[k] < t && (k < |E| ==> t <= E[k])
  }

  /** The longest run is the largest closed gap or the open trailing run. */
  ghost predicate PairsMeasureLongest(p: seq<Bit>, S: seq<nat>, E: seq<nat>) {
    LongestRun(p) == (if |PairDiffs(E, S)| == 0 then TrailingOnes(p) else Max(MaxOf(PairDiffs(E, S)), TrailingOnes(p)))
  }

  /**
   The invariant of a left-to-right scan over a vector that starts with 0:
   starts and stops alternate, each pair bounds a run of 1s, an unmatched
   last start opens the run of trailing 1s, every 1 is covered, and the
   longest run is the largest gap.
   */
  ghost predicate Paired(p: seq<Bit>, S: seq<nat>, E: seq<nat>)
    requires |p| >= 1
  {
    && |S| == |E| + p[|p| - 1]
    && Alternate(S, E)
    && PairsHoldOnes(p, S, E)
    && PairsCover(p, S, E)
    && PairsMeasureLongest(p, S, E)
  }

  lemma DiffSnoc(p: seq<Bit>)
    requires |p| >= 2
    ensures Diff(p) == Diff(p[..|p| - 1]) + [p[|p| - 1] as int - p[|p| - 2] as int]
  {
    var q := p[..|p| - 1];
    var d, d' := Diff(p), Diff(q) + [p[|p| - 1] as int - p[|p| - 2] as int];
    assert |d| == |d'|;
    forall k | 0 <= k < |d| ensures d[k] == d'[k] {
      if k < |d| - 1 {
        assert d'[k] == Diff(q)[k] == q[k + 1] as int - q[k] as int;
      }
    }
  }

  lemma WhereSnoc(d: seq<int>, y: int, x: int)
    ensures Where(d + [y], x) == Where(d, x) + (if y == x then [|d|] else [])
  {
    assert (d + [y])[..|d|] == d;
  }

  lemma MaxOfSnoc(s: seq<int>, x: int)
    requires |s| > 0
    ensures MaxOf(s + [x]) == Max(MaxOf(s), x)
  {
    assert (s + [x])[..|s|] == s;
  }

  /** How one more element extends the starts and stops of a prefix. */
  lemma StartsStopsSnoc(p: seq<Bit>)
    requires |p| >= 2
    ensures Starts(p) == Starts(p[..|p| - 1]) + (if p[|p| - 1] as int - p[|p| - 2] as int == 1 then [|p| - 2] else [])
    ensures Stops(p) == Stops(p[..|p| - 1]) + (if p[|p| - 1] as int - p[|p| - 2] as int == -1 then [|p| - 2] else [])
  {
    var q := p[..|p| - 1];
    DiffSnoc(p);
    WhereSnoc(Diff(q), p[|p| - 1] as int - p[|p| - 2] as int, 1);
    WhereSnoc(Diff(q), p[|p| - 1] as int - p[|p| - 2] as int, -1);
  }

  /** For a vector that starts with 0, starts and stops pair up into exactly its maximal runs. */
  lemma {:induction false} RunPairing(p: seq<Bit>)
    requires |p| >= 1 && p[0] == 0
    ensures Paired(p, Starts(p), Stops(p))
    decreases |p|
  {
    if |p| == 1 {
      assert Diff(p) == [];
      assert Starts(p) == [] && Stops(p) == [];
    } else {
      var q := p[..|p| - 1];
      RunPairing(q);
      SnocShapeHolds(p);
      PairingStep(p, Starts(q), Stops(q), Starts(p), Stops(p));
    }
  }

  /** The starts and stops of `p` extend those of its prefix as SnocShape describes. */
  lemma SnocShapeHolds(p: seq<Bit>)
    requires |p| >= 2 && |Starts(p[..|p| - 1])| == |Stops(p[..|p| - 1])| + p[|p| - 2]
    ensures SnocShape(p, Starts(p[..|p| - 1]), Stops(p[..|p| - 1]), Starts(p), Stops(p))
  {
    var q := p[..|p| - 1];
    StartsStopsSnoc(p);
    var S, E := Starts(q), Stops(q);
    assert forall k :: 0 <= k < |S| ==> S[k] in S;
    assert forall k :: 0 <= k < |E| ==> E[k] in E;
  }

  /** One step of the scan keeps the pairing invariant. */
  lemma PairingStep(p: seq<Bit>, S: seq<nat>, E: seq<nat>, S': seq<nat>, E': seq<nat>)
    requires SnocShape(p, S, E, S', E') && Paired(p[..|p| - 1], S, E)
    ensures Paired(p, S', E')
  {
    var q := p[..|p| - 1];
    assert q[|q| - 1] == p[|p| - 2];
    StepAlternate(p, S, E, S', E');
    StepHoldOnes(p, S, E, S', E');
    StepCover(p, S, E, S', E');
    StepLongest(p, S, E, S', E');
  }

  /**
   How the starts and stops of `p` extend those of `p` without its last
   element: a rise adds a start and a fall adds a stop at the last index.
   */
  ghost predicate SnocShape(p: seq<Bit>, S: seq<nat>, E: seq<nat>, S': seq<nat>, E': seq<nat>) {
    && |p| >= 2
    && |S| == |E| + p[|p| - 2]
    && (forall k :: 0 <= k < |S| ==> S[k] < |p| - 2)
    && (forall k :: 0 <= k < |E| ==> E[k] < |p| - 2)
    && S' == S + (if p[|p| - 2] == 0 && p[|p| - 1] == 1 then [|p| - 2] else [])
    && E' == E + (if p[|p| - 2] == 1 && p[|p| - 1] == 0 then [|p| - 2] else [])
  }

  lemma StepAlternate(p: seq<Bit>, S: seq<nat>, E: seq<nat>, S': seq<nat>, E': seq<nat>)
    requires SnocShape(p, S, E, S', E') && Alternate(S, E)
    ensures |S'| == |E'| + p[|p| - 1] && Alternate(S', E')
  {
  }

  lemma StepHoldOnes(p: seq<Bit>, S: seq<nat>, E: seq<nat>, S': seq<nat>, E': seq<nat>)
    requires SnocShape(p, S, E, S', E') && PairsHoldOnes(p[..|p| - 1], S, E)
    requires |S'| == |E'| + p[|p| - 1]
    ensures PairsHoldOnes(p, S', E')
  {
    var q := p[..|p| - 1];
    OldPairsHoldOnes(p, S, E, S', E');
    if q[|q| - 1] == 1 {
      OpenRunStep(p, S[|S| - 1]);
      if p[|p| - 1] == 0 {
        assert E' == E + [|p| - 2] && S' == S;
      }
    } else if p[|p| - 1] == 1 {
      assert TrailingOnes(q) == 0;
      assert S' == S + [|p| - 2];
    }
  }

  /** The pairs closed before the last element still bound blocks of 1s. */
  lemma OldPairsHoldOnes(p: seq<Bit>, S: seq<nat>, E: seq<nat>, S': seq<nat>, E': seq<nat>)
    requires SnocShape(p, S, E, S', E') && forall k :: 0 <= k < |E| ==> AllOnes(p[..|p| - 1], S[k] + 1, E[k] + 1)
    ensures forall k :: 0 <= k < |E| ==> AllOnes(p, S'[k] + 1, E'[k] + 1)
  {
    var q := p[..|p| - 1];
    forall k | 0 <= k < |E| ensures AllOnes(p, S'[k] + 1, E'[k] + 1) {
      assert S'[k] == S[k] && E'[k] == E[k];
      assert AllOnes(q, S[k] + 1, E[k] + 1);
    }
  }

  /** A run open at the end of the prefix either grows by the last element or is closed by it. */
  lemma OpenRunStep(p: seq<Bit>, s: nat)
    requires |p| >= 2
    requires AllOnes(p[..|p| - 1], s + 1, |p| - 1) && TrailingOnes(p[..|p| - 1]) == |p| - 2 - s
    ensures AllOnes(p, s + 1, |p| - 1)
    ensures p[|p| - 1] == 1 ==> AllOnes(p, s + 1, |p|) && TrailingOnes(p) == |p| - 1 - s
  {
    var q := p[..|p| - 1];
    forall k | s + 1 <= k < |p| - 1 ensures p[k] == 1 {
      assert q[k] == 1;
    }
  }

  lemma StepCover(p: seq<Bit>, S: seq<nat>, E: seq<nat>, S': seq<nat>, E': seq<nat>)
    requires SnocShape(p, S, E, S', E') && PairsCover(p[..|p| - 1], S, E)
    ensures PairsCover(p, S', E')
  {
    var q := p[..|p| - 1];
    var b, c := p[|p| - 1], q[|q| - 1];
    forall t | 0 <= t < |p| && p[t] == 1
      ensures exists k :: 0 <= k < |S'| && S'[k] < t && (k < |E'| ==> t <= E'[k])
    {
      if t < |q| {
        assert q[t] == 1;
        var k :| 0 <= k < |S| && S[k] < t && (k < |E| ==> t <= E[k]);
        assert S'[k] == S[k];
        assert k < |E'| ==> t <= E'[k];
      } else if c == 0 {
        assert S'[|S|] < t;
      } else {
        assert S'[|S| - 1] < t && |S| - 1 >= |E'|;
      }
    }
  }

  lemma StepLongest(p: seq<Bit>, S: seq<nat>, E: seq<nat>, S': seq<nat>, E': seq<nat>)
    requires SnocShape(p, S, E, S', E') && PairsMeasureLongest(p[..|p| - 1], S, E)
    requires p[|p| - 2] == 1 ==> TrailingOnes(p[..|p| - 1]) == |p| - 2 - S[|S| - 1]
    ensures PairsMeasureLongest(p, S', E')
  {
    var q := p[..|p| - 1];
    var b, c := p[|p| - 1], q[|q| - 1];
    assert LongestRun(p) == Max(LongestRun(q), TrailingOnes(p));
    var d := PairDiffs(E, S);
    if c == 0 && b == 0 {
      assert TrailingOnes(p) == 0 && TrailingOnes(q) == 0;
      assert S' == S && E' == E;
      MeasureKept(d, LongestRun(q), LongestRun(p), 0, 0);
    } else if c == 1 && b == 1 {
      assert TrailingOnes(p) == TrailingOnes(q) + 1;
      assert S' == S && E' == E;
      MeasureKept(d, LongestRun(q), LongestRun(p), TrailingOnes(q), TrailingOnes(p));
    } else if c == 0 && b == 1 {
      assert TrailingOnes(p) == 1 && TrailingOnes(q) == 0;
      assert PairDiffs(E', S') == d;
      MeasureKept(d, LongestRun(q), LongestRun(p), 0, 1);
    } else {
      assert TrailingOnes(p) == 0;
      var last := E'[|E|] as int - S[|E|] as int;
      assert last == TrailingOnes(q);
      assert PairDiffs(E', S') == d + [last];
      MeasureClosed(d, last, LongestRun(q), LongestRun(p));
    }
  }

  /** With the gaps unchanged, the longest run stays the larger of the widest gap and the trailing run. */
  lemma MeasureKept(d: seq<int>, lq: int, lp: int, tq: int, tp: int)
    requires lq == (if |d| == 0 then tq else Max(MaxOf(d), tq))
    requires lp == Max(lq, tp) && tq <= tp
    ensures lp == (if |d| == 0 then tp else Max(MaxOf(d), tp))
  {
  }

  /** Closing the trailing run adds its length as the last gap. */
  lemma MeasureClosed(d: seq<int>, last: int, lq: int, lp: int)
    requires lq == (if |d| == 0 then last else Max(MaxOf(d), last))
    requires lp == Max(lq, 0) && last >= 0
    ensures |d + [last]| > 0 && lp == Max(MaxOf(d + [last]), 0)
  {
    if |d| > 0 {
      MaxOfSnoc(d, last);
    } else {
      assert d + [last] == [last];
    }
  }

  /**
   The run table of a vector: `k`-th start and stop bound the `k`-th maximal
   run, runs are ordered, and every 1 lies in one of them.
   */
  ghost predicate RunTable(p: seq<Bit>, S: seq<nat>, E: seq<nat>) {
    && |S| == |E|
    && (forall k :: 0 <= k < |S| ==> IsMaximalRun(p, S[k] + 1, E[k] + 1))
    && (forall k, l :: 0 <= k < l < |S| ==> E[k] < S[l])
    && (forall t :: 0 <= t < |p| && p[t] == 1 ==> exists k :: 0 <= k < |S| && S[k] < t <= E[k])
  }

  /** For a vector bordered with 0s, the starts and stops form its run table. */
  lemma PaddedRunTable(v: seq<Bit>)
    ensures RunTable(Pad(v), Starts(Pad(v)), Stops(Pad(v)))
  {
    PadAt(v, 0);
    PadAt(v, |v| + 1);
    BorderedRunTable(Pad(v));
  }

  /** For a vector that starts and ends with 0, the starts and stops form its run table. */
  lemma BorderedRunTable(p: seq<Bit>)
    requires |p| >= 1 && p[0] == 0 && p[|p| - 1] == 0
    ensures RunTable(p, Starts(p), Stops(p))
  {
    RunPairing(p);
    ClosedRunTable(p, Starts(p), Stops(p));
  }

  /** When the vector ends with 0, the pairing closes every run, giving the run table. */
  lemma ClosedRunTable(p: seq<Bit>, S: seq<nat>, E: seq<nat>)
    requires |p| >= 1 && p[|p| - 1] == 0 && Paired(p, S, E)
    requires IsWhere(Diff(p), 1, S) && IsWhere(Diff(p), -1, E)
    ensures RunTable(p, S, E)
  {
    ClosedMaximal(p, S, E);
    ClosedCover(p, S, E);
  }

  /** When the vector ends with 0, each start (a rise) and its stop (a fall) bound a maximal run. */
  lemma ClosedMaximal(p: seq<Bit>, S: seq<nat>, E: seq<nat>)
    requires |p| >= 1 && p[|p| - 1] == 0 && Paired(p, S, E)
    requires IsWhere(Diff(p), 1, S) && IsWhere(Diff(p), -1, E)
    ensures |S| == |E|
    ensures forall k :: 0 <= k < |S| ==> IsMaximalRun(p, S[k] + 1, E[k] + 1)
  {
    assert |S| == |E| && forall k :: 0 <= k < |E| ==> AllOnes(p, S[k] + 1, E[k] + 1);
    forall k | 0 <= k < |S| ensures IsMaximalRun(p, S[k] + 1, E[k] + 1) {
      assert S[k] in S && E[k] in E;
    }
  }

  /** When the vector ends with 0, every 1 lies between a start and its stop. */
  lemma ClosedCover(p: seq<Bit>, S: seq<nat>, E: seq<nat>)
    requires |p| >= 1 && p[|p| - 1] == 0 && Paired(p, S, E)
    ensures forall t :: 0 <= t < |p| && p[t] == 1 ==> exists k :: 0 <= k < |S| && S[k] < t <= E[k]
  {
    forall t | 0 <= t < |p| && p[t] == 1 ensures exists k :: 0 <= k < |S| && S[k] < t <= E[k] {
      var k :| 0 <= k < |S| && S[k] < t && (k < |E| ==> t <= E[k]);
    }
  }

  /** For a vector bordered with 0s, there is no start exactly when there is no 1, and the widest pair is the longest run. */
  lemma PaddedLongest(v: seq<Bit>)
    ensures |Starts(Pad(v))| == |Stops(Pad(v))|
    ensures |Starts(Pad(v))| == 0 <==> NoOnes(v)
    ensures |Starts(Pad(v))| > 0 ==> MaxOf(PairDiffs(Stops(Pad(v)), Starts(Pad(v)))) == LongestRun(v)
  {
    var p := Pad(v);
    var S, E := Starts(p), Stops(p);
    assert PairsMeasureLongest(p, S, E) && |S| == |E| && Alternate(S, E) by {
      RunPairing(p);
    }
    PadLongestRun(v);
    LongestRunZero(v);
    if |S| == 0 {
      assert LongestRun(v) == 0;
    } else {
      var d := PairDiffs(E, S);
      assert d[0] == E[0] - S[0] > 0;
      assert LongestRun(v) == MaxOf(d);
    }
  }
}
