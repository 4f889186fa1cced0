/**
 From the curve's pixels to the plotted function (pic2func/function.py:
 ijcurve_to_ijfunction, get_scaleandshift_ijtoxy, get_xyfunc).

 The curve's pixels are collapsed to one point per image row, the mean of
 the row's columns; two reference ticks per axis, with their read values,
 give a scale and shift per axis, and every point is mapped to plot
 coordinates by `xy = scale * (ij + shift)`.
 */
module Mapping {
  import opened Base
  import opened Sorting

  /** A point of the ij function: an image row and the mean column of the curve on it. */
  datatype IJPoint = IJPoint(i: int, j: real)

  /** A point of the plotted function. */
  datatype XYPoint = XYPoint(x: real, y: real)

  /** The sort key of `ivals.argsort()`: a pixel's row. */
  function Row(p: Pixel): int {
    p.0
  }

  function Sum(xs: seq<int>): int
    decreases |xs|
  {
    if |xs| == 0 then 0 else Sum(xs[..|xs| - 1]) + xs[|xs| - 1]
  }

  lemma {:induction false} SumAppend(a: seq<int>, b: seq<int>)
    ensures Sum(a + b) == Sum(a) + Sum(b)
    decreases |b|
  {
    if |b| > 0 {
      assert (a + b)[..|a + b| - 1] == a + b[..|b| - 1];
      SumAppend(a, b[..|b| - 1]);
    } else {
      assert a + b == a;
    }
  }

  /** The sum does not depend on the order of the terms. */
  lemma {:induction false} SumPerm(a: seq<int>, b: seq<int>)
    requires multiset(a) == multiset(b)
    ensures Sum(a) == Sum(b)
    decreases |a|
  {
    if |a| > 0 {
      var x := a[|a| - 1];
      assert a == a[..|a| - 1] + [x];
      assert x in multiset(b);
      var i :| 0 <= i < |b| && b[i] == x;
      var b' := b[..i] + b[i + 1..];
      assert b == b[..i] + [x] + b[i + 1..];
      assert multiset(b) == multiset(b[..i]) + multiset{x} + multiset(b[i + 1..]);
      assert multiset(a) == multiset(a[..|a| - 1]) + multiset{x};
      assert multiset(b') == multiset(b[..i]) + multiset(b[i + 1..]);
      assert multiset(b') == multiset(b) - multiset{x};
      assert multiset(a[..|a| - 1]) == multiset(a) - multiset{x};
      SumPerm(a[..|a| - 1], b');
      SumAppend(b[..i], [x]);
      SumAppend(b[..i] + [x], b[i + 1..]);
      SumAppend(b[..i], b[i + 1..]);
      SumAppend(a[..|a| - 1], [x]);
    } else {
      assert b == [];
    }
  }

  /** `np.mean`. */
  function Mean(xs: seq<int>): real
    requires |xs| > 0
  {
    Sum(xs) as real / |xs| as real
  }

  /** The mean does not depend on the order of the terms. */
  lemma MeanPerm(a: seq<int>, b: seq<int>)
    requires |a| > 0 && multiset(a) == multiset(b)
    ensures |b| > 0 && Mean(a) == Mean(b)
  {
    SumPerm(a, b);
    assert |a| == |multiset(a)| == |b|;
  }

  /** The columns of the pixels on row `i`, in order. */
  function ColsAt(s: seq<Pixel>, i: int): seq<int>
    decreases |s|
  {
    if |s| == 0 then []
    else ColsAt(s[..|s| - 1], i) + (if s[|s| - 1].0 == i then [s[|s| - 1].1] else [])
  }

  /** Column `j` occurs on row `i` as often as pixel `(i, j)` occurs in `s`. */
  lemma {:induction false} ColsAtCount(s: seq<Pixel>, i: int, j: int)
    ensures multiset(ColsAt(s, i))[j] == multiset(s)[(i, j)]
    decreases |s|
  {
    if |s| > 0 {
      ColsAtCount(s[..|s| - 1], i, j);
      assert s == s[..|s| - 1] + [s[|s| - 1]];
    }
  }

  /** Reordering the pixels reorders each row's columns. */
  lemma ColsAtPerm(a: seq<Pixel>, b: seq<Pixel>, i: int)
    requires multiset(a) == multiset(b)
    ensures multiset(ColsAt(a, i)) == multiset(ColsAt(b, i))
  {
    forall j ensures multiset(ColsAt(a, i))[j] == multiset(ColsAt(b, i))[j] {
      ColsAtCount(a, i, j);
      ColsAtCount(b, i, j);
    }
  }

  /** Row `i` has a column exactly when some pixel lies on it. */
  lemma {:induction false} ColsAtEmpty(s: seq<Pixel>, i: int)
    ensures |ColsAt(s, i)| == 0 <==> forall u :: 0 <= u < |s| ==> s[u].0 != i
    decreases |s|
  {
    if |s| > 0 {
      ColsAtEmpty(s[..|s| - 1], i);
      assert forall u :: 0 <= u < |s| - 1 ==> s[..|s| - 1][u] == s[u];
    }
  }

  lemma ColsAtSnoc(s: seq<Pixel>, t: nat, i: int)
    requires t < |s|
    ensures ColsAt(s[..t + 1], i) == ColsAt(s[..t], i) + (if s[t].0 == i then [s[t].1] else [])
  {
    assert s[..t + 1][..t] == s[..t];
  }

  /** The rows of a list of ij points. */
  function Is(pts: seq<IJPoint>): (r: seq<int>)
    ensures |r| == |pts| && forall k :: 0 <= k < |pts| ==> r[k] == pts[k].i
  {
    seq(|pts|, k requires 0 <= k < |pts| => pts[k].i)
  }

  /** The rows of `pts` strictly increase. */
  predicate Increasing(pts: seq<IJPoint>) {
    forall k, l :: 0 <= k < l < |pts| ==> pts[k].i < pts[l].i
  }

  /** Each point sits on a row of `s` at the mean of the columns `s` has there. */
  ghost predicate RowMeans(s: seq<Pixel>, pts: seq<IJPoint>) {
    forall k :: 0 <= k < |pts| ==> |ColsAt(s, pts[k].i)| > 0 && pts[k].j == Mean(ColsAt(s, pts[k].i))
  }

  /** The state of the loop of ijcurve_to_ijfunction: points emitted, current row `spin`, its columns `val`. */
  datatype Scanned = Scanned(done: seq<IJPoint>, spin: int, val: seq<int>)

  /** After the first `t` sorted pixels, `spin` is the last pixel's row and `val` holds that row's columns. */
  ghost predicate ScanHead(s: seq<Pixel>, t: nat, st: Scanned) {
    0 < t <= |s| && st.spin == s[t - 1].0 && st.val == ColsAt(s[..t], st.spin)
  }

  /** Every emitted row lies above `spin`, in increasing order. */
  predicate ScanBelow(st: Scanned) {
    (forall k :: 0 <= k < |st.done| ==> st.done[k].i < st.spin) && Increasing(st.done)
  }

  /** Every row of the first `t` pixels above `spin` has been emitted. */
  predicate ScanCovers(s: seq<Pixel>, t: nat, st: Scanned) {
    t <= |s| && forall u :: 0 <= u < t && s[u].0 < st.spin ==> s[u].0 in Is(st.done)
  }

  /** What holds of the loop state after the first `t` sorted pixels. */
  ghost predicate ScanInv(s: seq<Pixel>, t: nat, st: Scanned) {
    ScanHead(s, t, st) && ScanBelow(st) && RowMeans(s[..t], st.done) && ScanCovers(s, t, st)
  }

  /**
   The loop of ijcurve_to_ijfunction from pixel `t` of the row-sorted
   pixels on: the same row extends `val`, a new row emits the mean of the
   old one and starts over.
   */
  function Scan(s: seq<Pixel>, t: nat, st: Scanned): (r: Scanned)
    requires ByKey(Row, s) && ScanInv(s, t, st)
    ensures ScanInv(s, |s|, r)
    decreases |s| - t
  {
    if t == |s| then st
    else if s[t].0 == st.spin then
      var next := Scanned(st.done, st.spin, st.val + [s[t].1]);
      ScanSame(s, t, st);
      Scan(s, t + 1, next)
    else
      ValNonEmpty(s, t, st);
      var next := Scanned(st.done + [IJPoint(st.spin, Mean(st.val))], s[t].0, [s[t].1]);
      NewHead(s, t, st);
      NewBelow(s, t, st);
      NewMeans(s, t, st);
      NewCovers(s, t, st);
      Scan(s, t + 1, next)
  }

  /** Rows never decrease, so pixel `t` is on the current row or below it. */
  lemma SortedRows(s: seq<Pixel>, t: nat, u: nat)
    requires ByKey(Row, s) && u <= t < |s|
    ensures s[u].0 <= s[t].0
  {
    assert Row(s[u]) <= Row(s[t]) || u == t;
  }

  lemma ScanSame(s: seq<Pixel>, t: nat, st: Scanned)
    requires ByKey(Row, s) && ScanInv(s, t, st) && t < |s| && s[t].0 == st.spin
    ensures ScanInv(s, t + 1, Scanned(st.done, st.spin, st.val + [s[t].1]))
  {
    ColsAtSnoc(s, t, st.spin);
    forall k | 0 <= k < |st.done| ensures ColsAt(s[..t + 1], st.done[k].i) == ColsAt(s[..t], st.done[k].i) {
      ColsAtSnoc(s, t, st.done[k].i);
    }
  }

  lemma ValNonEmpty(s: seq<Pixel>, t: nat, st: Scanned)
    requires ScanHead(s, t, st)
    ensures |st.val| > 0
  {
    ColsAtEmpty(s[..t], st.spin);
    assert s[..t][t - 1].0 == st.spin;
  }

  lemma NewHead(s: seq<Pixel>, t: nat, st: Scanned)
    requires ByKey(Row, s) && ScanHead(s, t, st) && t < |s| && s[t].0 != st.spin && |st.val| > 0
    ensures ScanHead(s, t + 1, Scanned(st.done + [IJPoint(st.spin, Mean(st.val))], s[t].0, [s[t].1]))
  {
    var spin' := s[t].0;
    assert ColsAt(s[..t], spin') == [] by {
      forall u | 0 <= u < |s[..t]| ensures s[..t][u].0 != spin' {
        SortedRows(s, t - 1, u);
        SortedRows(s, t, t - 1);
      }
      ColsAtEmpty(s[..t], spin');
    }
    ColsAtSnoc(s, t, spin');
  }

  lemma NewBelow(s: seq<Pixel>, t: nat, st: Scanned)
    requires ByKey(Row, s) && ScanHead(s, t, st) && ScanBelow(st) && t < |s| && s[t].0 != st.spin && |st.val| > 0
    ensures ScanBelow(Scanned(st.done + [IJPoint(st.spin, Mean(st.val))], s[t].0, [s[t].1]))
  {
    SortedRows(s, t, t - 1);
  }

  lemma NewMeans(s: seq<Pixel>, t: nat, st: Scanned)
    requires ByKey(Row, s) && ScanHead(s, t, st) && ScanBelow(st) && RowMeans(s[..t], st.done)
    requires t < |s| && s[t].0 != st.spin && |st.val| > 0
    ensures RowMeans(s[..t + 1], st.done + [IJPoint(st.spin, Mean(st.val))])
  {
    SortedRows(s, t, t - 1);
    var done' := st.done + [IJPoint(st.spin, Mean(st.val))];
    forall k | 0 <= k < |done'| ensures |ColsAt(s[..t + 1], done'[k].i)| > 0 && done'[k].j == Mean(ColsAt(s[..t + 1], done'[k].i)) {
      var x := done'[k].i;
      ColsAtSnoc(s, t, x);
      assert s[t].0 != x by {
        if k < |st.done| {
          assert st.done[k].i < st.spin;
        }
      }
      assert ColsAt(s[..t + 1], x) == ColsAt(s[..t], x);
      if k < |st.done| {
        assert done'[k] == st.done[k];
        assert |ColsAt(s[..t], x)| > 0 && st.done[k].j == Mean(ColsAt(s[..t], x));
      } else {
        assert done'[k] == IJPoint(st.spin, Mean(st.val));
      }
    }
  }

  lemma NewCovers(s: seq<Pixel>, t: nat, st: Scanned)
    requires ByKey(Row, s) && ScanHead(s, t, st) && ScanCovers(s, t, st) && t < |s| && s[t].0 != st.spin && |st.val| > 0
    ensures ScanCovers(s, t + 1, Scanned(st.done + [IJPoint(st.spin, Mean(st.val))], s[t].0, [s[t].1]))
  {
    var done' := st.done + [IJPoint(st.spin, Mean(st.val))];
    forall u | 0 <= u < t + 1 && s[u].0 < s[t].0 ensures s[u].0 in Is(done') {
      if u < t {
        SortedRows(s, t - 1, u);
        if s[u].0 < st.spin {
          assert s[u].0 in Is(st.done);
          var k :| 0 <= k < |st.done| && Is(st.done)[k] == s[u].0;
          assert Is(done')[k] == s[u].0;
        } else {
          assert Is(done')[|st.done|] == s[u].0;
        }
      }
    }
  }

  /** The loop over the row-sorted pixels, started as the source starts it, from the first pixel. */
  function ScanAll(s: seq<Pixel>): (r: Scanned)
    requires |s| > 0 && ByKey(Row, s)
    ensures ScanInv(s, |s|, r)
  {
    assert s[..1] == [s[0]];
    assert ColsAt([s[0]], s[0].0) == [s[0].1] by {
      assert [s[0]][..0] == [];
    }
    Scan(s, 1, Scanned([], s[0].0, [s[0].1]))
  }

  /**
   ijcurve_to_ijfunction as written: the loop emits a row's mean only when
   the next row starts, so the last row is never emitted.
   */
  function IJFunctionAsWritten(curve: seq<Pixel>): (r: Result<seq<IJPoint>>)
    ensures r.Failure? <==> |curve| == 0
    ensures r.Failure? ==> r.error == EmptyCurve
  {
    if |curve| == 0 then Failure(EmptyCurve)
    else Success(ScanAll(SortByKey(Row, curve)).done)
  }

  /** ijcurve_to_ijfunction as intended: the last row's mean is emitted after the loop too. */
  function IJFunction(curve: seq<Pixel>): (r: Result<seq<IJPoint>>)
    ensures r.Failure? <==> |curve| == 0
    ensures r.Failure? ==> r.error == EmptyCurve
  {
    if |curve| == 0 then Failure(EmptyCurve)
    else
      var st := ScanAll(SortByKey(Row, curve));
      assert |st.val| > 0 by {
        var s := SortByKey(Row, curve);
        ColsAtEmpty(s, st.spin);
        assert s[..|s|] == s;
      }
      Success(st.done + [IJPoint(st.spin, Mean(st.val))])
  }

  /** The lowest row the curve reaches (the largest row index). */
  function LastRow(curve: seq<Pixel>): int
    requires |curve| > 0
  {
    SortByKey(Row, curve)[|curve| - 1].0
  }

  lemma LastRowIsLargest(curve: seq<Pixel>, u: nat)
    requires u < |curve|
    ensures curve[u].0 <= LastRow(curve)
  {
    var s := SortByKey(Row, curve);
    assert curve[u] in multiset(s);
    var v :| 0 <= v < |s| && s[v] == curve[u];
    SortedRows(s, |s| - 1, v);
  }

  /** The scan's final state over the row-sorted curve. */
  function Final(curve: seq<Pixel>): (st: Scanned)
    requires |curve| > 0
    ensures ScanInv(SortByKey(Row, curve), |curve|, st) && |st.val| > 0
  {
    var st := ScanAll(SortByKey(Row, curve));
    ValNonEmpty(SortByKey(Row, curve), |curve|, st);
    st
  }

  lemma IJFunctionFinal(curve: seq<Pixel>)
    requires |curve| > 0
    ensures var st := Final(curve);
      IJFunction(curve).value == st.done + [IJPoint(st.spin, Mean(st.val))] && IJFunctionAsWritten(curve).value == st.done
  {
  }

  /** The intended ij function's rows strictly increase. */
  lemma IJFunctionIncreasing(curve: seq<Pixel>)
    requires |curve| > 0
    ensures Increasing(IJFunction(curve).value)
  {
    IJFunctionFinal(curve);
  }

  /** Appending the current row's mean to the emitted points keeps every point at its row's mean. */
  lemma MeansWithLast(s: seq<Pixel>, st: Scanned, pts: seq<IJPoint>)
    requires RowMeans(s[..|s|], st.done) && |st.val| > 0 && st.val == ColsAt(s[..|s|], st.spin)
    requires pts == st.done + [IJPoint(st.spin, Mean(st.val))]
    ensures RowMeans(s, pts)
  {
    assert s[..|s|] == s;
    forall k | 0 <= k < |pts| ensures |ColsAt(s, pts[k].i)| > 0 && pts[k].j == Mean(ColsAt(s, pts[k].i)) {
      if k < |st.done| {
        assert pts[k] == st.done[k];
      } else {
        assert pts[k] == IJPoint(st.spin, Mean(st.val));
      }
    }
  }

  /** Over the row-sorted curve, each point of the intended ij function is its row's mean. */
  lemma SortedMeans(curve: seq<Pixel>)
    requires |curve| > 0
    ensures RowMeans(SortByKey(Row, curve), IJFunction(curve).value)
  {
    IJFunctionFinal(curve);
    MeansWithLast(SortByKey(Row, curve), Final(curve), IJFunction(curve).value);
  }

  /** Reordering the pixels keeps every row's mean. */
  lemma RowMeansPerm(a: seq<Pixel>, b: seq<Pixel>, pts: seq<IJPoint>)
    requires multiset(a) == multiset(b) && RowMeans(a, pts)
    ensures RowMeans(b, pts)
  {
    forall k | 0 <= k < |pts| ensures |ColsAt(b, pts[k].i)| > 0 && pts[k].j == Mean(ColsAt(b, pts[k].i)) {
      ColsAtPerm(a, b, pts[k].i);
      MeanPerm(ColsAt(a, pts[k].i), ColsAt(b, pts[k].i));
    }
  }

  /** Each point of the intended ij function sits on a row of the curve, at the mean of the curve's columns there. */
  lemma IJFunctionMeans(curve: seq<Pixel>)
    requires |curve| > 0
    ensures RowMeans(curve, IJFunction(curve).value)
  {
    SortedMeans(curve);
    RowMeansPerm(SortByKey(Row, curve), curve, IJFunction(curve).value);
  }

  /** Appending the current row's point to the emitted ones covers every row of the sorted pixels. */
  lemma CoversWithLast(s: seq<Pixel>, st: Scanned, pts: seq<IJPoint>, v: nat)
    requires ByKey(Row, s) && v < |s| && st.spin == s[|s| - 1].0 && ScanCovers(s, |s|, st)
    requires |st.val| > 0 && pts == st.done + [IJPoint(st.spin, Mean(st.val))]
    ensures s[v].0 in Is(pts)
  {
    SortedRows(s, |s| - 1, v);
    if s[v].0 < st.spin {
      assert s[v].0 in Is(st.done);
      var k :| 0 <= k < |st.done| && Is(st.done)[k] == s[v].0;
      assert pts[k] == st.done[k];
      assert Is(pts)[k] == s[v].0;
    } else {
      assert Is(pts)[|st.done|] == s[v].0;
    }
  }

  /** Every row the curve reaches has its point in the intended ij function. */
  lemma IJFunctionCovers(curve: seq<Pixel>, u: nat)
    requires u < |curve|
    ensures curve[u].0 in Is(IJFunction(curve).value)
  {
    var st := Final(curve);
    IJFunctionFinal(curve);
    var s := SortByKey(Row, curve);
    assert curve[u] in multiset(s);
    var v :| 0 <= v < |s| && s[v] == curve[u];
    CoversWithLast(s, st, IJFunction(curve).value, v);
  }

  /**
   The source's result is the intended one without its last point, the
   one for the last row the curve reaches: that row never appears.
   */
  lemma IJFunctionAsWrittenDropsLast(curve: seq<Pixel>)
    requires |curve| > 0
    ensures var w, c := IJFunctionAsWritten(curve).value, IJFunction(curve).value;
      && |c| == |w| + 1 && c[..|w|] == w && c[|w|].i == LastRow(curve)
      && forall k :: 0 <= k < |w| ==> w[k].i < LastRow(curve)
  {
    var st := Final(curve);
    IJFunctionFinal(curve);
    assert (st.done + [IJPoint(st.spin, Mean(st.val))])[..|st.done|] == st.done;
  }

  /** A curve on two rows, one pixel each: the source loses row 1, which the intended function keeps, at column 7. */
  lemma IJFunctionAsWrittenLosesRow()
    ensures 1 !in Is(IJFunctionAsWritten([(0, 5), (1, 7)]).value)
    ensures 1 in Is(IJFunction([(0, 5), (1, 7)]).value)
  {
    var c := [(0, 5), (1, 7)];
    assert ByKey(Row, c);
    SortSorted(Row, c);
    assert LastRow(c) == 1;
    IJFunctionAsWrittenDropsLast(c);
    IJFunctionCovers(c, 1);
  }

  /** A tick as predict_tickvalues reports it: its pixel position on the axis and the value read off its digits. */
  datatype Tick = Tick(pos: int, value: int)

  /** `xy = scale * (ij + shift)` on one axis. */
  datatype AxisMap = AxisMap(scale: real, shift: real)

  function Apply(m: AxisMap, p: real): real {
    m.scale * (p + m.shift)
  }

  /** Two reference points on one axis: pixel positions and their plot values. */
  datatype Refs = Refs(p1: real, v1: real, p2: real, v2: real)

  /**
   The reference points of one axis from its ticks: both ticks when there
   are two; with one tick, the tick and the axes' crossing `cross` at value 0.
   */
  function AxisRefs(ticks: seq<Tick>, cross: int): (r: Result<Refs>)
    requires |ticks| > 0
    ensures r.Failure? <==> |ticks| > 2 || (|ticks| == 1 && ticks[0].pos == 0)
    ensures r.Failure? ==> r.error == (if |ticks| > 2 then TooManyTicks else LoneTickAtZero)
    ensures r.Success? ==> r.value.p1 == ticks[0].pos as real && r.value.v1 == ticks[0].value as real
    ensures r.Success? && |ticks| == 2 ==> r.value.p2 == ticks[1].pos as real && r.value.v2 == ticks[1].value as real
    ensures r.Success? && |ticks| == 1 ==> r.value.p2 == cross as real && r.value.v2 == 0.0
  {
    var t1 := ticks[0];
    if |ticks| == 2 then Success(Refs(t1.pos as real, t1.value as real, ticks[1].pos as real, ticks[1].value as real))
    else if |ticks| > 2 then Failure(TooManyTicks)
    else if t1.pos == 0 then Failure(LoneTickAtZero)
    else Success(Refs(t1.pos as real, t1.value as real, cross as real, 0.0))
  }

  /**
   The scale and shift through two reference points: `scale = (v2 - v1) /
   (p2 - p1)` and `shift = v2 / scale - p2`. Coinciding positions or values
   leave the source dividing by zero.
   */
  function FitAxis(r: Refs): (m: Result<AxisMap>)
    ensures m.Failure? <==> r.p1 == r.p2 || r.v1 == r.v2
    ensures m.Failure? ==> m.error == DegenerateScale
    ensures m.Success? ==> Apply(m.value, r.p1) == r.v1 && Apply(m.value, r.p2) == r.v2
  {
    if r.p1 == r.p2 || r.v1 == r.v2 then Failure(DegenerateScale)
    else
      var scale := (r.v2 - r.v1) / (r.p2 - r.p1);
      FitFacts(r, scale);
      Success(AxisMap(scale, r.v2 / scale - r.p2))
  }

  lemma FitFacts(r: Refs, scale: real)
    requires r.p1 != r.p2 && r.v1 != r.v2 && scale == (r.v2 - r.v1) / (r.p2 - r.p1)
    ensures scale != 0.0
    ensures scale * (r.p2 + (r.v2 / scale - r.p2)) == r.v2
    ensures scale * (r.p1 + (r.v2 / scale - r.p2)) == r.v1
  {
    assert scale * (r.p2 - r.p1) == r.v2 - r.v1;
    assert scale * (r.p1 + (r.v2 / scale - r.p2)) == scale * (r.p1 - r.p2) + r.v2;
  }

  /** An axis whose ticks give two reference points: one or two ticks, a lone tick off pixel 0. */
  predicate HasRefs(ticks: seq<Tick>) {
    1 <= |ticks| <= 2 && (|ticks| == 1 ==> ticks[0].pos != 0)
  }

  /**
   An axis whose ticks fix its scale: two ticks at different positions with
   different values, or a lone tick away from the crossing `cross` whose
   value is not 0.
   */
  predicate AxisFits(ticks: seq<Tick>, cross: int) {
    && HasRefs(ticks)
    && (|ticks| == 2 ==> ticks[0].pos != ticks[1].pos && ticks[0].value != ticks[1].value)
    && (|ticks| == 1 ==> ticks[0].pos != cross && ticks[0].value != 0)
  }

  /** The references of an axis are usable exactly when its ticks fit it. */
  lemma AxisFitsRefs(ticks: seq<Tick>, cross: int)
    requires HasRefs(ticks)
    ensures AxisRefs(ticks, cross).Success? && (FitAxis(AxisRefs(ticks, cross).value).Success? <==> AxisFits(ticks, cross))
  {
  }

  /** The scale and shift of both axes. */
  datatype ScaleShift = ScaleShift(x: AxisMap, y: AxisMap)

  /**
   get_scaleandshift_ijtoxy. `axes` is the pair detect_axes returns: the
   column the I axis runs along and the row the J axis runs along, so the
   axes cross at pixel `(axes.1, axes.0)`.
   */
  function ScaleAndShift(ixticks: seq<Tick>, jyticks: seq<Tick>, axes: (int, int)): (r: Result<ScaleShift>)
    ensures |ixticks| == 0 ==> r == Failure(NoTicksOnIAxis)
    ensures |ixticks| > 0 && |jyticks| == 0 ==> r == Failure(NoTicksOnJAxis)
    ensures |ixticks| > 2 && |jyticks| > 0 ==> r == Failure(TooManyTicks)
    ensures |ixticks| == 1 && ixticks[0].pos == 0 && |jyticks| > 0 ==> r == Failure(LoneTickAtZero)
    ensures HasRefs(ixticks) && |jyticks| > 2 ==> r == Failure(TooManyTicks)
    ensures HasRefs(ixticks) && |jyticks| == 1 && jyticks[0].pos == 0 ==> r == Failure(LoneTickAtZero)
    ensures HasRefs(ixticks) && HasRefs(jyticks) && !(AxisFits(ixticks, axes.1) && AxisFits(jyticks, axes.0)) ==> r == Failure(DegenerateScale)
    ensures r.Success? <==> AxisFits(ixticks, axes.1) && AxisFits(jyticks, axes.0)
    ensures r.Success? ==> 1 <= |ixticks| <= 2 && 1 <= |jyticks| <= 2
    ensures r.Success? ==> Apply(r.value.x, ixticks[0].pos as real) == ixticks[0].value as real
    ensures r.Success? ==> Apply(r.value.y, jyticks[0].pos as real) == jyticks[0].value as real
    ensures r.Success? && |ixticks| == 2 ==> Apply(r.value.x, ixticks[1].pos as real) == ixticks[1].value as real
    ensures r.Success? && |jyticks| == 2 ==> Apply(r.value.y, jyticks[1].pos as real) == jyticks[1].value as real
    ensures r.Success? && |ixticks| == 1 ==> Apply(r.value.x, axes.1 as real) == 0.0
    ensures r.Success? && |jyticks| == 1 ==> Apply(r.value.y, axes.0 as real) == 0.0
  {
    if |ixticks| == 0 then Failure(NoTicksOnIAxis)
    else if |jyticks| == 0 then Failure(NoTicksOnJAxis)
    else
      var ri :- AxisRefs(ixticks, axes.1);
      var rj :- AxisRefs(jyticks, axes.0);
      AxisFitsRefs(ixticks, axes.1);
      AxisFitsRefs(jyticks, axes.0);
      var mx :- FitAxis(ri);
      var my :- FitAxis(rj);
      Success(ScaleShift(mx, my))
  }

  /** One ij point in plot coordinates. */
  function ToXY(ss: ScaleShift, p: IJPoint): XYPoint {
    XYPoint(Apply(ss.x, p.i as real), Apply(ss.y, p.j))
  }

  /**
   get_xyfunc as written: the source's ij function of the curve, which has
   no point for the curve's last row, mapped through the ticks' scale and
   shift.
   */
  function XYFunctionAsWritten(curve: seq<Pixel>, ixticks: seq<Tick>, jyticks: seq<Tick>, axes: (int, int)): (r: Result<seq<XYPoint>>)
    ensures |curve| == 0 ==> r == Failure(EmptyCurve)
    ensures |curve| > 0 ==> (r.Success? <==> ScaleAndShift(ixticks, jyticks, axes).Success?)
    ensures r.Success? ==> |r.value| == |IJFunctionAsWritten(curve).value|
    ensures r.Success? ==> forall k :: 0 <= k < |r.value| ==>
      r.value[k] == ToXY(ScaleAndShift(ixticks, jyticks, axes).value, IJFunctionAsWritten(curve).value[k])
  {
    var pts :- IJFunctionAsWritten(curve);
    var ss :- ScaleAndShift(ixticks, jyticks, axes);
    Success(seq(|pts|, k requires 0 <= k < |pts| => ToXY(ss, pts[k])))
  }

  /** get_xyfunc with the intended ij function, which has a point for every row of the curve. */
  function XYFunction(curve: seq<Pixel>, ixticks: seq<Tick>, jyticks: seq<Tick>, axes: (int, int)): (r: Result<seq<XYPoint>>)
    ensures |curve| == 0 ==> r == Failure(EmptyCurve)
    ensures |curve| > 0 ==> (r.Success? <==> ScaleAndShift(ixticks, jyticks, axes).Success?)
    ensures r.Success? ==> |r.value| == |IJFunction(curve).value|
    ensures r.Success? ==> forall k :: 0 <= k < |r.value| ==>
      r.value[k] == ToXY(ScaleAndShift(ixticks, jyticks, axes).value, IJFunction(curve).value[k])
  {
    var pts :- IJFunction(curve);
    var ss :- ScaleAndShift(ixticks, jyticks, axes);
    Success(seq(|pts|, k requires 0 <= k < |pts| => ToXY(ss, pts[k])))
  }

  /** Plot x grows with the row when the x scale is positive and shrinks when it is negative. */
  lemma ApplyMonotone(m: AxisMap, a: real, b: real)
    requires a < b
    ensures m.scale > 0.0 ==> Apply(m, a) < Apply(m, b)
    ensures m.scale < 0.0 ==> Apply(m, a) > Apply(m, b)
  {
    assert Apply(m, b) - Apply(m, a) == m.scale * (b - a);
  }

  /** The map of an axis is undone by dividing by the scale and subtracting the shift. */
  lemma ApplyInverse(m: AxisMap, p: real)
    requires m.scale != 0.0
    ensures Apply(m, p) / m.scale - m.shift == p
  {
  }

  /**
   The plotted function is a function of x: its x values strictly increase
   along the result when the I axis scale is positive, and strictly
   decrease when it is negative.
   */
  lemma XYFunctionMonotone(curve: seq<Pixel>, ixticks: seq<Tick>, jyticks: seq<Tick>, axes: (int, int), k: nat, l: nat)
    requires XYFunction(curve, ixticks, jyticks, axes).Success?
    requires k < l < |XYFunction(curve, ixticks, jyticks, axes).value|
    ensures var r, ss := XYFunction(curve, ixticks, jyticks, axes).value, ScaleAndShift(ixticks, jyticks, axes).value;
      && (ss.x.scale > 0.0 ==> r[k].x < r[l].x)
      && (ss.x.scale < 0.0 ==> r[k].x > r[l].x)
  {
    var pts := IJFunction(curve).value;
    IJFunctionIncreasing(curve);
    var ss := ScaleAndShift(ixticks, jyticks, axes).value;
    ApplyMonotone(ss.x, pts[k].i as real, pts[l].i as real);
  }

  /**
   The source's plotted function is the intended one without its last
   sample, the one for the lowest row of the curve.
   */
  lemma XYFunctionAsWrittenDropsLast(curve: seq<Pixel>, ixticks: seq<Tick>, jyticks: seq<Tick>, axes: (int, int))
    requires |curve| > 0 && ScaleAndShift(ixticks, jyticks, axes).Success?
    ensures XYFunctionAsWritten(curve, ixticks, jyticks, axes).Success? && XYFunction(curve, ixticks, jyticks, axes).Success?
    ensures var w, c := XYFunctionAsWritten(curve, ixticks, jyticks, axes).value, XYFunction(curve, ixticks, jyticks, axes).value;
      |c| == |w| + 1 && w == c[..|w|]
    ensures var ss, c := ScaleAndShift(ixticks, jyticks, axes).value, XYFunction(curve, ixticks, jyticks, axes).value;
      c[|c| - 1].x == Apply(ss.x, LastRow(curve) as real)
  {
    IJFunctionAsWrittenDropsLast(curve);
    var w, c := XYFunctionAsWritten(curve, ixticks, jyticks, axes).value, XYFunction(curve, ixticks, jyticks, axes).value;
    assert forall k :: 0 <= k < |w| ==> w[k] == c[k];
  }

  /** Being a prefix of the intended samples, the source's samples are monotone in x too. */
  lemma XYFunctionAsWrittenMonotone(curve: seq<Pixel>, ixticks: seq<Tick>, jyticks: seq<Tick>, axes: (int, int), k: nat, l: nat)
    requires XYFunctionAsWritten(curve, ixticks, jyticks, axes).Success?
    requires k < l < |XYFunctionAsWritten(curve, ixticks, jyticks, axes).value|
    ensures var r, ss := XYFunctionAsWritten(curve, ixticks, jyticks, axes).value, ScaleAndShift(ixticks, jyticks, axes).value;
      && (ss.x.scale > 0.0 ==> r[k].x < r[l].x)
      && (ss.x.scale < 0.0 ==> r[k].x > r[l].x)
  {
    XYFunctionAsWrittenDropsLast(curve, ixticks, jyticks, axes);
    var w := XYFunctionAsWritten(curve, ixticks, jyticks, axes).value;
    XYFunctionMonotone(curve, ixticks, jyticks, axes, k, l);
    assert w[k] == XYFunction(curve, ixticks, jyticks, axes).value[k];
    assert w[l] == XYFunction(curve, ixticks, jyticks, axes).value[l];
  }
}
