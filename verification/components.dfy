/**
 Repeated fills (pic2func/detect.py: remove_ticks, the harvesting loop of
 get_tickvals, get_IJcurve).

 remove_ticks fills from every tick in turn; the harvesting loop fills
 from the first set pixel in row-major order until nothing is left. The
 facts proved here say what those loops remove and return in terms of the
 ORIGINAL mask, although each fill runs on the mask its predecessors left.
 */
module Components {
  import opened Base
  import opened FloodFill

  lemma ReachedIsOn(g: Mask, a: Pixel, b: Pixel)
    requires Reaches(g, a, b) && a != b
    ensures On(g, b)
  {
  }

  lemma ReachesTrans(g: Mask, a: Pixel, b: Pixel, c: Pixel)
    requires Reaches(g, a, b) && Reaches(g, b, c)
    ensures Reaches(g, a, c)
  {
    var u :| IsWalk(g, u) && u[0] == a && u[|u| - 1] == b;
    var v :| IsWalk(g, v) && v[0] == b && v[|v| - 1] == c;
    var w := u + v[1..];
    assert IsWalk(g, w) by {
      forall i | 1 <= i < |w| ensures On(g, w[i]) && Adjacent(w[i - 1], w[i]) {
        if i >= |u| {
          assert w[i] == v[i - |u| + 1];
          assert w[i - 1] == v[i - |u|];
        }
      }
    }
    assert w[|w| - 1] == c;
  }

  lemma ReachesReverse(g: Mask, a: Pixel, b: Pixel)
    requires On(g, a) && Reaches(g, a, b)
    ensures Reaches(g, b, a)
  {
    var w :| IsWalk(g, w) && w[0] == a && w[|w| - 1] == b;
    var r := seq(|w|, i requires 0 <= i < |w| => w[|w| - 1 - i]);
    assert IsWalk(g, r) by {
      forall i | 1 <= i < |r| ensures On(g, r[i]) && Adjacent(r[i - 1], r[i]) {
        assert r[i] == w[|w| - 1 - i] && r[i - 1] == w[|w| - i];
      }
    }
  }

  /** The implication form of ReachesStep, usable as a contrapositive. */
  lemma ReachesForward(g: Mask, s: Pixel, b: Pixel, c: Pixel)
    requires Adjacent(b, c) && On(g, c)
    ensures Reaches(g, s, b) ==> Reaches(g, s, c)
  {
    if Reaches(g, s, b) {
      ReachesStep(g, s, b, c);
    }
  }

  /**
   After the fill from `s0` has cleared its pixels, a walk ending outside
   that fill still runs through set pixels only.
   */
  lemma {:induction false} WalkAvoidsFill(g: Mask, g1: Mask, s0: Pixel, w: seq<Pixel>)
    requires forall x :: On(g1, x) <==> On(g, x) && !Reaches(g, s0, x)
    requires IsWalk(g, w) && !Reaches(g, s0, w[|w| - 1])
    ensures IsWalk(g1, w)
    decreases |w|
  {
    if |w| > 1 {
      var v := w[..|w| - 1];
      assert IsWalk(g, v);
      ReachesForward(g, s0, w[|w| - 2], w[|w| - 1]);
      WalkAvoidsFill(g, g1, s0, v);
    }
  }

  /** Reachability to pixels outside the fill from `s0` survives that fill. */
  lemma ReachesAfterFill(g: Mask, g1: Mask, s0: Pixel, s: Pixel, q: Pixel)
    requires forall x :: On(g1, x) <==> On(g, x) && !Reaches(g, s0, x)
    requires !Reaches(g, s0, q)
    ensures Reaches(g1, s, q) <==> Reaches(g, s, q)
  {
    if Reaches(g, s, q) {
      var w :| IsWalk(g, w) && w[0] == s && w[|w| - 1] == q;
      WalkAvoidsFill(g, g1, s0, w);
    }
    if Reaches(g1, s, q) {
      ReachesShrinks(g, g1, s, q);
    }
  }

  /** What a completed fill from `seed` removes, stated as the reachable set. */
  lemma FillClears(g: Mask, seed: Pixel, g1: Mask, ids: seq<Pixel>)
    requires FillDone(g, seed, g1, ids)
    ensures forall x :: On(g1, x) <==> On(g, x) && !Reaches(g, seed, x)
  {
  }

  /** `q` is reachable from one of the seeds. */
  ghost predicate Swept(g: Mask, seeds: seq<Pixel>, q: Pixel) {
    exists k :: 0 <= k < |seeds| && Reaches(g, seeds[k], q)
  }

  /** The seeds of remove_ticks: `(tick, Iaxis)` for every I-tick, then `(Jaxis, tick)` for every J-tick. */
  function TickSeeds(axes: (int, int), iticks: seq<int>, jticks: seq<int>): (seeds: seq<Pixel>)
    ensures |seeds| == |iticks| + |jticks|
    ensures forall k :: 0 <= k < |iticks| ==> seeds[k] == (iticks[k], axes.0)
    ensures forall k :: 0 <= k < |jticks| ==> seeds[|iticks| + k] == (axes.1, jticks[k])
  {
    seq(|iticks|, k requires 0 <= k < |iticks| => (iticks[k], axes.0))
      + seq(|jticks|, k requires 0 <= k < |jticks| => (axes.1, jticks[k]))
  }

  /**
   Fill `k` of a run of fills from `seeds` over `g` records `q`: `q` is its
   seed, or its seed reaches `q` and no earlier seed does (an earlier fill
   cleared everything its seed reaches).
   */
  ghost predicate FilledBy(g: Mask, seeds: seq<Pixel>, k: nat, q: Pixel)
    requires k < |seeds|
  {
    q == seeds[k] || (Reaches(g, seeds[k], q) && forall j :: 0 <= j < k ==> !Reaches(g, seeds[j], q))
  }

  /** The records of a run of fills: record `k` starts at seed `k` and holds, once each, exactly what fill `k` recorded. */
  ghost predicate RecordsSpec(g: Mask, seeds: seq<Pixel>, recs: seq<seq<Pixel>>) {
    && |recs| == |seeds|
    && (forall k :: 0 <= k < |seeds| ==> |recs[k]| > 0 && recs[k][0] == seeds[k] && NoDups(recs[k]))
    && (forall k, q :: 0 <= k < |seeds| ==> (q in recs[k] <==> FilledBy(g, seeds, k, q)))
  }

  /**
   Fills from every seed in turn, each on the mask the previous fills
   left. Every pixel reachable in the original mask from some seed is
   cleared and nothing else is; the records are as RecordsSpec says.
   */
  ghost predicate FillAllSpec(g: Mask, seeds: seq<Pixel>, r: (Mask, seq<seq<Pixel>>)) {
    && SameShape(g, r.0)
    && RecordsSpec(g, seeds, r.1)
    && (forall q :: On(r.0, q) <==> On(g, q) && !Swept(g, seeds, q))
  }

  function FillAll(g: Mask, seeds: seq<Pixel>): (r: (Mask, seq<seq<Pixel>>))
    requires ZeroBorder(g) && AllInterior(g, seeds)
    ensures ZeroBorder(r.0) && FillAllSpec(g, seeds, r)
    decreases |seeds|
  {
    if |seeds| == 0 then (g, [])
    else
      var (g1, ids) := Fill(g, seeds[0]);
      InteriorAfter(g, g1, seeds);
      var (g2, rest) := FillAll(g1, seeds[1..]);
      FillAllStep(g, seeds, g1, ids, g2, rest);
      (g2, [ids] + rest)
  }

  /** Seeds inside the picture stay inside it after a fill, which keeps its shape. */
  lemma InteriorAfter(g: Mask, g1: Mask, seeds: seq<Pixel>)
    requires |seeds| > 0 && SameShape(g, g1) && AllInterior(g, seeds)
    ensures AllInterior(g1, seeds[1..])
  {
  }

  lemma FillAllStep(g: Mask, seeds: seq<Pixel>, g1: Mask, ids: seq<Pixel>, g2: Mask, rest: seq<seq<Pixel>>)
    requires |seeds| > 0 && FillDone(g, seeds[0], g1, ids)
    requires FillAllSpec(g1, seeds[1..], (g2, rest))
    ensures FillAllSpec(g, seeds, (g2, [ids] + rest))
  {
    RecordsStep(g, seeds, g1, ids, rest);
    ClearedStep(g, seeds, g1, ids, g2);
  }

  /** The pixels the later fills clear, seen from the original mask. */
  lemma ClearedStep(g: Mask, seeds: seq<Pixel>, g1: Mask, ids: seq<Pixel>, g2: Mask)
    requires |seeds| > 0 && FillDone(g, seeds[0], g1, ids)
    requires forall q :: On(g2, q) <==> On(g1, q) && !Swept(g1, seeds[1..], q)
    ensures forall q :: On(g2, q) <==> On(g, q) && !Swept(g, seeds, q)
  {
    FillClears(g, seeds[0], g1, ids);
    forall q ensures On(g2, q) <==> On(g, q) && !Swept(g, seeds, q) {
      if On(g, q) && !Reaches(g, seeds[0], q) {
        forall k | 1 <= k < |seeds| ensures Reaches(g1, seeds[k], q) <==> Reaches(g, seeds[k], q) {
          ReachesAfterFill(g, g1, seeds[0], seeds[k], q);
        }
        assert Swept(g1, seeds[1..], q) <==> Swept(g, seeds, q) by {
          if Swept(g, seeds, q) {
            var k :| 0 <= k < |seeds| && Reaches(g, seeds[k], q);
            assert seeds[1..][k - 1] == seeds[k];
          }
          if Swept(g1, seeds[1..], q) {
            var k :| 0 <= k < |seeds| - 1 && Reaches(g1, seeds[1..][k], q);
            assert Reaches(g, seeds[k + 1], q);
          }
        }
      } else if On(g, q) {
        assert Swept(g, seeds, q);
      }
    }
  }

  /** The first fill's record, then the later fills' records seen from the original mask. */
  lemma RecordsStep(g: Mask, seeds: seq<Pixel>, g1: Mask, ids: seq<Pixel>, rest: seq<seq<Pixel>>)
    requires |seeds| > 0 && FillDone(g, seeds[0], g1, ids)
    requires RecordsSpec(g1, seeds[1..], rest)
    ensures RecordsSpec(g, seeds, [ids] + rest)
  {
    var recs := [ids] + rest;
    FillClears(g, seeds[0], g1, ids);
    forall k | 0 <= k < |seeds| ensures |recs[k]| > 0 && recs[k][0] == seeds[k] && NoDups(recs[k]) {
      if k > 0 {
        assert recs[k] == rest[k - 1] && seeds[1..][k - 1] == seeds[k];
      }
    }
    forall k, q | 0 <= k < |seeds| ensures q in recs[k] <==> FilledBy(g, seeds, k, q) {
      if k == 0 {
        ReachesSelf(g, seeds[0]);
      } else {
        assert recs[k] == rest[k - 1];
        assert q in rest[k - 1] <==> FilledBy(g1, seeds[1..], k - 1, q);
        FilledAfter(g, seeds, g1, k, q);
      }
    }
  }

  /** What fill `k > 0` records on the mask the first fill left is what it records seen from the original mask. */
  lemma FilledAfter(g: Mask, seeds: seq<Pixel>, g1: Mask, k: nat, q: Pixel)
    requires 0 < k < |seeds|
    requires forall x :: On(g1, x) <==> On(g, x) && !Reaches(g, seeds[0], x)
    ensures FilledBy(g1, seeds[1..], k - 1, q) <==> FilledBy(g, seeds, k, q)
  {
    assert seeds[1..][k - 1] == seeds[k];
    if q != seeds[k] {
      if Reaches(g, seeds[0], q) {
        if Reaches(g1, seeds[k], q) {
          ReachedIsOn(g1, seeds[k], q);
        }
      } else {
        forall j | 0 <= j < |seeds| ensures Reaches(g1, seeds[j], q) <==> Reaches(g, seeds[j], q) {
          ReachesAfterFill(g, g1, seeds[0], seeds[j], q);
        }
        forall j | 0 <= j < k - 1 ensures seeds[1..][j] == seeds[j + 1] {
        }
        assert (forall j :: 0 <= j < k - 1 ==> !Reaches(g1, seeds[1..][j], q)) <==> (forall j :: 0 <= j < k ==> !Reaches(g, seeds[j], q));
      }
    }
  }

  /**
   remove_ticks(pic, axes, Iticks, Jticks): the tick fills in source order.
   Every green pixel connected to a tick seed disappears, nothing else does.
   Record `k` is tick `k`'s object: its seed first, then every pixel the
   seed reaches that no earlier tick's seed reaches, each once.
   */
  function RemoveTicks(g: Mask, axes: (int, int), iticks: seq<int>, jticks: seq<int>): (r: (Mask, seq<seq<Pixel>>))
    requires ZeroBorder(g) && AllInterior(g, TickSeeds(axes, iticks, jticks))
    ensures ZeroBorder(r.0)
    ensures |r.1| == |iticks| + |jticks|
    ensures forall k :: 0 <= k < |iticks| ==> |r.1[k]| > 0 && r.1[k][0] == (iticks[k], axes.0)
    ensures forall k :: 0 <= k < |jticks| ==> |r.1[|iticks| + k]| > 0 && r.1[|iticks| + k][0] == (axes.1, jticks[k])
    ensures forall k :: 0 <= k < |r.1| ==> NoDups(r.1[k])
    ensures forall k, q :: 0 <= k < |r.1| ==> (q in r.1[k] <==> FilledBy(g, TickSeeds(axes, iticks, jticks), k, q))
    ensures forall q :: On(r.0, q) <==> On(g, q) && !Swept(g, TickSeeds(axes, iticks, jticks), q)
  {
    var seeds := TickSeeds(axes, iticks, jticks);
    var r := FillAll(g, seeds);
    forall k | 0 <= k < |jticks| ensures r.1[|iticks| + k][0] == (axes.1, jticks[k]) {
      assert r.1[|iticks| + k][0] == seeds[|iticks| + k];
    }
    r
  }

  /** Row-major order, the order in which `np.where` lists the pixels of a 2-D array. */
  predicate RowMajorLe(p: Pixel, q: Pixel) {
    p.0 < q.0 || (p.0 == q.0 && p.1 <= q.1)
  }

  predicate RowMajorLt(p: Pixel, q: Pixel) {
    RowMajorLe(p, q) && p != q
  }

  /** The first `j >= from` with `row[j] == 1`. */
  function FirstInRow(row: seq<Bit>, from: nat): (r: Option<nat>)
    ensures r.None? ==> forall j :: from <= j < |row| ==> row[j] == 0
    ensures r.Some? ==> from <= r.value < |row| && row[r.value] == 1 && forall j :: from <= j < r.value ==> row[j] == 0
    decreases |row| - from
  {
    if from >= |row| then None
    else if row[from] == 1 then Some(from)
    else FirstInRow(row, from + 1)
  }

  /** The first set pixel in rows `i` onward, in row-major order. */
  function FirstOnFrom(g: Mask, i: nat): (r: Option<Pixel>)
    ensures r.None? ==> forall q :: On(g, q) ==> q.0 < i
    ensures r.Some? ==> On(g, r.value) && i <= r.value.0 && forall q :: On(g, q) && i <= q.0 ==> RowMajorLe(r.value, q)
    decreases |g| - i
  {
    if i >= |g| then None
    else match FirstInRow(g[i], 0)
      case Some(j) => Some((i, j))
      case None => FirstOnFrom(g, i + 1)
  }

  /** `(ones_left[0][0], ones_left[1][0])`: the row-major first set pixel, if any. */
  function FirstOn(g: Mask): (r: Option<Pixel>)
    ensures r.None? <==> forall q :: !On(g, q)
    ensures r.Some? ==> On(g, r.value) && forall q :: On(g, q) ==> RowMajorLe(r.value, q)
  {
    FirstOnFrom(g, 0)
  }

  /** Each component is non-empty, duplicate-free and starts on a set pixel. */
  ghost predicate CompsNonEmpty(g: Mask, comps: seq<seq<Pixel>>) {
    forall k :: 0 <= k < |comps| ==> |comps[k]| > 0 && On(g, comps[k][0]) && NoDups(comps[k])
  }

  /** Each component is exactly the set its first pixel reaches. */
  ghost predicate CompsAreReach(g: Mask, comps: seq<seq<Pixel>>) {
    forall k, q :: 0 <= k < |comps| && |comps[k]| > 0 ==> (q in comps[k] <==> Reaches(g, comps[k][0], q))
  }

  /** Together the components hold exactly the set pixels. */
  ghost predicate CompsCover(g: Mask, comps: seq<seq<Pixel>>) {
    forall q :: On(g, q) <==> exists k :: 0 <= k < |comps| && q in comps[k]
  }

  /** Each component starts at its row-major least pixel, and the starts strictly increase. */
  ghost predicate CompsOrdered(comps: seq<seq<Pixel>>) {
    && (forall k, q :: 0 <= k < |comps| && |comps[k]| > 0 && q in comps[k] ==> RowMajorLe(comps[k][0], q))
    && (forall m, n :: 0 <= m < n < |comps| && |comps[m]| > 0 && |comps[n]| > 0 ==> RowMajorLt(comps[m][0], comps[n][0]))
  }

  /** No pixel lies in two components. */
  ghost predicate CompsDisjoint(comps: seq<seq<Pixel>>) {
    forall m, n, q :: 0 <= m < n < |comps| && q in comps[m] ==> q !in comps[n]
  }

  /**
   The harvest is the list of 8-connected components of the mask: each is
   non-empty, duplicate-free and exactly the set its first pixel reaches;
   its first pixel is its row-major least one; the components are listed
   in row-major order of their first pixels, are pairwise disjoint and
   together cover every set pixel.
   */
  ghost predicate IsComponentList(g: Mask, comps: seq<seq<Pixel>>) {
    CompsNonEmpty(g, comps) && CompsAreReach(g, comps) && CompsCover(g, comps) && CompsOrdered(comps) && CompsDisjoint(comps)
  }

  /**
   The harvesting loop of get_tickvals: while a set pixel is left, fill
   from the row-major first one and record what the fill removed.
   */
  function Harvest(g: Mask): (comps: seq<seq<Pixel>>)
    requires ZeroBorder(g)
    ensures IsComponentList(g, comps)
    decreases |Ones(g)|
  {
    match FirstOn(g)
    case None => []
    case Some(s) =>
      OnIsInterior(g, s);
      var (g1, c) := GrowAndRemoveNumber(g, s);
      assert Ones(g1) < Ones(g) by {
        assert s in Ones(g) && s !in Ones(g1);
      }
      ProperSubsetCard(Ones(g1), Ones(g));
      var rest := Harvest(g1);
      HarvestStep(g, s, g1, c, rest);
      [c] + rest
  }

  lemma HarvestStep(g: Mask, s: Pixel, g1: Mask, c: seq<Pixel>, rest: seq<seq<Pixel>>)
    requires FirstOn(g) == Some(s) && FillDone(g, s, g1, c)
    requires IsComponentList(g1, rest)
    ensures IsComponentList(g, [c] + rest)
  {
    HarvestNonEmpty(g, s, g1, c, rest);
    HarvestAreReach(g, s, g1, c, rest);
    HarvestCover(g, s, g1, c, rest);
    HarvestOrdered(g, s, g1, c, rest);
    HarvestDisjoint(g, s, g1, c, rest);
  }

  lemma HarvestNonEmpty(g: Mask, s: Pixel, g1: Mask, c: seq<Pixel>, rest: seq<seq<Pixel>>)
    requires FirstOn(g) == Some(s) && FillDone(g, s, g1, c)
    requires IsComponentList(g1, rest)
    ensures CompsNonEmpty(g, [c] + rest)
  {
    FillClears(g, s, g1, c);
    StepNonEmpty(g, g1, c, rest);
  }

  lemma HarvestAreReach(g: Mask, s: Pixel, g1: Mask, c: seq<Pixel>, rest: seq<seq<Pixel>>)
    requires FirstOn(g) == Some(s) && FillDone(g, s, g1, c)
    requires IsComponentList(g1, rest)
    ensures CompsAreReach(g, [c] + rest)
  {
    FillClears(g, s, g1, c);
    StepReach(g, s, g1, rest);
    StepAreReach(g, c, rest);
  }

  lemma HarvestCover(g: Mask, s: Pixel, g1: Mask, c: seq<Pixel>, rest: seq<seq<Pixel>>)
    requires FirstOn(g) == Some(s) && FillDone(g, s, g1, c)
    requires IsComponentList(g1, rest)
    ensures CompsCover(g, [c] + rest)
  {
    FillClears(g, s, g1, c);
    ComponentIsOn(g, s, c);
    StepCover(g, s, g1, c, rest);
  }

  lemma HarvestOrdered(g: Mask, s: Pixel, g1: Mask, c: seq<Pixel>, rest: seq<seq<Pixel>>)
    requires FirstOn(g) == Some(s) && FillDone(g, s, g1, c)
    requires IsComponentList(g1, rest)
    ensures CompsOrdered([c] + rest)
  {
    FillClears(g, s, g1, c);
    ComponentIsOn(g, s, c);
    StepOrdered(g, g1, c, rest);
  }

  lemma HarvestDisjoint(g: Mask, s: Pixel, g1: Mask, c: seq<Pixel>, rest: seq<seq<Pixel>>)
    requires FirstOn(g) == Some(s) && FillDone(g, s, g1, c)
    requires IsComponentList(g1, rest)
    ensures CompsDisjoint([c] + rest)
  {
    StepDisjoint(g1, c, rest);
  }

  lemma ComponentIsOn(g: Mask, s: Pixel, c: seq<Pixel>)
    requires On(g, s) && forall q :: q in c ==> Reaches(g, s, q)
    ensures forall q :: q in c ==> On(g, q)
  {
    forall q | q in c ensures On(g, q) {
      if q != s {
        ReachedIsOn(g, s, q);
      }
    }
  }

  lemma StepNonEmpty(g: Mask, g1: Mask, c: seq<Pixel>, rest: seq<seq<Pixel>>)
    requires |c| > 0 && On(g, c[0]) && NoDups(c)
    requires forall x :: On(g1, x) ==> On(g, x)
    requires CompsNonEmpty(g1, rest)
    ensures CompsNonEmpty(g, [c] + rest)
  {
    assert forall k :: 1 <= k < |rest| + 1 ==> ([c] + rest)[k] == rest[k - 1];
  }

  /** A later component, a component of the cleared mask, is still one of the original mask. */
  lemma StepReach(g: Mask, s: Pixel, g1: Mask, rest: seq<seq<Pixel>>)
    requires forall x :: On(g1, x) <==> On(g, x) && !Reaches(g, s, x)
    requires CompsNonEmpty(g1, rest) && CompsAreReach(g1, rest)
    ensures forall k, q :: 0 <= k < |rest| ==> (q in rest[k] <==> Reaches(g, rest[k][0], q))
  {
    forall k, q | 0 <= k < |rest| ensures q in rest[k] <==> Reaches(g, rest[k][0], q) {
      var x := rest[k][0];
      ReachesShrinksIf(g, g1, x, q);
      if Reaches(g, x, q) {
        ReachesBack(g, s, x, q);
        ReachesAfterFill(g, g1, s, x, q);
      }
    }
  }

  lemma StepAreReach(g: Mask, c: seq<Pixel>, rest: seq<seq<Pixel>>)
    requires |c| > 0 && forall q :: q in c <==> Reaches(g, c[0], q)
    requires forall k :: 0 <= k < |rest| ==> |rest[k]| > 0
    requires forall k, q :: 0 <= k < |rest| ==> (q in rest[k] <==> Reaches(g, rest[k][0], q))
    ensures CompsAreReach(g, [c] + rest)
  {
    forall k, q | 0 <= k < |rest| + 1 ensures q in ([c] + rest)[k] <==> Reaches(g, ([c] + rest)[k][0], q) {
      if k > 0 {
        assert ([c] + rest)[k] == rest[k - 1];
      }
    }
  }

  lemma StepCover(g: Mask, s: Pixel, g1: Mask, c: seq<Pixel>, rest: seq<seq<Pixel>>)
    requires forall q :: q in c <==> Reaches(g, s, q)
    requires forall q :: q in c ==> On(g, q)
    requires forall x :: On(g1, x) <==> On(g, x) && !Reaches(g, s, x)
    requires CompsCover(g1, rest)
    ensures CompsCover(g, [c] + rest)
  {
    var comps := [c] + rest;
    forall q ensures On(g, q) <==> exists k :: 0 <= k < |comps| && q in comps[k] {
      if On(g, q) {
        if Reaches(g, s, q) {
          assert q in comps[0];
        } else {
          var k :| 0 <= k < |rest| && q in rest[k];
          assert q in comps[k + 1];
        }
      }
      if exists k :: 0 <= k < |comps| && q in comps[k] {
        var k :| 0 <= k < |comps| && q in comps[k];
        if k > 0 {
          assert q in rest[k - 1];
        }
      }
    }
  }

  lemma StepOrdered(g: Mask, g1: Mask, c: seq<Pixel>, rest: seq<seq<Pixel>>)
    requires |c| > 0 && forall q :: On(g, q) ==> RowMajorLe(c[0], q)
    requires forall q :: q in c ==> On(g, q)
    requires forall x :: On(g1, x) ==> On(g, x) && x != c[0]
    requires CompsNonEmpty(g1, rest) && CompsOrdered(rest)
    ensures CompsOrdered([c] + rest)
  {
    var comps := [c] + rest;
    forall k, q | 0 <= k < |comps| && |comps[k]| > 0 && q in comps[k] ensures RowMajorLe(comps[k][0], q) {
      if k > 0 {
        assert comps[k] == rest[k - 1];
      }
    }
    forall m, n | 0 <= m < n < |comps| && |comps[m]| > 0 && |comps[n]| > 0 ensures RowMajorLt(comps[m][0], comps[n][0]) {
      assert comps[n] == rest[n - 1];
      if m > 0 {
        assert comps[m] == rest[m - 1];
      } else {
        assert On(g1, rest[n - 1][0]);
      }
    }
  }

  lemma StepDisjoint(g1: Mask, c: seq<Pixel>, rest: seq<seq<Pixel>>)
    requires forall q :: q in c ==> !On(g1, q)
    requires CompsCover(g1, rest) && CompsDisjoint(rest)
    ensures CompsDisjoint([c] + rest)
  {
    var comps := [c] + rest;
    assert forall j, q :: 0 <= j < |rest| && q in rest[j] ==> On(g1, q);
    forall m, n, q | 0 <= m < n < |comps| && q in comps[m] ensures q !in comps[n] {
      assert comps[n] == rest[n - 1];
      if m > 0 {
        assert comps[m] == rest[m - 1];
      }
    }
  }


  /** Reachability in the cleared mask implies reachability in the original. */
  lemma ReachesShrinksIf(g: Mask, g1: Mask, a: Pixel, b: Pixel)
    requires forall q :: On(g1, q) ==> On(g, q)
    ensures Reaches(g1, a, b) ==> Reaches(g, a, b)
  {
    if Reaches(g1, a, b) {
      ReachesShrinks(g, g1, a, b);
    }
  }

  /** If `x` is set and both `x` and `s` reach `q`, then `s` reaches `x`. */
  lemma ReachesBack(g: Mask, s: Pixel, x: Pixel, q: Pixel)
    requires On(g, x) && Reaches(g, x, q)
    ensures Reaches(g, s, q) ==> Reaches(g, s, x)
  {
    if Reaches(g, s, q) {
      ReachesReverse(g, x, q);
      ReachesTrans(g, s, q, x);
    }
  }

  /** The set pixels of one row, left to right, from column `from` on. */
  function RowPoints(g: Mask, i: nat, from: nat): (pts: seq<Pixel>)
    requires i < |g|
    ensures forall q :: q in pts <==> On(g, q) && q.0 == i && from <= q.1
    ensures forall m, n :: 0 <= m < n < |pts| ==> pts[m].0 == i && pts[m].1 < pts[n].1
    ensures forall m :: 0 <= m < |pts| ==> pts[m].0 == i && from <= pts[m].1
    decreases |g[i]| - from
  {
    if from >= |g[i]| then []
    else
      var rest := RowPoints(g, i, from + 1);
      if g[i][from] == 1 then [(i, from)] + rest else rest
  }

  /** The set pixels of rows `i` onward, in row-major order. */
  function PointsFrom(g: Mask, i: nat): (pts: seq<Pixel>)
    ensures forall q :: q in pts <==> On(g, q) && i <= q.0
    ensures forall m, n :: 0 <= m < n < |pts| ==> RowMajorLt(pts[m], pts[n])
    ensures forall m :: 0 <= m < |pts| ==> i <= pts[m].0
    decreases |g| - i
  {
    if i >= |g| then []
    else
      var row, rest := RowPoints(g, i, 0), PointsFrom(g, i + 1);
      assert forall m, n :: 0 <= m < |row| && 0 <= n < |rest| ==> RowMajorLt(row[m], rest[n]);
      row + rest
  }

  /**
   get_IJcurve: every red pixel, in row-major order, each once. Membership
   is exactly "set in the mask" and the order is strict.
   */
  function GetIJCurve(g: Mask): (pts: seq<Pixel>)
    ensures forall q :: q in pts <==> On(g, q)
    ensures forall m, n :: 0 <= m < n < |pts| ==> RowMajorLt(pts[m], pts[n])
  {
    PointsFrom(g, 0)
  }
}
