/**
 Tick and glyph grouping (pic2func/detect.py: obj_edge_dist, group_ticks,
 get_numbers_from_groups, sort_digits_in_numbers, reshape_numbers,
 make_square).

 An object is the pixel list one fill removed: a tick mark or a glyph.
 Glyphs are paired with ticks greedily by the closest-pair squared
 distance; the glyphs of each tick are then ordered top to bottom and
 each is drawn on a square canvas with a margin.
 */
module Glyphs {
  import opened Base

  /** The pixels one fill removed. */
  type Obj = seq<Pixel>

  /** A tick followed by the glyphs grouped with it. */
  type Group = seq<Obj>

  predicate AllNonEmpty(objs: seq<Obj>) {
    forall k :: 0 <= k < |objs| ==> |objs[k]| > 0
  }

  /** The squared Euclidean distance between two pixels. */
  function SqDist(a: Pixel, b: Pixel): nat {
    var di, dj := a.0 - b.0, a.1 - b.1;
    SquareFacts(di);
    SquareFacts(dj);
    di * di + dj * dj
  }

  lemma SquareFacts(x: int)
    ensures x * x >= 0 && (x != 0 ==> x * x > 0) && x * x == (-x) * (-x)
  {
  }

  lemma SqDistFacts(a: Pixel, b: Pixel)
    ensures SqDist(a, b) == 0 <==> a == b
    ensures SqDist(a, b) == SqDist(b, a)
  {
    SquareFacts(a.0 - b.0);
    SquareFacts(a.1 - b.1);
  }

  /** The least squared distance from `a` to a pixel of `B`. */
  function PointDist(a: Pixel, B: Obj): nat
    requires |B| > 0
    decreases |B|
  {
    if |B| == 1 then SqDist(a, B[0])
    else Min(PointDist(a, B[..|B| - 1]), SqDist(a, B[|B| - 1]))
  }

  /** PointDist is the least of the distances from `a` to the pixels of `B`. */
  lemma {:induction false} PointDistIsLeast(a: Pixel, B: Obj)
    requires |B| > 0
    ensures forall j :: 0 <= j < |B| ==> PointDist(a, B) <= SqDist(a, B[j])
    ensures exists j :: 0 <= j < |B| && PointDist(a, B) == SqDist(a, B[j])
    decreases |B|
  {
    if |B| > 1 {
      var P := B[..|B| - 1];
      PointDistIsLeast(a, P);
      assert forall j :: 0 <= j < |P| ==> P[j] == B[j];
      var j :| 0 <= j < |P| && PointDist(a, P) == SqDist(a, P[j]);
      assert PointDist(a, B) == Min(PointDist(a, P), SqDist(a, B[|B| - 1]));
      if PointDist(a, B) != SqDist(a, B[|B| - 1]) {
        assert PointDist(a, B) == SqDist(a, B[j]);
      }
    } else {
      assert PointDist(a, B) == SqDist(a, B[0]);
    }
  }

  /** obj_edge_dist: the least squared distance between a pixel of `A` and a pixel of `B`. */
  function ObjEdgeDist(A: Obj, B: Obj): nat
    requires |A| > 0 && |B| > 0
    decreases |A|
  {
    if |A| == 1 then PointDist(A[0], B)
    else Min(ObjEdgeDist(A[..|A| - 1], B), PointDist(A[|A| - 1], B))
  }

  /** ObjEdgeDist is the least of the pairwise distances, and some pair attains it. */
  lemma {:induction false} ObjEdgeDistIsLeast(A: Obj, B: Obj)
    requires |A| > 0 && |B| > 0
    ensures forall i, j :: 0 <= i < |A| && 0 <= j < |B| ==> ObjEdgeDist(A, B) <= SqDist(A[i], B[j])
    ensures exists i, j :: 0 <= i < |A| && 0 <= j < |B| && ObjEdgeDist(A, B) == SqDist(A[i], B[j])
    decreases |A|
  {
    PointDistIsLeast(A[|A| - 1], B);
    if |A| > 1 {
      var P := A[..|A| - 1];
      ObjEdgeDistIsLeast(P, B);
      assert forall i :: 0 <= i < |P| ==> P[i] == A[i];
      var i, j :| 0 <= i < |P| && 0 <= j < |B| && ObjEdgeDist(P, B) == SqDist(P[i], B[j]);
    }
  }

  /** The distance does not depend on the order of the arguments, and is 0 exactly when the objects share a pixel. */
  lemma ObjEdgeDistFacts(A: Obj, B: Obj)
    requires |A| > 0 && |B| > 0
    ensures ObjEdgeDist(A, B) == ObjEdgeDist(B, A)
    ensures ObjEdgeDist(A, B) == 0 <==> exists i, j :: 0 <= i < |A| && 0 <= j < |B| && A[i] == B[j]
  {
    var d, e := ObjEdgeDist(A, B), ObjEdgeDist(B, A);
    ObjEdgeDistIsLeast(A, B);
    ObjEdgeDistIsLeast(B, A);
    var i, j :| 0 <= i < |A| && 0 <= j < |B| && d == SqDist(A[i], B[j]);
    var j', i' :| 0 <= j' < |B| && 0 <= i' < |A| && e == SqDist(B[j'], A[i']);
    SqDistFacts(A[i], B[j]);
    SqDistFacts(A[i'], B[j']);
    if exists i, j :: 0 <= i < |A| && 0 <= j < |B| && A[i] == B[j] {
      var i, j :| 0 <= i < |A| && 0 <= j < |B| && A[i] == B[j];
      SqDistFacts(A[i], B[j]);
    }
  }

  /** A distance between objects. group_ticks measures with EdgeDist. */
  type Dist = (Obj, Obj) -> nat

  /** obj_edge_dist, made total; group_ticks only applies it to non-empty objects. */
  function EdgeDist(A: Obj, B: Obj): nat {
    if |A| == 0 || |B| == 0 then 0 else ObjEdgeDist(A, B)
  }

  /** `list.pop(m)`. */
  function Drop<T>(s: seq<T>, m: nat): (r: seq<T>)
    requires m < |s|
    ensures |r| == |s| - 1
    ensures forall i :: 0 <= i < |r| ==> r[i] == (if i < m then s[i] else s[i + 1])
    ensures multiset(r) + multiset{s[m]} == multiset(s)
  {
    assert s == s[..m] + [s[m]] + s[m + 1..];
    s[..m] + s[m + 1..]
  }

  /**
   After phase 1: tick `k` took `chosen[k]` while the glyphs `chosen[k..]`
   and `left` were still free, and none of them was nearer to it.
   */
  ghost predicate Greedy(dist: Dist, ticks: seq<Obj>, chosen: seq<Obj>, left: seq<Obj>) {
    && |ticks| == |chosen|
    && (forall k, j :: 0 <= k < j < |chosen| ==> dist(ticks[k], chosen[k]) <= dist(ticks[k], chosen[j]))
    && (forall k, j :: 0 <= k < |chosen| && 0 <= j < |left| ==> dist(ticks[k], chosen[k]) <= dist(ticks[k], left[j]))
  }

  /** `np.argmin` of the distances from `tick` to the free glyphs: the nearest one, the first on a tie. */
  function NearestGlyph(dist: Dist, tick: Obj, digits: seq<Obj>): (m: nat)
    requires |digits| > 0
    ensures m < |digits|
    ensures forall i :: 0 <= i < |digits| ==> dist(tick, digits[m]) <= dist(tick, digits[i])
    ensures forall i :: 0 <= i < m ==> dist(tick, digits[m]) < dist(tick, digits[i])
    decreases |digits|
  {
    if |digits| == 1 then 0
    else
      var m := NearestGlyph(dist, tick, digits[..|digits| - 1]);
      assert forall i :: 0 <= i < |digits| - 1 ==> digits[..|digits| - 1][i] == digits[i];
      if dist(tick, digits[|digits| - 1]) < dist(tick, digits[m]) then |digits| - 1 else m
  }

  /**
   `m` is where `np.argmin` lands among the distances from `tick` to the
   glyphs of `pool`: a nearest glyph, and no other nearest glyph before it.
   */
  ghost predicate FirstNearest(dist: Dist, tick: Obj, pool: seq<Obj>, m: nat) {
    && m < |pool|
    && (forall i :: 0 <= i < |pool| ==> dist(tick, pool[m]) <= dist(tick, pool[i]))
    && (forall i :: 0 <= i < m ==> dist(tick, pool[m]) < dist(tick, pool[i]))
  }

  /**
   Phase 1 traced through its pools. `pool` holds the glyphs still free,
   in list order, when `ticks[0]` chooses: it takes a first nearest one,
   which `digits.pop` removes, and the later ticks choose from what
   remains. `left` is the pool after the last tick, its order kept.
   */
  ghost predicate Claims(dist: Dist, ticks: seq<Obj>, pool: seq<Obj>, chosen: seq<Obj>, left: seq<Obj>)
    decreases |ticks|
  {
    if |ticks| == 0 then chosen == [] && left == pool
    else
      && |chosen| > 0
      && exists m: nat ::
           FirstNearest(dist, ticks[0], pool, m) && chosen[0] == pool[m] && Claims(dist, ticks[1..], Drop(pool, m), chosen[1..], left)
  }

  /** There is one first nearest glyph. */
  lemma FirstNearestUnique(dist: Dist, tick: Obj, pool: seq<Obj>, m: nat, n: nat)
    requires FirstNearest(dist, tick, pool, m) && FirstNearest(dist, tick, pool, n)
    ensures m == n
  {
    assert dist(tick, pool[m]) == dist(tick, pool[n]);
    assert !(m < n) && !(n < m);
  }

  /** The first tick's step of a trace. */
  lemma ClaimsOpen(dist: Dist, ticks: seq<Obj>, pool: seq<Obj>, chosen: seq<Obj>, left: seq<Obj>) returns (m: nat)
    requires |ticks| > 0 && Claims(dist, ticks, pool, chosen, left)
    ensures FirstNearest(dist, ticks[0], pool, m) && |chosen| > 0 && chosen[0] == pool[m]
    ensures Claims(dist, ticks[1..], Drop(pool, m), chosen[1..], left)
  {
    m :| FirstNearest(dist, ticks[0], pool, m) && chosen[0] == pool[m] && Claims(dist, ticks[1..], Drop(pool, m), chosen[1..], left);
  }

  /** Any first nearest glyph is the one the trace's first tick took. */
  lemma ClaimsStep(dist: Dist, ticks: seq<Obj>, pool: seq<Obj>, chosen: seq<Obj>, left: seq<Obj>, m: nat)
    requires |ticks| > 0 && Claims(dist, ticks, pool, chosen, left) && FirstNearest(dist, ticks[0], pool, m)
    ensures |chosen| > 0 && chosen[0] == pool[m] && Claims(dist, ticks[1..], Drop(pool, m), chosen[1..], left)
  {
    var n := ClaimsOpen(dist, ticks, pool, chosen, left);
    FirstNearestUnique(dist, ticks[0], pool, m, n);
  }

  /** The trace pins phase 1 down: the glyphs chosen and those left over are determined by the ticks and the pool. */
  lemma {:induction false} ClaimsUnique(dist: Dist, ticks: seq<Obj>, pool: seq<Obj>, c1: seq<Obj>, l1: seq<Obj>, c2: seq<Obj>, l2: seq<Obj>)
    requires Claims(dist, ticks, pool, c1, l1) && Claims(dist, ticks, pool, c2, l2)
    ensures c1 == c2 && l1 == l2
    decreases |ticks|
  {
    if |ticks| > 0 {
      var m := ClaimsOpen(dist, ticks, pool, c1, l1);
      ClaimsStep(dist, ticks, pool, c2, l2, m);
      ClaimsUnique(dist, ticks[1..], Drop(pool, m), c1[1..], l1, c2[1..], l2);
      assert c1 == [c1[0]] + c1[1..] && c2 == [c2[0]] + c2[1..];
    }
  }

  /** Prepending the first tick's choice to the later ticks' trace gives the trace of all ticks. */
  lemma ClaimsCons(dist: Dist, ticks: seq<Obj>, pool: seq<Obj>, m: nat, chosen: seq<Obj>, left: seq<Obj>)
    requires |ticks| > 0 && FirstNearest(dist, ticks[0], pool, m)
    requires Claims(dist, ticks[1..], Drop(pool, m), chosen, left)
    ensures Claims(dist, ticks, pool, [pool[m]] + chosen, left)
  {
    assert ([pool[m]] + chosen)[1..] == chosen;
  }

  /**
   Phase 1 of group_ticks: every tick in order claims the nearest glyph
   still free. It fails, as `np.argmin([])` does, when the glyphs run out.
   */
  function ClaimNearest(dist: Dist, ticks: seq<Obj>, digits: seq<Obj>): (r: Result<(seq<Obj>, seq<Obj>)>)
    ensures r.Failure? <==> |digits| < |ticks|
    ensures r.Failure? ==> r.error == NoDigitForTick
    ensures r.Success? ==> Claims(dist, ticks, digits, r.value.0, r.value.1)
    decreases |ticks|
  {
    if |ticks| == 0 then Success(([], digits))
    else if |digits| == 0 then Failure(NoDigitForTick)
    else
      var m := NearestGlyph(dist, ticks[0], digits);
      var tail :- ClaimNearest(dist, ticks[1..], Drop(digits, m));
      ClaimsCons(dist, ticks, digits, m, tail.0, tail.1);
      Success(([digits[m]] + tail.0, tail.1))
  }

  /** Along the trace every tick chooses one glyph, and the glyphs chosen and left over are those of the pool. */
  lemma {:induction false} ClaimsPerm(dist: Dist, ticks: seq<Obj>, pool: seq<Obj>, chosen: seq<Obj>, left: seq<Obj>)
    requires Claims(dist, ticks, pool, chosen, left)
    ensures |chosen| == |ticks| && |chosen| + |left| == |pool|
    ensures multiset(chosen) + multiset(left) == multiset(pool)
    decreases |ticks|
  {
    if |ticks| > 0 {
      var m := ClaimsOpen(dist, ticks, pool, chosen, left);
      ClaimsPerm(dist, ticks[1..], Drop(pool, m), chosen[1..], left);
      ClaimPool(pool, m, chosen[1..], left);
      assert chosen == [pool[m]] + chosen[1..];
    }
  }

  /** Along the trace no tick's glyph is farther from it than a glyph still free when it chose. */
  lemma {:induction false} ClaimsGreedy(dist: Dist, ticks: seq<Obj>, pool: seq<Obj>, chosen: seq<Obj>, left: seq<Obj>)
    requires Claims(dist, ticks, pool, chosen, left)
    ensures Greedy(dist, ticks, chosen, left)
    decreases |ticks|
  {
    if |ticks| > 0 {
      var m := ClaimsOpen(dist, ticks, pool, chosen, left);
      ClaimsGreedy(dist, ticks[1..], Drop(pool, m), chosen[1..], left);
      ClaimsPerm(dist, ticks[1..], Drop(pool, m), chosen[1..], left);
      GreedyStep(dist, ticks, pool, m, chosen, left);
    }
  }

  /** The first tick's choice keeps the trace greedy when the later ticks' choices were. */
  lemma GreedyStep(dist: Dist, ticks: seq<Obj>, pool: seq<Obj>, m: nat, chosen: seq<Obj>, left: seq<Obj>)
    requires |ticks| > 0 && |chosen| > 0
    requires FirstNearest(dist, ticks[0], pool, m) && chosen[0] == pool[m]
    requires Greedy(dist, ticks[1..], chosen[1..], left)
    requires multiset(chosen[1..]) + multiset(left) == multiset(Drop(pool, m))
    ensures Greedy(dist, ticks, chosen, left)
  {
    ClaimPool(pool, m, chosen[1..], left);
    ClaimHead(dist, ticks[0], pool, m, chosen[1..], left);
    ClaimTail(dist, ticks, pool[m], chosen[1..], left);
    assert chosen == [pool[m]] + chosen[1..];
  }

  /** Whatever later ticks claim or leave was free when the first tick chose. */
  lemma ClaimPool(digits: seq<Obj>, m: nat, chosen: seq<Obj>, left: seq<Obj>)
    requires m < |digits|
    requires multiset(chosen) + multiset(left) == multiset(Drop(digits, m))
    ensures multiset([digits[m]] + chosen) + multiset(left) == multiset(digits)
    ensures forall x :: x in chosen ==> x in digits
    ensures forall x :: x in left ==> x in digits
  {
    forall x | x in chosen || x in left ensures x in digits {
      assert x in multiset(chosen) + multiset(left);
      assert x in multiset(Drop(digits, m));
    }
  }

  lemma ClaimHead(dist: Dist, tick: Obj, digits: seq<Obj>, m: nat, chosen: seq<Obj>, left: seq<Obj>)
    requires FirstNearest(dist, tick, digits, m)
    requires forall x :: x in chosen ==> x in digits
    requires forall x :: x in left ==> x in digits
    ensures forall j :: 0 <= j < |chosen| ==> dist(tick, digits[m]) <= dist(tick, chosen[j])
    ensures forall j :: 0 <= j < |left| ==> dist(tick, digits[m]) <= dist(tick, left[j])
  {
    forall j | 0 <= j < |chosen| ensures dist(tick, digits[m]) <= dist(tick, chosen[j]) {
      assert chosen[j] in digits;
      var i :| 0 <= i < |digits| && digits[i] == chosen[j];
    }
    forall j | 0 <= j < |left| ensures dist(tick, digits[m]) <= dist(tick, left[j]) {
      assert left[j] in digits;
      var i :| 0 <= i < |digits| && digits[i] == left[j];
    }
  }

  lemma ClaimTail(dist: Dist, ticks: seq<Obj>, d: Obj, chosen: seq<Obj>, left: seq<Obj>)
    requires |ticks| > 0
    requires Greedy(dist, ticks[1..], chosen, left)
    requires forall j :: 0 <= j < |chosen| ==> dist(ticks[0], d) <= dist(ticks[0], chosen[j])
    requires forall j :: 0 <= j < |left| ==> dist(ticks[0], d) <= dist(ticks[0], left[j])
    ensures Greedy(dist, ticks, [d] + chosen, left)
  {
    var c := [d] + chosen;
    var t := ticks[1..];
    assert forall k :: 1 <= k < |c| ==> c[k] == chosen[k - 1] && ticks[k] == t[k - 1];
  }

  /** `groups[k].append(d)`. */
  function Join(groups: seq<Group>, k: nat, d: Obj): (r: seq<Group>)
    requires k < |groups|
    ensures |r| == |groups| && r[k] == groups[k] + [d]
    ensures forall i :: 0 <= i < |groups| && i != k ==> r[i] == groups[i]
  {
    groups[k := groups[k] + [d]]
  }

  /** Every group holds at least its tick. */
  predicate WellFormed(groups: seq<Group>) {
    forall k :: 0 <= k < |groups| ==> |groups[k]| > 0
  }

  /** The distance from a glyph to the nearest member of a group, its tick included. */
  function GroupDist(dist: Dist, group: Group, d: Obj): nat
    requires |group| > 0
    decreases |group|
  {
    if |group| == 1 then dist(group[0], d)
    else Min(GroupDist(dist, group[..|group| - 1], d), dist(group[|group| - 1], d))
  }

  /** GroupDist is the least distance from `d` to a member of the group, and some member attains it. */
  lemma {:induction false} GroupDistIsLeast(dist: Dist, group: Group, d: Obj)
    requires |group| > 0
    ensures forall k :: 0 <= k < |group| ==> GroupDist(dist, group, d) <= dist(group[k], d)
    ensures exists k :: 0 <= k < |group| && GroupDist(dist, group, d) == dist(group[k], d)
    decreases |group|
  {
    if |group| > 1 {
      var front := group[..|group| - 1];
      GroupDistIsLeast(dist, front, d);
      assert forall k :: 0 <= k < |front| ==> front[k] == group[k];
      var k0 :| 0 <= k0 < |front| && GroupDist(dist, front, d) == dist(front[k0], d);
      if GroupDist(dist, group, d) == dist(group[|group| - 1], d) {
        assert GroupDist(dist, group, d) == dist(group[|group| - 1], d);
      } else {
        assert GroupDist(dist, group, d) == dist(group[k0], d);
      }
    } else {
      assert GroupDist(dist, group, d) == dist(group[0], d);
    }
  }

  /** `np.argmin` over the group distances: the group nearest to `d`, the first on a tie. */
  function NearestGroup(dist: Dist, groups: seq<Group>, d: Obj): (k: nat)
    requires |groups| > 0 && WellFormed(groups)
    ensures k < |groups|
    ensures forall i :: 0 <= i < |groups| ==> GroupDist(dist, groups[k], d) <= GroupDist(dist, groups[i], d)
    ensures forall i :: 0 <= i < k ==> GroupDist(dist, groups[k], d) < GroupDist(dist, groups[i], d)
    decreases |groups|
  {
    if |groups| == 1 then 0
    else
      var k := NearestGroup(dist, groups[..|groups| - 1], d);
      assert forall i :: 0 <= i < |groups| - 1 ==> groups[..|groups| - 1][i] == groups[i];
      if GroupDist(dist, groups[|groups| - 1], d) < GroupDist(dist, groups[k], d) then |groups| - 1 else k
  }

  /** Group `k` is at least as near to `d` as every other group. */
  ghost predicate IsNearest(dist: Dist, groups: seq<Group>, d: Obj, k: nat) {
    && k < |groups| && WellFormed(groups)
    && forall i :: 0 <= i < |groups| ==> GroupDist(dist, groups[k], d) <= GroupDist(dist, groups[i], d)
  }

  /** The glyphs held by a group, its tick excluded. */
  function GlyphsOf(group: Group): seq<Obj> {
    if |group| == 0 then [] else group[1..]
  }

  /** The glyphs held by all groups, as a multiset. */
  function Grouped(groups: seq<Group>): multiset<Obj>
    decreases |groups|
  {
    if |groups| == 0 then multiset{} else multiset(GlyphsOf(groups[0])) + Grouped(groups[1..])
  }

  lemma {:induction false} GroupedJoin(groups: seq<Group>, k: nat, d: Obj)
    requires k < |groups| && |groups[k]| > 0
    ensures Grouped(Join(groups, k, d)) == Grouped(groups) + multiset{d}
    decreases |groups|
  {
    var r := Join(groups, k, d);
    if k == 0 {
      assert r[1..] == groups[1..];
      assert GlyphsOf(r[0]) == GlyphsOf(groups[0]) + [d];
    } else {
      assert r[1..] == Join(groups[1..], k - 1, d);
      GroupedJoin(groups[1..], k - 1, d);
    }
  }

  /** Every group of `r` starts with the corresponding group of `groups`. */
  predicate Extends(groups: seq<Group>, r: seq<Group>) {
    |r| == |groups| && forall k :: 0 <= k < |groups| ==> groups[k] <= r[k]
  }

  /**
   `states[j]` are the groups just before glyph `digits[j]` joins group
   `owners[j]`, which is nearest to it at that moment; `states[j + 1]` are
   the groups right after.
   */
  ghost predicate NearestTrace(dist: Dist, digits: seq<Obj>, owners: seq<nat>, states: seq<seq<Group>>) {
    && |owners| == |digits| && |states| == |digits| + 1
    && forall j :: 0 <= j < |digits| ==> NearestStep(dist, digits, owners, states, j)
  }

  /** Step `j` of a trace: glyph `digits[j]` joins `owners[j]`, nearest to it in `states[j]`. */
  ghost predicate NearestStep(dist: Dist, digits: seq<Obj>, owners: seq<nat>, states: seq<seq<Group>>, j: nat) {
    && j < |digits| && j < |owners| && j + 1 < |states|
    && owners[j] < |states[j]|
    && states[j + 1] == Join(states[j], owners[j], digits[j])
    && IsNearest(dist, states[j], digits[j], owners[j])
  }

  /** Joining a glyph to a group extends the groups, keeps them well formed and adds the glyph to those grouped. */
  lemma JoinKeeps(groups: seq<Group>, k: nat, d: Obj)
    requires k < |groups| && WellFormed(groups)
    ensures Extends(groups, Join(groups, k, d)) && WellFormed(Join(groups, k, d))
    ensures Grouped(Join(groups, k, d)) == Grouped(groups) + multiset{d}
  {
    GroupedJoin(groups, k, d);
  }

  /** The glyphs of a prefix are those of the prefix one shorter and its last. */
  lemma PrefixSnoc(digits: seq<Obj>, n: nat)
    requires 0 < n <= |digits|
    ensures multiset(digits[..n]) == multiset(digits[..n - 1]) + multiset{digits[n - 1]}
  {
    assert digits[..n] == digits[..n - 1] + [digits[n - 1]];
  }

  /** One step of a trace keeps the groups well formed, extends them and groups its glyph. */
  lemma StepKeeps(dist: Dist, digits: seq<Obj>, owners: seq<nat>, states: seq<seq<Group>>, j: nat)
    requires NearestStep(dist, digits, owners, states, j) && WellFormed(states[j])
    ensures j < |digits| && j + 1 < |states|
    ensures Extends(states[j], states[j + 1]) && WellFormed(states[j + 1])
    ensures Grouped(states[j + 1]) == Grouped(states[j]) + multiset{digits[j]}
  {
    JoinKeeps(states[j], owners[j], digits[j]);
  }

  /** Along a trace every group only grows, and the glyphs grouped so far are exactly those placed. */
  lemma {:induction false} TraceKeeps(dist: Dist, digits: seq<Obj>, owners: seq<nat>, states: seq<seq<Group>>, n: nat)
    requires n < |states| && n <= |digits| && WellFormed(states[0])
    requires forall i :: 0 <= i < n ==> NearestStep(dist, digits, owners, states, i)
    ensures Extends(states[0], states[n]) && WellFormed(states[n])
    ensures Grouped(states[n]) == Grouped(states[0]) + multiset(digits[..n])
    decreases n
  {
    if n > 0 {
      TraceKeeps(dist, digits, owners, states, n - 1);
      StepKeeps(dist, digits, owners, states, n - 1);
      ExtendsTrans(states[0], states[n - 1], states[n]);
      PrefixSnoc(digits, n);
    }
  }

  lemma TraceExtend(dist: Dist, digits: seq<Obj>, owners: seq<nat>, states: seq<seq<Group>>, k: nat, next: seq<Group>)
    requires |owners| < |digits| && |states| == |owners| + 1
    requires forall i :: 0 <= i < |owners| ==> NearestStep(dist, digits, owners, states, i)
    requires k < |states[|owners|]| && next == Join(states[|owners|], k, digits[|owners|])
    requires IsNearest(dist, states[|owners|], digits[|owners|], k)
    ensures forall i :: 0 <= i <= |owners| ==> NearestStep(dist, digits, owners + [k], states + [next], i)
  {
    forall i | 0 <= i <= |owners| ensures NearestStep(dist, digits, owners + [k], states + [next], i) {
      assert (owners + [k])[i] == if i < |owners| then owners[i] else k;
      assert (states + [next])[i] == states[i];
      if i < |owners| {
        assert NearestStep(dist, digits, owners, states, i);
      }
    }
  }

  /**
   Phase 2 as its comment intends ("we search the closest group for each
   digit"): every remaining glyph in order joins the group nearest to it
   at that moment. `owners[j]` is the group glyph `j` joined and
   `states` the groups before each join and after the last.
   */
  method JoinNearest(dist: Dist, groups: seq<Group>, digits: seq<Obj>) returns (r: Result<seq<Group>>, owners: seq<nat>, states: seq<seq<Group>>)
    requires WellFormed(groups)
    ensures r.Failure? <==> |groups| == 0 && |digits| > 0
    ensures r.Failure? ==> r.error == NoTickForDigit
    ensures r.Success? ==> NearestTrace(dist, digits, owners, states) && states[0] == groups && r.value == states[|digits|]
    ensures r.Success? ==> Extends(groups, r.value) && Grouped(r.value) == Grouped(groups) + multiset(digits)
  {
    owners, states := [], [groups];
    if |groups| == 0 && |digits| > 0 {
      return Failure(NoTickForDigit), owners, states;
    }
    var cur := groups;
    var j := 0;
    while j < |digits|
      invariant 0 <= j <= |digits| && |owners| == j && |states| == j + 1
      invariant states[0] == groups && states[j] == cur
      invariant forall i :: 0 <= i < j ==> NearestStep(dist, digits, owners, states, i)
      invariant WellFormed(cur) && |cur| == |groups|
    {
      var k := NearestGroup(dist, cur, digits[j]);
      var next := Join(cur, k, digits[j]);
      TraceExtend(dist, digits, owners, states, k, next);
      owners, states := owners + [k], states + [next];
      cur := next;
      j := j + 1;
    }
    TraceKeeps(dist, digits, owners, states, j);
    assert digits[..j] == digits;
    return Success(cur), owners, states;
  }

  /**
   Phase 2 as written: one pass of `for i, digit in enumerate(digits)`
   whose body pops `digits[0]`. Step `i` measures the glyph now at position
   `i` but moves the one at position 0, and the pass stops once `i`
   reaches the shrinking list's length.
   */
  function PassAsWritten(dist: Dist, groups: seq<Group>, digits: seq<Obj>, i: nat): (r: (seq<Group>, seq<Obj>))
    requires |groups| > 0 && WellFormed(groups)
    ensures Extends(groups, r.0) && WellFormed(r.0)
    ensures Grouped(r.0) + multiset(r.1) == Grouped(groups) + multiset(digits)
    ensures |r.1| <= |digits| && (i < |digits| ==> |r.1| < |digits|)
    decreases |digits| - i
  {
    if i >= |digits| then (groups, digits)
    else
      var k := NearestGroup(dist, groups, digits[i]);
      var g := Join(groups, k, digits[0]);
      JoinKeeps(groups, k, digits[0]);
      assert multiset(digits) == multiset{digits[0]} + multiset(digits[1..]) by {
        assert digits == [digits[0]] + digits[1..];
      }
      var r := PassAsWritten(dist, g, digits[1..], i + 1);
      ExtendsTrans(groups, g, r.0);
      r
  }

  lemma ExtendsTrans(a: seq<Group>, b: seq<Group>, c: seq<Group>)
    requires Extends(a, b) && Extends(b, c)
    ensures Extends(a, c)
  {
    forall k | 0 <= k < |a| ensures a[k] <= c[k] {
      assert a[k] == b[k][..|a[k]|] && b[k] == c[k][..|b[k]|];
      assert c[k][..|b[k]|][..|a[k]|] == c[k][..|a[k]|];
    }
  }

  /** The source's `while assignments < Ndigits` loop around PassAsWritten. */
  function JoinAsWritten(dist: Dist, groups: seq<Group>, digits: seq<Obj>): (r: Result<seq<Group>>)
    requires WellFormed(groups)
    ensures r.Failure? <==> |groups| == 0 && |digits| > 0
    ensures r.Failure? ==> r.error == NoTickForDigit
    ensures r.Success? ==> Extends(groups, r.value) && WellFormed(r.value)
    ensures r.Success? ==> Grouped(r.value) == Grouped(groups) + multiset(digits)
    decreases |digits|
  {
    if |digits| == 0 then Success(groups)
    else if |groups| == 0 then Failure(NoTickForDigit)
    else
      var p := PassAsWritten(dist, groups, digits, 0);
      var r := JoinAsWritten(dist, p.0, p.1);
      if r.Success? then ExtendsTrans(groups, p.0, r.value); r else r
  }

  /** Between two one-pixel objects EdgeDist is the squared distance of the pixels. */
  lemma EdgeDistSingle(p: Pixel, q: Pixel)
    ensures EdgeDist([p], [q]) == SqDist(p, q)
  {
  }

  /** One step of a pass of JoinAsWritten: measure `digits[i]`, move `digits[0]`. */
  lemma PassStep(dist: Dist, groups: seq<Group>, digits: seq<Obj>, i: nat, k: nat)
    requires |groups| > 0 && WellFormed(groups) && i < |digits|
    requires k == NearestGroup(dist, groups, digits[i])
    ensures PassAsWritten(dist, groups, digits, i) == PassAsWritten(dist, Join(groups, k, digits[0]), digits[1..], i + 1)
  {
  }

  /*
   A row of one-pixel objects, pairwise apart and off the border, on which
   JoinAsWritten misplaces a glyph: ticks at columns 2 and 22, their first
   glyphs at 4 and 20, and the remaining glyphs at 6, 8 and 18 in that order.
   */
  const T2: Obj := [(1, 2)]
  const D4: Obj := [(1, 4)]
  const D6: Obj := [(1, 6)]
  const D8: Obj := [(1, 8)]
  const D18: Obj := [(1, 18)]
  const D20: Obj := [(1, 20)]
  const T22: Obj := [(1, 22)]

  /** The first pass: glyph 6 joins the near tick; then glyph 18 is measured but glyph 8 moves, to the far tick. */
  lemma FirstPassMisplaces()
    ensures PassAsWritten(EdgeDist, [[T2, D4], [T22, D20]], [D6, D8, D18], 0) == ([[T2, D4, D6], [T22, D20, D8]], [D18])
  {
    FirstPassStepOne();
    FirstPassStepTwo();
    assert PassAsWritten(EdgeDist, [[T2, D4, D6], [T22, D20, D8]], [D18], 2) == ([[T2, D4, D6], [T22, D20, D8]], [D18]);
  }

  lemma FirstPassStepOne()
    ensures PassAsWritten(EdgeDist, [[T2, D4], [T22, D20]], [D6, D8, D18], 0) == PassAsWritten(EdgeDist, [[T2, D4, D6], [T22, D20]], [D8, D18], 1)
  {
    GroupDistOnRow(2, 4, 6);
    GroupDistOnRow(22, 20, 6);
    NearestOfTwo([T2, D4], [T22, D20], D6);
    JoinOfTwo([T2, D4], [T22, D20], D6);
    assert [T2, D4] + [D6] == [T2, D4, D6];
    PassStep(EdgeDist, [[T2, D4], [T22, D20]], [D6, D8, D18], 0, 0);
    assert [D6, D8, D18][1..] == [D8, D18];
  }

  lemma FirstPassStepTwo()
    ensures PassAsWritten(EdgeDist, [[T2, D4, D6], [T22, D20]], [D8, D18], 1) == PassAsWritten(EdgeDist, [[T2, D4, D6], [T22, D20, D8]], [D18], 2)
  {
    GroupDistOnRow3(2, 4, 6, 18);
    GroupDistOnRow(22, 20, 18);
    NearestOfTwo([T2, D4, D6], [T22, D20], D18);
    JoinOfTwo([T2, D4, D6], [T22, D20], D8);
    assert [T22, D20] + [D8] == [T22, D20, D8];
    PassStep(EdgeDist, [[T2, D4, D6], [T22, D20]], [D8, D18], 1, 1);
    assert [D8, D18][1..] == [D18];
  }

  /** The second pass places glyph 18 with the far tick. */
  lemma SecondPass()
    ensures JoinAsWritten(EdgeDist, [[T2, D4, D6], [T22, D20, D8]], [D18]) == Success([[T2, D4, D6], [T22, D20, D8, D18]])
  {
    GroupDistOnRow3(2, 4, 6, 18);
    GroupDistOnRow3(22, 20, 8, 18);
    NearestOfTwo([T2, D4, D6], [T22, D20, D8], D18);
    JoinOfTwo([T2, D4, D6], [T22, D20, D8], D18);
    assert [T22, D20, D8] + [D18] == [T22, D20, D8, D18];
    PassStep(EdgeDist, [[T2, D4, D6], [T22, D20, D8]], [D18], 0, 1);
    assert [D18][1..] == [];
    var p := PassAsWritten(EdgeDist, [[T2, D4, D6], [T22, D20, D8]], [D18], 0);
    assert p == ([[T2, D4, D6], [T22, D20, D8, D18]], []);
  }

  /**
   On the row above JoinAsWritten puts glyph 8 with the far tick, although
   when it moved the near tick's group was strictly nearer to it: the
   grouping is not the nearest-group one.
   */
  lemma JoinAsWrittenMisplaces()
    ensures JoinAsWritten(EdgeDist, [[T2, D4], [T22, D20]], [D6, D8, D18]) == Success([[T2, D4, D6], [T22, D20, D8, D18]])
    ensures !IsNearest(EdgeDist, [[T2, D4, D6], [T22, D20]], D8, 1)
  {
    JoinAsWrittenOnRow();
    GlyphEightNearerFirst();
  }

  lemma JoinAsWrittenOnRow()
    ensures JoinAsWritten(EdgeDist, [[T2, D4], [T22, D20]], [D6, D8, D18]) == Success([[T2, D4, D6], [T22, D20, D8, D18]])
  {
    FirstPassMisplaces();
    SecondPass();
  }

  lemma GlyphEightNearerFirst()
    ensures !IsNearest(EdgeDist, [[T2, D4, D6], [T22, D20]], D8, 1)
  {
    GroupDistOnRow3(2, 4, 6, 8);
    GroupDistOnRow(22, 20, 8);
    var g := [[T2, D4, D6], [T22, D20]];
    assert GroupDist(EdgeDist, g[0], D8) == 4 && GroupDist(EdgeDist, g[1], D8) == 144;
  }

  /** GroupDist on row 1 from the pixel at column `x` to the one-pixel group members at columns `p` and `q`. */
  lemma GroupDistOnRow(p: int, q: int, x: int)
    ensures GroupDist(EdgeDist, [[(1, p)], [(1, q)]], [(1, x)]) == Min((p - x) * (p - x), (q - x) * (q - x))
  {
    EdgeDistSingle((1, p), (1, x));
    EdgeDistSingle((1, q), (1, x));
    assert [[(1, p)], [(1, q)]][..1] == [[(1, p)]];
  }

  /** As GroupDistOnRow, for a group of three one-pixel members. */
  lemma GroupDistOnRow3(p: int, q: int, r: int, x: int)
    ensures GroupDist(EdgeDist, [[(1, p)], [(1, q)], [(1, r)]], [(1, x)]) == Min(Min((p - x) * (p - x), (q - x) * (q - x)), (r - x) * (r - x))
  {
    GroupDistOnRow(p, q, x);
    EdgeDistSingle((1, r), (1, x));
    assert [[(1, p)], [(1, q)], [(1, r)]][..2] == [[(1, p)], [(1, q)]];
  }

  lemma NearestOfTwo(g: Group, h: Group, d: Obj)
    requires |g| > 0 && |h| > 0
    ensures NearestGroup(EdgeDist, [g, h], d) == if GroupDist(EdgeDist, h, d) < GroupDist(EdgeDist, g, d) then 1 else 0
  {
    assert [g, h][..1] == [g];
  }

  lemma JoinOfTwo(g: Group, h: Group, d: Obj)
    ensures Join([g, h], 0, d) == [g + [d], h] && Join([g, h], 1, d) == [g, h + [d]]
  {
  }

  /** `[[tick, glyph] for ...]`: the groups right after phase 1. */
  function Pair(ticks: seq<Obj>, chosen: seq<Obj>): (groups: seq<Group>)
    requires |ticks| == |chosen|
    ensures |groups| == |ticks| && WellFormed(groups)
    ensures forall k :: 0 <= k < |ticks| ==> groups[k] == [ticks[k], chosen[k]]
  {
    seq(|ticks|, k requires 0 <= k < |ticks| => [ticks[k], chosen[k]])
  }

  lemma {:induction false} GroupedPair(ticks: seq<Obj>, chosen: seq<Obj>)
    requires |ticks| == |chosen|
    ensures Grouped(Pair(ticks, chosen)) == multiset(chosen)
    decreases |ticks|
  {
    if |ticks| > 0 {
      var p := Pair(ticks, chosen);
      assert p[1..] == Pair(ticks[1..], chosen[1..]);
      GroupedPair(ticks[1..], chosen[1..]);
      assert GlyphsOf(p[0]) == [chosen[0]];
      assert chosen == [chosen[0]] + chosen[1..];
    }
  }

  /** What group_ticks promises on success: one group per tick, tick first, at least one glyph each, every glyph in exactly one group. */
  ghost predicate GroupsTicks(ticks: seq<Obj>, digits: seq<Obj>, groups: seq<Group>) {
    && |groups| == |ticks|
    && (forall k :: 0 <= k < |ticks| ==> |groups[k]| >= 2 && groups[k][0] == ticks[k])
    && Grouped(groups) == multiset(digits)
  }

  lemma PairedGroups(ticks: seq<Obj>, digits: seq<Obj>, chosen: seq<Obj>, left: seq<Obj>, groups: seq<Group>)
    requires |ticks| == |chosen| && multiset(chosen) + multiset(left) == multiset(digits)
    requires Extends(Pair(ticks, chosen), groups) && Grouped(groups) == Grouped(Pair(ticks, chosen)) + multiset(left)
    ensures GroupsTicks(ticks, digits, groups)
  {
    GroupedPair(ticks, chosen);
    forall k | 0 <= k < |ticks| ensures |groups[k]| >= 2 && groups[k][0] == ticks[k] {
      assert Pair(ticks, chosen)[k] <= groups[k];
    }
  }

  /**
   group_ticks as written: phase 1 as traced by Claims, then phase 2 as the
   source's passes run it on the glyphs left over, in their order.
   */
  method GroupTicksAsWritten(ticks: seq<Obj>, digits: seq<Obj>) returns (r: Result<seq<Group>>, chosen: seq<Obj>, left: seq<Obj>)
    requires AllNonEmpty(ticks) && AllNonEmpty(digits)
    ensures r.Failure? <==> |digits| < |ticks| || (|ticks| == 0 && |digits| > 0)
    ensures r.Success? ==> GroupsTicks(ticks, digits, r.value)
    ensures r.Success? ==> Claims(EdgeDist, ticks, digits, chosen, left) && Greedy(EdgeDist, ticks, chosen, left)
    ensures r.Success? ==> r == JoinAsWritten(EdgeDist, Pair(ticks, chosen), left)
  {
    chosen, left := [], [];
    var p := ClaimNearest(EdgeDist, ticks, digits);
    if p.Failure? {
      return Failure(p.error), chosen, left;
    }
    chosen, left := p.value.0, p.value.1;
    ClaimsPerm(EdgeDist, ticks, digits, chosen, left);
    ClaimsGreedy(EdgeDist, ticks, digits, chosen, left);
    r := JoinAsWritten(EdgeDist, Pair(ticks, chosen), left);
    if r.Success? {
      PairedGroups(ticks, digits, chosen, left, r.value);
    }
  }

  /**
   group_ticks with phase 2 as intended. Tick `k`'s first glyph is its
   greedy pick `chosen[k]`; every later glyph `left[j]` joined group
   `owners[j]`, which was nearest to it when it joined.
   */
  method GroupTicks(ticks: seq<Obj>, digits: seq<Obj>) returns (r: Result<seq<Group>>, chosen: seq<Obj>, left: seq<Obj>, owners: seq<nat>, states: seq<seq<Group>>)
    requires AllNonEmpty(ticks) && AllNonEmpty(digits)
    ensures r.Failure? <==> |digits| < |ticks| || (|ticks| == 0 && |digits| > 0)
    ensures r.Success? ==> GroupsTicks(ticks, digits, r.value)
    ensures r.Success? ==> Greedy(EdgeDist, ticks, chosen, left) && multiset(chosen) + multiset(left) == multiset(digits)
    ensures r.Success? ==> Claims(EdgeDist, ticks, digits, chosen, left)
    ensures r.Success? ==> NearestTrace(EdgeDist, left, owners, states) && states[0] == Pair(ticks, chosen) && r.value == states[|left|]
  {
    chosen, left, owners, states := [], [], [], [];
    var p := ClaimNearest(EdgeDist, ticks, digits);
    if p.Failure? {
      return Failure(p.error), chosen, left, owners, states;
    }
    chosen, left := p.value.0, p.value.1;
    ClaimsPerm(EdgeDist, ticks, digits, chosen, left);
    ClaimsGreedy(EdgeDist, ticks, digits, chosen, left);
    r, owners, states := JoinNearest(EdgeDist, Pair(ticks, chosen), left);
    if r.Success? {
      PairedGroups(ticks, digits, chosen, left, r.value);
    }
  }
}
