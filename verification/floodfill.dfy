/**
 Flood-fill removal of connected blobs (pic2func/detect.py: remove_tick,
 grow_and_remove_number, remove_ticks, the harvesting loop of
 get_tickvals, get_IJcurve).

 A fill starts from one seed pixel, clears it, and then repeatedly clears
 every set pixel among the eight neighbours of the pixels cleared in the
 previous round. Each round's new pixels are de-duplicated; the source does
 this through a Python set, whose iteration order is unspecified, and the
 model keeps first occurrences. The neighbour probes index the mask
 without a bounds check, so the model asks for a mask whose border is
 clear and a seed off the border; then no probe leaves the grid.

 The reference notion is 8-connectivity: `Reaches(g, a, b)` holds when a
 walk of king moves leads from `a` to `b` through pixels set in `g`.
 */
module FloodFill {
  import opened Base

  /** King-move adjacency. */
  predicate Adjacent(p: Pixel, q: Pixel) {
    p != q && -1 <= p.0 - q.0 <= 1 && -1 <= p.1 - q.1 <= 1
  }

  /** The eight pixels the source probes around `p`, in the source's order. */
  function Neighbours(p: Pixel): (ns: seq<Pixel>)
    ensures forall q :: q in ns <==> Adjacent(p, q)
  {
    var (i, j) := p;
    [(i + 1, j + 1), (i + 1, j), (i + 1, j - 1), (i, j + 1), (i, j - 1),
     (i - 1, j + 1), (i - 1, j), (i - 1, j - 1)]
  }

  /** Both masks have the same rectangular shape. */
  predicate SameShape(g: Mask, h: Mask) {
    IsRect(g) && IsRect(h) && |g| == |h| && Width(g) == Width(h)
  }

  /** `pic[p] = 0`. */
  function Clear(g: Mask, p: Pixel): (r: Mask)
    requires IsRect(g) && InBounds(g, p)
    ensures SameShape(g, r)
    ensures forall q :: On(r, q) <==> On(g, q) && q != p
  {
    g[p.0 := g[p.0][p.1 := 0]]
  }

  /** Clears every pixel of `ps`, in order. */
  function ClearAll(g: Mask, ps: seq<Pixel>): (r: Mask)
    requires IsRect(g) && forall k :: 0 <= k < |ps| ==> InBounds(g, ps[k])
    ensures SameShape(g, r)
    ensures forall q :: On(r, q) <==> On(g, q) && q !in ps
    decreases |ps|
  {
    if |ps| == 0 then g
    else
      var g' := Clear(g, ps[0]);
      assert forall q :: q in ps <==> q == ps[0] || q in ps[1..];
      assert forall k :: 0 <= k < |ps[1..]| ==> InBounds(g', ps[1..][k]) by {
        forall k | 0 <= k < |ps[1..]| ensures InBounds(g', ps[1..][k]) {
          assert InBounds(g, ps[k + 1]);
        }
      }
      ClearAll(g', ps[1..])
  }

  /** The candidates that are set in the mask, in order. */
  function SetAmong(g: Mask, cands: seq<Pixel>): (r: seq<Pixel>)
    requires forall k :: 0 <= k < |cands| ==> InBounds(g, cands[k])
    ensures forall q :: q in r <==> q in cands && On(g, q)
  {
    if |cands| == 0 then []
    else
      var rest := SetAmong(g, cands[1..]);
      assert forall q :: q in cands <==> q == cands[0] || q in cands[1..];
      if On(g, cands[0]) then [cands[0]] + rest else rest
  }

  /** Off the border, every neighbour lies in the grid. */
  lemma InteriorNeighbours(g: Mask, p: Pixel)
    requires IsRect(g) && Interior(g, p)
    ensures forall k :: 0 <= k < |Neighbours(p)| ==> InBounds(g, Neighbours(p)[k])
  {
  }

  lemma InteriorsInBounds(g: Mask, ps: seq<Pixel>)
    requires IsRect(g) && forall k :: 0 <= k < |ps| ==> Interior(g, ps[k])
    ensures forall k :: 0 <= k < |ps| ==> InBounds(g, ps[k])
  {
    forall k | 0 <= k < |ps| ensures InBounds(g, ps[k]) {
      assert |g[ps[k].0]| == Width(g);
    }
  }

  /** `new_ones`: every set neighbour of every pixel of the layer, layer by layer. */
  function Probe(g: Mask, layer: seq<Pixel>): (r: seq<Pixel>)
    requires IsRect(g) && forall k :: 0 <= k < |layer| ==> Interior(g, layer[k])
    ensures forall q :: q in r <==> On(g, q) && exists a :: a in layer && Adjacent(a, q)
  {
    if |layer| == 0 then []
    else
      InteriorNeighbours(g, layer[0]);
      var rest := Probe(g, layer[1..]);
      assert forall a :: a in layer <==> a == layer[0] || a in layer[1..];
      SetAmong(g, Neighbours(layer[0])) + rest
  }

  /** Every pixel set in the mask is at least as far from the border as the fill needs. */
  lemma OnIsInterior(g: Mask, q: Pixel)
    requires ZeroBorder(g) && On(g, q)
    ensures Interior(g, q)
  {
  }

  /** The layer's pixels are all off the border of `g`. */
  predicate AllInterior(g: Mask, layer: seq<Pixel>) {
    forall k :: 0 <= k < |layer| ==> Interior(g, layer[k])
  }

  /**
   One round of the fill loop: clear the layer, then collect the set
   neighbours of the layer in the cleared mask, each once.
   */
  function Round(g: Mask, layer: seq<Pixel>): (r: (Mask, seq<Pixel>))
    requires ZeroBorder(g) && AllInterior(g, layer)
    ensures SameShape(g, r.0) && ZeroBorder(r.0)
    ensures forall q :: On(r.0, q) <==> On(g, q) && q !in layer
    ensures NoDups(r.1) && AllInterior(r.0, r.1)
    ensures forall q :: q in r.1 <==> On(r.0, q) && exists a :: a in layer && Adjacent(a, q)
  {
    InteriorsInBounds(g, layer);
    var g' := ClearAll(g, layer);
    assert AllInterior(g', layer);
    var next := Dedup(Probe(g', layer));
    assert ZeroBorder(g');
    forall k | 0 <= k < |next| ensures Interior(g', next[k]) {
      assert next[k] in Probe(g', layer);
    }
    (g', next)
  }

  /** A measure that every round of the fill decreases. */
  function FillMeasure(g: Mask, layer: seq<Pixel>): nat {
    |Ones(g) + Elems(layer)|
  }

  lemma RoundShrinks(g: Mask, layer: seq<Pixel>)
    requires ZeroBorder(g) && AllInterior(g, layer) && |layer| > 0
    ensures FillMeasure(Round(g, layer).0, Round(g, layer).1) < FillMeasure(g, layer)
  {
    var (g', next) := Round(g, layer);
    assert Elems(next) <= Ones(g');
    assert Ones(g') + Elems(next) == Ones(g');
    assert layer[0] in Ones(g) + Elems(layer);
    ProperSubsetCard(Ones(g'), Ones(g) + Elems(layer));
  }

  /**
   The fill loop from the current layer: run rounds while the new layer is
   non-empty. Returns the final mask and every recorded pixel, `acc` first.
   */
  function Grow(g: Mask, layer: seq<Pixel>, acc: seq<Pixel>): (r: (Mask, seq<Pixel>))
    requires ZeroBorder(g) && AllInterior(g, layer) && |layer| > 0
    ensures SameShape(g, r.0) && ZeroBorder(r.0)
    ensures |r.1| >= |acc| + |layer| && r.1[..|acc| + |layer|] == acc + layer
    ensures forall q :: On(r.0, q) <==> On(g, q) && q !in r.1[|acc|..]
    decreases FillMeasure(g, layer)
  {
    var (g', next) := Advance(g, layer);
    if |next| == 0 then
      assert (acc + layer)[|acc|..] == layer;
      (g', acc + layer)
    else
      var r := Grow(g', next, acc + layer);
      GrowStep(g, g', r.0, layer, acc, next, r.1);
      r
  }

  /** A round of growth seen only through what the recursion needs: the shape, the cleared pixels and progress. */
  function Advance(g: Mask, layer: seq<Pixel>): (r: (Mask, seq<Pixel>))
    requires ZeroBorder(g) && AllInterior(g, layer) && |layer| > 0
    ensures SameShape(g, r.0) && ZeroBorder(r.0) && AllInterior(r.0, r.1)
    ensures forall q :: On(r.0, q) <==> On(g, q) && q !in layer
    ensures FillMeasure(r.0, r.1) < FillMeasure(g, layer)
  {
    RoundShrinks(g, layer);
    Round(g, layer)
  }

  /** One more round of growth: what the later rounds clear comes on top of this round's layer. */
  lemma GrowStep(g: Mask, g': Mask, h: Mask, layer: seq<Pixel>, acc: seq<Pixel>, next: seq<Pixel>, rs: seq<Pixel>)
    requires forall q :: On(g', q) <==> On(g, q) && q !in layer
    requires |rs| >= |acc + layer| + |next| && rs[..|acc + layer| + |next|] == acc + layer + next
    requires forall q :: On(h, q) <==> On(g', q) && q !in rs[|acc + layer|..]
    ensures |rs| >= |acc| + |layer| && rs[..|acc| + |layer|] == acc + layer
    ensures forall q :: On(h, q) <==> On(g, q) && q !in rs[|acc|..]
  {
    PrefixFacts(rs, acc, layer, next);
  }

  lemma PrefixFacts(r: seq<Pixel>, acc: seq<Pixel>, layer: seq<Pixel>, next: seq<Pixel>)
    requires |r| >= |acc + layer| + |next| && r[..|acc + layer| + |next|] == acc + layer + next
    ensures |r| >= |acc| + |layer| && r[..|acc| + |layer|] == acc + layer
    ensures forall q :: q in r[|acc|..] <==> q in layer || q in r[|acc| + |layer|..]
  {
    assert r[..|acc| + |layer|] == r[..|acc + layer| + |next|][..|acc| + |layer|];
    assert r[|acc|..] == layer + r[|acc| + |layer|..];
  }

  /** A walk of king moves whose every pixel after the first is set in `g`. */
  ghost predicate IsWalk(g: Mask, w: seq<Pixel>) {
    |w| > 0 && forall i :: 1 <= i < |w| ==> On(g, w[i]) && Adjacent(w[i - 1], w[i])
  }

  /** `b` can be reached from `a` through set pixels; `a` itself need not be set. */
  ghost predicate Reaches(g: Mask, a: Pixel, b: Pixel) {
    exists w :: IsWalk(g, w) && w[0] == a && w[|w| - 1] == b
  }

  /** No set pixel adjacent to `C` lies outside it. */
  ghost predicate Closed(g: Mask, C: set<Pixel>) {
    forall x, y :: x in C && Adjacent(x, y) && On(g, y) ==> y in C
  }

  lemma ReachesSelf(g: Mask, a: Pixel)
    ensures Reaches(g, a, a)
  {
    assert IsWalk(g, [a]);
  }

  lemma ReachesStep(g: Mask, a: Pixel, b: Pixel, c: Pixel)
    requires Reaches(g, a, b) && Adjacent(b, c) && On(g, c)
    ensures Reaches(g, a, c)
  {
    var w :| IsWalk(g, w) && w[0] == a && w[|w| - 1] == b;
    assert IsWalk(g, w + [c]);
  }

  /** A closed set holding the start of a walk holds the whole walk. */
  lemma {:induction false} ClosedHoldsWalk(g: Mask, C: set<Pixel>, w: seq<Pixel>)
    requires Closed(g, C) && IsWalk(g, w) && w[0] in C
    ensures forall i :: 0 <= i < |w| ==> w[i] in C
    decreases |w|
  {
    if |w| > 1 {
      var v := w[..|w| - 1];
      assert IsWalk(g, v);
      ClosedHoldsWalk(g, C, v);
      assert w[|w| - 2] == v[|v| - 1];
    }
  }

  /** Everything reachable from a closed set stays inside it. */
  lemma ClosedHoldsReach(g: Mask, C: set<Pixel>, a: Pixel, b: Pixel)
    requires Closed(g, C) && a in C && Reaches(g, a, b)
    ensures b in C
  {
    var w :| IsWalk(g, w) && w[0] == a && w[|w| - 1] == b;
    ClosedHoldsWalk(g, C, w);
  }

  /** Clearing pixels only removes walks. */
  lemma ReachesShrinks(g: Mask, h: Mask, a: Pixel, b: Pixel)
    requires forall q :: On(h, q) ==> On(g, q)
    requires Reaches(h, a, b)
    ensures Reaches(g, a, b)
  {
    var w :| IsWalk(h, w) && w[0] == a && w[|w| - 1] == b;
    assert IsWalk(g, w);
  }

  /**
   The invariant of the fill from `seed` over the original mask `g0`: the
   current mask is `g0` less the recorded pixels; recorded and pending
   pixels are distinct, start with the seed and are reachable from it; and
   every set neighbour of a recorded pixel is pending.
   */
  ghost predicate FillInv(g0: Mask, seed: Pixel, g: Mask, layer: seq<Pixel>, acc: seq<Pixel>) {
    && SameShape(g0, g)
    && (forall q :: On(g, q) <==> On(g0, q) && q !in acc)
    && |acc + layer| > 0 && (acc + layer)[0] == seed
    && NoDups(acc + layer)
    && (forall q :: q in acc + layer ==> Reaches(g0, seed, q))
    && (forall a, q :: a in acc && Adjacent(a, q) && On(g, q) ==> q in layer)
  }

  /** What a completed fill from `seed` over `g0` delivers. */
  ghost predicate FillDone(g0: Mask, seed: Pixel, g: Mask, ids: seq<Pixel>) {
    && SameShape(g0, g)
    && |ids| > 0 && ids[0] == seed && NoDups(ids)
    && (forall q :: On(g, q) <==> On(g0, q) && q !in ids)
    && (forall q :: q in ids <==> Reaches(g0, seed, q))
  }

  lemma NoDupsAppend<T>(a: seq<T>, b: seq<T>)
    requires NoDups(a) && NoDups(b) && forall x :: x in b ==> x !in a
    ensures NoDups(a + b)
  {
    forall i, j | 0 <= i < j < |a + b| ensures (a + b)[i] != (a + b)[j] {
      if i < |a| && j >= |a| {
        assert (a + b)[j] in b;
      }
    }
  }

  /** One round of the fill keeps the invariant. */
  lemma FillStep(g0: Mask, seed: Pixel, g: Mask, layer: seq<Pixel>, acc: seq<Pixel>)
    requires ZeroBorder(g) && AllInterior(g, layer)
    requires FillInv(g0, seed, g, layer, acc)
    ensures FillInv(g0, seed, Round(g, layer).0, Round(g, layer).1, acc + layer)
  {
    var (g', next) := Round(g, layer);
    var acc' := acc + layer;
    assert forall q :: q in acc' <==> q in acc || q in layer;
    forall q | q in next ensures q !in acc' && Reaches(g0, seed, q) {
      var a :| a in layer && Adjacent(a, q);
      ReachesStep(g0, seed, a, q);
    }
    NoDupsAppend(acc', next);
    assert acc' + next == acc + (layer + next);
    assert |acc + layer| > 0 && (acc' + next)[0] == (acc + layer)[0];
  }

  /** A stopped fill has no set pixel next to anything it recorded. */
  lemma StoppedIsClosed(g0: Mask, seed: Pixel, g: Mask, layer: seq<Pixel>, acc: seq<Pixel>)
    requires ZeroBorder(g) && AllInterior(g, layer)
    requires FillInv(g0, seed, g, layer, acc)
    requires |Round(g, layer).1| == 0
    ensures forall x, y :: x in acc + layer && Adjacent(x, y) ==> !On(Round(g, layer).0, y)
  {
    var (g', next) := Round(g, layer);
    forall x, y | x in acc + layer && Adjacent(x, y) ensures !On(g', y) {
      assert x in acc || x in layer;
      assert y !in next;
    }
  }

  /** When the fill stops, the recorded pixels are closed, hence hold everything the seed reaches. */
  lemma FillStops(g0: Mask, seed: Pixel, g: Mask, layer: seq<Pixel>, acc: seq<Pixel>)
    requires ZeroBorder(g) && AllInterior(g, layer)
    requires FillInv(g0, seed, g, layer, acc)
    requires |Round(g, layer).1| == 0
    ensures FillDone(g0, seed, Round(g, layer).0, acc + layer)
  {
    var g' := Round(g, layer).0;
    var ids := acc + layer;
    assert forall q :: On(g', q) <==> On(g0, q) && q !in ids;
    StoppedIsClosed(g0, seed, g, layer, acc);
    assert Closed(g0, Elems(ids));
    forall q | Reaches(g0, seed, q) ensures q in ids {
      ClosedHoldsReach(g0, Elems(ids), seed, q);
    }
  }

  lemma {:induction false} GrowSpec(g0: Mask, seed: Pixel, g: Mask, layer: seq<Pixel>, acc: seq<Pixel>)
    requires ZeroBorder(g) && AllInterior(g, layer) && |layer| > 0
    requires FillInv(g0, seed, g, layer, acc)
    ensures FillDone(g0, seed, Grow(g, layer, acc).0, Grow(g, layer, acc).1)
    decreases FillMeasure(g, layer)
  {
    var (g', next) := Round(g, layer);
    if |next| == 0 {
      FillStops(g0, seed, g, layer, acc);
    } else {
      FillStep(g0, seed, g, layer, acc);
      RoundShrinks(g, layer);
      GrowSpec(g0, seed, g', next, acc + layer);
    }
  }

  /**
   The fill shared by remove_tick and grow_and_remove_number. It records
   the seed and exactly the pixels reachable from it, each once, seed
   first, and clears exactly those.
   */
  function Fill(g: Mask, seed: Pixel): (r: (Mask, seq<Pixel>))
    requires ZeroBorder(g) && Interior(g, seed)
    ensures FillDone(g, seed, r.0, r.1)
    ensures ZeroBorder(r.0)
  {
    ReachesSelf(g, seed);
    assert [] + [seed] == [seed];
    GrowSpec(g, seed, g, [seed], []);
    Grow(g, [seed], [])
  }

  /** remove_tick(pic, J, I): the fill seeded at (I, J). */
  function RemoveTick(g: Mask, J: int, I: int): (r: (Mask, seq<Pixel>))
    requires ZeroBorder(g) && Interior(g, (I, J))
    ensures FillDone(g, (I, J), r.0, r.1)
  {
    Fill(g, (I, J))
  }

  /** grow_and_remove_number(pic, startone): the fill seeded at `startone`. */
  function GrowAndRemoveNumber(g: Mask, start: Pixel): (r: (Mask, seq<Pixel>))
    requires ZeroBorder(g) && Interior(g, start)
    ensures FillDone(g, start, r.0, r.1)
  {
    Fill(g, start)
  }
}
