/**
 Shared vocabulary of the pic2func model: binary masks over a pixel grid,
 pixel coordinates, the error taxonomy of the pipeline, a failure-compatible
 Result type and a few sequence helpers (first-occurrence argmin/argmax,
 duplicate-freedom, element sets).
 */
module Base {

  /** One cell of a binary mask: 1 marks "this pixel belongs to the channel". */
  type Bit = b: int | 0 <= b <= 1

  /** A pixel coordinate (I, J): I indexes the first grid axis, J the second. */
  type Pixel = (int, int)

  /** A binary mask, stored row by row. */
  type Mask = seq<seq<Bit>>

  /** The exceptions the pipeline can raise, plus the model's refusal of non-finite scales. */
  datatype Error =
    | TickNotClosed          // a run of 1s on an axis line is never closed
    | TickCountMismatch      // the sanity assertion that starts and stops pair up
    | AxisOutOfRange         // an axis index that does not address a row or column
    | NoDigitForTick         // a tick is left without a glyph to claim
    | EmptyCurve             // no red pixel at all
    | NoTicksOnIAxis
    | NoTicksOnJAxis
    | TooManyTicks           // more than two ticks on one axis
    | LoneTickAtZero         // a single tick whose pixel position is 0
    | DegenerateScale        // coincident reference pixels or equal reference values
    | EmptyDigitGroup        // int("") on a tick without digits
    | NoTickForDigit         // a glyph is left over but there is no tick group to join
    | EmptyNumber            // a number without glyphs: `zip(*sorted([]))` has nothing to unpack
    | TiedTopRows            // two glyphs of a number share their top row: sorting compares their arrays

  datatype Result<+T> = Success(value: T) | Failure(error: Error) {
    predicate IsFailure() {
      Failure?
    }

    function PropagateFailure<U>(): Result<U>
      requires Failure?
    {
      Failure(error)
    }

    function Extract(): T
      requires Success?
    {
      value
    }
  }

  datatype Option<+T> = None | Some(value: T)

  function Width<T>(g: seq<seq<T>>): nat {
    if |g| == 0 then 0 else |g[0]|
  }

  /** Every row has the width of the first one. */
  predicate IsRect<T>(g: seq<seq<T>>) {
    forall i :: 0 <= i < |g| ==> |g[i]| == Width(g)
  }

  predicate InBounds<T>(g: seq<seq<T>>, p: Pixel) {
    0 <= p.0 < |g| && 0 <= p.1 < |g[p.0]|
  }

  /** The pixel is set in the mask. */
  predicate On(g: Mask, p: Pixel) {
    InBounds(g, p) && g[p.0][p.1] == 1
  }

  /** The set of pixels that are 1 in the mask. */
  function Ones(g: Mask): (s: set<Pixel>)
    ensures forall p :: p in s <==> On(g, p)
  {
    set i, j | 0 <= i < |g| && 0 <= j < |g[i]| && g[i][j] == 1 :: (i, j)
  }

  /** The pixel is at least one step away from every edge of the grid. */
  predicate Interior<T>(g: seq<seq<T>>, p: Pixel) {
    1 <= p.0 && p.0 + 1 < |g| && 1 <= p.1 && p.1 + 1 < Width(g)
  }

  /** A rectangular mask whose 1-pixels all keep off the outermost rows and columns. */
  ghost predicate ZeroBorder(g: Mask) {
    IsRect(g) && forall p :: On(g, p) ==> Interior(g, p)
  }

  predicate NoDups<T(==)>(s: seq<T>) {
    forall i, j :: 0 <= i < j < |s| ==> s[i] != s[j]
  }

  function Elems<T>(s: seq<T>): set<T> {
    set x | x in s
  }

  function Min(a: int, b: int): int {
    if a <= b then a else b
  }

  function Max(a: int, b: int): int {
    if a >= b then a else b
  }

  /** `np.max` of a non-empty sequence. */
  function MaxOf(s: seq<int>): (m: int)
    requires |s| > 0
    ensures forall k :: 0 <= k < |s| ==> s[k] <= m
    ensures exists k :: 0 <= k < |s| && s[k] == m
  {
    if |s| == 1 then s[0]
    else
      var m := MaxOf(s[..|s| - 1]);
      assert s[..|s| - 1][|s| - 2] == s[|s| - 2];
      Max(m, s[|s| - 1])
  }

  /** `np.min` of a non-empty sequence. */
  function MinOf(s: seq<int>): (m: int)
    requires |s| > 0
    ensures forall k :: 0 <= k < |s| ==> m <= s[k]
    ensures exists k :: 0 <= k < |s| && s[k] == m
  {
    if |s| == 1 then s[0]
    else
      var m := MinOf(s[..|s| - 1]);
      assert s[..|s| - 1][|s| - 2] == s[|s| - 2];
      Min(m, s[|s| - 1])
  }

  /** Python's `int(x / 2)`: halving truncated toward zero. */
  function TruncHalf(x: int): int {
    if x >= 0 then x / 2 else -((-x) / 2)
  }

  /** numpy's argmin: the FIRST index holding the smallest value. */
  function ArgMin(s: seq<int>): (k: nat)
    requires |s| > 0
    ensures k < |s|
    ensures forall i :: 0 <= i < |s| ==> s[k] <= s[i]
    ensures forall i :: 0 <= i < k ==> s[k] < s[i]
  {
    if |s| == 1 then 0
    else
      var k := ArgMin(s[..|s| - 1]);
      if s[|s| - 1] < s[k] then |s| - 1 else k
  }

  /** numpy's argmax: the FIRST index holding the largest value. */
  function ArgMax(s: seq<int>): (k: nat)
    requires |s| > 0
    ensures k < |s|
    ensures forall i :: 0 <= i < |s| ==> s[i] <= s[k]
    ensures forall i :: 0 <= i < k ==> s[i] < s[k]
  {
    if |s| == 1 then 0
    else
      var k := ArgMax(s[..|s| - 1]);
      if s[|s| - 1] > s[k] then |s| - 1 else k
  }

  /** Keeps the first occurrence of every element, in order. */
  function Dedup<T(==, !new)>(s: seq<T>): (r: seq<T>)
    ensures NoDups(r)
    ensures forall x :: x in r <==> x in s
    ensures |r| <= |s|
  {
    if |s| == 0 then []
    else
      var r := Dedup(s[..|s| - 1]);
      assert forall x :: x in s <==> x in s[..|s| - 1] || x == s[|s| - 1] by {
        assert s == s[..|s| - 1] + [s[|s| - 1]];
      }
      if s[|s| - 1] in r then r else r + [s[|s| - 1]]
  }

  lemma {:induction false} SubsetCard<T>(A: set<T>, B: set<T>)
    requires A <= B
    ensures |A| <= |B|
    decreases A
  {
    if A != {} {
      var x :| x in A;
      SubsetCard(A - {x}, B - {x});
    }
  }

  lemma ProperSubsetCard<T>(A: set<T>, B: set<T>)
    requires A < B
    ensures |A| < |B|
  {
    var x :| x in B && x !in A;
    SubsetCard(A, B - {x});
  }
}
