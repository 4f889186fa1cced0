/**
 From groups to digit canvases (pic2func/detect.py: get_numbers_from_groups,
 sort_digits_in_numbers, reshape_numbers, make_square).

 The glyphs of each tick are ordered by their top row and each glyph is
 drawn on a square canvas, centred, with a margin of an eighth of its
 larger extent on every side.
 */
module Canvas {
  import opened Base
  import opened Glyphs
  import opened Sorting

  /** The row coordinates of a glyph's pixels, `digit[:, 0]`. */
  function Rows(o: Obj): (r: seq<int>)
    ensures |r| == |o| && forall k :: 0 <= k < |o| ==> r[k] == o[k].0
  {
    seq(|o|, k requires 0 <= k < |o| => o[k].0)
  }

  /** The column coordinates of a glyph's pixels, `digit[:, 1]`. */
  function Cols(o: Obj): (r: seq<int>)
    ensures |r| == |o| && forall k :: 0 <= k < |o| ==> r[k] == o[k].1
  {
    seq(|o|, k requires 0 <= k < |o| => o[k].1)
  }

  /** `np.min(digit[:, 0])`: the glyph's top row, the sort key (a glyph always has a pixel). */
  function TopRow(o: Obj): int {
    if |o| == 0 then 0 else MinOf(Rows(o))
  }

  /**
   A number sort_digits_in_numbers cannot sort: it has no glyph, so there
   is nothing to unpack, or two of its glyphs share their top row, so the
   sort goes on to compare the glyphs' pixel arrays, whose truth value is
   ambiguous.
   */
  predicate Unsortable(number: seq<Obj>) {
    |number| == 0 || Tied(TopRow, number)
  }

  /**
   One number of sort_digits_in_numbers: its glyphs ordered top to bottom,
   sorted twice as the source does. Every glyph has a pixel, as every fill
   records its seed; the source's `np.min` needs one.
   */
  function SortDigits(number: seq<Obj>): (r: Result<seq<Obj>>)
    requires AllNonEmpty(number)
    ensures r.Failure? <==> Unsortable(number)
    ensures r.Failure? ==> r.error == SortError(number)
    ensures r.Success? ==> multiset(r.value) == multiset(number) && StrictlyByKey(TopRow, r.value)
  {
    if |number| == 0 then Failure(EmptyNumber)
    else if Tied(TopRow, number) then Failure(TiedTopRows)
    else
      var s := SortByKey(TopRow, SortByKey(TopRow, number));
      assert !Tied(TopRow, s) by {
        if Tied(TopRow, s) {
          TiedPerm(TopRow, s, number);
        }
      }
      Success(s)
  }

  /** A sortable number has exactly one top-to-bottom order, and SortDigits returns it. */
  lemma SortDigitsUnique(number: seq<Obj>, t: seq<Obj>)
    requires |number| > 0 && AllNonEmpty(number) && multiset(t) == multiset(number) && StrictlyByKey(TopRow, t)
    ensures SortDigits(number) == Success(t)
  {
    assert !Tied(TopRow, number) by {
      if Tied(TopRow, number) {
        TiedPerm(TopRow, number, t);
      }
    }
    StrictSortUnique(TopRow, SortDigits(number).value, t);
  }

  /** Some number of the groups cannot be sorted. */
  predicate AnyUnsortable(groups: seq<Group>) {
    exists k :: 0 <= k < |groups| && Unsortable(GlyphsOf(groups[k]))
  }

  /** Group `k` is the first whose number cannot be sorted. */
  predicate FirstFailing(groups: seq<Group>, k: nat)
    requires k < |groups|
  {
    Unsortable(GlyphsOf(groups[k])) && forall j :: 0 <= j < k ==> !Unsortable(GlyphsOf(groups[j]))
  }

  /** The error sorting an unsortable number raises. */
  function SortError(number: seq<Obj>): Error {
    if |number| == 0 then EmptyNumber else TiedTopRows
  }

  /** The first group from `i` on whose number cannot be sorted. */
  function FirstUnsortable(groups: seq<Group>, i: nat): (k: nat)
    requires exists k :: i <= k < |groups| && Unsortable(GlyphsOf(groups[k]))
    ensures i <= k < |groups| && Unsortable(GlyphsOf(groups[k]))
    ensures forall j :: i <= j < k ==> !Unsortable(GlyphsOf(groups[j]))
    decreases |groups| - i
  {
    if Unsortable(GlyphsOf(groups[i])) then i else FirstUnsortable(groups, i + 1)
  }

  /**
   get_numbers_from_groups: each group without its tick, its glyphs ordered
   top to bottom. The sorting loop stops at the first number it cannot
   sort, with that number's error.
   */
  function NumbersFromGroups(groups: seq<Group>): (r: Result<seq<seq<Obj>>>)
    requires forall k :: 0 <= k < |groups| ==> AllNonEmpty(GlyphsOf(groups[k]))
    ensures r.Failure? <==> AnyUnsortable(groups)
    ensures r.Failure? ==> exists k :: 0 <= k < |groups| && FirstFailing(groups, k) && r.error == SortError(GlyphsOf(groups[k]))
    ensures r.Success? ==> |r.value| == |groups|
    ensures r.Success? ==> forall k :: 0 <= k < |groups| ==>
      StrictlyByKey(TopRow, r.value[k]) && multiset(r.value[k]) == multiset(GlyphsOf(groups[k]))
  {
    if AnyUnsortable(groups) then
      var k := FirstUnsortable(groups, 0);
      Failure(SortDigits(GlyphsOf(groups[k])).error)
    else
      Success(seq(|groups|, k requires 0 <= k < |groups| && AllNonEmpty(GlyphsOf(groups[k])) && !Unsortable(GlyphsOf(groups[k])) =>
        SortDigits(GlyphsOf(groups[k])).value))
  }

  /**
   The bounding box of a glyph: top-left corner and extents. `height` and
   `width` are the source's `I_max + 1` and `J_max + 1` once the glyph is
   moved to the origin.
   */
  datatype Frame = Frame(top: int, left: int, height: nat, width: nat)

  /** The smallest box holding the glyph: it holds every pixel, and a pixel touches each of its four sides. */
  function FrameOf(o: Obj): (f: Frame)
    requires |o| > 0
    ensures f.height > 0 && f.width > 0
    ensures forall k :: 0 <= k < |o| ==> f.top <= o[k].0 < f.top + f.height && f.left <= o[k].1 < f.left + f.width
    ensures exists k :: 0 <= k < |o| && o[k].0 == f.top
    ensures exists k :: 0 <= k < |o| && o[k].0 == f.top + f.height - 1
    ensures exists k :: 0 <= k < |o| && o[k].1 == f.left
    ensures exists k :: 0 <= k < |o| && o[k].1 == f.left + f.width - 1
  {
    var top, left := MinOf(Rows(o)), MinOf(Cols(o));
    Frame(top, left, MaxOf(Rows(o)) - top + 1, MaxOf(Cols(o)) - left + 1)
  }

  /** `N_max`: the larger extent. */
  function Extent(f: Frame): nat {
    Max(f.height, f.width)
  }

  /** `shift = int(N_max / 8)`: the margin. */
  function Margin(f: Frame): nat {
    Extent(f) / 8
  }

  /** The side of the canvas, `N_max + 2 * shift`. */
  function Side(f: Frame): nat {
    Extent(f) + 2 * Margin(f)
  }

  /** `delta = int((J_max - I_max) / 2)`: half the excess of width over height, truncated toward zero. */
  function Delta(f: Frame): int {
    TruncHalf(f.width - f.height)
  }

  /** Where make_square puts the glyph's top-left corner: the `(row, column)` offsets. */
  datatype Offsets = Offsets(row: int, col: int)

  /**
   The offsets as written: a wide glyph (`delta > 0`) moves down by `delta`,
   a tall one (`delta < 0`) moves its columns by `delta`, that is LEFT.
   */
  function OffsetsAsWritten(f: Frame): Offsets {
    var shift, delta := Margin(f), Delta(f);
    if delta > 0 then Offsets(shift + delta, shift)
    else if delta < 0 then Offsets(shift, shift + delta)
    else Offsets(shift, shift)
  }

  /** The offsets as intended: the narrower extent is centred, so a tall glyph moves right by `-delta`. */
  function CentredOffsets(f: Frame): Offsets {
    var shift, delta := Margin(f), Delta(f);
    if delta > 0 then Offsets(shift + delta, shift)
    else if delta < 0 then Offsets(shift, shift - delta)
    else Offsets(shift, shift)
  }

  /** Where pixel `p` of a glyph with frame `f` lands for offsets `off`. */
  function Placed(f: Frame, off: Offsets, p: Pixel): Pixel {
    (p.0 - f.top + off.row, p.1 - f.left + off.col)
  }

  /** The margins on the four sides: the distance from the glyph's box to the canvas edge. */
  function TopMargin(f: Frame, off: Offsets): int { off.row }
  function BottomMargin(f: Frame, off: Offsets): int { Side(f) - off.row - f.height }
  function LeftMargin(f: Frame, off: Offsets): int { off.col }
  function RightMargin(f: Frame, off: Offsets): int { Side(f) - off.col - f.width }

  lemma TruncHalfBounds(x: int)
    ensures x >= 0 ==> 0 <= x - 2 * TruncHalf(x) <= 1
    ensures x < 0 ==> 0 <= 2 * TruncHalf(x) - x <= 1
  {
  }

  /**
   With the centred offsets the glyph's box lies inside the canvas, every
   margin is at least `shift`, and opposite margins differ by at most one.
   */
  lemma CentredMargins(f: Frame)
    requires f.height > 0 && f.width > 0
    ensures var off := CentredOffsets(f);
      && Margin(f) <= TopMargin(f, off) && Margin(f) <= BottomMargin(f, off)
      && Margin(f) <= LeftMargin(f, off) && Margin(f) <= RightMargin(f, off)
      && -1 <= TopMargin(f, off) - BottomMargin(f, off) <= 1
      && -1 <= LeftMargin(f, off) - RightMargin(f, off) <= 1
  {
    TruncHalfBounds(f.width - f.height);
  }

  /** As written, a glyph taller than wide by at least `2 * shift + 2` starts left of the canvas edge. */
  lemma AsWrittenOverhangs(f: Frame)
    requires f.height - f.width >= 2 * Margin(f) + 2
    ensures LeftMargin(f, OffsetsAsWritten(f)) < 0
  {
    TruncHalfBounds(f.width - f.height);
  }

  /** The glyph lies in the frame `f`. */
  predicate InFrame(o: Obj, f: Frame) {
    forall k :: 0 <= k < |o| ==> f.top <= o[k].0 < f.top + f.height && f.left <= o[k].1 < f.left + f.width
  }

  /** The offsets leave the frame's box inside the canvas. */
  predicate Fits(f: Frame, off: Offsets) {
    TopMargin(f, off) >= 0 && BottomMargin(f, off) >= 0 && LeftMargin(f, off) >= 0 && RightMargin(f, off) >= 0
  }

  /** The canvas of side `Side(f)` holding a 1 exactly where some pixel of `o` lands. */
  function Draw(o: Obj, f: Frame, off: Offsets): (m: Mask)
    ensures |m| == Side(f) && forall a :: 0 <= a < |m| ==> |m[a]| == Side(f)
  {
    seq(Side(f), a => seq(Side(f), b => if (a - off.row + f.top, b - off.col + f.left) in o then 1 else 0))
  }

  /** When the box fits, every pixel of the glyph lands on a 1 inside the canvas. */
  lemma DrawShows(o: Obj, f: Frame, off: Offsets, k: nat)
    requires InFrame(o, f) && Fits(f, off) && k < |o|
    ensures InBounds(Draw(o, f, off), Placed(f, off, o[k])) && On(Draw(o, f, off), Placed(f, off, o[k]))
  {
    var q := Placed(f, off, o[k]);
    assert (q.0 - off.row + f.top, q.1 - off.col + f.left) == o[k];
  }

  /** Every 1 on the canvas is where some pixel of the glyph landed. */
  lemma DrawExact(o: Obj, f: Frame, off: Offsets, a: int, b: int)
    ensures On(Draw(o, f, off), (a, b)) <==> InBounds(Draw(o, f, off), (a, b)) && exists k :: 0 <= k < |o| && Placed(f, off, o[k]) == (a, b)
  {
    var m := Draw(o, f, off);
    var q := (a - off.row + f.top, b - off.col + f.left);
    if InBounds(m, (a, b)) && exists k :: 0 <= k < |o| && Placed(f, off, o[k]) == (a, b) {
      var k :| 0 <= k < |o| && Placed(f, off, o[k]) == (a, b);
      assert o[k] == q;
    }
    if On(m, (a, b)) {
      assert q in o;
      var k :| 0 <= k < |o| && o[k] == q;
      assert Placed(f, off, o[k]) == (a, b);
    }
  }

  /** make_square as intended: the glyph drawn on a square canvas with the centred offsets. */
  function MakeSquare(o: Obj): (m: Mask)
    requires |o| > 0
    ensures |m| == Side(FrameOf(o)) && forall a :: 0 <= a < |m| ==> |m[a]| == |m|
  {
    Draw(o, FrameOf(o), CentredOffsets(FrameOf(o)))
  }

  /** The frame MakeSquare measures holds the glyph, and the centred offsets fit it on the canvas. */
  lemma MakeSquareFits(o: Obj)
    requires |o| > 0
    ensures InFrame(o, FrameOf(o)) && Fits(FrameOf(o), CentredOffsets(FrameOf(o)))
  {
    CentredMargins(FrameOf(o));
  }

  /**
   The intended canvas shows the glyph exactly: a cell is 1 if and only if
   it lies on the canvas and some pixel of the glyph lands on it.
   */
  lemma MakeSquareExact(o: Obj, a: int, b: int)
    requires |o| > 0
    ensures var f := FrameOf(o); var m := MakeSquare(o);
      On(m, (a, b)) <==> InBounds(m, (a, b)) && exists k :: 0 <= k < |o| && Placed(f, CentredOffsets(f), o[k]) == (a, b)
  {
    DrawExact(o, FrameOf(o), CentredOffsets(FrameOf(o)), a, b);
  }

  /** Each pixel of the glyph shows on the intended canvas, inside it. */
  lemma MakeSquareShows(o: Obj, k: nat)
    requires k < |o|
    ensures var f := FrameOf(o); var m := MakeSquare(o);
      InBounds(m, Placed(f, CentredOffsets(f), o[k])) && On(m, Placed(f, CentredOffsets(f), o[k]))
  {
    MakeSquareFits(o);
    DrawShows(o, FrameOf(o), CentredOffsets(FrameOf(o)), k);
  }

  /**
   make_square as written. Cells are written through Python indexing, so a
   column `j + shift + delta` below zero wraps to the right part of the row.
   A cell is 1 when some pixel's column lands on it directly or wraps onto it.
   */
  function MakeSquareAsWritten(o: Obj): (m: Mask)
    requires |o| > 0
    ensures |m| == Side(FrameOf(o)) && forall a :: 0 <= a < |m| ==> |m[a]| == |m|
  {
    var f := FrameOf(o);
    var off := OffsetsAsWritten(f);
    var n := Side(f);
    seq(n, a => seq(n, b =>
      if (a - off.row + f.top, b - off.col + f.left) in o || (a - off.row + f.top, b - n - off.col + f.left) in o then 1 else 0))
  }

  /** For a glyph at least as wide as tall no column wraps and the source draws the intended canvas. */
  lemma AsWrittenAgrees(o: Obj)
    requires |o| > 0 && Delta(FrameOf(o)) >= 0
    ensures MakeSquareAsWritten(o) == MakeSquare(o)
  {
    var f := FrameOf(o);
    var off := CentredOffsets(f);
    var n := Side(f);
    var w, c := MakeSquareAsWritten(o), MakeSquare(o);
    assert OffsetsAsWritten(f) == off && off.col >= 0;
    forall a | 0 <= a < n ensures w[a] == c[a] {
      forall b | 0 <= b < n ensures w[a][b] == c[a][b] {
        var q := (a - off.row + f.top, b - n - off.col + f.left);
        forall k | 0 <= k < |o| ensures o[k] != q {
          assert f.left <= o[k].1;
        }
      }
    }
  }

  /** The glyph with pixels (0, 0) and (20, 6): 21 rows, 7 columns, margin 2, `delta = -7`. */
  lemma TallFrame()
    ensures var f := FrameOf([(0, 0), (20, 6)]);
      && f == Frame(0, 0, 21, 7) && Side(f) == 25
      && OffsetsAsWritten(f) == Offsets(2, -5) && CentredOffsets(f) == Offsets(2, 9)
  {
    var o := [(0, 0), (20, 6)];
    assert Rows(o) == [0, 20] && Cols(o) == [0, 6];
    assert [0, 20][..1] == [0] && [0, 6][..1] == [0];
  }

  /**
   As written the tall glyph's left pixel wraps to column 20 and its right
   one lands at column 1: the glyph is split, with its left part wrapped to
   the right edge.
   */
  lemma MakeSquareWraps()
    ensures var w := MakeSquareAsWritten([(0, 0), (20, 6)]);
      On(w, (2, 20)) && On(w, (22, 1)) && !On(w, (2, 9)) && !On(w, (22, 15))
  {
    var o := [(0, 0), (20, 6)];
    TallFrame();
    assert (0, 0) in o && (20, 6) in o;
    assert (0, 7) !in o && (20, 14) !in o && (0, -18) !in o && (20, -11) !in o;
  }

  /** Centred, the same glyph lands at columns 9 and 15. */
  lemma MakeSquareCentresTall()
    ensures var m := MakeSquare([(0, 0), (20, 6)]);
      On(m, (2, 9)) && On(m, (22, 15))
  {
    var o := [(0, 0), (20, 6)];
    TallFrame();
    MakeSquareShows(o, 0);
    MakeSquareShows(o, 1);
  }

  /** Every glyph of every number has a pixel. */
  predicate AllGlyphsNonEmpty(numbers: seq<seq<Obj>>) {
    forall k, m :: 0 <= k < |numbers| && 0 <= m < |numbers[k]| ==> |numbers[k][m]| > 0
  }

  /**
   reshape_numbers as written: every glyph of every number replaced by the
   canvas make_square draws as written, numbers and glyph order kept.
   */
  function ReshapeNumbersAsWritten(numbers: seq<seq<Obj>>): (r: seq<seq<Mask>>)
    requires AllGlyphsNonEmpty(numbers)
    ensures |r| == |numbers| && forall k :: 0 <= k < |numbers| ==> |r[k]| == |numbers[k]|
    ensures forall k, m :: 0 <= k < |numbers| && 0 <= m < |numbers[k]| ==> r[k][m] == MakeSquareAsWritten(numbers[k][m])
  {
    seq(|numbers|, k requires 0 <= k < |numbers| && AllGlyphsNonEmpty(numbers) =>
      seq(|numbers[k]|, m requires 0 <= m < |numbers[k]| && |numbers[k][m]| > 0 => MakeSquareAsWritten(numbers[k][m])))
  }

  /** reshape_numbers with make_square as intended: the glyphs drawn centred. */
  function ReshapeNumbers(numbers: seq<seq<Obj>>): (r: seq<seq<Mask>>)
    requires AllGlyphsNonEmpty(numbers)
    ensures |r| == |numbers| && forall k :: 0 <= k < |numbers| ==> |r[k]| == |numbers[k]|
    ensures forall k, m :: 0 <= k < |numbers| && 0 <= m < |numbers[k]| ==> r[k][m] == MakeSquare(numbers[k][m])
  {
    seq(|numbers|, k requires 0 <= k < |numbers| && AllGlyphsNonEmpty(numbers) =>
      seq(|numbers[k]|, m requires 0 <= m < |numbers[k]| && |numbers[k][m]| > 0 => MakeSquare(numbers[k][m])))
  }

  /** When no glyph is taller than wide, the source's reshape_numbers draws exactly the intended canvases. */
  lemma ReshapeAsWrittenAgrees(numbers: seq<seq<Obj>>)
    requires AllGlyphsNonEmpty(numbers)
    requires forall k, m :: 0 <= k < |numbers| && 0 <= m < |numbers[k]| ==> Delta(FrameOf(numbers[k][m])) >= 0
    ensures ReshapeNumbersAsWritten(numbers) == ReshapeNumbers(numbers)
  {
    var w, c := ReshapeNumbersAsWritten(numbers), ReshapeNumbers(numbers);
    forall k | 0 <= k < |numbers| ensures w[k] == c[k] {
      forall m | 0 <= m < |numbers[k]| ensures w[k][m] == c[k][m] {
        AsWrittenAgrees(numbers[k][m]);
      }
    }
  }

  /** On a number holding the tall glyph the two differ: the source tears the glyph apart. */
  lemma ReshapeAsWrittenDiffers()
    ensures ReshapeNumbersAsWritten([[[(0, 0), (20, 6)]]]) != ReshapeNumbers([[[(0, 0), (20, 6)]]])
  {
    var o := [(0, 0), (20, 6)];
    MakeSquareWraps();
    MakeSquareCentresTall();
    assert ReshapeNumbersAsWritten([[o]])[0][0] == MakeSquareAsWritten(o);
    assert ReshapeNumbers([[o]])[0][0] == MakeSquare(o);
  }
}
