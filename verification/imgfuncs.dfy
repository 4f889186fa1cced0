/**
 Channel extraction and frame conversion (pic2func/imgfuncs.py).

 A raster is a grid of RGB or RGBA colours with 8-bit channels. The black
 mask keeps pixels whose RGB mean is below a threshold; the red, green and
 blue masks keep pixels whose chosen channel exceeds a threshold while the
 RGB mean stays below 250, so that off-white background never registers as
 a colour. The alpha channel, when present, is ignored everywhere.
 */
module ImgFuncs {
  import opened Base

  type Channel = c: int | 0 <= c <= 255

  /** An RGB or RGBA colour. */
  type Colour = s: seq<Channel> | |s| == 3 || |s| == 4 witness [0, 0, 0]

  type Raster = seq<seq<Colour>>

  /** The brightness limit above which a colour counts as background. */
  const NearWhite: real := 250.0

  /** The sum of the red, green and blue channels. */
  function RgbSum(c: Colour): int {
    c[0] as int + c[1] as int + c[2] as int
  }

  function MeanRgb(c: Colour): real {
    RgbSum(c) as real / 3.0
  }

  /** One pixel of rgb2bw: 1 when the mean of the first three channels is below the threshold. */
  function BlackBit(c: Colour, threshold: int): (b: Bit)
    ensures b == 1 <==> RgbSum(c) < 3 * threshold
  {
    if MeanRgb(c) < threshold as real then 1 else 0
  }

  /** One pixel of rgb2r/rgb2g/rgb2b: the channel `ch` exceeds the threshold and the colour is not near-white. */
  function ColourBit(c: Colour, ch: nat, threshold: int): (b: Bit)
    requires ch < 3
    ensures b == 1 <==> c[ch] > threshold && RgbSum(c) < 750
  {
    if c[ch] > threshold && MeanRgb(c) < NearWhite then 1 else 0
  }

  function MapPixels(pic: Raster, f: Colour -> Bit): (m: Mask)
    ensures |m| == |pic|
    ensures forall i :: 0 <= i < |pic| ==> |m[i]| == |pic[i]|
    ensures forall i, j :: 0 <= i < |pic| && 0 <= j < |pic[i]| ==> m[i][j] == f(pic[i][j])
  {
    seq(|pic|, i requires 0 <= i < |pic| =>
      seq(|pic[i]|, j requires 0 <= j < |pic[i]| => f(pic[i][j])))
  }

  function RgbToBw(pic: Raster, threshold: int): (m: Mask)
    ensures |m| == |pic| && forall i :: 0 <= i < |pic| ==> |m[i]| == |pic[i]|
    ensures forall i, j :: 0 <= i < |pic| && 0 <= j < |pic[i]| ==>
      (m[i][j] == 1 <==> RgbSum(pic[i][j]) < 3 * threshold)
  {
    MapPixels(pic, c => BlackBit(c, threshold))
  }

  function ChannelMask(pic: Raster, ch: nat, threshold: int): (m: Mask)
    requires ch < 3
    ensures |m| == |pic| && forall i :: 0 <= i < |pic| ==> |m[i]| == |pic[i]|
    ensures forall i, j :: 0 <= i < |pic| && 0 <= j < |pic[i]| ==>
      (m[i][j] == 1 <==> pic[i][j][ch] > threshold && RgbSum(pic[i][j]) < 750)
  {
    MapPixels(pic, c => ColourBit(c, ch, threshold))
  }

  function RgbToR(pic: Raster, threshold: int): (m: Mask)
    ensures |m| == |pic| && forall i :: 0 <= i < |pic| ==> |m[i]| == |pic[i]|
    ensures forall i, j :: 0 <= i < |pic| && 0 <= j < |pic[i]| ==>
      (m[i][j] == 1 <==> pic[i][j][0] > threshold && RgbSum(pic[i][j]) < 750)
  {
    ChannelMask(pic, 0, threshold)
  }

  function RgbToG(pic: Raster, threshold: int): (m: Mask)
    ensures |m| == |pic| && forall i :: 0 <= i < |pic| ==> |m[i]| == |pic[i]|
    ensures forall i, j :: 0 <= i < |pic| && 0 <= j < |pic[i]| ==>
      (m[i][j] == 1 <==> pic[i][j][1] > threshold && RgbSum(pic[i][j]) < 750)
  {
    ChannelMask(pic, 1, threshold)
  }

  function RgbToB(pic: Raster, threshold: int): (m: Mask)
    ensures |m| == |pic| && forall i :: 0 <= i < |pic| ==> |m[i]| == |pic[i]|
    ensures forall i, j :: 0 <= i < |pic| && 0 <= j < |pic[i]| ==>
      (m[i][j] == 1 <==> pic[i][j][2] > threshold && RgbSum(pic[i][j]) < 750)
  {
    ChannelMask(pic, 2, threshold)
  }

  predicate IsWhite(c: Colour) {
    c[0] == 255 && c[1] == 255 && c[2] == 255
  }

  /** Pure white is never red, green or blue, whatever the threshold. */
  lemma WhiteIsNoColour(c: Colour, ch: nat, threshold: int)
    requires ch < 3
    ensures IsWhite(c) ==> ColourBit(c, ch, threshold) == 0
  {
  }

  /** At the default threshold 255, pure white is the only colour left out of the black mask. */
  lemma DefaultBlackMaskExcludesOnlyWhite(c: Colour)
    ensures BlackBit(c, 255) == 0 <==> IsWhite(c)
  {
  }

  /** The first two dimensions of a grid. */
  function GetXyDim<T>(pic: seq<seq<T>>): (d: (nat, nat))
    ensures IsRect(pic) ==> forall p :: InBounds(pic, p) <==> 0 <= p.0 < d.0 && 0 <= p.1 < d.1
  {
    (|pic|, Width(pic))
  }

  /** numpy's `.T` on a rectangular grid. */
  function Transpose<T>(g: seq<seq<T>>): (t: seq<seq<T>>)
    requires IsRect(g)
  {
    seq(Width(g), a requires 0 <= a < Width(g) => seq(|g|, b requires 0 <= b < |g| => g[b][a]))
  }

  /** numpy's `flip(axis=1)`: every row reversed. */
  function FlipRows<T>(g: seq<seq<T>>): seq<seq<T>> {
    seq(|g|, a requires 0 <= a < |g| => seq(|g[a]|, b requires 0 <= b < |g[a]| => g[a][|g[a]| - 1 - b]))
  }

  /** im2xyframe: transpose, then flip along the second axis. */
  function Im2XyFrame<T>(pic: seq<seq<T>>): (out: seq<seq<T>>)
    requires IsRect(pic)
    ensures IsRect(out)
    ensures |out| == Width(pic)
    ensures forall a :: 0 <= a < |out| ==> |out[a]| == |pic|
    ensures forall a, b :: 0 <= a < |out| && 0 <= b < |pic| ==> out[a][b] == pic[|pic| - 1 - b][a]
  {
    FlipRows(Transpose(pic))
  }

  /** xy2imframe: flip along the second axis, then transpose. */
  function Xy2ImFrame<T>(q: seq<seq<T>>): (out: seq<seq<T>>)
    requires IsRect(q)
    ensures IsRect(out)
    ensures |out| == Width(q)
    ensures forall a :: 0 <= a < |out| ==> |out[a]| == |q|
    ensures forall a, b :: 0 <= a < |out| && 0 <= b < |q| ==> out[a][b] == q[b][Width(q) - 1 - a]
  {
    var f := FlipRows(q);
    assert IsRect(f) by {
      forall i | 0 <= i < |f| ensures |f[i]| == Width(f) {
      }
    }
    Transpose(f)
  }

  /** Converting to the ij frame and back restores every non-degenerate grid. */
  lemma ImXyRoundTrip<T>(p: seq<seq<T>>)
    requires IsRect(p) && |p| > 0 && Width(p) > 0
    ensures Xy2ImFrame(Im2XyFrame(p)) == p
  {
    var q := Im2XyFrame(p);
    var r := Xy2ImFrame(q);
    assert |r| == |p|;
    forall a | 0 <= a < |p| ensures r[a] == p[a] {
      assert |r[a]| == |p[a]|;
      forall b | 0 <= b < |p[a]| ensures r[a][b] == p[a][b] {
        assert r[a][b] == q[b][|p| - 1 - a];
      }
    }
  }

  /** Converting to the image frame and back restores every non-degenerate grid. */
  lemma XyImRoundTrip<T>(q: seq<seq<T>>)
    requires IsRect(q) && |q| > 0 && Width(q) > 0
    ensures Im2XyFrame(Xy2ImFrame(q)) == q
  {
    var p := Xy2ImFrame(q);
    var r := Im2XyFrame(p);
    assert |r| == |q|;
    forall a | 0 <= a < |q| ensures r[a] == q[a] {
      assert |r[a]| == |q[a]|;
      forall b | 0 <= b < |q[a]| ensures r[a][b] == q[a][b] {
        assert r[a][b] == p[|p| - 1 - b][a];
      }
    }
  }
}
