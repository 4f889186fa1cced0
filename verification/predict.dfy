/**
 Reading tick values (pic2func/predict.py: predict_digit,
 predict_tickvalues).

 The digit classifier is a parameter: any function from a digit picture
 to a digit 0..9. A tick's value is the decimal number its digits spell,
 read top to bottom; the first groups of pictures belong to the I axis
 ticks and the rest to the J axis ticks.
 */
module Predict {
  import opened Base
  import opened Mapping

  type Digit = d: int | 0 <= d <= 9

  /** predict_digit with a fixed model: `np.argmax` over the ten class scores. */
  type Classifier = Mask -> Digit

  function Pow10(n: nat): nat {
    if n == 0 then 1 else 10 * Pow10(n - 1)
  }

  /** `int(val)` where `val` concatenates the digits' `str`s: the decimal number the digits spell, leading zeros included. */
  function DecimalValue(ds: seq<Digit>): (v: nat)
    ensures v < Pow10(|ds|)
    decreases |ds|
  {
    if |ds| == 0 then 0 else DecimalValue(ds[..|ds| - 1]) * 10 + ds[|ds| - 1]
  }

  /** The `width` last decimal digits of `n`, with leading zeros. */
  function Render(n: nat, width: nat): (ds: seq<Digit>)
    ensures |ds| == width
    decreases width
  {
    if width == 0 then [] else Render(n / 10, width - 1) + [n % 10]
  }

  /** Reading a digit string and writing the value back with as many digits gives the string again. */
  lemma {:induction false} RenderValue(ds: seq<Digit>)
    ensures Render(DecimalValue(ds), |ds|) == ds
    decreases |ds|
  {
    if |ds| > 0 {
      var front := ds[..|ds| - 1];
      var v := DecimalValue(ds);
      assert v / 10 == DecimalValue(front) && v % 10 == ds[|ds| - 1];
      RenderValue(front);
      assert ds == front + [ds[|ds| - 1]];
    }
  }

  /** A value below `10^width` survives being written with `width` digits and read back. */
  lemma {:induction false} ValueRender(n: nat, width: nat)
    requires n < Pow10(width)
    ensures DecimalValue(Render(n, width)) == n
    decreases width
  {
    if width > 0 {
      var ds := Render(n, width);
      assert ds[..width - 1] == Render(n / 10, width - 1);
      ValueRender(n / 10, width - 1);
    }
  }

  /** The digits the classifier reads off a group of pictures, in order. */
  function ReadDigits(model: Classifier, pics: seq<Mask>): (ds: seq<Digit>)
    ensures |ds| == |pics| && forall k :: 0 <= k < |pics| ==> ds[k] == model(pics[k])
  {
    seq(|pics|, k requires 0 <= k < |pics| => model(pics[k]))
  }

  /** The value of one tick: its digits joined and parsed; `int("")` fails on a group with no picture. */
  function ReadValue(model: Classifier, pics: seq<Mask>): (r: Result<nat>)
    ensures r.Failure? <==> |pics| == 0
    ensures r.Failure? ==> r.error == EmptyDigitGroup
    ensures r.Success? ==> r.value < Pow10(|pics|) && Render(r.value, |pics|) == ReadDigits(model, pics)
  {
    if |pics| == 0 then Failure(EmptyDigitGroup)
    else
      RenderValue(ReadDigits(model, pics));
      Success(DecimalValue(ReadDigits(model, pics)))
  }

  /** Every zipped group has a picture. */
  predicate AllRead(ticks: seq<int>, groups: seq<seq<Mask>>) {
    forall k :: 0 <= k < Min(|ticks|, |groups|) ==> |groups[k]| > 0
  }

  /**
   `for tick, tickpics in zip(ticks, groups)`: one reported tick per pair,
   zip stopping at the shorter list.
   */
  function ReadTicks(model: Classifier, ticks: seq<int>, groups: seq<seq<Mask>>): (r: Result<seq<Tick>>)
    ensures r.Failure? <==> !AllRead(ticks, groups)
    ensures r.Failure? ==> r.error == EmptyDigitGroup
    ensures r.Success? ==> |r.value| == Min(|ticks|, |groups|)
    ensures r.Success? ==> forall k :: 0 <= k < |r.value| ==>
      && r.value[k].pos == ticks[k]
      && 0 <= r.value[k].value < Pow10(|groups[k]|)
      && Render(r.value[k].value, |groups[k]|) == ReadDigits(model, groups[k])
    decreases |ticks|
  {
    if |ticks| == 0 || |groups| == 0 then Success([])
    else
      var v :- ReadValue(model, groups[0]);
      var rest :- ReadTicks(model, ticks[1..], groups[1..]);
      Success([Tick(ticks[0], v)] + rest)
  }

  /**
   predict_tickvalues: the first `len(iticks)` groups (fewer when there are
   fewer groups) give the I axis ticks' values, the remaining groups the J
   axis ticks' values.
   */
  function PredictTickValues(model: Classifier, iticks: seq<int>, jticks: seq<int>, tickvals: seq<seq<Mask>>): (r: Result<(seq<Tick>, seq<Tick>)>)
    ensures var n := Min(|iticks|, |tickvals|);
      r.Success? <==> AllRead(iticks, tickvals[..n]) && AllRead(jticks, tickvals[n..])
    ensures r.Success? ==> ReadTicks(model, iticks, tickvals[..Min(|iticks|, |tickvals|)]) == Success(r.value.0)
    ensures r.Success? ==> ReadTicks(model, jticks, tickvals[Min(|iticks|, |tickvals|)..]) == Success(r.value.1)
  {
    var n := Min(|iticks|, |tickvals|);
    var ix :- ReadTicks(model, iticks, tickvals[..n]);
    var jy :- ReadTicks(model, jticks, tickvals[n..]);
    Success((ix, jy))
  }

  /**
   The I axis tick `k` of a successful read sits at `iticks[k]`, and its
   value, written with as many digits as its group has pictures, is the
   digits the classifier reads off group `k`.
   */
  lemma PredictTickValuesI(model: Classifier, iticks: seq<int>, jticks: seq<int>, tickvals: seq<seq<Mask>>, k: nat)
    requires PredictTickValues(model, iticks, jticks, tickvals).Success?
    requires k < |PredictTickValues(model, iticks, jticks, tickvals).value.0|
    ensures var t := PredictTickValues(model, iticks, jticks, tickvals).value.0[k];
      && k < |iticks| && k < |tickvals| && t.pos == iticks[k]
      && Render(t.value, |tickvals[k]|) == ReadDigits(model, tickvals[k])
      && t.value == DecimalValue(ReadDigits(model, tickvals[k]))
  {
    var n := Min(|iticks|, |tickvals|);
    var t := PredictTickValues(model, iticks, jticks, tickvals).value.0[k];
    assert tickvals[..n][k] == tickvals[k];
    ValueRender(t.value, |tickvals[k]|);
  }

  /** The J axis tick `k` likewise, read off group `min(len(iticks), len(tickvals)) + k`. */
  lemma PredictTickValuesJ(model: Classifier, iticks: seq<int>, jticks: seq<int>, tickvals: seq<seq<Mask>>, k: nat)
    requires PredictTickValues(model, iticks, jticks, tickvals).Success?
    requires k < |PredictTickValues(model, iticks, jticks, tickvals).value.1|
    ensures var n := Min(|iticks|, |tickvals|); var t := PredictTickValues(model, iticks, jticks, tickvals).value.1[k];
      && k < |jticks| && n + k < |tickvals| && t.pos == jticks[k]
      && Render(t.value, |tickvals[n + k]|) == ReadDigits(model, tickvals[n + k])
      && t.value == DecimalValue(ReadDigits(model, tickvals[n + k]))
  {
    var n := Min(|iticks|, |tickvals|);
    var t := PredictTickValues(model, iticks, jticks, tickvals).value.1[k];
    assert tickvals[n..][k] == tickvals[n + k];
    ValueRender(t.value, |tickvals[n + k]|);
  }
}
