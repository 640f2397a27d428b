/** The colour-map helpers of the map styles: thinning a colour map to a
    bounded number of entries, turning unit RGB triples into map-style
    colours, and building the `interpolate-hcl` style expressions that colour
    roads by event count and by overtaking distance. Style expressions are
    JSON values; a small evaluator gives meaning to the `get`, `to-boolean`,
    `!` and `case` forms they are built from. */
module MapStyles {
  import opened Numerics
  import ColorRamp

  /** A JSON value of a map-style expression. `NaN` is the number that
      `0 / 0` produces. */
  datatype Expr =
    | Null
    | Bool(b: bool)
    | Num(x: real)
    | NaN
    | Str(s: string)
    | Arr(items: seq<Expr>)

  // ---------------------------------------------------------------------
  // simplifyColormap

  /** `Math.ceil(colormap.length / maxCount)`: the stride between the
      entries that are kept. */
  function Stride(len: nat, maxCount: int): (step: int)
    requires maxCount >= 1
    ensures len == 0 <==> step == 0
    ensures len > 0 ==> step >= 1 && (step - 1) * maxCount < len <= step * maxCount
  {
    CeilQuotient(len, maxCount);
    assert len > 0 ==> len as real / maxCount as real > 0.0;
    Ceil(len as real / maxCount as real)
  }

  /** `simplifyColormap(colormap, maxCount)`: every `step`-th entry, starting
      with the first, for as long as the index stays inside the colour map. */
  method SimplifyColormap<T>(colormap: seq<T>, maxCount: int) returns (result: seq<T>)
    requires maxCount >= 1
    ensures forall k :: 0 <= k < |result| ==>
      k * Stride(|colormap|, maxCount) < |colormap| && result[k] == colormap[k * Stride(|colormap|, maxCount)]
    ensures |colormap| == 0 <==> result == []
    ensures |colormap| > 0 ==>
      (|result| - 1) * Stride(|colormap|, maxCount) < |colormap| <= |result| * Stride(|colormap|, maxCount)
    ensures |result| <= maxCount
    ensures |colormap| > 0 ==> result[0] == colormap[0]
    ensures |colormap| <= maxCount ==> result == colormap
  {
    var step := Stride(|colormap|, maxCount);
    result := [];
    var i := 0;
    while i < |colormap|
      invariant i == |result| * step
      invariant |result| > 0 ==> (|result| - 1) * step < |colormap|
      invariant forall k :: 0 <= k < |result| ==> k * step < |colormap| && result[k] == colormap[k * step]
      decreases |colormap| - i
    {
      result := result + [colormap[i]];
      i := i + step;
    }
    if |colormap| > 0 {
      SimplifiedBounds(colormap, maxCount, result);
      if |colormap| <= maxCount {
        ShortColormapKept(colormap, maxCount, result);
      }
    }
  }

  /** As many entries as fit at one stride apart are never more than
      `maxCount`. */
  lemma SimplifiedBounds<T>(colormap: seq<T>, maxCount: int, result: seq<T>)
    requires maxCount >= 1 && |colormap| > 0
    requires (|result| - 1) * Stride(|colormap|, maxCount) < |colormap| <= |result| * Stride(|colormap|, maxCount)
    ensures |result| <= maxCount
  {
    var step := Stride(|colormap|, maxCount);
    assert (|result| - 1) * step < step * maxCount;
    if |result| - 1 >= maxCount {
      MulMonotone(maxCount, |result| - 1, step);
    }
  }

  lemma MulMonotone(x: int, y: int, m: int)
    requires x <= y && m >= 0
    ensures x * m <= y * m
  {
  }

  /** A colour map of at most `maxCount` entries is kept whole. */
  lemma ShortColormapKept<T>(colormap: seq<T>, maxCount: int, result: seq<T>)
    requires maxCount >= 1 && 0 < |colormap| <= maxCount
    requires forall k :: 0 <= k < |result| ==>
      k * Stride(|colormap|, maxCount) < |colormap| && result[k] == colormap[k * Stride(|colormap|, maxCount)]
    requires (|result| - 1) * Stride(|colormap|, maxCount) < |colormap| <= |result| * Stride(|colormap|, maxCount)
    ensures result == colormap
  {
    var step := Stride(|colormap|, maxCount);
    ShortStride(|colormap|, maxCount);
    assert (|result| - 1) * step == |result| - 1 && |result| * step == |result|;
    forall k | 0 <= k < |result| ensures result[k] == colormap[k] {
      assert k * step == k;
    }
  }

  /** A colour map no longer than `maxCount` has stride 1. */
  lemma ShortStride(len: nat, maxCount: int)
    requires maxCount >= 1 && 0 < len <= maxCount
    ensures Stride(len, maxCount) == 1
  {
    DivBounds(len as real, maxCount as real);
  }

  // ---------------------------------------------------------------------
  // rgbArrayToColor

  /** `Math.round(v * 255)` on every channel. */
  function ScaleChannels(arr: seq<real>): (r: seq<Expr>)
    ensures |r| == |arr|
    ensures forall i :: 0 <= i < |arr| ==> r[i] == Num(Round(arr[i] * 255.0) as real)
  {
    if arr == [] then [] else ScaleChannels(arr[..|arr| - 1]) + [Num(Round(arr[|arr| - 1] * 255.0) as real)]
  }

  /** `rgbArrayToColor(arr)`: the `rgb` colour expression of a colour whose
      channels are given in the unit interval. */
  function RgbArrayToColor(arr: seq<real>): (e: Expr)
    ensures e.Arr? && |e.items| == |arr| + 1 && e.items[0] == Str("rgb")
  {
    Arr([Str("rgb")] + ScaleChannels(arr))
  }

  /** Channels in the unit interval become whole numbers in `[0, 255]`, each
      the nearest to its channel scaled by 255. */
  lemma RgbArrayToColorChannels(arr: seq<real>, i: int)
    requires 0 <= i < |arr| && 0.0 <= arr[i] <= 1.0
    ensures var c := RgbArrayToColor(arr).items[i + 1];
      c.Num? && c.x == c.x.Floor as real && 0.0 <= c.x <= 255.0
      && arr[i] * 255.0 - 0.5 < c.x <= arr[i] * 255.0 + 0.5
  {
    RoundWithin(0, 255, arr[i] * 255.0);
  }

  /** Byte channels divided by 255 come back unchanged: the unit triples of a
      colour map and the byte colours of the palettes describe the same
      colours. */
  lemma RgbArrayToColorOfBytes(c: seq<int>)
    ensures RgbArrayToColor(seq(|c|, i requires 0 <= i < |c| => c[i] as real / 255.0))
         == Arr([Str("rgb")] + seq(|c|, i requires 0 <= i < |c| => Num(c[i] as real)))
  {
    var arr := seq(|c|, i requires 0 <= i < |c| => c[i] as real / 255.0);
    var e := RgbArrayToColor(arr);
    forall i | 0 <= i < |c|
      ensures e.items[i + 1] == Num(c[i] as real)
    {
      assert arr[i] * 255.0 == c[i] as real;
      RoundOfInt(c[i]);
    }
  }

  // ---------------------------------------------------------------------
  // colormapToScale

  /** The stop of entry `i` of `n`: `i / (n - 1) * (max - min) + min`, which
      for a single entry is `0 / 0`. */
  function ScaleStop(i: int, n: nat, min: real, max: real): (s: Expr)
    requires 0 <= i < n
    ensures n == 1 <==> s == NaN
  {
    if n == 1 then NaN else Num((i as real / (n - 1) as real) * (max - min) + min)
  }

  /** The `flatMap` of `colormapToScale` over the first `|prefix|` entries of
      a colour map of `n` entries: stop and colour, entry after entry. */
  function StopPairs(prefix: seq<Expr>, n: nat, min: real, max: real): (r: seq<Expr>)
    requires |prefix| <= n
    ensures |r| == 2 * |prefix|
    ensures forall i :: 0 <= i < |prefix| ==> r[2 * i] == ScaleStop(i, n, min, max) && r[2 * i + 1] == prefix[i]
  {
    if prefix == [] then []
    else
      StopPairs(prefix[..|prefix| - 1], n, min, max) + [ScaleStop(|prefix| - 1, n, min, max), prefix[|prefix| - 1]]
  }

  /** The head of an `interpolate-hcl` expression over `value`. */
  function ScaleHead(value: Expr): seq<Expr> {
    [Str("interpolate-hcl"), Arr([Str("linear")]), value]
  }

  /** `colormapToScale(colormap, value, min, max)`: interpolate `value`
      through the colours, the colour map spread evenly over `[min, max]`. */
  function ColormapToScale(colormap: seq<Expr>, value: Expr, min: real, max: real): (e: Expr)
    ensures e.Arr? && |e.items| == 3 + 2 * |colormap| && e.items[..3] == ScaleHead(value)
    ensures forall i :: 0 <= i < |colormap| ==>
      e.items[3 + 2 * i] == ScaleStop(i, |colormap|, min, max) && e.items[4 + 2 * i] == colormap[i]
  {
    Arr(ScaleHead(value) + StopPairs(colormap, |colormap|, min, max))
  }

  /** The stops are the sample points `Abscissa` of the palettes, spread
      evenly from `min` to `max`. */
  lemma ScaleStopIsAbscissa(i: int, n: nat, min: real, max: real)
    requires n >= 2 && 0 <= i < n
    ensures ScaleStop(i, n, min, max) == Num(ColorRamp.Abscissa(min, max, n, i))
  {
  }

  /** With two entries or more the first stop is `min`, the last is `max`,
      and the stops rise strictly when `min < max` and stay equal when
      `min == max`. */
  lemma ScaleStopsOrdered(colormap: seq<Expr>, value: Expr, min: real, max: real, i: int, j: int)
    requires |colormap| >= 2 && min <= max && 0 <= i < j < |colormap|
    ensures var e := ColormapToScale(colormap, value, min, max);
      e.items[3] == Num(min) && e.items[3 + 2 * (|colormap| - 1)] == Num(max)
      && e.items[3 + 2 * i].Num? && e.items[3 + 2 * j].Num?
      && (min < max ==> e.items[3 + 2 * i].x < e.items[3 + 2 * j].x)
      && (min == max ==> e.items[3 + 2 * i].x == e.items[3 + 2 * j].x)
  {
    var n := |colormap|;
    var e := ColormapToScale(colormap, value, min, max);
    assert e.items[3 + 2 * i] == ScaleStop(i, n, min, max);
    assert e.items[3 + 2 * j] == ScaleStop(j, n, min, max);
    assert e.items[3] == ScaleStop(0, n, min, max);
    assert e.items[3 + 2 * (n - 1)] == ScaleStop(n - 1, n, min, max);
    StopsOrdered(n, min, max, i, j);
  }

  /** The stops as sample points: the ends are `min` and `max`, and later
      stops are greater, or equal when `min == max`. */
  lemma StopsOrdered(n: nat, min: real, max: real, i: int, j: int)
    requires n >= 2 && min <= max && 0 <= i < j < n
    ensures ScaleStop(0, n, min, max) == Num(min) && ScaleStop(n - 1, n, min, max) == Num(max)
    ensures ScaleStop(i, n, min, max).Num? && ScaleStop(j, n, min, max).Num?
    ensures min < max ==> ScaleStop(i, n, min, max).x < ScaleStop(j, n, min, max).x
    ensures min == max ==> ScaleStop(i, n, min, max).x == ScaleStop(j, n, min, max).x
  {
    ScaleStopIsAbscissa(i, n, min, max);
    ScaleStopIsAbscissa(j, n, min, max);
    ScaleStopIsAbscissa(0, n, min, max);
    ScaleStopIsAbscissa(n - 1, n, min, max);
    ColorRamp.AbscissaEnds(min, max, n);
    if min < max {
      AbscissaStrict(min, max, n, i, j);
    }
  }

  /** Distinct sample points are distinct: the steps between them are
      positive. */
  lemma AbscissaStrict(a: real, b: real, n: nat, i: int, j: int)
    requires n >= 2 && a < b && 0 <= i < j < n
    ensures ColorRamp.Abscissa(a, b, n, i) < ColorRamp.Abscissa(a, b, n, j)
  {
    var c := (n - 1) as real;
    var f := i as real / c;
    var g := j as real / c;
    assert f * c == i as real && g * c == j as real;
    if f >= g {
      MulLeq(g, f, c);
      assert false;
    }
    MulLt(f, g, b - a);
  }

  /** A colour map with one entry yields the stop `NaN`. */
  lemma SingleEntryScale(color: Expr, value: Expr, min: real, max: real)
    ensures ColormapToScale([color], value, min, max) == Arr(ScaleHead(value) + [NaN, color])
  {
  }

  // ---------------------------------------------------------------------
  // Evaluating style expressions

  /** The feature properties a style expression reads with `get`. */
  type Properties = map<string, Expr>

  /** `to-boolean`: false for `null`, `false`, `0`, `NaN` and the empty
      string, true for every other value. */
  predicate Truthy(v: Expr) {
    match v
    case Null => false
    case Bool(b) => b
    case Num(x) => x != 0.0
    case NaN => false
    case Str(s) => s != ""
    case Arr(_) => true
  }

  /** `get`: the property, or `null` when the feature lacks it. */
  function GetProperty(props: Properties, name: string): Expr {
    if name in props then props[name] else Null
  }

  /** `["get", name]`. */
  function Get(name: string): Expr {
    Arr([Str("get"), Str(name)])
  }

  /** The value of a style expression for a feature, for the literals and
      the `get`, `to-boolean`, `!` and four-part `case` forms; `None` for
      an ill-typed expression or a form the model does not evaluate
      (`interpolate-hcl` and the colour forms among them). */
  function Eval(e: Expr, props: Properties): (r: Option<Expr>)
    ensures r.Some? ==> !r.value.Arr?
  {
    match e
    case Arr(items) =>
      if |items| == 2 && items[0] == Str("get") && items[1].Str? then
        var v := GetProperty(props, items[1].s);
        if v.Arr? then None else Some(v)
      else if |items| == 2 && items[0] == Str("to-boolean") then
        match Eval(items[1], props)
        case None => None
        case Some(v) => Some(Bool(Truthy(v)))
      else if |items| == 2 && items[0] == Str("!") then
        match Eval(items[1], props)
        case Some(Bool(b)) => Some(Bool(!b))
        case _ => None
      else if |items| == 4 && items[0] == Str("case") then
        match Eval(items[1], props)
        case Some(Bool(true)) => Eval(items[2], props)
        case Some(Bool(false)) => Eval(items[3], props)
        case _ => None
      else None
    case _ => Some(e)
  }

  /** A property that is not a list reads back as itself. */
  lemma EvalGet(props: Properties, name: string)
    requires !GetProperty(props, name).Arr?
    ensures Eval(Get(name), props) == Some(GetProperty(props, name))
    ensures Eval(Arr([Str("to-boolean"), Get(name)]), props) == Some(Bool(Truthy(GetProperty(props, name))))
  {
  }

  // ---------------------------------------------------------------------
  // colorByCount and colorByDistance

  /** `['case', ['to-boolean', ['get', attribute]], ['get', attribute], 0]`:
      the attribute when it is truthy, otherwise 0. */
  function CountValue(attribute: string): Expr {
    Arr([Str("case"), Arr([Str("to-boolean"), Get(attribute)]), Get(attribute), Num(0.0)])
  }

  /** The count a feature is coloured by is its attribute, with a missing or
      falsy attribute counting as 0. */
  lemma CountValueEval(attribute: string, props: Properties)
    requires !GetProperty(props, attribute).Arr?
    ensures var v := GetProperty(props, attribute);
      Eval(CountValue(attribute), props) == Some(if Truthy(v) then v else Num(0.0))
  {
    EvalGet(props, attribute);
  }

  /** The event-count default attribute of `colorByCount`. */
  const EventCount: string := "event_count"

  /** `colorByCount(attribute, maxCount, colormap)`: the colour map spread
      over counts from 0 to `maxCount`. */
  function ColorByCount(attribute: string, maxCount: real, colormap: seq<Expr>): (e: Expr)
    ensures e.Arr? && |e.items| == 3 + 2 * |colormap| && e.items[2] == CountValue(attribute)
  {
    ColormapToScale(colormap, CountValue(attribute), 0.0, maxCount)
  }

  /** The count scale starts at 0 and ends at `maxCount`. */
  lemma ColorByCountRange(attribute: string, maxCount: real, colormap: seq<Expr>)
    requires |colormap| >= 2 && maxCount >= 0.0
    ensures var e := ColorByCount(attribute, maxCount, colormap);
      e.items[3] == Num(0.0) && e.items[3 + 2 * (|colormap| - 1)] == Num(maxCount)
  {
    ScaleStopsOrdered(colormap, CountValue(attribute), 0.0, maxCount, 0, 1);
  }

  /** The two-colour map from white to black. */
  const Grayscale: seq<Expr> := [Str("#FFFFFF"), Str("#000000")]

  /** Event counts in grayscale up to 10: white at no events, black at 10. */
  lemma ColorByCountGrayscale()
    ensures ColorByCount(EventCount, 10.0, Grayscale)
         == Arr([Str("interpolate-hcl"), Arr([Str("linear")]), CountValue(EventCount),
                 Num(0.0), Str("#FFFFFF"), Num(10.0), Str("#000000")])
  {
    var e := ColorByCount(EventCount, 10.0, Grayscale);
    ColorByCountRange(EventCount, 10.0, Grayscale);
    assert e.items[..3] == ScaleHead(CountValue(EventCount));
    assert e.items[4] == Grayscale[0] && e.items[6] == Grayscale[1];
  }

  /** The defaults of `colorByDistance`. */
  const DistanceOvertakerMean: string := "distance_overtaker_mean"
  const DistanceFallback: string := "#ABC"

  /** The stops of the overtaking-distance scale, in metres. */
  const DistanceStops: seq<real> := [0.5, 1.0, 1.5, 2.0, 2.5]

  /** The colours at those stops, from dark red through yellow to green. */
  const DistanceColors: seq<string> :=
    ["rgba(64, 0, 0, 1)", "rgba(196, 0, 0, 1)", "rgba(196, 196, 0, 1)", "rgba(0, 196, 0, 1)", "rgba(0, 255, 0, 1)"]

  /** The stops and colours of the distance scale, interleaved. */
  function DistancePairs(k: nat): (r: seq<Expr>)
    requires k <= |DistanceStops|
    ensures |r| == 2 * k
    ensures forall i :: 0 <= i < k ==> r[2 * i] == Num(DistanceStops[i]) && r[2 * i + 1] == Str(DistanceColors[i])
  {
    if k == 0 then [] else DistancePairs(k - 1) + [Num(DistanceStops[k - 1]), Str(DistanceColors[k - 1])]
  }

  /** The `interpolate-hcl` scale of the attribute through the distance
      stops. */
  function DistanceRamp(attribute: string): Expr {
    Arr(ScaleHead(Get(attribute)) + DistancePairs(|DistanceStops|))
  }

  /** `colorByDistance(attribute, fallback)`: the fallback colour when the
      attribute is falsy, otherwise the distance scale. */
  function ColorByDistance(attribute: string, fallback: Expr): (e: Expr)
    ensures e.Arr? && |e.items| == 4 && e.items[0] == Str("case")
    ensures e.items[2] == fallback && e.items[3] == DistanceRamp(attribute)
  {
    Arr([Str("case"), Arr([Str("!"), Arr([Str("to-boolean"), Get(attribute)])]), fallback, DistanceRamp(attribute)])
  }

  /** The distance stops rise strictly, as `interpolate` demands, and the
      ramp interleaves them with their colours. */
  lemma DistanceRampWellFormed(attribute: string)
    ensures forall i, j :: 0 <= i < j < |DistanceStops| ==> DistanceStops[i] < DistanceStops[j]
    ensures var e := DistanceRamp(attribute);
      e.Arr? && |e.items| == 3 + 2 * |DistanceStops|
      && forall i :: 0 <= i < |DistanceStops| ==>
        e.items[3 + 2 * i] == Num(DistanceStops[i]) && e.items[4 + 2 * i] == Str(DistanceColors[i])
  {
  }

  /** A feature whose attribute is missing or falsy gets the fallback
      colour; any other feature is coloured by the distance scale. */
  lemma ColorByDistanceEval(attribute: string, fallback: Expr, props: Properties)
    requires !GetProperty(props, attribute).Arr? && !fallback.Arr?
    ensures Eval(ColorByDistance(attribute, fallback).items[1], props)
         == Some(Bool(!Truthy(GetProperty(props, attribute))))
    ensures !Truthy(GetProperty(props, attribute)) ==> Eval(ColorByDistance(attribute, fallback), props) == Some(fallback)
    ensures Truthy(GetProperty(props, attribute)) ==>
      Eval(ColorByDistance(attribute, fallback), props) == Eval(DistanceRamp(attribute), props)
  {
    EvalGet(props, attribute);
    var g := GetProperty(props, attribute);
    var cond := Arr([Str("!"), Arr([Str("to-boolean"), Get(attribute)])]);
    assert Eval(cond, props) == Some(Bool(!Truthy(g)));
    assert ColorByDistance(attribute, fallback) == Arr([Str("case"), cond, fallback, DistanceRamp(attribute)]);
  }

  lemma ColorByDistanceExamples()
    ensures Eval(ColorByDistance(DistanceOvertakerMean, Str(DistanceFallback)), map[]) == Some(Str(DistanceFallback))
    ensures Eval(ColorByDistance(DistanceOvertakerMean, Str(DistanceFallback)), map[DistanceOvertakerMean := Num(0.0)])
         == Some(Str(DistanceFallback))
  {
    ColorByDistanceEval(DistanceOvertakerMean, Str(DistanceFallback), map[]);
    ColorByDistanceEval(DistanceOvertakerMean, Str(DistanceFallback), map[DistanceOvertakerMean := Num(0.0)]);
  }
}
