/** The overtaking-distance histogram of the road information panel: fixed
    bins of width `dx` from `xa`, the last bin optionally open-ended; its bin
    counts, its bin labels and the palette colour of each bin. */
module RoadHistogram {
  import opened Numerics
  import opened ColorRamp

  /** `hist_xa`, `hist_dx`, `hist_n` and `hist_xb_extends_to_infinity`. */
  datatype HistogramConfig = HistogramConfig(xa: real, dx: real, n: nat, openEnded: bool)

  /** `hist_xb`, the upper end the bin count is derived from. */
  const HistXb: real := 2.55

  /** The histogram the road panel draws: 0 m to 2.55 m in 0.25 m bins, the
      last bin open upwards. */
  const RoadConfig: HistogramConfig := HistogramConfig(0.0, 0.25, 11, true)

  /** `hist_n = ceil((hist_xb - hist_xa) / hist_dx)` is eleven bins. */
  lemma RoadConfigBinCount()
    ensures Ceil((HistXb - RoadConfig.xa) / RoadConfig.dx) == RoadConfig.n
  {
    assert (HistXb - RoadConfig.xa) / RoadConfig.dx == 10.2;
  }

  /** Lower edge of bin `j`. */
  function Edge(cfg: HistogramConfig, j: int): real {
    cfg.xa + cfg.dx * j as real
  }

  /** The bin a sample is counted in, before the range test: the floor of
      its offset in bin widths, capped at the last bin when open-ended. */
  function BinIndex(cfg: HistogramConfig, v: real): int
    requires cfg.dx > 0.0
  {
    var j := ((v - cfg.xa) / cfg.dx).Floor;
    if cfg.openEnded then Min(j, cfg.n - 1) else j
  }

  /** A sample is counted when its bin index falls inside the histogram. */
  predicate Counted(cfg: HistogramConfig, v: real)
    requires cfg.dx > 0.0
  {
    0 <= BinIndex(cfg, v) < cfg.n
  }

  /** How many samples land in bin `j`. */
  function CountIn(cfg: HistogramConfig, s: seq<real>, j: int): nat
    requires cfg.dx > 0.0
  {
    if s == [] then 0
    else CountIn(cfg, s[..|s| - 1], j) + (if BinIndex(cfg, s[|s| - 1]) == j then 1 else 0)
  }

  /** How many samples are counted at all. */
  function NumCounted(cfg: HistogramConfig, s: seq<real>): nat
    requires cfg.dx > 0.0
  {
    if s == [] then 0
    else NumCounted(cfg, s[..|s| - 1]) + (if Counted(cfg, s[|s| - 1]) then 1 else 0)
  }

  /** How many samples have a bin index in `[0, m)`. */
  function CountBelow(cfg: HistogramConfig, s: seq<real>, m: int): nat
    requires cfg.dx > 0.0
  {
    if s == [] then 0
    else CountBelow(cfg, s[..|s| - 1], m) + (if 0 <= BinIndex(cfg, s[|s| - 1]) < m then 1 else 0)
  }

  /** How many samples are at least `x`. */
  function CountAtLeast(s: seq<real>, x: real): nat {
    if s == [] then 0
    else CountAtLeast(s[..|s| - 1], x) + (if s[|s| - 1] >= x then 1 else 0)
  }

  /** The counts of bins `0 .. m - 1`, added up. */
  function SumCounts(cfg: HistogramConfig, s: seq<real>, m: nat): nat
    requires cfg.dx > 0.0
  {
    if m == 0 then 0 else SumCounts(cfg, s, m - 1) + CountIn(cfg, s, m - 1)
  }

  function Total(c: seq<nat>): nat {
    if c == [] then 0 else Total(c[..|c| - 1]) + c[|c| - 1]
  }

  /** The bin counts the histogram must produce: one per bin. */
  function HistogramSpec(cfg: HistogramConfig, s: seq<real>): seq<nat>
    requires cfg.dx > 0.0
  {
    seq(cfg.n, j => CountIn(cfg, s, j))
  }

  /** `histogram(samples)`: one pass over the samples, incrementing the
      count of each sample's bin when it falls inside the histogram. */
  method Histogram(cfg: HistogramConfig, samples: seq<real>) returns (binCounts: seq<nat>)
    requires cfg.dx > 0.0
    ensures binCounts == HistogramSpec(cfg, samples)
  {
    var counts := new nat[cfg.n](_ => 0);
    for i := 0 to |samples|
      invariant forall j :: 0 <= j < cfg.n ==> counts[j] == CountIn(cfg, samples[..i], j)
    {
      var v := samples[i];
      var j := ((v - cfg.xa) / cfg.dx).Floor;
      if cfg.openEnded {
        j := Min(j, cfg.n - 1);
      }
      assert samples[..i + 1][..i] == samples[..i];
      if j >= 0 && j < cfg.n {
        counts[j] := counts[j] + 1;
      }
    }
    assert samples[..|samples|] == samples;
    binCounts := counts[..];
  }

  // ---------------------------------------------------------------------
  // Which values each bin holds

  /** `j <= q < j + 1` scaled by the bin width. */
  lemma FloorScaled(cfg: HistogramConfig, v: real, j: int)
    requires cfg.dx > 0.0
    ensures ((v - cfg.xa) / cfg.dx).Floor == j <==> Edge(cfg, j) <= v < Edge(cfg, j + 1)
  {
    var q := (v - cfg.xa) / cfg.dx;
    assert q * cfg.dx == v - cfg.xa;
    var lo, hi := j as real, (j + 1) as real;
    if lo <= q { MulLeq(lo, q, cfg.dx); }
    if q < lo { MulLt(q, lo, cfg.dx); }
    if q < hi { MulLt(q, hi, cfg.dx); }
    if hi <= q { MulLeq(hi, q, cfg.dx); }
  }

  /** Bin `j` holds exactly the values in `[Edge(j), Edge(j + 1))`, except
      the last bin of an open-ended histogram. */
  lemma BinHolds(cfg: HistogramConfig, v: real, j: int)
    requires cfg.dx > 0.0 && 0 <= j < cfg.n
    requires !cfg.openEnded || j < cfg.n - 1
    ensures BinIndex(cfg, v) == j <==> Edge(cfg, j) <= v < Edge(cfg, j + 1)
  {
    FloorScaled(cfg, v, j);
  }

  /** The last bin of an open-ended histogram holds every value from its
      lower edge up. */
  lemma LastBinHolds(cfg: HistogramConfig, v: real)
    requires cfg.dx > 0.0 && cfg.openEnded && cfg.n >= 1
    ensures BinIndex(cfg, v) == cfg.n - 1 <==> v >= Edge(cfg, cfg.n - 1)
  {
    var f := ((v - cfg.xa) / cfg.dx).Floor;
    FloorScaled(cfg, v, f);
    if f < cfg.n - 1 {
      EdgeMonotone(cfg, f + 1, cfg.n - 1);
    } else {
      EdgeMonotone(cfg, cfg.n - 1, f);
    }
  }

  lemma EdgeMonotone(cfg: HistogramConfig, i: int, j: int)
    requires cfg.dx > 0.0 && i <= j
    ensures Edge(cfg, i) <= Edge(cfg, j)
  {
    MulLeq(i as real, j as real, cfg.dx);
  }

  /** Open-ended: a sample is counted exactly when it is at least `xa`. */
  lemma CountedOpenEnded(cfg: HistogramConfig, v: real)
    requires cfg.dx > 0.0 && cfg.openEnded && cfg.n >= 1
    ensures Counted(cfg, v) <==> v >= cfg.xa
  {
    var f := ((v - cfg.xa) / cfg.dx).Floor;
    FloorScaled(cfg, v, f);
    if f < 0 {
      EdgeMonotone(cfg, f + 1, 0);
    } else {
      EdgeMonotone(cfg, 0, f);
    }
  }

  /** Bounded: a sample is counted exactly when it lies in
      `[xa, xa + n * dx)`. */
  lemma CountedBounded(cfg: HistogramConfig, v: real)
    requires cfg.dx > 0.0 && !cfg.openEnded
    ensures Counted(cfg, v) <==> Edge(cfg, 0) <= v < Edge(cfg, cfg.n)
  {
    var f := ((v - cfg.xa) / cfg.dx).Floor;
    FloorScaled(cfg, v, f);
    if f < 0 {
      EdgeMonotone(cfg, f + 1, 0);
    } else if f >= cfg.n {
      EdgeMonotone(cfg, cfg.n, f);
    } else {
      EdgeMonotone(cfg, 0, f);
      EdgeMonotone(cfg, f + 1, cfg.n);
    }
  }

  // ---------------------------------------------------------------------
  // Conservation of counts

  lemma {:induction false} SumCountsEmpty(cfg: HistogramConfig, m: nat)
    requires cfg.dx > 0.0
    ensures SumCounts(cfg, [], m) == 0
  {
    if m > 0 { SumCountsEmpty(cfg, m - 1); }
  }

  /** Adding one sample adds one to the sum of bins `0 .. m - 1` exactly when
      the sample falls in one of them. */
  lemma {:induction false} SumCountsSnoc(cfg: HistogramConfig, s: seq<real>, m: nat)
    requires cfg.dx > 0.0 && s != []
    ensures SumCounts(cfg, s, m)
         == SumCounts(cfg, s[..|s| - 1], m) + (if 0 <= BinIndex(cfg, s[|s| - 1]) < m then 1 else 0)
  {
    if m > 0 { SumCountsSnoc(cfg, s, m - 1); }
  }

  lemma {:induction false} SumCountsIsCountBelow(cfg: HistogramConfig, s: seq<real>, m: nat)
    requires cfg.dx > 0.0
    ensures SumCounts(cfg, s, m) == CountBelow(cfg, s, m)
  {
    if s == [] {
      SumCountsEmpty(cfg, m);
    } else {
      SumCountsSnoc(cfg, s, m);
      SumCountsIsCountBelow(cfg, s[..|s| - 1], m);
    }
  }

  lemma {:induction false} TotalPrefix(cfg: HistogramConfig, s: seq<real>, m: nat)
    requires cfg.dx > 0.0 && m <= cfg.n
    ensures Total(HistogramSpec(cfg, s)[..m]) == SumCounts(cfg, s, m)
  {
    if m > 0 {
      var h := HistogramSpec(cfg, s);
      assert h[..m][..m - 1] == h[..m - 1];
      TotalPrefix(cfg, s, m - 1);
    }
  }

  lemma {:induction false} NumCountedIsCountBelow(cfg: HistogramConfig, s: seq<real>)
    requires cfg.dx > 0.0
    ensures NumCounted(cfg, s) == CountBelow(cfg, s, cfg.n)
  {
    if s != [] { NumCountedIsCountBelow(cfg, s[..|s| - 1]); }
  }

  lemma {:induction false} NumCountedBound(cfg: HistogramConfig, s: seq<real>)
    requires cfg.dx > 0.0
    ensures NumCounted(cfg, s) <= |s|
    ensures NumCounted(cfg, s) == |s| <==> forall k :: 0 <= k < |s| ==> Counted(cfg, s[k])
  {
    if s != [] {
      var init := s[..|s| - 1];
      NumCountedBound(cfg, init);
      assert forall k :: 0 <= k < |init| ==> init[k] == s[k];
    }
  }

  /** The bin counts add up to the number of counted samples, which is at
      most the number of samples, and equal to it exactly when every sample
      is counted. */
  lemma HistogramTotal(cfg: HistogramConfig, s: seq<real>)
    requires cfg.dx > 0.0
    ensures Total(HistogramSpec(cfg, s)) == NumCounted(cfg, s) <= |s|
    ensures Total(HistogramSpec(cfg, s)) == |s| <==> forall k :: 0 <= k < |s| ==> Counted(cfg, s[k])
  {
    var h := HistogramSpec(cfg, s);
    assert h[..cfg.n] == h;
    TotalPrefix(cfg, s, cfg.n);
    SumCountsIsCountBelow(cfg, s, cfg.n);
    NumCountedIsCountBelow(cfg, s);
    NumCountedBound(cfg, s);
  }

  /** Open-ended: the bins together count exactly the samples at or above
      `xa`. */
  lemma {:induction false} OpenEndedCountsAtLeast(cfg: HistogramConfig, s: seq<real>)
    requires cfg.dx > 0.0 && cfg.openEnded && cfg.n >= 1
    ensures NumCounted(cfg, s) == CountAtLeast(s, cfg.xa)
  {
    if s != [] {
      OpenEndedCountsAtLeast(cfg, s[..|s| - 1]);
      CountedOpenEnded(cfg, s[|s| - 1]);
    }
  }

  /** Open-ended: the bins add up to the number of samples at or above
      `xa`. */
  lemma OpenEndedTotal(cfg: HistogramConfig, s: seq<real>)
    requires cfg.dx > 0.0 && cfg.openEnded && cfg.n >= 1
    ensures Total(HistogramSpec(cfg, s)) == CountAtLeast(s, cfg.xa)
  {
    HistogramTotal(cfg, s);
    OpenEndedCountsAtLeast(cfg, s);
  }

  /** Bounded: every sample is counted exactly when all of them lie in
      `[xa, xa + n * dx)`. */
  lemma BoundedTotal(cfg: HistogramConfig, s: seq<real>)
    requires cfg.dx > 0.0 && !cfg.openEnded
    ensures Total(HistogramSpec(cfg, s)) == |s|
        <==> forall k :: 0 <= k < |s| ==> Edge(cfg, 0) <= s[k] < Edge(cfg, cfg.n)
  {
    HistogramTotal(cfg, s);
    forall k | 0 <= k < |s| ensures Counted(cfg, s[k]) <==> Edge(cfg, 0) <= s[k] < Edge(cfg, cfg.n) {
      CountedBounded(cfg, s[k]);
    }
  }

  /** Four samples in the road histogram: 0.1 in bin 0, two of 0.3 in bin 1,
      and 2.9 capped into the last bin. */
  lemma HistogramExample()
    ensures HistogramSpec(RoadConfig, [0.1, 0.3, 0.3, 2.9]) == [1, 2, 0, 0, 0, 0, 0, 0, 0, 0, 1]
  {
    var s := [0.1, 0.3, 0.3, 2.9];
    var h := HistogramSpec(RoadConfig, s);
    assert BinIndex(RoadConfig, 0.1) == 0 by { assert (0.1 - 0.0) / 0.25 == 0.4; }
    assert BinIndex(RoadConfig, 0.3) == 1 by { assert (0.3 - 0.0) / 0.25 == 1.2; }
    assert BinIndex(RoadConfig, 2.9) == 10 by { assert (2.9 - 0.0) / 0.25 == 11.6; }
    assert s[..3] == [0.1, 0.3, 0.3];
    assert s[..3][..2] == [0.1, 0.3];
    assert s[..3][..2][..1] == [0.1];
    assert [0.1][..0] == [];
    forall j | 0 <= j < 11
      ensures CountIn(RoadConfig, s, j)
           == (if j == 0 then 1 else 0) + (if j == 1 then 2 else 0) + (if j == 10 then 1 else 0)
    {
      assert CountIn(RoadConfig, [0.1], j) == (if j == 0 then 1 else 0);
      assert CountIn(RoadConfig, [0.1, 0.3], j) == (if j == 0 then 1 else 0) + (if j == 1 then 1 else 0);
      assert CountIn(RoadConfig, s[..3], j) == (if j == 0 then 1 else 0) + (if j == 1 then 2 else 0);
    }
  }

  // ---------------------------------------------------------------------
  // Labels

  /** A bin label before number formatting: the range `lo-hi` or the
      open-ended `≥lo`, both in centimetres (metres times 100). */
  datatype Label = Range(lo: real, hi: real) | AtLeast(lo: real)

  /** The label of bin `i`. */
  function LabelAt(cfg: HistogramConfig, i: int): Label {
    var xa := Edge(cfg, i);
    var xb := xa + cfg.dx;
    if cfg.openEnded && i == cfg.n - 1 then AtLeast(xa * 100.0)
    else Range(xa * 100.0, xb * 100.0)
  }

  /** The values, in metres, that a label describes. */
  predicate LabelContains(l: Label, v: real) {
    match l
    case Range(lo, hi) => lo <= v * 100.0 < hi
    case AtLeast(lo) => lo <= v * 100.0
  }

  /** `histogramLabels()`: one label per bin, the `≥` form only for the last
      bin of an open-ended histogram. */
  method HistogramLabels(cfg: HistogramConfig) returns (labels: seq<Label>)
    ensures |labels| == cfg.n
    ensures forall i :: 0 <= i < cfg.n ==> labels[i] == LabelAt(cfg, i)
    ensures forall i :: 0 <= i < cfg.n ==> (labels[i].AtLeast? <==> cfg.openEnded && i == cfg.n - 1)
  {
    var out := new Label[cfg.n](_ => AtLeast(0.0));
    for i := 0 to cfg.n
      invariant forall k :: 0 <= k < i ==> out[k] == LabelAt(cfg, k)
    {
      var xa := Edge(cfg, i);
      var xb := xa + cfg.dx;
      if cfg.openEnded && i == cfg.n - 1 {
        out[i] := AtLeast(xa * 100.0);
      } else {
        out[i] := Range(xa * 100.0, xb * 100.0);
      }
    }
    labels := out[..];
  }

  /** Each label describes exactly the values its bin counts. */
  lemma LabelMatchesBin(cfg: HistogramConfig, i: int, v: real)
    requires cfg.dx > 0.0 && 0 <= i < cfg.n
    ensures LabelContains(LabelAt(cfg, i), v) <==> BinIndex(cfg, v) == i
  {
    assert Edge(cfg, i) + cfg.dx == Edge(cfg, i + 1);
    if cfg.openEnded && i == cfg.n - 1 {
      LastBinHolds(cfg, v);
    } else {
      BinHolds(cfg, v, i);
    }
  }

  /** Consecutive range labels meet: each ends where the next begins. */
  lemma LabelsAdjacent(cfg: HistogramConfig, i: int)
    requires 0 <= i && i + 1 < cfg.n
    ensures LabelAt(cfg, i).Range?
    ensures LabelAt(cfg, i).hi == LabelAt(cfg, i + 1).lo
  {
    assert cfg.dx * (i + 1) as real == cfg.dx * i as real + cfg.dx;
  }

  // ---------------------------------------------------------------------
  // Colours

  /** The colour of bin `i`: the palette's `#rrggbb` text at the bin's
      lower edge. */
  function BinColor(cfg: HistogramConfig, palette: Palette, i: int): string
    reads palette
    requires palette.Valid()
  {
    palette.RgbHex(Some(Edge(cfg, i)))
  }

  /** `histogramColors(palette)`: the colour of every bin, in bin order. */
  method HistogramColors(cfg: HistogramConfig, palette: Palette) returns (colors: seq<string>)
    requires palette.Valid()
    ensures |colors| == cfg.n
    ensures forall i :: 0 <= i < cfg.n ==> colors[i] == BinColor(cfg, palette, i)
  {
    colors := [];
    for i := 0 to cfg.n
      invariant colors == seq(i, k requires 0 <= k < i && palette.Valid() reads palette => BinColor(cfg, palette, k))
    {
      colors := colors + [BinColor(cfg, palette, i)];
    }
  }

  /** With a palette whose colours are bytes, every bin colour is a
      `#rrggbb` string spelling the palette colour at the bin's lower edge. */
  lemma HistogramColorDecodes(cfg: HistogramConfig, palette: Palette, i: int)
    requires palette.Valid() && ColorsInByteRange(palette.table) && InByteRange(palette.colorInvalid)
    ensures |BinColor(cfg, palette, i)| == 7 && BinColor(cfg, palette, i)[0] == '#'
    ensures HexColorValue(BinColor(cfg, palette, i)) == palette.Rgba(Some(Edge(cfg, i)))[..3]
  {
    palette.RgbaInByteRange(Some(Edge(cfg, i)));
    palette.RgbHexDecodes(Some(Edge(cfg, i)));
  }
}
