/** The colour ramp of the road information panel: a table of control points
    (a distance and an RGBA colour each), the exact piecewise-linear palette
    over it, the 256-entry lookup table a `Palette` object resamples it into,
    and the hexadecimal text of a looked-up colour. */
module ColorRamp {
  import opened Numerics

  /** A colour as the palette stores it: red, green, blue and alpha channels. */
  type Color = seq<int>

  predicate IsColor(c: Color) { |c| == 4 }

  /** Every channel is a byte. */
  predicate InByteRange(c: seq<int>) { forall k :: 0 <= k < |c| ==> 0 <= c[k] <= 255 }

  /** One entry of a palette definition: a key of the domain and its colour. */
  datatype ControlPoint = ControlPoint(key: real, color: Color)

  /** A palette definition in the order the lookup uses it: at least one
      point, four channels each, keys strictly increasing. */
  predicate WellFormed(t: seq<ControlPoint>) {
    && |t| >= 1
    && (forall i :: 0 <= i < |t| ==> IsColor(t[i].color))
    && (forall i, j :: 0 <= i < j < |t| ==> t[i].key < t[j].key)
  }

  predicate ColorsInByteRange(t: seq<ControlPoint>) {
    forall i :: 0 <= i < |t| ==> InByteRange(t[i].color)
  }

  /** `t[i]` and `t[i + 1]` bracket `d`: `t[i].key <= d < t[i + 1].key`. */
  predicate Bracketed(t: seq<ControlPoint>, i: int, d: real) {
    0 <= i < |t| - 1 && t[i].key <= d < t[i + 1].key
  }

  /** The bracketing pair at or after index `i`, found by a linear scan
      (the reference that the binary search of `SamplePalette` must meet). */
  function BracketFrom(t: seq<ControlPoint>, d: real, i: nat): (j: nat)
    requires WellFormed(t) && i < |t| - 1 && t[i].key <= d < t[|t| - 1].key
    ensures i <= j && Bracketed(t, j, d)
    decreases |t| - i
  {
    if d < t[i + 1].key then i else BracketFrom(t, d, i + 1)
  }

  function Bracket(t: seq<ControlPoint>, d: real): (i: nat)
    requires WellFormed(t) && t[0].key < d < t[|t| - 1].key
    ensures Bracketed(t, i, d)
  {
    BracketFrom(t, d, 0)
  }

  /** Strictly increasing keys bracket every value by at most one pair. */
  lemma BracketUnique(t: seq<ControlPoint>, i: int, j: int, d: real)
    requires WellFormed(t) && Bracketed(t, i, d) && Bracketed(t, j, d)
    ensures i == j
  {
  }

  /** Position of `d` between two keys, 0 at `xa` and 1 at `xb`. */
  function Weight(xa: real, xb: real, d: real): real
    requires xa < xb
  {
    (d - xa) / (xb - xa)
  }

  /** `ya * (1 - w) + yb * w`, before rounding. */
  function Blend(ya: int, yb: int, w: real): real {
    ya as real * (1.0 - w) + yb as real * w
  }

  /** One interpolated channel, rounded as `Math.round` does. */
  function Channel(ya: int, yb: int, w: real): int {
    Round(Blend(ya, yb, w))
  }

  /** The four channels interpolated between two control points. */
  function Interpolate(pa: ControlPoint, pb: ControlPoint, d: real): (y: Color)
    requires pa.key < pb.key && IsColor(pa.color) && IsColor(pb.color)
    ensures IsColor(y)
  {
    var w := Weight(pa.key, pb.key, d);
    seq(4, k requires 0 <= k < 4 => Channel(pa.color[k], pb.color[k], w))
  }

  /** The exact palette value at `d`: the first colour at or below the
      smallest key, the last colour at or above the largest key, and the
      interpolation between the bracketing pair in between. */
  function Sample(t: seq<ControlPoint>, d: real): (y: Color)
    requires WellFormed(t)
    ensures IsColor(y)
  {
    var n := |t|;
    if d <= t[0].key then t[0].color
    else if d >= t[n - 1].key then t[n - 1].color
    else
      var i := Bracket(t, d);
      Interpolate(t[i], t[i + 1], d)
  }

  /** Outside the keys the palette is clamped to its end colours. */
  lemma SampleClamps(t: seq<ControlPoint>, d: real)
    requires WellFormed(t)
    ensures d <= t[0].key ==> Sample(t, d) == t[0].color
    ensures d >= t[|t| - 1].key ==> Sample(t, d) == t[|t| - 1].color
  {
    if |t| > 1 && d >= t[|t| - 1].key {
      assert t[0].key < t[|t| - 1].key;
    }
  }

  // ---------------------------------------------------------------------
  // Arithmetic facts about the weight and the blend

  lemma WeightRange(xa: real, xb: real, d: real)
    requires xa < xb
    ensures xa <= d <= xb ==> 0.0 <= Weight(xa, xb, d) <= 1.0
    ensures xa <= d < xb ==> Weight(xa, xb, d) < 1.0
    ensures d == xa ==> Weight(xa, xb, d) == 0.0
    ensures d == xb ==> Weight(xa, xb, d) == 1.0
  {
    DivBounds(d - xa, xb - xa);
  }

  lemma WeightMonotone(xa: real, xb: real, d1: real, d2: real)
    requires xa < xb && d1 <= d2
    ensures Weight(xa, xb, d1) <= Weight(xa, xb, d2)
  {
    var w1, w2 := Weight(xa, xb, d1), Weight(xa, xb, d2);
    assert w1 * (xb - xa) == d1 - xa;
    assert w2 * (xb - xa) == d2 - xa;
    if w1 > w2 { MulLt(w2, w1, xb - xa); }
  }

  /** The blend is `ya + (yb - ya) * w`. */
  lemma BlendShift(ya: int, yb: int, w: real)
    ensures Blend(ya, yb, w) == ya as real + (yb - ya) as real * w
  {
  }

  lemma BlendBetween(ya: int, yb: int, w: real)
    requires 0.0 <= w <= 1.0
    ensures Min(ya, yb) as real <= Blend(ya, yb, w) <= Max(ya, yb) as real
  {
    BlendShift(ya, yb, w);
    var dy := (yb - ya) as real;
    if dy >= 0.0 {
      assert 0.0 <= dy * w <= dy * 1.0 by {
        if dy > 0.0 { MulLeq(0.0, w, dy); MulLeq(w, 1.0, dy); }
      }
    } else {
      assert dy * 1.0 <= dy * w <= 0.0 by {
        MulLeq(0.0, w, -dy); MulLeq(w, 1.0, -dy);
      }
    }
  }

  lemma BlendMonotone(ya: int, yb: int, w1: real, w2: real)
    requires w1 <= w2
    ensures ya <= yb ==> Blend(ya, yb, w1) <= Blend(ya, yb, w2)
    ensures ya >= yb ==> Blend(ya, yb, w1) >= Blend(ya, yb, w2)
  {
    BlendShift(ya, yb, w1);
    BlendShift(ya, yb, w2);
    var dy := (yb - ya) as real;
    if dy > 0.0 {
      MulLeq(w1, w2, dy);
      assert dy * w1 <= dy * w2;
    } else if dy < 0.0 {
      MulLeq(w1, w2, -dy);
      assert (-dy) * w1 <= (-dy) * w2;
    }
  }

  /** An interpolated channel never leaves the range of its two ends. */
  lemma ChannelBetween(ya: int, yb: int, w: real)
    requires 0.0 <= w <= 1.0
    ensures Min(ya, yb) <= Channel(ya, yb, w) <= Max(ya, yb)
  {
    BlendBetween(ya, yb, w);
    RoundWithin(Min(ya, yb), Max(ya, yb), Blend(ya, yb, w));
  }

  lemma ChannelAtEnds(ya: int, yb: int)
    ensures Channel(ya, yb, 0.0) == ya && Channel(ya, yb, 1.0) == yb
  {
    RoundOfInt(ya);
    RoundOfInt(yb);
  }

  // ---------------------------------------------------------------------
  // Properties of the palette value

  /** Inside the table, each channel lies between the channels of the
      bracketing control points, both included. */
  lemma SampleBetween(t: seq<ControlPoint>, d: real, k: int)
    requires WellFormed(t) && t[0].key < d < t[|t| - 1].key && 0 <= k < 4
    ensures var i := Bracket(t, d);
      Min(t[i].color[k], t[i + 1].color[k]) <= Sample(t, d)[k] <= Max(t[i].color[k], t[i + 1].color[k])
  {
    var i := Bracket(t, d);
    WeightRange(t[i].key, t[i + 1].key, d);
    ChannelBetween(t[i].color[k], t[i + 1].color[k], Weight(t[i].key, t[i + 1].key, d));
  }

  /** Evaluating the palette at one of its keys gives that key's colour. */
  lemma SampleAtKey(t: seq<ControlPoint>, j: int)
    requires WellFormed(t) && 0 <= j < |t|
    ensures Sample(t, t[j].key) == t[j].color
  {
    var n := |t|;
    var d := t[j].key;
    if 0 < j < n - 1 {
      assert t[0].key < d < t[n - 1].key;
      var i := Bracket(t, d);
      assert Bracketed(t, j, d);
      BracketUnique(t, i, j, d);
      WeightRange(t[j].key, t[j + 1].key, d);
      var y := Interpolate(t[j], t[j + 1], d);
      forall k | 0 <= k < 4 ensures y[k] == t[j].color[k] {
        ChannelAtEnds(t[j].color[k], t[j + 1].color[k]);
      }
    } else if j == n - 1 && n > 1 {
      assert t[0].key < d;
    }
  }

  /** Between two adjacent keys, ends included, the palette value is the
      interpolation of those two control points. */
  lemma SampleOnSegment(t: seq<ControlPoint>, i: int, d: real)
    requires WellFormed(t) && 0 <= i < |t| - 1 && t[i].key <= d <= t[i + 1].key
    ensures Sample(t, d) == Interpolate(t[i], t[i + 1], d)
  {
    var y := Interpolate(t[i], t[i + 1], d);
    WeightRange(t[i].key, t[i + 1].key, d);
    if d == t[i].key {
      SampleAtKey(t, i);
      forall k | 0 <= k < 4 ensures y[k] == t[i].color[k] {
        ChannelAtEnds(t[i].color[k], t[i + 1].color[k]);
      }
    } else if d == t[i + 1].key {
      SampleAtKey(t, i + 1);
      forall k | 0 <= k < 4 ensures y[k] == t[i + 1].color[k] {
        ChannelAtEnds(t[i].color[k], t[i + 1].color[k]);
      }
    } else {
      assert t[0].key <= t[i].key && t[i + 1].key <= t[|t| - 1].key;
      BracketUnique(t, Bracket(t, d), i, d);
    }
  }

  /** Between adjacent keys each channel moves monotonically from one end
      colour to the other. */
  lemma SampleMonotoneOnSegment(t: seq<ControlPoint>, i: int, d1: real, d2: real, k: int)
    requires WellFormed(t) && 0 <= i < |t| - 1 && 0 <= k < 4
    requires t[i].key <= d1 <= d2 <= t[i + 1].key
    ensures t[i].color[k] <= t[i + 1].color[k] ==> Sample(t, d1)[k] <= Sample(t, d2)[k]
    ensures t[i].color[k] >= t[i + 1].color[k] ==> Sample(t, d1)[k] >= Sample(t, d2)[k]
  {
    SampleOnSegment(t, i, d1);
    SampleOnSegment(t, i, d2);
    var xa, xb := t[i].key, t[i + 1].key;
    var ya, yb := t[i].color[k], t[i + 1].color[k];
    WeightMonotone(xa, xb, d1, d2);
    BlendMonotone(ya, yb, Weight(xa, xb, d1), Weight(xa, xb, d2));
    if ya <= yb {
      RoundMonotone(Blend(ya, yb, Weight(xa, xb, d1)), Blend(ya, yb, Weight(xa, xb, d2)));
    }
    if ya >= yb {
      RoundMonotone(Blend(ya, yb, Weight(xa, xb, d2)), Blend(ya, yb, Weight(xa, xb, d1)));
    }
  }

  /** Byte-valued control colours give byte-valued samples everywhere. */
  lemma SampleInByteRange(t: seq<ControlPoint>, d: real)
    requires WellFormed(t) && ColorsInByteRange(t)
    ensures InByteRange(Sample(t, d))
  {
    var n := |t|;
    if t[0].key < d < t[n - 1].key {
      var i := Bracket(t, d);
      forall k | 0 <= k < 4 ensures 0 <= Sample(t, d)[k] <= 255 {
        SampleBetween(t, d, k);
      }
    }
  }

  /** Two control points, evaluated half-way: the rounded channel averages. */
  lemma SampleMidpointExample()
    ensures Sample([ControlPoint(0.0, [64, 0, 0, 255]), ControlPoint(2.0, [196, 196, 0, 255])], 1.0)
         == [130, 98, 0, 255]
  {
    var t := [ControlPoint(0.0, [64, 0, 0, 255]), ControlPoint(2.0, [196, 196, 0, 255])];
    assert Bracket(t, 1.0) == 0;
    assert Weight(0.0, 2.0, 1.0) == 0.5;
    assert Channel(64, 196, 0.5) == 130;
    assert Channel(0, 196, 0.5) == 98;
    assert Channel(0, 0, 0.5) == 0;
    assert Channel(255, 255, 0.5) == 255;
  }

  // ---------------------------------------------------------------------
  // Smallest and largest key (`Math.min(...x)`, `Math.max(...x)`)

  function MinKey(t: seq<ControlPoint>): real
    requires |t| >= 1
  {
    if |t| == 1 then t[0].key
    else
      var rest := MinKey(t[1..]);
      if t[0].key <= rest then t[0].key else rest
  }

  function MaxKey(t: seq<ControlPoint>): real
    requires |t| >= 1
  {
    if |t| == 1 then t[0].key
    else
      var rest := MaxKey(t[1..]);
      if t[0].key >= rest then t[0].key else rest
  }

  /** `MinKey` is a key, and no key is smaller. */
  lemma {:induction false} MinKeyIsLeast(t: seq<ControlPoint>)
    requires |t| >= 1
    ensures forall i :: 0 <= i < |t| ==> MinKey(t) <= t[i].key
    ensures exists i :: 0 <= i < |t| && MinKey(t) == t[i].key
  {
    var w := 0;
    if |t| > 1 {
      var rest := t[1..];
      MinKeyIsLeast(rest);
      assert forall i :: 1 <= i < |t| ==> rest[i - 1] == t[i];
      var j :| 0 <= j < |rest| && MinKey(rest) == rest[j].key;
      if t[0].key > MinKey(rest) {
        w := j + 1;
      }
    }
    assert MinKey(t) == t[w].key;
  }

  /** `MaxKey` is a key, and no key is larger. */
  lemma {:induction false} MaxKeyIsGreatest(t: seq<ControlPoint>)
    requires |t| >= 1
    ensures forall i :: 0 <= i < |t| ==> t[i].key <= MaxKey(t)
    ensures exists i :: 0 <= i < |t| && MaxKey(t) == t[i].key
  {
    var w := 0;
    if |t| > 1 {
      var rest := t[1..];
      MaxKeyIsGreatest(rest);
      assert forall i :: 1 <= i < |t| ==> rest[i - 1] == t[i];
      var j :| 0 <= j < |rest| && MaxKey(rest) == rest[j].key;
      if t[0].key < MaxKey(rest) {
        w := j + 1;
      }
    }
    assert MaxKey(t) == t[w].key;
  }

  /** With sorted keys the extremes are the first and the last key. */
  lemma {:induction false} MinMaxKeysOfSorted(t: seq<ControlPoint>)
    requires WellFormed(t)
    ensures MinKey(t) == t[0].key && MaxKey(t) == t[|t| - 1].key
  {
    if |t| > 1 {
      var rest := t[1..];
      assert forall i :: 0 <= i < |rest| ==> rest[i] == t[i + 1];
      MinMaxKeysOfSorted(rest);
    }
  }

  // ---------------------------------------------------------------------
  // Hexadecimal text (`Number.prototype.toString(16)`)

  predicate IsLowerHexDigit(c: char) { '0' <= c <= '9' || 'a' <= c <= 'f' }

  function HexDigit(v: int): (c: char)
    requires 0 <= v < 16
    ensures IsLowerHexDigit(c)
  {
    if v < 10 then ('0' as int + v) as char else ('a' as int + v - 10) as char
  }

  /** The value of one hexadecimal digit, the inverse of `HexDigit`. */
  function HexDigitValue(c: char): int {
    if '0' <= c <= '9' then c as int - '0' as int
    else if 'a' <= c <= 'f' then c as int - 'a' as int + 10
    else 0
  }

  /** The number that a string of hexadecimal digits denotes. */
  function HexValue(s: string): int {
    if s == [] then 0 else HexValue(s[..|s| - 1]) * 16 + HexDigitValue(s[|s| - 1])
  }

  /** The base-16 digits of a natural number, lower case. */
  function NatToHex(v: nat): (s: string)
    ensures |s| >= 1
  {
    if v < 16 then [HexDigit(v)] else NatToHex(v / 16) + [HexDigit(v % 16)]
  }

  /** Each digit's value is the number it was made from. */
  lemma HexDigitRoundTrip(v: int)
    requires 0 <= v < 16
    ensures HexDigitValue(HexDigit(v)) == v
  {
  }

  /** `NatToHex` spells `v`. */
  lemma {:induction false} NatToHexValue(v: nat)
    ensures HexValue(NatToHex(v)) == v
  {
    var s := NatToHex(v);
    if v < 16 {
      HexDigitRoundTrip(v);
      assert s[..0] == [];
    } else {
      NatToHexValue(v / 16);
      HexDigitRoundTrip(v % 16);
      assert s[..|s| - 1] == NatToHex(v / 16);
    }
  }

  /** `NatToHex` writes lower-case digits, with no leading zero. */
  lemma {:induction false} NatToHexDigits(v: nat)
    ensures forall k :: 0 <= k < |NatToHex(v)| ==> IsLowerHexDigit(NatToHex(v)[k])
    ensures |NatToHex(v)| > 1 ==> NatToHex(v)[0] != '0'
  {
    if v >= 16 {
      NatToHexDigits(v / 16);
      if v / 16 < 16 {
        assert NatToHex(v / 16) == [HexDigit(v / 16)];
      }
    }
  }

  /** One digit exactly below 16, two exactly from 16 to 255. */
  lemma {:induction false} NatToHexLength(v: nat)
    ensures v < 16 <==> |NatToHex(v)| == 1
    ensures 16 <= v < 256 <==> |NatToHex(v)| == 2
  {
    if v >= 16 {
      NatToHexLength(v / 16);
    }
  }

  /** `v.toString(16)` for an integer `v`. */
  function ToHexString(v: int): (s: string)
    ensures |s| >= 1
  {
    if v < 0 then "-" + NatToHex(-v) else NatToHex(v)
  }

  /** `ToHexString` spells `v`, after a minus sign when it is negative. */
  lemma ToHexStringValue(v: int)
    ensures v < 0 ==> |ToHexString(v)| >= 2 && ToHexString(v)[0] == '-' && HexValue(ToHexString(v)[1..]) == -v
    ensures v >= 0 ==> HexValue(ToHexString(v)) == v
  {
    if v < 0 {
      NatToHexValue(-v);
      assert ToHexString(v)[1..] == NatToHex(-v);
    } else {
      NatToHexValue(v);
    }
  }

  // ---------------------------------------------------------------------
  // The palette object

  /** Position `i` of `n` evenly spaced sample points over `[a, b]`. */
  function Abscissa(a: real, b: real, n: nat, i: int): real
    requires n >= 2
  {
    a + (i as real / (n - 1) as real) * (b - a)
  }

  lemma AbscissaEnds(a: real, b: real, n: nat)
    requires n >= 2
    ensures Abscissa(a, b, n, 0) == a && Abscissa(a, b, n, n - 1) == b
  {
  }

  /** The sample points run from `a` to `b` in increasing order. */
  lemma AbscissaMonotone(a: real, b: real, n: nat, i: int, j: int)
    requires n >= 2 && a < b && 0 <= i <= j < n
    ensures a <= Abscissa(a, b, n, i) <= Abscissa(a, b, n, j) <= b
  {
    FractionBounds(i as real, j as real, (n - 1) as real);
    AffineMonotone(a, b, i as real / (n - 1) as real, j as real / (n - 1) as real);
  }

  lemma FractionBounds(x: real, y: real, c: real)
    requires 0.0 <= x <= y <= c && c > 0.0
    ensures 0.0 <= x / c <= y / c <= 1.0
  {
    assert (x / c) * c == x;
    assert (y / c) * c == y;
    if x / c > y / c { MulLt(y / c, x / c, c); }
  }

  lemma AffineMonotone(a: real, b: real, f: real, g: real)
    requires a < b && 0.0 <= f <= g <= 1.0
    ensures a <= a + f * (b - a) <= a + g * (b - a) <= b
  {
    MulLeq(0.0, f, b - a);
    MulLeq(f, g, b - a);
    MulLeq(g, 1.0, b - a);
  }

  /** The normalised index `(v - a) / (b - a) * (n - 1)` hits `i` exactly at
      the `i`-th sample point. */
  lemma ScaledAbscissa(a: real, b: real, n: nat, i: int)
    requires n >= 2 && a < b
    ensures (Abscissa(a, b, n, i) - a) / (b - a) * (n - 1) as real == i as real
  {
    var c := (n - 1) as real;
    var f := i as real / c;
    assert Abscissa(a, b, n, i) - a == f * (b - a);
    assert (f * (b - a)) / (b - a) == f;
    assert f * c == i as real;
  }

  /** Index into a table of `n` samples over `[a, b]`: the rounded position
      `(v - a) / (b - a) * (n - 1)` of `v`, clamped into `[0, n - 1]`. */
  function LookupIndex(a: real, b: real, n: nat, v: real): (i: int)
    requires a < b && n >= 2
    ensures 0 <= i < n
    ensures v <= a ==> i == 0
    ensures v >= b ==> i == n - 1
  {
    var q := (v - a) / (b - a);
    QuotientSigns(v - a, b - a);
    IndexBounds(q, n - 1);
    Max(0, Min(n - 1, Round(q * (n - 1) as real)))
  }

  /** Looking up a sample point gives back its own index. */
  lemma LookupAtAbscissa(a: real, b: real, n: nat, i: int)
    requires a < b && n >= 2 && 0 <= i < n
    ensures LookupIndex(a, b, n, Abscissa(a, b, n, i)) == i
  {
    ScaledAbscissa(a, b, n, i);
    RoundOfInt(i);
  }

  lemma QuotientSigns(x: real, y: real)
    requires y > 0.0
    ensures x <= 0.0 ==> x / y <= 0.0
    ensures x >= y ==> x / y >= 1.0
  {
    assert (x / y) * y == x;
  }

  lemma IndexBounds(q: real, c: int)
    requires c >= 1
    ensures q <= 0.0 ==> Round(q * c as real) <= 0
    ensures q >= 1.0 ==> Round(q * c as real) >= c
  {
    if q <= 0.0 { MulLeq(q, 0.0, c as real); }
    if q >= 1.0 { MulLeq(1.0, q, c as real); }
  }

  /** The looked-up sample point is the one nearest to `v`: it lies less than
      half a grid step below `v` or at most half a step above it, ties going
      upwards as `Math.round` sends them. */
  lemma LookupNearest(a: real, b: real, n: nat, v: real)
    requires a < b && n >= 2 && a <= v <= b
    ensures var h := (b - a) / (n - 1) as real;
      -0.5 * h < Abscissa(a, b, n, LookupIndex(a, b, n, v)) - v <= 0.5 * h
  {
    var p := (v - a) / (b - a) * (n - 1) as real;
    LookupUnclamped(a, b, n, v);
    GridGap(a, b, n, v, Round(p));
    DivBounds(b - a, (n - 1) as real);
    HalfStep((b - a) / (n - 1) as real, Round(p) as real - p, Abscissa(a, b, n, Round(p)) - v);
  }

  /** Inside `[a, b]` the clamping of the index does nothing. */
  lemma LookupUnclamped(a: real, b: real, n: nat, v: real)
    requires a < b && n >= 2 && a <= v <= b
    ensures LookupIndex(a, b, n, v) == Round((v - a) / (b - a) * (n - 1) as real)
  {
    var c := (n - 1) as real;
    var q := (v - a) / (b - a);
    FractionBounds(v - a, v - a, b - a);
    ScaleUnit(q, c);
    RoundWithin(0, n - 1, q * c);
  }

  lemma ScaleUnit(q: real, c: real)
    requires 0.0 <= q <= 1.0 && c > 0.0
    ensures 0.0 <= q * c <= c
  {
    MulLeq(0.0, q, c);
    MulLeq(q, 1.0, c);
  }

  /** The distance from `v` to the `i`-th sample point, in grid steps, is
      `i` less the unrounded position of `v`. */
  lemma GridGap(a: real, b: real, n: nat, v: real, i: int)
    requires a < b && n >= 2
    ensures var h := (b - a) / (n - 1) as real;
      Abscissa(a, b, n, i) - v == (i as real - (v - a) / (b - a) * (n - 1) as real) * h
  {
    var c := (n - 1) as real;
    var h := (b - a) / c;
    var p := (v - a) / (b - a) * c;
    MulDivSwap(i as real, c, b - a);
    assert Abscissa(a, b, n, i) - a == i as real * h;
    ScaleBack(v - a, b - a, c);
    assert v - a == p * h;
    SubMul(i as real, p, h);
  }

  lemma HalfStep(h: real, e: real, d: real)
    requires h > 0.0 && -0.5 < e <= 0.5 && d == e * h
    ensures -0.5 * h < d <= 0.5 * h
  {
    MulLt(-0.5, e, h);
    MulLeq(e, 0.5, h);
  }

  lemma MulDivSwap(u: real, c: real, w: real)
    requires c > 0.0
    ensures (u / c) * w == u * (w / c)
  {
  }

  lemma ScaleBack(z: real, y: real, c: real)
    requires y > 0.0 && c > 0.0
    ensures ((z / y) * c) * (y / c) == z
  {
  }

  lemma SubMul(u: real, v: real, h: real)
    ensures u * h - v * h == (u - v) * h
  {
  }

  const ColorInvalid: Color := [0, 0, 196, 255]

  /** The urban palette of the road panel: red below 1.5 m, green from 2 m. */
  const PaletteUrban: seq<ControlPoint> := [
    ControlPoint(0.0, [64, 0, 0, 255]),
    ControlPoint(1.4999, [196, 0, 0, 255]),
    ControlPoint(1.5, [196, 196, 0, 255]),
    ControlPoint(2.0, [0, 196, 0, 255]),
    ControlPoint(2.55, [0, 255, 0, 255])
  ]

  /** The rural palette: red below 2 m, green from 2.5 m. */
  const PaletteRural: seq<ControlPoint> := [
    ControlPoint(0.0, [64, 0, 0, 255]),
    ControlPoint(1.9999, [196, 0, 0, 255]),
    ControlPoint(2.0, [196, 196, 0, 255]),
    ControlPoint(2.5, [0, 196, 0, 255]),
    ControlPoint(2.55, [0, 255, 0, 255])
  ]

  lemma PaletteUrbanWellFormed()
    ensures WellFormed(PaletteUrban) && ColorsInByteRange(PaletteUrban)
  {
  }

  lemma PaletteRuralWellFormed()
    ensures WellFormed(PaletteRural) && ColorsInByteRange(PaletteRural)
  {
  }

  lemma ColorInvalidInByteRange()
    ensures IsColor(ColorInvalid) && InByteRange(ColorInvalid)
  {
  }

  /** `s` holds `n` colours, entry `i` being the palette value at the `i`-th
      evenly spaced point of `[a, b]`. */
  predicate SampledFrom(t: seq<ControlPoint>, a: real, b: real, n: nat, s: seq<Color>)
    requires WellFormed(t) && n >= 2
  {
    && |s| == n
    && (forall i :: 0 <= i < n ==> IsColor(s[i]))
    && (forall i {:trigger Abscissa(a, b, n, i)} :: 0 <= i < n ==> s[i] == Sample(t, Abscissa(a, b, n, i)))
  }

  /** A palette resampled into an evenly spaced lookup table. */
  class Palette {
    var colorInvalid: Color
    var a: real
    var b: real
    var n: nat
    var rgbaSampled: seq<Color>
    /** The control points the table was sampled from. */
    ghost var table: seq<ControlPoint>

    /** Entry `i` of the lookup table is the exact palette value at the
        `i`-th of `n` evenly spaced points from the smallest key `a` to the
        largest key `b`. */
    ghost predicate Valid()
      reads this
    {
      && WellFormed(table) && |table| >= 2 && IsColor(colorInvalid)
      && a == MinKey(table) && b == MaxKey(table)
      && n >= 2 && SampledFrom(table, a, b, n, rgbaSampled)
    }

    constructor (p: seq<ControlPoint>, colorInvalid: Color)
      requires WellFormed(p) && |p| >= 2 && IsColor(colorInvalid)
      ensures Valid()
      ensures table == p && n == 256 && this.colorInvalid == colorInvalid
    {
      this.colorInvalid := colorInvalid;
      new;
      ResamplePalette(p, 256);
    }

    /** The exact palette value at `d`, found with a binary search for the
        bracketing pair and a channel-by-channel interpolation. */
    static method SamplePalette(palette: seq<ControlPoint>, d: real) returns (y: Color)
      requires WellFormed(palette)
      ensures y == Sample(palette, d)
    {
      var x := palette;
      var n := |x|;
      if d <= x[0].key {
        y := x[0].color;
      } else if d >= x[n - 1].key {
        y := x[n - 1].color;
      } else {
        var ia := 0;
        var ib := n - 1;
        while ib - ia > 1
          invariant 0 <= ia < ib <= n - 1
          invariant x[ia].key <= d < x[ib].key
          decreases ib - ia
        {
          var ic := Round(0.5 * (ia + ib) as real);
          assert ia < ic < ib;
          if d < x[ic].key {
            ib := ic;
          } else {
            ia := ic;
          }
        }
        SampleOnSegment(x, ia, d);
        y := InterpolateColors(x[ia], x[ib], d);
      }
    }

    /** The channel-by-channel interpolation step of `samplePalette`:
        `Math.round(ya[i] * (1 - w) + yb[i] * w)` for each of the four
        channels, `w` being the position of `d` between the two keys. */
    static method InterpolateColors(pa: ControlPoint, pb: ControlPoint, d: real) returns (y: Color)
      requires pa.key < pb.key && IsColor(pa.color) && IsColor(pb.color)
      ensures y == Interpolate(pa, pb, d)
    {
      var xa := pa.key;
      var xb := pb.key;
      var w := (d - xa) / (xb - xa);
      var ya := pa.color;
      var yb := pb.color;
      var out := new int[4];
      for i := 0 to 4
        invariant forall k :: 0 <= k < i ==> out[k] == Channel(ya[k], yb[k], Weight(xa, xb, d))
      {
        out[i] := Round(ya[i] as real * (1.0 - w) + yb[i] as real * w);
      }
      y := out[..];
    }

    /** Fill the lookup table with `n` samples of `palette` from its smallest
        to its largest key. */
    method ResamplePalette(palette: seq<ControlPoint>, n: nat)
      requires WellFormed(palette) && |palette| >= 2 && n >= 2 && IsColor(colorInvalid)
      modifies this
      ensures Valid()
      ensures table == palette && this.n == n && colorInvalid == old(colorInvalid)
      ensures a == palette[0].key && b == palette[|palette| - 1].key
      ensures rgbaSampled[0] == Sample(palette, a) == palette[0].color
      ensures rgbaSampled[n - 1] == Sample(palette, b) == palette[|palette| - 1].color
    {
      var a := MinKey(palette);
      var b := MaxKey(palette);
      MinMaxKeysOfSorted(palette);
      var p := new Color[n];
      for i := 0 to n
        modifies p
        invariant forall k :: 0 <= k < i ==> p[k] == Sample(palette, Abscissa(a, b, n, k))
      {
        var xi := Abscissa(a, b, n, i);
        p[i] := SamplePalette(palette, xi);
      }
      assert SampledFrom(palette, a, b, n, p[..]);
      this.a := a;
      this.b := b;
      this.rgbaSampled := p[..];
      this.n := n;
      this.table := palette;
      AbscissaEnds(a, b, n);
      SampleAtKey(palette, 0);
      SampleAtKey(palette, |palette| - 1);
    }

    /** The lookup-table index for a defined value. */
    function RgbaIndex(v: real): (i: int)
      reads this
      requires Valid()
      ensures 0 <= i < n
      ensures v <= a ==> i == 0
      ensures v >= b ==> i == n - 1
    {
      MinMaxKeysOfSorted(table);
      LookupIndex(a, b, n, v)
    }

    /** `rgba(v)`: the invalid colour for an absent value, otherwise the
        lookup-table entry at the value's index. */
    function Rgba(v: Option<real>): (c: Color)
      reads this
      requires Valid()
      ensures IsColor(c)
      ensures v.None? ==> c == colorInvalid
    {
      match v
      case None => colorInvalid
      case Some(x) => rgbaSampled[RgbaIndex(x)]
    }

    /** A defined value is coloured with the exact palette value at its
        nearest sample point, and with the end colours outside the keys. */
    lemma RgbaLookup(x: real)
      requires Valid()
      ensures Rgba(Some(x)) == Sample(table, Abscissa(a, b, n, RgbaIndex(x)))
      ensures x <= a ==> Rgba(Some(x)) == table[0].color
      ensures x >= b ==> Rgba(Some(x)) == table[|table| - 1].color
      ensures a <= x <= b ==> var h := (b - a) / (n - 1) as real;
        -0.5 * h < Abscissa(a, b, n, RgbaIndex(x)) - x <= 0.5 * h
    {
      MinMaxKeysOfSorted(table);
      AbscissaEnds(a, b, n);
      SampleAtKey(table, 0);
      SampleAtKey(table, |table| - 1);
      if a <= x <= b {
        LookupNearest(a, b, n, x);
      }
    }

    /** At a sample point the lookup table gives the exact palette value. */
    lemma RgbaAtSample(i: int)
      requires Valid() && 0 <= i < n
      ensures RgbaIndex(Abscissa(a, b, n, i)) == i
      ensures Rgba(Some(Abscissa(a, b, n, i))) == Sample(table, Abscissa(a, b, n, i))
    {
      MinMaxKeysOfSorted(table);
      LookupAtAbscissa(a, b, n, i);
      RgbaLookup(Abscissa(a, b, n, i));
    }

    /** Byte-valued palette colours make every looked-up colour a byte triple
        plus alpha. */
    lemma RgbaInByteRange(v: Option<real>)
      requires Valid() && ColorsInByteRange(table) && InByteRange(colorInvalid)
      ensures InByteRange(Rgba(v))
    {
      if v.Some? {
        RgbaLookup(v.value);
        SampleInByteRange(table, Abscissa(a, b, n, RgbaIndex(v.value)));
      }
    }

    /** `hex2digits(v)`: the base-16 text of `v`, padded to two digits when
        it has only one. */
    static function Hex2Digits(v: int): (s: string)
      ensures |s| >= 2
    {
      var hex := ToHexString(v);
      if |hex| == 1 then "0" + hex else hex
    }

    /** Two lower-case digits spelling `v` for a byte, more digits above
        255, a minus sign below 0. */
    static lemma Hex2DigitsValue(v: int)
      ensures 0 <= v <= 255 ==>
        |Hex2Digits(v)| == 2 && IsLowerHexDigit(Hex2Digits(v)[0]) && IsLowerHexDigit(Hex2Digits(v)[1]) && HexValue(Hex2Digits(v)) == v
      ensures v > 255 ==> |Hex2Digits(v)| >= 3 && HexValue(Hex2Digits(v)) == v
      ensures v < 0 ==> Hex2Digits(v)[0] == '-'
    {
      var hex := ToHexString(v);
      ToHexStringValue(v);
      if v >= 0 { NatToHexDigits(v); NatToHexLength(v); }
      if |hex| == 1 {
        assert HexValue("0" + hex) == HexValue(hex) by {
          assert ("0" + hex)[..1] == "0";
        }
      }
    }

    /** `rgb_hex(v)`: `#` and two hex digits for each of red, green, blue
        of the looked-up colour. */
    function RgbHex(v: Option<real>): (s: string)
      reads this
      requires Valid()
      ensures |s| >= 1 && s[0] == '#'
    {
      HexTriple(Rgba(v))
    }

    /** When the looked-up colour is a byte triple, the `#rrggbb` text spells
        exactly its red, green and blue. */
    lemma RgbHexDecodes(v: Option<real>)
      requires Valid() && InByteRange(Rgba(v))
      ensures |RgbHex(v)| == 7 && HexColorValue(RgbHex(v)) == Rgba(v)[..3]
    {
      HexTripleRoundTrip(Rgba(v));
    }
  }

  /** The three channels that a `#rrggbb` string spells. */
  function HexColorValue(s: string): seq<int>
    requires |s| == 7
  {
    [HexValue(s[1..3]), HexValue(s[3..5]), HexValue(s[5..7])]
  }

  /** `Hex2Digits` of each channel of `c`, in order. */
  function HexChannels(c: seq<int>): string {
    if c == [] then "" else HexChannels(c[..|c| - 1]) + Palette.Hex2Digits(c[|c| - 1])
  }

  /** `#` followed by `Hex2Digits` of red, green and blue. */
  function HexTriple(color: Color): (s: string)
    requires IsColor(color)
    ensures |s| >= 1 && s[0] == '#'
  {
    "#" + HexChannels(color[..3])
  }

  /** The channel text of red, green and blue is their three `Hex2Digits`
      one after the other. */
  lemma HexChannelsOfThree(color: Color)
    requires IsColor(color)
    ensures HexChannels(color[..3])
         == Palette.Hex2Digits(color[0]) + Palette.Hex2Digits(color[1]) + Palette.Hex2Digits(color[2])
  {
    var c := color[..3];
    assert c[..2][..1][..0] == [] && c[..2][..1] == [color[0]] && c[..2] == [color[0], color[1]];
    assert HexChannels(c[..2][..1]) == Palette.Hex2Digits(color[0]);
  }

  /** Slicing `#rrggbb` back into its three two-character fields. */
  lemma SevenCharFields(r: string, g: string, b: string)
    requires |r| == 2 && |g| == 2 && |b| == 2
    ensures |"#" + (r + g + b)| == 7
    ensures ("#" + (r + g + b))[1..3] == r && ("#" + (r + g + b))[3..5] == g && ("#" + (r + g + b))[5..7] == b
  {
    var s := "#" + (r + g + b);
    assert s[1..3] == r;
    assert s[3..5] == g;
    assert s[5..7] == b;
  }

  /** For byte channels the text is seven characters long and spells the
      red, green and blue channels back. */
  lemma HexTripleRoundTrip(color: Color)
    requires IsColor(color) && InByteRange(color)
    ensures |HexTriple(color)| == 7 && HexColorValue(HexTriple(color)) == color[..3]
  {
    var r, g, b := Palette.Hex2Digits(color[0]), Palette.Hex2Digits(color[1]), Palette.Hex2Digits(color[2]);
    assert 0 <= color[0] <= 255 && 0 <= color[1] <= 255 && 0 <= color[2] <= 255;
    Palette.Hex2DigitsValue(color[0]);
    Palette.Hex2DigitsValue(color[1]);
    Palette.Hex2DigitsValue(color[2]);
    HexChannelsOfThree(color);
    SevenCharFields(r, g, b);
    var s := HexTriple(color);
    assert s == "#" + (r + g + b);
    assert HexColorValue(s) == [HexValue(r), HexValue(g), HexValue(b)];
  }

  /** One-digit values are padded with a zero. */
  lemma Hex2DigitsExamples()
    ensures Palette.Hex2Digits(0) == "00"
    ensures Palette.Hex2Digits(196) == "c4"
  {
    assert NatToHex(0) == "0";
    assert NatToHex(196) == NatToHex(12) + [HexDigit(4)] == "c4";
  }

  /** The hex text of a looked-up green. */
  lemma HexExample()
    ensures HexTriple([0, 196, 0, 255]) == "#00c400"
  {
    Hex2DigitsExamples();
    HexChannelsOfThree([0, 196, 0, 255]);
  }

}
