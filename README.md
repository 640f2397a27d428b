# Road-information and track-list arithmetic of the OpenBikeSensor portal

This project models, in Dafny, the computational core of the portal's web
front end:

- **The road colour ramp** (`RoadInfo.tsx`). A `Palette` is given as control
  points, each a distance in metres with an RGBA colour. The palette value
  is piecewise linear between neighbouring keys, rounded per channel, and
  clamped to the end colours outside the keys. It is resampled once into a
  256-entry lookup table. `rgba` looks a value up in that table. `rgb_hex`
  writes the colour as `#rrggbb`.
- **The road histogram.** Overtaking distances are counted into 11 bins of
  25 cm from 0 m; the last bin is open-ended. The histogram also has bin
  labels and bin colours.
- **The compass label of a road direction.**
- **The track list** (`TracksPage.tsx`). This covers description
  truncation, the request for one page of tracks, the number of pages and
  when the page selector is shown.
- **The map-style colour maps** (`mapstyles/index.js`). This covers thinning
  a colour map, turning unit RGB triples into `rgb` colours, and the
  `interpolate-hcl` style expressions that colour roads by event count and
  by overtaking distance.

Modules:

| module | file | contents |
|---|---|---|
| `Numerics` | `numerics.dfy` | `Option`, `Math.round`, `Math.ceil`, JavaScript's truncating `%` |
| `ColorRamp` | `color_ramp.dfy` | control points, the exact palette value `Sample`, the `Palette` class, hexadecimal text |
| `RoadHistogram` | `road_histogram.dfy` | bins, `histogram`, `histogramLabels`, `histogramColors` |
| `RoadDirection` | `road_direction.dfy` | `getCardinalDirection` |
| `TracksPage` | `tracks_page.dfy` | `maxLength`, the page request, `totalPages`, the pagination condition |
| `MapStyles` | `map_styles.dfy` | `simplifyColormap`, `rgbArrayToColor`, `colormapToScale`, `colorByCount`, `colorByDistance`, an evaluator for the expression forms they use |

Numbers are exact `real`s. Integers are unbounded. `Math.round(x)` is
`Floor(x + 0.5)`. The `%` of `getCardinalDirection` is JavaScript's
remainder, which has the sign of the dividend. For that reason a bearing
between -337.5 and -22.5 degrees selects no table entry, and the label
reads `undefined bound`; the model proves this. At -382.5 degrees the
remainder is 0 again, and the label is `north bound`. `null` and `undefined` inputs
are `Option.None`.

Design decisions:

- **Palette.** `Palette` is a class. Its `ResamplePalette` fills an array in
  a loop and then sets the fields `a`, `b`, `n` and `rgbaSampled`. Its
  invariant `Valid()` says that entry `i` of the table is the exact palette
  value at the `i`-th of `n` evenly spaced points from the smallest to the
  largest key.
- **SamplePalette.** This is the source's binary search for the bracketing
  pair. It is proved equal to the specification function `Sample`, which
  uses a linear scan.
- **Histogram methods.** `Histogram`, `HistogramLabels` and
  `HistogramColors` are loops. Each is proved equal to a specification
  function, and the properties are proved about those functions.
- **Histogram constants.** `hist_xa`, `hist_dx`, `hist_n` and
  `hist_xb_extends_to_infinity` form a `HistogramConfig` parameter.
  `RoadConfig` holds the road panel's values, with `hist_n = 11`.

`hex2digits` uses `toString(16)`, which writes lower-case digits, so green
is `#00c400`.

## Model

| member | source | states |
|---|---|---|
| `Numerics.Round` | frontend/src/pages/MapPage/RoadInfo.tsx:65 | `Math.round` lies within half a unit of its argument |
| `Numerics.Ceil` | frontend/src/pages/TracksPage.tsx:40 | `Math.ceil` is the least integer not below its argument |
| `Numerics.Trunc` | frontend/src/pages/MapPage/RoadInfo.tsx:22 | truncation towards zero, the rounding inside JavaScript's `%`: for `x >= 0` a non-negative integer within one below `x`, for `x < 0` a non-positive integer within one above `x` |
| `Numerics.JsRemainder` | frontend/src/pages/MapPage/RoadInfo.tsx:22 | JavaScript's `x % m` for `m > 0`: in `[0, m)` for `x >= 0` and in `(-m, 0]` for `x < 0`, the sign of the dividend |
| `Numerics.RemainderBounds` | frontend/src/pages/MapPage/RoadInfo.tsx:22 | `x` less `m` times its truncated quotient lies within one step of `m` from 0, on the side of `x` |
| `Numerics.RoundWithin` | frontend/src/pages/MapPage/RoadInfo.tsx:131 | rounding keeps every integer bound of its argument |
| `Numerics.RoundMonotone` | frontend/src/pages/MapPage/RoadInfo.tsx:131 | rounding is monotonic |
| `Numerics.RoundOfInt` | frontend/src/pages/MapPage/RoadInfo.tsx:65 | rounding an integer returns it |
| `Numerics.CeilQuotient` | frontend/src/pages/TracksPage.tsx:40 | `c = ceil(a / b)` satisfies `(c - 1) * b < a <= c * b` |
| `ColorRamp.BracketFrom` | frontend/src/pages/MapPage/RoadInfo.tsx:112-122 | a linear scan from index `i` finds a pair `t[j].key <= d < t[j+1].key` with `j >= i` |
| `ColorRamp.Bracket` | frontend/src/pages/MapPage/RoadInfo.tsx:112-122 | strictly inside the keys, some adjacent pair brackets `d` |
| `ColorRamp.BracketUnique` | frontend/src/pages/MapPage/RoadInfo.tsx:112-122 | with strictly increasing keys, at most one pair brackets a value |
| `ColorRamp.Interpolate` | frontend/src/pages/MapPage/RoadInfo.tsx:124-132 | interpolating two four-channel colours gives four channels |
| `ColorRamp.Weight` | frontend/src/pages/MapPage/RoadInfo.tsx:126 | the weight `w = (d - xa) / (xb - xa)`; its properties are stated by `WeightRange` and `WeightMonotone` |
| `ColorRamp.Blend` | frontend/src/pages/MapPage/RoadInfo.tsx:131 | the unrounded channel `ya * (1 - w) + yb * w`; its properties are stated by `BlendShift`, `BlendBetween` and `BlendMonotone` |
| `ColorRamp.Channel` | frontend/src/pages/MapPage/RoadInfo.tsx:131 | one channel rounded with `Math.round`; its properties are stated by `ChannelBetween` and `ChannelAtEnds` |
| `ColorRamp.Sample` | frontend/src/pages/MapPage/RoadInfo.tsx:93-135 | the palette value is a four-channel colour for every `d` |
| `ColorRamp.SampleClamps` | frontend/src/pages/MapPage/RoadInfo.tsx:107-110 | at or below the first key the value is the first colour; at or above the last key it is the last colour |
| `ColorRamp.WeightRange` | frontend/src/pages/MapPage/RoadInfo.tsx:126 | the weight `w` is in `[0, 1]` between the keys, below 1 before `xb`, and exactly 0 at `xa` and 1 at `xb` |
| `ColorRamp.WeightMonotone` | frontend/src/pages/MapPage/RoadInfo.tsx:126 | the weight grows with `d` |
| `ColorRamp.BlendShift` | frontend/src/pages/MapPage/RoadInfo.tsx:131 | `ya * (1 - w) + yb * w` equals `ya + (yb - ya) * w` |
| `ColorRamp.BlendBetween` | frontend/src/pages/MapPage/RoadInfo.tsx:131 | the unrounded blend lies between the two channel values when `0 <= w <= 1` |
| `ColorRamp.BlendMonotone` | frontend/src/pages/MapPage/RoadInfo.tsx:131 | the unrounded blend moves monotonically with `w` towards `yb` |
| `ColorRamp.ChannelBetween` | frontend/src/pages/MapPage/RoadInfo.tsx:131 | each rounded channel lies between the bracketing channel values, both ends included |
| `ColorRamp.ChannelAtEnds` | frontend/src/pages/MapPage/RoadInfo.tsx:131 | weight 0 gives `ya` and weight 1 gives `yb` exactly |
| `ColorRamp.SampleBetween` | frontend/src/pages/MapPage/RoadInfo.tsx:124-132 | inside the keys, every channel of the palette value lies between the channels of the bracketing points |
| `ColorRamp.SampleAtKey` | frontend/src/pages/MapPage/RoadInfo.tsx:107-132 | evaluating at a key returns that key's colour unchanged; this covers the clamps at the first and last key |
| `ColorRamp.SampleOnSegment` | frontend/src/pages/MapPage/RoadInfo.tsx:107-132 | on a closed segment between adjacent keys, the value is the interpolation of those two points |
| `ColorRamp.SampleMonotoneOnSegment` | frontend/src/pages/MapPage/RoadInfo.tsx:124-132 | between adjacent keys, each channel moves monotonically from one end colour to the other |
| `ColorRamp.SampleInByteRange` | frontend/src/pages/MapPage/RoadInfo.tsx:107-132 | byte-valued control colours give byte-valued palette values everywhere, the clamped ends included |
| `ColorRamp.SampleMidpointExample` | frontend/src/pages/MapPage/RoadInfo.tsx:124-132 | half-way between `[64,0,0,255]` and `[196,196,0,255]` the value is `[130,98,0,255]` |
| `ColorRamp.MinKey` | frontend/src/pages/MapPage/RoadInfo.tsx:144 | `Math.min(...x)` over the keys; stated by `MinKeyIsLeast` |
| `ColorRamp.MaxKey` | frontend/src/pages/MapPage/RoadInfo.tsx:145 | `Math.max(...x)` over the keys; stated by `MaxKeyIsGreatest` |
| `ColorRamp.MinKeyIsLeast` | frontend/src/pages/MapPage/RoadInfo.tsx:144 | `Math.min(...x)` is one of the keys and no key is smaller |
| `ColorRamp.MaxKeyIsGreatest` | frontend/src/pages/MapPage/RoadInfo.tsx:145 | `Math.max(...x)` is one of the keys and no key is larger |
| `ColorRamp.MinMaxKeysOfSorted` | frontend/src/pages/MapPage/RoadInfo.tsx:144-145 | with sorted keys, `a` is the first key and `b` the last |
| `ColorRamp.HexDigit` | frontend/src/pages/MapPage/RoadInfo.tsx:89 | a digit of `toString(16)` is a lower-case hexadecimal digit |
| `ColorRamp.HexDigitRoundTrip` | frontend/src/pages/MapPage/RoadInfo.tsx:89 | reading a written digit back gives its value |
| `ColorRamp.NatToHex` | frontend/src/pages/MapPage/RoadInfo.tsx:89 | the base-16 text of a natural number has at least one digit |
| `ColorRamp.NatToHexValue` | frontend/src/pages/MapPage/RoadInfo.tsx:89 | the base-16 text reads back as the number (round trip) |
| `ColorRamp.NatToHexDigits` | frontend/src/pages/MapPage/RoadInfo.tsx:89 | the digits are lower case, and no text longer than one digit starts with `0` |
| `ColorRamp.NatToHexLength` | frontend/src/pages/MapPage/RoadInfo.tsx:89-90 | one digit exactly below 16, and two digits exactly from 16 to 255 |
| `ColorRamp.ToHexString` | frontend/src/pages/MapPage/RoadInfo.tsx:89 | `v.toString(16)` is never empty |
| `ColorRamp.ToHexStringValue` | frontend/src/pages/MapPage/RoadInfo.tsx:89 | `toString(16)` reads back as `v`; negative values get a leading `-` |
| `ColorRamp.Abscissa` | frontend/src/pages/MapPage/RoadInfo.tsx:150 | the `i`-th sample point `a + i / (n - 1) * (b - a)`; stated by `AbscissaEnds` and `AbscissaMonotone` |
| `ColorRamp.AbscissaEnds` | frontend/src/pages/MapPage/RoadInfo.tsx:150 | sample point 0 is `a` and sample point `n-1` is `b` |
| `ColorRamp.AbscissaMonotone` | frontend/src/pages/MapPage/RoadInfo.tsx:150 | the sample points increase from `a` to `b` |
| `ColorRamp.ScaledAbscissa` | frontend/src/pages/MapPage/RoadInfo.tsx:64 | `rgba`'s normalised index of sample point `i` is exactly `i` |
| `ColorRamp.LookupIndex` | frontend/src/pages/MapPage/RoadInfo.tsx:64-66 | the rounded, clamped index is in `[0, n-1]`; it is 0 at or below `a` and `n-1` at or above `b` |
| `ColorRamp.LookupAtAbscissa` | frontend/src/pages/MapPage/RoadInfo.tsx:64-66 | looking up sample point `i` gives index `i` |
| `ColorRamp.LookupNearest` | frontend/src/pages/MapPage/RoadInfo.tsx:64-66 | for `a <= v <= b` the looked-up sample point is the nearest one: less than half a grid step `(b - a) / (n - 1)` below `v`, at most half a step above it |
| `ColorRamp.LookupUnclamped` | frontend/src/pages/MapPage/RoadInfo.tsx:64-66 | inside `[a, b]` the clamping does nothing; the index is the rounded position |
| `ColorRamp.PaletteUrbanWellFormed` | frontend/src/pages/MapPage/RoadInfo.tsx:161-170 | the urban palette has strictly increasing keys and byte-valued four-channel colours |
| `ColorRamp.PaletteRuralWellFormed` | frontend/src/pages/MapPage/RoadInfo.tsx:172-181 | the rural palette has strictly increasing keys and byte-valued four-channel colours |
| `ColorRamp.ColorInvalidInByteRange` | frontend/src/pages/MapPage/RoadInfo.tsx:169 | the invalid colour `[0, 0, 196, 255]` is a byte-valued four-channel colour |
| `ColorRamp.Palette.constructor` | frontend/src/pages/MapPage/RoadInfo.tsx:55-58 | keeps `colorInvalid`, resamples with `n = 256`, and establishes the table invariant |
| `ColorRamp.Palette.SamplePalette` | frontend/src/pages/MapPage/RoadInfo.tsx:93-135 | the binary search with `ic = round((ia + ib) / 2)` keeps `x[ia] <= d < x[ib]` and stops at adjacent keys; the result equals the exact palette value `Sample` |
| `ColorRamp.Palette.InterpolateColors` | frontend/src/pages/MapPage/RoadInfo.tsx:124-132 | the four-channel interpolation loop computes `Interpolate` |
| `ColorRamp.Palette.ResamplePalette` | frontend/src/pages/MapPage/RoadInfo.tsx:137-158 | sets `a` to the smallest key and `b` to the largest; the table holds exactly `n` samples, entry `i` being the value at `a + i/(n-1)*(b-a)`; the first entry is the first key's colour and the last is the last key's colour |
| `ColorRamp.Palette.RgbaIndex` | frontend/src/pages/MapPage/RoadInfo.tsx:64-66 | the index used for a defined value is in `[0, n-1]`, clamping at both ends |
| `ColorRamp.Palette.Rgba` | frontend/src/pages/MapPage/RoadInfo.tsx:60-68 | `rgba(undefined)` is `colorInvalid`; every result is a four-channel colour |
| `ColorRamp.Palette.RgbaLookup` | frontend/src/pages/MapPage/RoadInfo.tsx:60-68 | a defined value gets the exact palette value at the sample point of its index, which for `a <= x <= b` is within half a grid step of `x`, and the end colours at or beyond the extreme keys |
| `ColorRamp.Palette.RgbaAtSample` | frontend/src/pages/MapPage/RoadInfo.tsx:60-68 | at a sample point `rgba` returns the exact palette value of that point |
| `ColorRamp.Palette.RgbaInByteRange` | frontend/src/pages/MapPage/RoadInfo.tsx:60-68 | byte-valued palettes and invalid colours give byte-valued results for every input |
| `ColorRamp.Palette.Hex2Digits` | frontend/src/pages/MapPage/RoadInfo.tsx:88-91 | the padded text has at least two characters |
| `ColorRamp.Palette.Hex2DigitsValue` | frontend/src/pages/MapPage/RoadInfo.tsx:88-91 | for 0..255, exactly two lower-case digits that spell `v`; above 255, three or more digits that spell `v`; below 0, a leading `-` |
| `ColorRamp.Palette.RgbHex` | frontend/src/pages/MapPage/RoadInfo.tsx:80-86 | the text starts with `#` |
| `ColorRamp.Palette.RgbHexDecodes` | frontend/src/pages/MapPage/RoadInfo.tsx:80-91 | for a byte-valued colour the text has 7 characters and decodes to its red, green and blue channels (round trip) |
| `ColorRamp.HexChannels` | frontend/src/pages/MapPage/RoadInfo.tsx:83 | `hex2digits` of each channel, concatenated in order; stated by `HexChannelsOfThree` |
| `ColorRamp.HexTriple` | frontend/src/pages/MapPage/RoadInfo.tsx:83 | `#` followed by the channel digits |
| `ColorRamp.HexChannelsOfThree` | frontend/src/pages/MapPage/RoadInfo.tsx:83 | the channel text is `hex2digits` of red, green and blue, concatenated in that order |
| `ColorRamp.HexTripleRoundTrip` | frontend/src/pages/MapPage/RoadInfo.tsx:83-90 | byte channels give 7 characters that decode back to the channels |
| `ColorRamp.Hex2DigitsExamples` | frontend/src/pages/MapPage/RoadInfo.tsx:88-91 | `hex2digits(0) == "00"` and `hex2digits(196) == "c4"` |
| `ColorRamp.HexExample` | frontend/src/pages/MapPage/RoadInfo.tsx:80-91 | the colour `[0, 196, 0, 255]` is written `#00c400` |
| `RoadHistogram.RoadConfigBinCount` | frontend/src/pages/MapPage/RoadInfo.tsx:183-187 | `ceil((2.55 - 0) / 0.25)` is 11, the road panel's bin count |
| `RoadHistogram.Edge` | frontend/src/pages/MapPage/RoadInfo.tsx:193 | the lower edge `hist_xa + hist_dx * j` of bin `j`; stated by `EdgeMonotone` |
| `RoadHistogram.BinIndex` | frontend/src/pages/MapPage/RoadInfo.tsx:222-225 | `floor((v - hist_xa) / hist_dx)`, capped at `hist_n - 1` in open-ended mode; stated by `BinHolds` and `LastBinHolds` |
| `RoadHistogram.Counted` | frontend/src/pages/MapPage/RoadInfo.tsx:226 | the guard `0 <= j < hist_n`; stated by `CountedOpenEnded` and `CountedBounded` |
| `RoadHistogram.HistogramSpec` | frontend/src/pages/MapPage/RoadInfo.tsx:217-232 | count `j` is the number of samples in bin `j`; the method `Histogram` is proved to compute it |
| `RoadHistogram.Histogram` | frontend/src/pages/MapPage/RoadInfo.tsx:217-232 | the counting loop returns `hist_n` counts; count `j` is the number of samples whose (clamped) bin is `j` |
| `RoadHistogram.FloorScaled` | frontend/src/pages/MapPage/RoadInfo.tsx:222 | `floor((v - xa) / dx) == j` exactly when `v` is in `[xa + j*dx, xa + (j+1)*dx)` |
| `RoadHistogram.BinHolds` | frontend/src/pages/MapPage/RoadInfo.tsx:222-226 | a sample falls in bin `j` exactly when it lies inside that bin's interval (every bin but an open last one) |
| `RoadHistogram.LastBinHolds` | frontend/src/pages/MapPage/RoadInfo.tsx:222-225 | in open-ended mode the last bin takes exactly the samples at or above its lower edge, the top edge and beyond included |
| `RoadHistogram.EdgeMonotone` | frontend/src/pages/MapPage/RoadInfo.tsx:193 | the bin edges increase |
| `RoadHistogram.CountedOpenEnded` | frontend/src/pages/MapPage/RoadInfo.tsx:222-227 | in open-ended mode a sample is counted exactly when it is at least `hist_xa` |
| `RoadHistogram.CountedBounded` | frontend/src/pages/MapPage/RoadInfo.tsx:222-227 | without the open end, a sample is counted exactly when it lies in `[hist_xa, hist_xa + n*dx)` |
| `RoadHistogram.SumCountsEmpty` | frontend/src/pages/MapPage/RoadInfo.tsx:218 | no samples, no counts |
| `RoadHistogram.SumCountsSnoc` | frontend/src/pages/MapPage/RoadInfo.tsx:220-228 | one more sample adds one to the sum of the first `m` bins exactly when it falls into one of them |
| `RoadHistogram.SumCountsIsCountBelow` | frontend/src/pages/MapPage/RoadInfo.tsx:217-232 | the first `m` counts add up to the number of samples with bin index in `[0, m)` |
| `RoadHistogram.TotalPrefix` | frontend/src/pages/MapPage/RoadInfo.tsx:217-232 | the sum of the first `m` entries of the histogram is that count |
| `RoadHistogram.NumCountedIsCountBelow` | frontend/src/pages/MapPage/RoadInfo.tsx:226 | the counted samples are those with bin index in `[0, hist_n)` |
| `RoadHistogram.NumCountedBound` | frontend/src/pages/MapPage/RoadInfo.tsx:220-228 | at most every sample is counted, and all of them exactly when each one passes the bin guard |
| `RoadHistogram.HistogramTotal` | frontend/src/pages/MapPage/RoadInfo.tsx:217-232 | the counts add up to the number of counted samples, which is at most `samples.length`; they equal it exactly when every sample is counted |
| `RoadHistogram.OpenEndedCountsAtLeast` | frontend/src/pages/MapPage/RoadInfo.tsx:223-227 | in open-ended mode the sum equals the number of samples `>= hist_xa` |
| `RoadHistogram.OpenEndedTotal` | frontend/src/pages/MapPage/RoadInfo.tsx:217-232 | in open-ended mode the bin counts add up to the number of samples `>= hist_xa` |
| `RoadHistogram.BoundedTotal` | frontend/src/pages/MapPage/RoadInfo.tsx:217-232 | without the open end, the counts add up to exactly the number of samples in `[hist_xa, hist_xa + n*dx)` |
| `RoadHistogram.HistogramExample` | frontend/src/pages/MapPage/RoadInfo.tsx:217-232 | the samples 0.1, 0.3, 0.3 and 2.9 give `[1,2,0,0,0,0,0,0,0,0,1]` |
| `RoadHistogram.HistogramLabels` | frontend/src/pages/MapPage/RoadInfo.tsx:189-204 | `hist_n` labels, label `i` from `xa*100` to `xb*100`; in open-ended mode only the last label is the "at least" form |
| `RoadHistogram.LabelAt` | frontend/src/pages/MapPage/RoadInfo.tsx:193-199 | label `i`: the "at least" form for an open last bin, otherwise the range from `xa*100` to `xb*100`; stated by `LabelMatchesBin` and `LabelsAdjacent` |
| `RoadHistogram.LabelMatchesBin` | frontend/src/pages/MapPage/RoadInfo.tsx:193-199 | label `i` describes exactly the samples that land in bin `i` |
| `RoadHistogram.LabelsAdjacent` | frontend/src/pages/MapPage/RoadInfo.tsx:193-199 | each closed label ends where the next one begins |
| `RoadHistogram.HistogramColors` | frontend/src/pages/MapPage/RoadInfo.tsx:206-215 | `hist_n` colours, colour `i` being `rgb_hex` at the bin's lower edge |
| `RoadHistogram.BinColor` | frontend/src/pages/MapPage/RoadInfo.tsx:210-211 | `rgb_hex` of the palette at the bin's lower edge; stated by `HistogramColorDecodes` |
| `RoadHistogram.HistogramColorDecodes` | frontend/src/pages/MapPage/RoadInfo.tsx:206-215 | with byte-valued palettes, each bin colour is a 7-character `#rrggbb` spelling the palette colour at the bin's lower edge |
| `RoadDirection.SectorPosition` | frontend/src/pages/MapPage/RoadInfo.tsx:22 | the bearing in eighths of a turn plus a half, `bearing / 360 * 8 + 0.5`; stated by `SectorOfBearing` |
| `RoadDirection.SectorIndex` | frontend/src/pages/MapPage/RoadInfo.tsx:22 | `Math.floor` of the truncating remainder of the position by 8; stated by `SectorIndexInRange`, `SectorOfBearing` and `NegativeBearingUndefined` |
| `RoadDirection.DirectionName` | frontend/src/pages/MapPage/RoadInfo.tsx:17-23 | a table index gives its direction; any other index gives the text `undefined` |
| `RoadDirection.CardinalDirection` | frontend/src/pages/MapPage/RoadInfo.tsx:18-23 | `unknown` exactly for a missing bearing; otherwise the text ends in ` bound` |
| `RoadDirection.SectorIndexInRange` | frontend/src/pages/MapPage/RoadInfo.tsx:22 | from -22.5 degrees up, the index is in `[0, 7]` |
| `RoadDirection.SectorOfBearing` | frontend/src/pages/MapPage/RoadInfo.tsx:22 | within one turn from -22.5 degrees, index `k` is chosen exactly for bearings within 22.5 degrees of `45k` |
| `RoadDirection.CardinalDirectionOfSector` | frontend/src/pages/MapPage/RoadInfo.tsx:18-23 | a bearing within 22.5 degrees of `45k` is labelled with the `k`-th direction and ` bound` |
| `RoadDirection.NorthWrapsAround` | frontend/src/pages/MapPage/RoadInfo.tsx:22 | bearings from 337.5 to 360 degrees wrap round to `north bound` |
| `RoadDirection.SectorIndexPeriodic` | frontend/src/pages/MapPage/RoadInfo.tsx:22 | adding a full turn to a bearing from -22.5 degrees up keeps the index |
| `RoadDirection.NegativeBearingUndefined` | frontend/src/pages/MapPage/RoadInfo.tsx:21-23 | between -337.5 and -22.5 degrees the truncating remainder is negative, and the label is `undefined bound` |
| `RoadDirection.CardinalDirectionExamples` | frontend/src/pages/MapPage/RoadInfo.tsx:18-23 | `unknown`, `north bound` at 0, 350 and -382.5, `east bound` at 90, `undefined bound` at -90 |
| `TracksPage.MaxLength` | frontend/src/pages/TracksPage.tsx:68-74 | a missing or empty description, or one within the limit, comes back unchanged; a longer one becomes its first `max` characters (none for a negative `max`) followed by ` ...` |
| `TracksPage.MaxLengthBound` | frontend/src/pages/TracksPage.tsx:68-74 | the result is at most `max + 4` characters and at most four more than the description |
| `TracksPage.MaxLengthWithinLimitUnchanged` | frontend/src/pages/TracksPage.tsx:68-74 | a description within the limit is a fixed point, even when truncated twice |
| `TracksPage.MaxLengthExamples` | frontend/src/pages/TracksPage.tsx:68-74 | `abcdef` with limit 3 is `abc ...`; `abc` stays; a negative limit leaves only ` ...`; a missing description stays missing |
| `TracksPage.TrackRequest` | frontend/src/pages/TracksPage.tsx:27-28 | the url is `/tracks/feed` exactly for private tracks and `/tracks` otherwise; `limit = pageSize` and `offset = pageSize * (page - 1)` |
| `TracksPage.RequestsTile` | frontend/src/pages/TracksPage.tsx:28 | page 1 starts at offset 0, and each page starts where the previous one ends |
| `TracksPage.TrackCount` | frontend/src/pages/TracksPage.tsx:38 | the loaded track count, or 0 while `data` is `null`; stated by `ShowPaginationIff` |
| `TracksPage.ShowPagination` | frontend/src/pages/TracksPage.tsx:39-45 | the selector condition `!loading && totalPages > 1`; stated by `ShowPaginationIff` |
| `TracksPage.TotalPages` | frontend/src/pages/TracksPage.tsx:40 | 0 pages exactly for 0 tracks; otherwise `(pages - 1) * pageSize < trackCount <= pages * pageSize` |
| `TracksPage.ShowPaginationIff` | frontend/src/pages/TracksPage.tsx:38-45 | the page selector shows exactly when the data has loaded and there are more than `pageSize` tracks |
| `TracksPage.TrackOnOnePage` | frontend/src/pages/TracksPage.tsx:28-40 | every track is in the window of exactly one page, and that page is among the ones offered |
| `TracksPage.PagesHoldTracks` | frontend/src/pages/TracksPage.tsx:28-40 | the offered pages are exactly those whose offset falls inside the track list |
| `MapStyles.Stride` | frontend/src/mapstyles/index.js:13 | the stride is 0 exactly for an empty colour map, and otherwise the ceiling of `length / maxCount` |
| `MapStyles.SimplifyColormap` | frontend/src/mapstyles/index.js:11-18 | element `k` is `colormap[k * step]`; the result holds every such element and no more; it has at most `maxCount` entries; it keeps the first entry; it is the whole colour map when that has at most `maxCount` entries; it is empty exactly for an empty input |
| `MapStyles.SimplifiedBounds` | frontend/src/mapstyles/index.js:13-16 | the entries a stride apart number at most `maxCount` |
| `MapStyles.ShortColormapKept` | frontend/src/mapstyles/index.js:13-16 | a colour map of at most `maxCount` entries has stride 1 and is kept whole |
| `MapStyles.ShortStride` | frontend/src/mapstyles/index.js:13 | a colour map of at most `maxCount` entries has stride 1 |
| `MapStyles.ScaleChannels` | frontend/src/mapstyles/index.js:21 | channel `i` becomes `round(arr[i] * 255)` |
| `MapStyles.RgbArrayToColor` | frontend/src/mapstyles/index.js:20-22 | an `rgb` expression with one entry per channel |
| `MapStyles.RgbArrayToColorChannels` | frontend/src/mapstyles/index.js:20-22 | a channel in `[0, 1]` becomes a whole number in `[0, 255]` nearest to the channel times 255 |
| `MapStyles.RgbArrayToColorOfBytes` | frontend/src/mapstyles/index.js:20-22 | byte channels divided by 255 come back as the same bytes (round trip) |
| `MapStyles.ScaleStop` | frontend/src/mapstyles/index.js:29 | the stop is `NaN` exactly for a colour map of one entry |
| `MapStyles.StopPairs` | frontend/src/mapstyles/index.js:29 | the `flatMap` gives two entries per colour: its stop, then the colour |
| `MapStyles.ColormapToScale` | frontend/src/mapstyles/index.js:24-31 | length `3 + 2 * len`, starting with `interpolate-hcl`, `['linear']` and the value; after that come alternating stops and colours |
| `MapStyles.ScaleStopIsAbscissa` | frontend/src/mapstyles/index.js:29 | the stops are the evenly spaced points that the palette's table also uses |
| `MapStyles.ScaleStopsOrdered` | frontend/src/mapstyles/index.js:24-31 | with two entries or more, the first stop is `min` and the last is `max`; stops rise strictly when `min < max` and are equal when `min == max` |
| `MapStyles.StopsOrdered` | frontend/src/mapstyles/index.js:29 | the end stops are `min` and `max`; later stops are greater, or equal when `min == max` |
| `MapStyles.SingleEntryScale` | frontend/src/mapstyles/index.js:29 | a single-entry colour map has the stop `NaN` (`0 / 0`) |
| `MapStyles.Eval` | frontend/src/mapstyles/index.js:41-47 | a style expression evaluates to a non-list value or to nothing |
| `MapStyles.EvalGet` | frontend/src/mapstyles/index.js:41-47 | `get` reads the property, or `null` when it is absent; `to-boolean` gives its truthiness |
| `MapStyles.CountValue` | frontend/src/mapstyles/index.js:41 | the expression `['case', ['to-boolean', ['get', attribute]], ['get', attribute], 0]`; stated by `CountValueEval` |
| `MapStyles.CountValueEval` | frontend/src/mapstyles/index.js:41 | the count is the attribute when it is truthy, and 0 otherwise |
| `MapStyles.ColorByCount` | frontend/src/mapstyles/index.js:40-42 | the colour map scaled over the count expression |
| `MapStyles.ColorByCountRange` | frontend/src/mapstyles/index.js:40-42 | the count scale runs from 0 to `maxCount` |
| `MapStyles.ColorByCountGrayscale` | frontend/src/mapstyles/index.js:34-41 | event counts in the grayscale map up to 10: white at stop 0, black at stop 10 |
| `MapStyles.DistancePairs` | frontend/src/mapstyles/index.js:53-62 | the stops of the distance scale interleaved with their colours |
| `MapStyles.DistanceRamp` | frontend/src/mapstyles/index.js:49-63 | the `interpolate-hcl` scale of the attribute through the five stops; stated by `DistanceRampWellFormed` |
| `MapStyles.ColorByDistance` | frontend/src/mapstyles/index.js:44-64 | a `case` whose default branch is the fallback and whose other branch is the distance scale |
| `MapStyles.DistanceRampWellFormed` | frontend/src/mapstyles/index.js:49-63 | the stops 0.5, 1, 1.5, 2.0, 2.5 rise strictly and alternate with their colours |
| `MapStyles.ColorByDistanceEval` | frontend/src/mapstyles/index.js:44-64 | the condition evaluates to the negated truthiness of the attribute; a missing or falsy attribute selects the fallback; any other value selects the distance scale |
| `MapStyles.ColorByDistanceExamples` | frontend/src/mapstyles/index.js:44-48 | a missing attribute, and a distance of 0, both get `#ABC` |

## Left out

- React rendering, hooks and JSX are not modelled. This covers `RoadInfo`, `RoadStatsTable`, `RoadHistogramTable`, `TrackList`, `TrackListItem`, `UploadButton` and `TracksPage`.
- The rxjs pipelines and `api.get` are not modelled; they are asynchronous network I/O. The model keeps only the request each page makes and treats the loaded track count as an `Option`. `None` stands for the `null` shown while loading.
- Redux, the router and `useQueryParam` are not modelled. The page number is a parameter.
- The ApexCharts options and the react-map-gl layers are not modelled; they configure foreign libraries. The map renderer's evaluation of `interpolate-hcl` and of colour strings is outside the model. `Eval` covers only the literals and the `get`, `to-boolean`, `!` and four-part `case` forms these expressions use.
- The JSON base-map styles and the `viridisBase` colour map are external data. `viridis` is therefore not modelled as a value. It is `SimplifyColormap` applied to a list of `RgbArrayToColor` results with `maxCount = 20`, so it has at most 20 entries.
- IEEE-754 floating point is not modelled: rounding error, `-0` and infinities are outside the model. Numbers are exact reals. `NaN` appears only as the stop that `0 / 0` produces in `colormapToScale`. Because of this, `hist_n` is not recomputed from floats; `RoadConfigBinCount` shows that the exact value is 11.
- `toFixed` formatting is not modelled. Histogram labels are the numbers `xa*100` and `xb*100` in a `Label` datatype, not text. The prefix of the last label is an encoding artefact in the source, so the model represents it only as the `AtLeast` form.
- `rgba_css` and `rgb_css` are not modelled. They only join channels into CSS text.
- `Object.keys`, `parseFloat` and the sort in `samplePalette` are not modelled. A palette is a list of control points with strictly increasing keys (`WellFormed`). Duplicate or unparsable keys lie outside the model.
- A `Palette` needs at least two keys, so that `b - a` is positive. With a single key, `rgba` divides by zero. `SamplePalette` itself allows a single key.
- String lengths count Dafny characters, not JavaScript's UTF-16 code units.
- ColorRamp.Palette.Rgba: the contract states only the invalid colour and the four channels. The value for a defined input is stated by the lemma `RgbaLookup`, which keeps the cost of proof obligations that mention `Rgba` low.
- The channel loop of `samplePalette` is a method of its own, `InterpolateColors`, which `SamplePalette` calls after the search loop.
- RoadHistogram.HistogramColors: builds its result as a sequence in the loop, not as an array of strings.
- MapStyles.SimplifyColormap: requires `maxCount >= 1`. The only call site, index.js:33, passes 20. The default argument `maxCount = 16` (index.js:11) is not modelled: the model always takes `maxCount` as a parameter. With `maxCount <= 0` the source's stride is infinite, `NaN` or not positive, and its loop can run forever.
