/** The compass label of a road direction: a bearing in degrees is mapped to
    one of eight 45-degree sectors, with JavaScript's truncating remainder
    deciding what happens to negative bearings. */
module RoadDirection {
  import opened Numerics

  /** `CARDINAL_DIRECTIONS`, clockwise from north. */
  const CardinalDirections: seq<string> :=
    ["north", "north-east", "east", "south-east", "south", "south-west", "west", "north-west"]

  /** `bearing / 360 * 8 + 0.5`: the bearing in eighths of a turn, shifted
      by half a sector so that each sector starts 22.5 degrees early. */
  function SectorPosition(bearing: real): real {
    bearing / 360.0 * 8.0 + 0.5
  }

  /** `Math.floor(position % 8)`, the index the label is looked up at. */
  function SectorIndex(bearing: real): int {
    JsRemainder(SectorPosition(bearing), 8.0).Floor
  }

  /** `CARDINAL_DIRECTIONS[i]`, or the text `undefined` that JavaScript
      concatenates when `i` is not an index of the table. */
  function DirectionName(i: int): (s: string)
    ensures 0 <= i < 8 ==> s == CardinalDirections[i]
    ensures !(0 <= i < 8) ==> s == "undefined"
  {
    if 0 <= i < |CardinalDirections| then CardinalDirections[i] else "undefined"
  }

  /** `getCardinalDirection(bearing)`: `unknown` exactly when there is no
      bearing, otherwise a direction name followed by ` bound`. */
  function CardinalDirection(bearing: Option<real>): (s: string)
    ensures bearing.None? <==> s == "unknown"
    ensures bearing.Some? ==> |s| > 6 && s[|s| - 6..] == " bound"
  {
    match bearing
    case None => "unknown"
    case Some(b) => DirectionName(SectorIndex(b)) + " bound"
  }

  /** From -22.5 degrees up the index is a valid table index. */
  lemma SectorIndexInRange(bearing: real)
    requires bearing >= -22.5
    ensures 0 <= SectorIndex(bearing) < 8
  {
    var x := SectorPosition(bearing);
    assert x >= 0.0;
    assert 0.0 <= JsRemainder(x, 8.0) < 8.0;
  }

  /** Within one turn starting at -22.5 degrees, sector `k` is exactly the
      bearings within 22.5 degrees of `45 * k`. */
  lemma SectorOfBearing(bearing: real, k: int)
    requires -22.5 <= bearing < 337.5 && 0 <= k < 8
    ensures SectorIndex(bearing) == k <==> 45.0 * k as real - 22.5 <= bearing < 45.0 * k as real + 22.5
  {
    var x := SectorPosition(bearing);
    assert 0.0 <= x < 8.0;
    assert JsRemainder(x, 8.0) == x;
  }

  /** A bearing within 22.5 degrees of `45 * k` is labelled with the
      `k`-th direction. */
  lemma CardinalDirectionOfSector(bearing: real, k: int)
    requires -22.5 <= bearing < 337.5 && 0 <= k < 8
    requires 45.0 * k as real - 22.5 <= bearing < 45.0 * k as real + 22.5
    ensures CardinalDirection(Some(bearing)) == CardinalDirections[k] + " bound"
  {
    SectorOfBearing(bearing, k);
  }

  /** The last half sector of the turn, from 337.5 degrees, wraps round to
      north. */
  lemma NorthWrapsAround(bearing: real)
    requires 337.5 <= bearing < 360.0
    ensures SectorIndex(bearing) == 0
    ensures CardinalDirection(Some(bearing)) == "north bound"
  {
    var x := SectorPosition(bearing);
    assert 8.0 <= x < 8.5;
    assert Trunc(x / 8.0) == 1;
    assert JsRemainder(x, 8.0) == x - 8.0;
  }

  /** A full turn more gives the same label. */
  lemma SectorIndexPeriodic(bearing: real)
    requires bearing >= -22.5
    ensures SectorIndex(bearing + 360.0) == SectorIndex(bearing)
  {
    var x := SectorPosition(bearing);
    assert SectorPosition(bearing + 360.0) == x + 8.0;
    assert Trunc((x + 8.0) / 8.0) == Trunc(x / 8.0) + 1;
  }

  /** Between -337.5 and -22.5 degrees the remainder is negative and the
      lookup misses the table: the label reads `undefined bound`. */
  lemma NegativeBearingUndefined(bearing: real)
    requires -337.5 < bearing < -22.5
    ensures SectorIndex(bearing) < 0
    ensures CardinalDirection(Some(bearing)) == "undefined bound"
  {
    var x := SectorPosition(bearing);
    assert -7.0 < x < 0.0;
    assert JsRemainder(x, 8.0) == x;
  }

  lemma CardinalDirectionExamples()
    ensures CardinalDirection(None) == "unknown"
    ensures CardinalDirection(Some(0.0)) == "north bound"
    ensures CardinalDirection(Some(90.0)) == "east bound"
    ensures CardinalDirection(Some(350.0)) == "north bound"
    ensures CardinalDirection(Some(-90.0)) == "undefined bound"
    ensures CardinalDirection(Some(-382.5)) == "north bound"
  {
    SectorOfBearing(0.0, 0);
    SectorOfBearing(90.0, 2);
    assert SectorPosition(350.0) == 350.0 / 45.0 + 0.5;
    assert JsRemainder(SectorPosition(350.0), 8.0) == 350.0 / 45.0 + 0.5 - 8.0;
    NegativeBearingUndefined(-90.0);
    assert SectorPosition(-382.5) == -8.0;
    assert JsRemainder(-8.0, 8.0) == 0.0;
  }
}
