/**
 * Longitude normalisation (`PrecipitationData._convert_longitude`).
 * Longitudes are integers counted in hundredths of a degree, so a full turn is
 * 36000 units. Python's `%` with a positive divisor is Dafny's Euclidean `%`.
 */
module Longitude {

  const FullTurn: int := 36000  // 360 degrees
  const HalfTurn: int := 18000  // 180 degrees

  /**
   * `from360To180` maps any longitude into [-180, 180) with `(lon + 180) % 360 - 180`;
   * otherwise it maps into [0, 360) with `lon % 360`. Either way the value keeps its
   * position on the circle.
   */
  function ConvertLongitude(lon: int, from360To180: bool): (r: int)
    ensures from360To180 ==> -HalfTurn <= r < HalfTurn
    ensures !from360To180 ==> 0 <= r < FullTurn
    ensures (r - lon) % FullTurn == 0
  {
    if from360To180 then (lon + HalfTurn) % FullTurn - HalfTurn
    else lon % FullTurn
  }

  /** A longitude already inside the target domain is left as it is. */
  lemma ConvertFixesDomain(lon: int, from360To180: bool)
    requires from360To180 ==> -HalfTurn <= lon < HalfTurn
    requires !from360To180 ==> 0 <= lon < FullTurn
    ensures ConvertLongitude(lon, from360To180) == lon
  {
  }

  /** Two longitudes convert to the same value exactly when they differ by whole turns. */
  lemma ConvertCongruent(a: int, b: int, from360To180: bool)
    ensures ConvertLongitude(a, from360To180) == ConvertLongitude(b, from360To180)
        <==> (a - b) % FullTurn == 0
  {
  }

  /** Converting twice in the same direction is the same as converting once. */
  lemma ConvertIdempotent(lon: int, from360To180: bool)
    ensures ConvertLongitude(ConvertLongitude(lon, from360To180), from360To180)
         == ConvertLongitude(lon, from360To180)
  {
    ConvertFixesDomain(ConvertLongitude(lon, from360To180), from360To180);
  }

  /** For lon in [-180, 180): to180(to360(lon)) == lon. */
  lemma To180UndoesTo360(lon: int)
    requires -HalfTurn <= lon < HalfTurn
    ensures ConvertLongitude(ConvertLongitude(lon, false), true) == lon
  {
  }

  /** For lon in [0, 360): to360(to180(lon)) == lon. */
  lemma To360UndoesTo180(lon: int)
    requires 0 <= lon < FullTurn
    ensures ConvertLongitude(ConvertLongitude(lon, true), false) == lon
  {
  }

  /** The worked example: 200 degrees becomes -160 degrees and back again. */
  lemma RoundTripExample()
    ensures ConvertLongitude(20000, true) == -16000
    ensures ConvertLongitude(-16000, false) == 20000
  {
  }
}
