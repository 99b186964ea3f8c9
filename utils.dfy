/** Angle helpers and the Earth-frame adjustment of src/utils.ts.
    All three are exact linear maps over the reals. */
module Utils {

  /** Math.PI: the IEEE double closest to pi, written out exactly
      (0x400921FB54442D18 = 884279719003555 / 2^48). */
  const PI: real := 884279719003555.0 / 281474976710656.0

  /** A geographic position in degrees; lon is not normalised. */
  datatype GeoPosition = GeoPosition(lat: real, lon: real)

  function DegreeToRadian(degree: real): real
  {
    degree * PI / 180.0
  }

  function RadianToDegree(radian: real): real
  {
    radian * 180.0 / PI
  }

  /** The position relative to the ground of a body whose absolute position is g,
      once the planet has turned by earthRotation degrees. */
  function AbsoluteToEarth(g: GeoPosition, earthRotation: real): GeoPosition
  {
    GeoPosition(g.lat, g.lon - earthRotation)
  }

  lemma PiIsPositive()
    ensures 3.14159 < PI < 3.1416
  {
  }

  /** Converting to radians and back gives the input back. */
  lemma DegreeRadianRoundTrip(degree: real)
    ensures RadianToDegree(DegreeToRadian(degree)) == degree
  {
  }

  /** Converting to degrees and back gives the input back. */
  lemma RadianDegreeRoundTrip(radian: real)
    ensures DegreeToRadian(RadianToDegree(radian)) == radian
  {
  }

  /** The conversion is linear: it is additive and scales, and a half turn is PI. */
  lemma DegreeToRadianLinear(a: real, b: real, k: real)
    ensures DegreeToRadian(a + b) == DegreeToRadian(a) + DegreeToRadian(b)
    ensures DegreeToRadian(k * a) == k * DegreeToRadian(a)
    ensures DegreeToRadian(180.0) == PI
    ensures DegreeToRadian(0.0) == 0.0
  {
  }

  /** Both conversions preserve order, so neither folds angles onto each other. */
  lemma ConversionsMonotonic(a: real, b: real)
    requires a < b
    ensures DegreeToRadian(a) < DegreeToRadian(b)
    ensures RadianToDegree(a) < RadianToDegree(b)
  {
  }

  /** Latitude is never touched, longitude moves west by exactly the rotation. */
  lemma AbsoluteToEarthShifts(g: GeoPosition, earthRotation: real)
    ensures AbsoluteToEarth(g, earthRotation).lat == g.lat
    ensures g.lon - AbsoluteToEarth(g, earthRotation).lon == earthRotation
  {
  }

  /** No rotation leaves the position as it is. */
  lemma AbsoluteToEarthIdentity(g: GeoPosition)
    ensures AbsoluteToEarth(g, 0.0) == g
  {
  }

  /** Two rotations in a row are one rotation by their sum, and turning back undoes a turn. */
  lemma AbsoluteToEarthCompose(g: GeoPosition, r1: real, r2: real)
    ensures AbsoluteToEarth(AbsoluteToEarth(g, r1), r2) == AbsoluteToEarth(g, r1 + r2)
    ensures AbsoluteToEarth(AbsoluteToEarth(g, r1), -r1) == g
  {
  }

  /** No wrap-around is applied: once the rotation exceeds lon + 180 the result
      leaves (-180, 180], and it keeps falling without bound. */
  lemma AbsoluteToEarthNoWraparound(g: GeoPosition, earthRotation: real)
    requires earthRotation >= g.lon + 180.0
    ensures !(-180.0 < AbsoluteToEarth(g, earthRotation).lon <= 180.0)
    ensures AbsoluteToEarth(g, earthRotation + 360.0).lon == AbsoluteToEarth(g, earthRotation).lon - 360.0
  {
  }
}
