/** The screen arithmetic of the 2D map in src/components/Animation3.tsx:
    the letterbox fit of the canvas, the longitude-to-column mappings with
    JavaScript's truncating remainder, the grid loops and the trail pen. */
module MapCanvas {

  datatype Option<T> = None | Some(value: T)

  /** Width and height of a canvas, in pixels. */
  datatype Size = Size(width: real, height: real)

  /** The canvas size for a window of innerWidth x innerHeight showing a map
      image of imageWidth x imageHeight: the largest rectangle of the image's
      shape that fits the window. resizeCanvas and animate compute it alike. */
  function Fit(innerWidth: real, innerHeight: real, imageWidth: real, imageHeight: real): (r: Size)
    requires innerWidth > 0.0 && innerHeight > 0.0
    requires imageWidth > 0.0 && imageHeight > 0.0
    ensures r.width * imageHeight == r.height * imageWidth
    ensures 0.0 < r.width <= innerWidth && 0.0 < r.height <= innerHeight
    ensures r.width == innerWidth || r.height == innerHeight
  {
    var aspectRatio := imageWidth / imageHeight;
    var windowAspectRatio := innerWidth / innerHeight;
    if windowAspectRatio > aspectRatio then
      FitsByHeight(innerWidth, innerHeight, aspectRatio);
      Size(innerHeight * aspectRatio, innerHeight)
    else
      FitsByWidth(innerWidth, innerHeight, aspectRatio);
      Size(innerWidth, innerWidth / aspectRatio)
  }

  /** A window wider than the image: the image's full height fits across. */
  lemma FitsByHeight(innerWidth: real, innerHeight: real, aspectRatio: real)
    requires innerWidth > 0.0 && innerHeight > 0.0 && aspectRatio > 0.0
    requires innerWidth / innerHeight > aspectRatio
    ensures 0.0 < innerHeight * aspectRatio < innerWidth
  {
    calc {
      innerHeight * aspectRatio;
    <  innerHeight * (innerWidth / innerHeight);
    == innerWidth;
    }
  }

  /** A window no wider than the image: the image's full width fits down. */
  lemma FitsByWidth(innerWidth: real, innerHeight: real, aspectRatio: real)
    requires innerWidth > 0.0 && innerHeight > 0.0 && aspectRatio > 0.0
    requires innerWidth / innerHeight <= aspectRatio
    ensures 0.0 < innerWidth / aspectRatio <= innerHeight
  {
    calc {
      innerWidth / aspectRatio;
    <= innerWidth / (innerWidth / innerHeight);
    == innerHeight;
    }
  }

  /** Truncation toward zero, the quotient JavaScript's % is built on. */
  function Trunc(q: real): (t: int)
    ensures q >= 0.0 ==> t as real <= q < t as real + 1.0
    ensures q < 0.0 ==> t as real - 1.0 < q <= t as real
  {
    if q >= 0.0 then q.Floor else -((-q).Floor)
  }

  /** x is a whole multiple of b. */
  predicate IsMultiple(x: real, b: real)
    requires b > 0.0
  {
    x / b == (x / b).Floor as real
  }

  /** Scaling by a positive factor keeps order. */
  lemma ScaleBetween(b: real, lo: real, x: real, hi: real)
    requires b > 0.0 && lo <= x <= hi
    ensures b * lo <= b * x <= b * hi
    ensures x < hi ==> b * x < b * hi
    ensures lo < x ==> b * lo < b * x
  {
  }

  /** With t the quotient a / b rounded toward zero, a - b * t lies within one
      b of zero, on the side of a. */
  lemma RemainderBetween(a: real, b: real, t: real)
    requires b > 0.0
    requires a >= 0.0 ==> t <= a / b < t + 1.0
    requires a < 0.0 ==> t - 1.0 < a / b <= t
    ensures a >= 0.0 ==> 0.0 <= a - b * t < b
    ensures a < 0.0 ==> -b < a - b * t <= 0.0
    ensures (a - (a - b * t)) / b == t
  {
    if a >= 0.0 {
      RemainderBelow(a, b, t);
    } else {
      RemainderAbove(a, b, t);
    }
    assert a - (a - b * t) == b * t;
  }

  /** The fractional part of a non-negative quotient, scaled back by b. */
  lemma RemainderBelow(a: real, b: real, t: real)
    requires b > 0.0 && t <= a / b < t + 1.0
    ensures 0.0 <= a - b * t < b
  {
    var f := a / b - t;
    assert 0.0 <= f < 1.0;
    ScaleBetween(b, 0.0, f, 1.0);
    assert b * f < b * 1.0;
    assert b * 1.0 == b;
    assert b * (a / b) == a;
    assert b * f == a - b * t;
  }

  /** The fractional part of a negative quotient, scaled back by b. */
  lemma RemainderAbove(a: real, b: real, t: real)
    requires b > 0.0 && t - 1.0 < a / b <= t
    ensures -b < a - b * t <= 0.0
  {
    var f := t - a / b;
    assert 0.0 <= f < 1.0;
    ScaleBetween(b, 0.0, f, 1.0);
    assert b * f < b * 1.0;
    assert b * 1.0 == b;
    assert b * (a / b) == a;
    assert b * f == b * t - a;
  }

  /** JavaScript's a % b for a positive divisor: the remainder takes the sign
      of the dividend, unlike Dafny's Euclidean %. */
  function JsRem(a: real, b: real): (r: real)
    requires b > 0.0
    ensures a >= 0.0 ==> 0.0 <= r < b
    ensures a < 0.0 ==> -b < r <= 0.0
    ensures IsMultiple(a - r, b)
  {
    var t := Trunc(a / b) as real;
    assert a >= 0.0 ==> a / b >= 0.0;
    RemainderBetween(a, b, t);
    a - b * t
  }

  /** The remainder is determined by its sign and its distance from a multiple
      of b, so any r with those properties is JsRem(a, b). */
  lemma JsRemUnique(a: real, b: real, r: real)
    requires b > 0.0
    requires a >= 0.0 ==> 0.0 <= r < b
    requires a < 0.0 ==> -b < r <= 0.0
    requires IsMultiple(a - r, b)
    ensures JsRem(a, b) == r
  {
    var j := JsRem(a, b);
    var m := ((a - r) / b).Floor;
    var n := ((a - j) / b).Floor;
    assert a - r == b * m as real;
    assert a - j == b * n as real;
    assert j - r == b * (m - n) as real;
    SmallMultipleIsZero(b, j - r, m - n);
  }

  /** The only whole multiple of b strictly between -b and b is zero. */
  lemma SmallMultipleIsZero(b: real, d: real, k: int)
    requires b > 0.0 && -b < d < b && d == b * k as real
    ensures k == 0
  {
    var kr := k as real;
    if k > 0 {
      ScaleBetween(b, 1.0, kr, kr);
    } else if k < 0 {
      ScaleBetween(b, 1.0, -kr, -kr);
    }
  }

  /** A non-negative dividend and that dividend plus one more period leave the
      same remainder. */
  lemma JsRemPeriodic(a: real, b: real)
    requires b > 0.0 && a >= 0.0
    ensures JsRem(a + b, b) == JsRem(a, b)
  {
    var r := JsRem(a, b);
    var q := (a - r) / b;
    assert q == q.Floor as real;
    QuotientShift(a - r, b, q);
    assert (a + b - r) / b == (q.Floor + 1) as real;
    JsRemUnique(a + b, b, r);
  }

  /** Adding b to a multiple of b adds one to its quotient. */
  lemma QuotientShift(x: real, b: real, q: real)
    requires b > 0.0 && q == x / b
    ensures (x + b) / b == q + 1.0
  {
    assert (x + b) / b == x / b + b / b;
    assert b / b == 1.0;
  }

  /** The column of an object at longitude lon on a canvas width pixels wide
      (initialX and the object's x in animate). */
  function ObjectColumn(lon: real, width: real): real
  {
    JsRem(lon + 180.0, 360.0) / 360.0 * width
  }

  /** The column of the meridian at longitude lon in drawGrid, where the map
      starts at initialLongitude. */
  function GridColumn(lon: real, initialLongitude: real, width: real): real
  {
    JsRem(lon + 360.0 - initialLongitude, 360.0) / 360.0 * width
  }

  /** Every longitude of [-180, 180] lands on the canvas. */
  lemma ObjectColumnInRange(lon: real, width: real)
    requires -180.0 <= lon <= 180.0 && width > 0.0
    ensures 0.0 <= ObjectColumn(lon, width) < width
  {
    var f := JsRem(lon + 180.0, 360.0) / 360.0;
    assert 0.0 <= f < 1.0;
    assert f * width < 1.0 * width;
  }

  /** Inside [-180, 180) the column is proportional to the distance east of -180. */
  lemma ObjectColumnLinear(lon: real, width: real)
    requires -180.0 <= lon < 180.0
    ensures ObjectColumn(lon, width) == (lon + 180.0) / 360.0 * width
  {
    JsRemUnique(lon + 180.0, 360.0, lon + 180.0);
  }

  /** Both sides of the antimeridian map to the left edge. */
  lemma ObjectColumnAntimeridian(width: real)
    ensures ObjectColumn(180.0, width) == ObjectColumn(-180.0, width) == 0.0
  {
    JsRemUnique(360.0, 360.0, 0.0);
    JsRemUnique(0.0, 360.0, 0.0);
  }

  /** The remainder truncates, so a longitude just west of -180 is not wrapped
      round: it lands left of the canvas. */
  lemma ObjectColumnWestOfRange(lon: real, width: real)
    requires -540.0 < lon < -180.0 && width > 0.0
    ensures ObjectColumn(lon, width) < 0.0
    ensures ObjectColumn(lon, width) == (lon + 180.0) / 360.0 * width
  {
    JsRemUnique(lon + 180.0, 360.0, lon + 180.0);
  }

  /** Every meridian of [-180, 180] lands on the canvas when the map starts at a
      longitude of [-180, 180]. */
  lemma GridColumnInRange(lon: real, initialLongitude: real, width: real)
    requires -180.0 <= lon <= 180.0 && -180.0 <= initialLongitude <= 180.0
    requires width > 0.0
    ensures 0.0 <= GridColumn(lon, initialLongitude, width) < width
  {
    var f := JsRem(lon + 360.0 - initialLongitude, 360.0) / 360.0;
    assert 0.0 <= f < 1.0;
    assert f * width < 1.0 * width;
  }

  /** The meridians are shifted by initialLongitude and the objects are not:
      on the canvas a meridian and an object at the same longitude meet
      exactly when initialLongitude is 180 or -180. */
  lemma GridMatchesObjectOnlyAtAntimeridian(lon: real, initialLongitude: real, width: real)
    requires -180.0 <= lon <= 180.0 && -180.0 <= initialLongitude <= 180.0
    requires width > 0.0
    ensures GridColumn(lon, initialLongitude, width) == ObjectColumn(lon, width)
      <==> initialLongitude == 180.0 || initialLongitude == -180.0
  {
    var a := lon + 180.0;
    var d := 180.0 - initialLongitude;
    var g := JsRem(a + d, 360.0);
    var o := JsRem(a, 360.0);
    assert GridColumn(lon, initialLongitude, width) == g / 360.0 * width;
    assert ObjectColumn(lon, width) == o / 360.0 * width;
    if initialLongitude == -180.0 {
      JsRemPeriodic(a, 360.0);
    } else if initialLongitude != 180.0 {
      var m := ((a + d - g) / 360.0).Floor;
      var n := ((a - o) / 360.0).Floor;
      assert a + d - g == 360.0 * m as real;
      assert a - o == 360.0 * n as real;
      if g == o {
        assert false;
      }
      assert g / 360.0 * width != o / 360.0 * width;
    }
  }

  /** drawGrid: the latitudes of the parallels and the columns of the meridians,
      in the order they are drawn. (The parallels' rows go through mercatorY,
      which is not part of this model.) */
  method DrawGrid(width: real, initialLongitude: real) returns (parallels: seq<int>, meridians: seq<real>)
    ensures |parallels| == 11
    ensures forall k :: 0 <= k < |parallels| ==> parallels[k] == -75 + 15 * k
    ensures forall k :: 0 <= k < |parallels| ==> -90 < parallels[k] < 90
    ensures |meridians| == 25
    ensures forall k :: 0 <= k < |meridians| ==>
      meridians[k] == GridColumn((-180 + 15 * k) as real, initialLongitude, width)
    ensures -180.0 <= initialLongitude <= 180.0 && width > 0.0 ==>
      forall k :: 0 <= k < |meridians| ==> 0.0 <= meridians[k] < width
  {
    parallels := [];
    var lat := -75;
    while lat <= 75
      invariant lat == -75 + 15 * |parallels| && lat <= 90
      invariant forall k :: 0 <= k < |parallels| ==> parallels[k] == -75 + 15 * k
      decreases 75 - lat
    {
      parallels := parallels + [lat];
      lat := lat + 15;
    }

    meridians := [];
    var lon := -180;
    while lon <= 180
      invariant lon == -180 + 15 * |meridians| && lon <= 195
      invariant forall k :: 0 <= k < |meridians| ==>
        meridians[k] == GridColumn((-180 + 15 * k) as real, initialLongitude, width)
      decreases 180 - lon
    {
      meridians := meridians + [GridColumn(lon as real, initialLongitude, width)];
      lon := lon + 15;
    }

    if -180.0 <= initialLongitude <= 180.0 && width > 0.0 {
      forall k | 0 <= k < |meridians| ensures 0.0 <= meridians[k] < width {
        GridColumnInRange((-180 + 15 * k) as real, initialLongitude, width);
      }
    }
  }

  /** A point on the canvas. */
  datatype Point = Point(x: real, y: real)

  /** A straight stroke of the trail. */
  datatype Segment = Segment(start: Point, end: Point)

  /** The strokes joining each point of the sequence to the next. */
  function Segments(ps: seq<Point>): (r: seq<Segment>)
    ensures |r| == if ps == [] then 0 else |ps| - 1
    ensures forall i :: 0 <= i < |r| ==> r[i] == Segment(ps[i], ps[i + 1])
  {
    if |ps| < 2 then [] else [Segment(ps[0], ps[1])] + Segments(ps[1..])
  }

  /** One more point adds one stroke, from the previous last point. */
  lemma {:induction false} SegmentsSnoc(ps: seq<Point>, p: Point)
    requires ps != []
    ensures Segments(ps + [p]) == Segments(ps) + [Segment(ps[|ps| - 1], p)]
  {
    if |ps| >= 2 {
      assert (ps + [p])[1..] == ps[1..] + [p];
      SegmentsSnoc(ps[1..], p);
    }
  }

  /** The trail of drawTrajectory: the closure variable lastPosition and,
      as ghost state, every point it has been called with. */
  class TrajectoryPen {
    var lastPosition: Option<Point>
    ghost var Visited: seq<Point>

    ghost predicate Valid()
      reads this
    {
      lastPosition == if Visited == [] then None else Some(Visited[|Visited| - 1])
    }

    /** The strokes drawn so far. */
    ghost function Drawn(): seq<Segment>
      reads this
    {
      Segments(Visited)
    }

    /** `let lastPosition = null`. */
    constructor ()
      ensures Valid() && Visited == [] && lastPosition == None && Drawn() == []
    {
      lastPosition := None;
      Visited := [];
    }

    /** drawTrajectory(ctx, x, y): the stroke it draws, if any, and the new
        lastPosition. */
    method DrawTrajectory(x: real, y: real) returns (segment: Option<Segment>)
      requires Valid()
      modifies this
      ensures Valid()
      ensures Visited == old(Visited) + [Point(x, y)]
      ensures lastPosition == Some(Point(x, y))
      ensures old(lastPosition).None? ==> segment == None
      ensures old(lastPosition).Some? ==> segment == Some(Segment(old(lastPosition).value, Point(x, y)))
      ensures Drawn() == old(Drawn()) + if segment.Some? then [segment.value] else []
      ensures |Drawn()| == |Visited| - 1
    {
      if lastPosition.Some? {
        segment := Some(Segment(lastPosition.value, Point(x, y)));
        SegmentsSnoc(Visited, Point(x, y));
      } else {
        segment := None;
      }
      lastPosition := Some(Point(x, y));
      Visited := Visited + [Point(x, y)];
    }
  }
}
