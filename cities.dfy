/**
 * Points, city records and the great-circle distance between them.
 *
 * The haversine formula itself is floating-point trigonometry; the selector only ever
 * compares distances, so the model takes the distance as a parameter of type `Distance`
 * and states the facts it needs about it (symmetry, zero on equal points) as predicates.
 */
module Cities {
  /** A coordinate pair in degrees. */
  datatype Point = Point(lat: real, lng: real)

  /** A row of the city table that has coordinates: the columns the selector reads. */
  datatype City = City(name: string, population: int, point: Point)

  /** The index label of a table row. */
  type Key = int

  /** A row of a candidate table together with its index label. */
  datatype Entry = Entry(key: Key, city: City)

  /** The exceptions the selector can raise. */
  datatype SelectError =
    | MissingCoordinateColumns  // ValueError: no 'lat' or no 'lng' column
    | PositionOutOfBounds       // IndexError: row lookup on an empty table
    | LabelNotInSet(key: Key) // KeyError: removing a label the exclusion set lacks

  /** Great-circle distance in whole kilometres, as supplied by the caller. */
  type Distance = (Point, Point) -> nat

  ghost predicate Symmetric(dist: Distance)
  {
    forall p, q :: dist(p, q) == dist(q, p)
  }

  ghost predicate ZeroOnSelf(dist: Distance)
  {
    forall p :: dist(p, p) == 0
  }

  /** The coordinates of a sequence of cities, in order. */
  function Points(s: seq<City>): (ps: seq<Point>)
    ensures |ps| == |s|
    ensures forall k :: 0 <= k < |s| ==> ps[k] == s[k].point
  {
    seq(|s|, k requires 0 <= k < |s| => s[k].point)
  }

  /**
   * The smallest distance from `p` to any point of `qs` (`np.min` over a row of
   * distances, or the running `min` of the repair's candidate scan).
   */
  function MinDistTo(p: Point, qs: seq<Point>, dist: Distance): (m: nat)
    requires |qs| > 0
    ensures forall k :: 0 <= k < |qs| ==> m <= dist(p, qs[k])
    ensures exists k :: 0 <= k < |qs| && m == dist(p, qs[k])
  {
    if |qs| == 1 then dist(p, qs[0])
    else
      var rest := MinDistTo(p, qs[1..], dist);
      assert forall k :: 1 <= k < |qs| ==> qs[k] == qs[1..][k - 1];
      if dist(p, qs[0]) <= rest then dist(p, qs[0]) else rest
  }
}
