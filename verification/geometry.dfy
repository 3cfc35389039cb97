/** GeoJSON geometries as `simplify_geometry` in download_countries.py sees
    them, and the ring that the marker position is averaged from. */
module Geometry {
  import opened Decimation

  /** A geometry value. Positions are opaque (`P`); members other than
      `type` and `coordinates` (a `bbox`, foreign members) are kept as a map
      with opaque values (`V`).
      - `NullGeometry` is JSON null and `EmptyGeometry` is `{}`, which is also
        what a feature without a `geometry` member yields;
      - `Polygon` and `MultiPolygon` (sections 3.1.6 and 3.1.7 of RFC 7946)
        carry their `coordinates` array, possibly empty;
      - `OtherGeometry` is any other non-empty object: another type, no type,
        or a `coordinates` member that is missing or null. */
  datatype Geometry<P, V> =
    | NullGeometry
    | EmptyGeometry
    | Polygon(rings: seq<Ring<P>>, members: map<string, V>)
    | MultiPolygon(polygons: seq<seq<Ring<P>>>, members: map<string, V>)
    | OtherGeometry(typeName: string, members: map<string, V>)

  /** A `Polygon` or `MultiPolygon` whose `coordinates` array is non-empty:
      the only case `simplify_geometry` rebuilds and the only one with a ring
      to place a marker by. Other geometry types may have coordinates too,
      but they pass through unchanged and are placed at (0, 0). */
  predicate HasCoordinates<P, V>(g: Geometry<P, V>)
  {
    match g
    case Polygon(rings, _) => |rings| > 0
    case MultiPolygon(polygons, _) => |polygons| > 0
    case _ => false
  }

  /** The same type tag (constructor). */
  predicate SameKind<P, V>(a: Geometry<P, V>, b: Geometry<P, V>)
  {
    match a
    case NullGeometry => b.NullGeometry?
    case EmptyGeometry => b.EmptyGeometry?
    case Polygon(_, _) => b.Polygon?
    case MultiPolygon(_, _) => b.MultiPolygon?
    case OtherGeometry(t, _) => b.OtherGeometry? && b.typeName == t
  }

  /** The loop over the rings of one polygon. */
  function SimplifyRings<P>(rings: seq<Ring<P>>): (r: seq<Ring<P>>)
    ensures |r| == |rings|
    ensures forall i :: 0 <= i < |r| ==> r[i] == SimplifyCoordinates(rings[i])
  {
    if |rings| == 0 then [] else [SimplifyCoordinates(rings[0])] + SimplifyRings(rings[1..])
  }

  /** The nested loop over the polygons of a multipolygon. */
  function SimplifyPolygons<P>(polygons: seq<seq<Ring<P>>>): (r: seq<seq<Ring<P>>>)
    ensures |r| == |polygons|
    ensures forall i :: 0 <= i < |r| ==>
      |r[i]| == |polygons[i]| &&
      forall j :: 0 <= j < |r[i]| ==> r[i][j] == SimplifyCoordinates(polygons[i][j])
  {
    if |polygons| == 0 then [] else [SimplifyRings(polygons[0])] + SimplifyPolygons(polygons[1..])
  }

  /** `simplify_geometry`: a polygon or multipolygon with coordinates is
      rebuilt as a fresh object holding only `type` and the decimated
      coordinates, ring by ring; everything else is returned as it came. */
  function SimplifyGeometry<P, V>(g: Geometry<P, V>): (r: Geometry<P, V>)
    ensures SameKind(g, r)
    ensures !HasCoordinates(g) ==> r == g
    ensures g.Polygon? && HasCoordinates(g) ==>
      && |r.rings| == |g.rings|
      && (forall i :: 0 <= i < |r.rings| ==> r.rings[i] == SimplifyCoordinates(g.rings[i]))
      && r.members == map[]
    ensures g.MultiPolygon? && HasCoordinates(g) ==>
      && |r.polygons| == |g.polygons|
      && (forall i :: 0 <= i < |r.polygons| ==>
            |r.polygons[i]| == |g.polygons[i]| &&
            forall j :: 0 <= j < |r.polygons[i]| ==>
              r.polygons[i][j] == SimplifyCoordinates(g.polygons[i][j]))
      && r.members == map[]
  {
    if !HasCoordinates(g) then g
    else match g
      case Polygon(rings, _) => Polygon(SimplifyRings(rings), map[])
      case MultiPolygon(polygons, _) => MultiPolygon(SimplifyPolygons(polygons), map[])
      case _ => g
  }

  /** Every ring of a simplified geometry is an order-preserving subsequence
      of the ring it came from, and no longer than it. */
  lemma {:induction false} SimplifiedRingsAreSubsequences<P, V>(g: Geometry<P, V>)
    ensures var r := SimplifyGeometry(g);
      && (g.Polygon? ==> forall i :: 0 <= i < |g.rings| ==>
            |r.rings[i]| <= |g.rings[i]| && IsSubsequence(r.rings[i], g.rings[i]))
      && (g.MultiPolygon? ==> forall i, j :: 0 <= i < |g.polygons| && 0 <= j < |g.polygons[i]| ==>
            |r.polygons[i][j]| <= |g.polygons[i][j]| && IsSubsequence(r.polygons[i][j], g.polygons[i][j]))
  {
    var r := SimplifyGeometry(g);
    if g.Polygon? {
      forall i | 0 <= i < |g.rings|
        ensures |r.rings[i]| <= |g.rings[i]| && IsSubsequence(r.rings[i], g.rings[i])
      {
        SimplifyIsSubsequence(g.rings[i]);
      }
    } else if g.MultiPolygon? {
      forall i, j | 0 <= i < |g.polygons| && 0 <= j < |g.polygons[i]|
        ensures |r.polygons[i][j]| <= |g.polygons[i][j]| && IsSubsequence(r.polygons[i][j], g.polygons[i][j])
      {
        SimplifyIsSubsequence(g.polygons[i][j]);
      }
    }
  }

  /** The ring whose vertices the marker position is averaged from: the
      first ring of a polygon, or the first ring of the first polygon of a
      multipolygon, taken from the geometry BEFORE simplification. Empty
      when there is none, in which case the position is (0, 0). */
  function CentroidRing<P, V>(g: Geometry<P, V>): (ring: Ring<P>)
    ensures |ring| > 0 ==> HasCoordinates(g)
    ensures g.Polygon? && |g.rings| > 0 ==> ring == g.rings[0]
    ensures g.MultiPolygon? && |g.polygons| > 0 && |g.polygons[0]| > 0 ==> ring == g.polygons[0][0]
    ensures !((g.Polygon? && |g.rings| > 0) || (g.MultiPolygon? && |g.polygons| > 0 && |g.polygons[0]| > 0))
      ==> ring == []
  {
    match g
    case Polygon(rings, _) => if |rings| > 0 then rings[0] else []
    case MultiPolygon(polygons, _) =>
      if |polygons| > 0 && |polygons[0]| > 0 then polygons[0][0] else []
    case _ => []
  }

  /** The marker position (`lat`, `lng`) of a geometry. The floating-point
      averaging and rounding are the caller's `average`; `origin` is (0, 0). */
  function Position<P, V, C>(g: Geometry<P, V>, average: Ring<P> -> C, origin: C): (p: C)
    ensures !HasCoordinates(g) ==> p == origin
    ensures |CentroidRing(g)| == 0 ==> p == origin
    ensures |CentroidRing(g)| > 0 ==> p == average(CentroidRing(g))
  {
    var ring := CentroidRing(g);
    if |ring| > 0 then average(ring) else origin
  }

  /** A one-part multipolygon is placed exactly where the polygon with the
      same rings is, whatever the members, and only the first ring matters. */
  lemma PositionOfSinglePart<P, V, C>(rings: seq<Ring<P>>, m1: map<string, V>, m2: map<string, V>,
                                      average: Ring<P> -> C, origin: C)
    ensures Position(Polygon(rings, m1), average, origin)
         == Position(MultiPolygon([rings], m2), average, origin)
    ensures |rings| > 0 ==>
      Position(Polygon(rings, m1), average, origin) == Position(Polygon(rings[..1], m2), average, origin)
  {
  }

  /** The centroid ring of the simplified geometry is the decimated centroid
      ring: the same for at most 50 positions, strictly shorter otherwise, so
      a marker averaged after simplifying could land elsewhere. */
  lemma CentroidRingAfterSimplify<P, V>(g: Geometry<P, V>)
    ensures var before, after := CentroidRing(g), CentroidRing(SimplifyGeometry(g));
      && after == SimplifyCoordinates(before)
      && (|before| <= KeepWholeLimit ==> after == before)
      && (|before| > KeepWholeLimit ==> |after| < |before|)
  {
  }
}
