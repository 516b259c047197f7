/** GeoJSON boundary regions (the `voronoi` field of a station) and their normalisation. */
module Geometry {

  /** A `[longitude, latitude]` pair; the numbers themselves are never inspected. */
  type Position(==, !new)

  /** The `properties` object of a Feature, passed through untouched. */
  type Properties(==, !new)

  datatype Geometry =
    | Polygon(rings: seq<seq<Position>>)
    | LineString(coordinates: seq<Position>)

  /** A GeoJSON Feature; its `type` member is always "Feature". */
  datatype Feature = Feature(geometry: Geometry, properties: Properties)

  /**
   * A LineString boundary has a first position to repeat (the station schema asks for at least
   * two positions).
   */
  predicate WellFormed(f: Feature) {
    f.geometry.LineString? ==> |f.geometry.coordinates| >= 1
  }

  /** A ring whose last position repeats its first. */
  predicate IsClosedRing(ring: seq<Position>) {
    |ring| >= 2 && ring[|ring| - 1] == ring[0]
  }

  /** `coordinates.concat([coordinates[0]])`: close an open boundary into a ring. */
  function CloseRing(coordinates: seq<Position>): (ring: seq<Position>)
    requires |coordinates| >= 1
    ensures |ring| == |coordinates| + 1
    ensures ring[..|coordinates|] == coordinates
    ensures IsClosedRing(ring)
  {
    coordinates + [coordinates[0]]
  }

  /**
   * The boundary the build stores for a station: a LineString boundary becomes a Feature whose
   * geometry is `rewind` applied to a one-ring Polygon closing the line; a Polygon is kept as it is.
   * `rewind` stands for the right-hand-rule rewinding of the geojson-rewind library.
   */
  function NormalizeVoronoi(f: Feature, rewind: Geometry -> Geometry): (r: Feature)
    requires WellFormed(f)
    ensures f.geometry.Polygon? ==> r == f
    ensures f.geometry.LineString? ==>
      && r.properties == f.properties
      && r.geometry == rewind(Polygon([CloseRing(f.geometry.coordinates)]))
  {
    match f.geometry
    case Polygon(_) => f
    case LineString(coordinates) => Feature(rewind(Polygon([CloseRing(coordinates)])), f.properties)
  }

  /**
   * Normalising twice is normalising once, given that `rewind` hands back a Polygon
   * (it only reorders the positions of each ring).
   */
  lemma NormalizeIdempotent(f: Feature, rewind: Geometry -> Geometry)
    requires WellFormed(f)
    requires forall g: Geometry :: g.Polygon? ==> rewind(g).Polygon?
    ensures WellFormed(NormalizeVoronoi(f, rewind))
    ensures NormalizeVoronoi(NormalizeVoronoi(f, rewind), rewind) == NormalizeVoronoi(f, rewind)
  {
  }
}
