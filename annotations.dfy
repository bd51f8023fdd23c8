/**
 * Annotation records: what one JSON annotation file holds once parsed.
 * A record has exactly the two categories the program reads, `circle` and
 * `triangle`; each is a list of polygons, and a polygon is a list of
 * coordinate pairs. Equality is structural, as Python's `==` on nested lists.
 */
module Annotations {
  type Point = (int, int)
  type Polygon = seq<Point>

  datatype Record = Record(circle: seq<Polygon>, triangle: seq<Polygon>)

  /** Number of polygons a record holds over both categories. */
  function PolygonCount(r: Record): nat
  {
    |r.circle| + |r.triangle|
  }
}
