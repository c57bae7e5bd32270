/** Integer plane geometry after Go's `image.Point` and `image.Rectangle`. */
module Geometry {

  /** A pixel coordinate or a displacement. */
  datatype Point = Point(x: int, y: int) {
    function Add(q: Point): Point { Point(x + q.x, y + q.y) }
    function Sub(q: Point): Point { Point(x - q.x, y - q.y) }
  }

  /** The half-open rectangle holding the points p with
      min.x <= p.x < max.x and min.y <= p.y < max.y. */
  datatype Rect = Rect(min: Point, max: Point) {
    function Dx(): int { max.x - min.x }
    function Dy(): int { max.y - min.y }
    function Size(): Point { Point(Dx(), Dy()) }

    /** Min is not past Max on either axis; every image's bounds are like this. */
    predicate WellFormed() { min.x <= max.x && min.y <= max.y }

    /** Holds no point. */
    predicate Empty() { min.x >= max.x || min.y >= max.y }

    predicate Contains(p: Point) { min.x <= p.x < max.x && min.y <= p.y < max.y }

    /** Coordinate-wise containment in `outer` (every edge of this one lies within it). */
    predicate Inside(outer: Rect) {
      outer.min.x <= min.x && max.x <= outer.max.x && outer.min.y <= min.y && max.y <= outer.max.y
    }
  }

  /** Go's zero rectangle, which `Intersect` returns for an empty overlap. */
  const ZR: Rect := Rect(Point(0, 0), Point(0, 0))

  function Min(a: int, b: int): int { if a <= b then a else b }
  function Max(a: int, b: int): int { if a <= b then b else a }

  /** `image.Rect(x0, y0, x1, y1)`: the rectangle with those corners, with the
      coordinates swapped where needed so that it is well-formed. */
  function MakeRect(x0: int, y0: int, x1: int, y1: int): (r: Rect)
    ensures r.WellFormed()
    ensures {r.min.x, r.max.x} == {x0, x1} && {r.min.y, r.max.y} == {y0, y1}
    ensures x0 <= x1 && y0 <= y1 ==> r == Rect(Point(x0, y0), Point(x1, y1))
  {
    Rect(Point(Min(x0, x1), Min(y0, y1)), Point(Max(x0, x1), Max(y0, y1)))
  }

  /** `Rectangle.Intersect`: the largest rectangle inside both, or ZR when they do not overlap. */
  function Intersect(r: Rect, s: Rect): (i: Rect)
    ensures forall p :: i.Contains(p) <==> r.Contains(p) && s.Contains(p)
    ensures i.Empty() ==> i == ZR
    ensures i.WellFormed()
    ensures !i.Empty() ==> i.Inside(r) && i.Inside(s)
    ensures !r.Empty() && r.Inside(s) ==> i == r
  {
    var c := Rect(Point(Max(r.min.x, s.min.x), Max(r.min.y, s.min.y)),
                  Point(Min(r.max.x, s.max.x), Min(r.max.y, s.max.y)));
    if c.Empty() then ZR else c
  }

  /** The two rectangles share no point, stated on the edges. */
  predicate Disjoint(a: Rect, b: Rect) {
    || a.Empty() || b.Empty()
    || a.max.x <= b.min.x || b.max.x <= a.min.x
    || a.max.y <= b.min.y || b.max.y <= a.min.y
  }

  /** The edge form of `Disjoint` means exactly that no point lies in both. */
  lemma DisjointIffNoCommonPoint(a: Rect, b: Rect)
    ensures Disjoint(a, b) <==> forall p :: !(a.Contains(p) && b.Contains(p))
  {
    if !Disjoint(a, b) {
      var p := Point(Max(a.min.x, b.min.x), Max(a.min.y, b.min.y));
      assert a.Contains(p) && b.Contains(p);
    }
  }

  /** Rectangles inside two disjoint rectangles are disjoint. */
  lemma DisjointWithin(a: Rect, b: Rect, outerA: Rect, outerB: Rect)
    requires a.Inside(outerA) && b.Inside(outerB)
    requires Disjoint(outerA, outerB)
    ensures Disjoint(a, b)
  {
  }
}
