/** The trimmer: cropping a sprite to the bounding box of its visible pixels.
    An RGBA image is abstracted to its bounds and the alpha byte of each pixel. */
module Trim {
  import opened Geometry

  /** An 8-bit alpha value. */
  type Alpha = a: int | 0 <= a < 256

  /** An RGBA image: its bounds in absolute coordinates and the alpha of each pixel.
      Only pixels inside `bounds` exist; `alpha` is never consulted outside them. */
  datatype Image = Image(bounds: Rect, alpha: Point -> Alpha)

  /** `RGBA.SubImage`: the same pixels seen through the part of `r` that lies
      inside the image, in the same absolute coordinates. */
  function SubImage(img: Image, r: Rect): (sub: Image)
    ensures sub.alpha == img.alpha
    ensures forall p :: sub.bounds.Contains(p) <==> r.Contains(p) && img.bounds.Contains(p)
    ensures sub.bounds.Empty() ==> sub.bounds == ZR
    ensures !r.Empty() && r.Inside(img.bounds) ==> sub.bounds == r
  {
    Image(Intersect(r, img.bounds), img.alpha)
  }

  /** Largest alpha value over the image's pixels, 0 for an image without pixels;
      the scan goes row by row as the source's does. */
  method ImageMaxAlpha(img: Image) returns (maxAlpha: nat)
    ensures forall p :: img.bounds.Contains(p) ==> img.alpha(p) <= maxAlpha
    ensures maxAlpha == 0 || exists p :: img.bounds.Contains(p) && img.alpha(p) == maxAlpha
  {
    var b := img.bounds;
    maxAlpha := 0;
    var y := 0;
    while y < b.Dy()
      invariant 0 <= y
      invariant forall p :: b.Contains(p) && p.y < b.min.y + y ==> img.alpha(p) <= maxAlpha
      invariant maxAlpha == 0 || exists p :: b.Contains(p) && img.alpha(p) == maxAlpha
    {
      var x := 0;
      while x < b.Dx()
        invariant 0 <= x
        invariant forall p :: b.Contains(p) && (p.y < b.min.y + y || (p.y == b.min.y + y && p.x < b.min.x + x)) ==>
                               img.alpha(p) <= maxAlpha
        invariant maxAlpha == 0 || exists p :: b.Contains(p) && img.alpha(p) == maxAlpha
      {
        var p := Point(b.min.x + x, b.min.y + y);
        assert b.Contains(p);
        var a := img.alpha(p);
        if a > maxAlpha {
          maxAlpha := a;
        }
        x := x + 1;
      }
      y := y + 1;
    }
  }

  /** A pixel of the image that is not fully transparent. */
  ghost predicate Opaque(img: Image, p: Point) {
    img.bounds.Contains(p) && img.alpha(p) > 0
  }

  ghost predicate AllTransparent(img: Image) {
    forall p :: !Opaque(img, p)
  }

  /** Every non-transparent pixel lies in `r`. */
  ghost predicate Encloses(img: Image, r: Rect) {
    forall p :: Opaque(img, p) ==> r.Contains(p)
  }

  ghost predicate OpaqueInColumn(img: Image, x: int) {
    exists p :: Opaque(img, p) && p.x == x
  }

  ghost predicate OpaqueInRow(img: Image, y: int) {
    exists p :: Opaque(img, p) && p.y == y
  }

  /** `r` is the bounding box of the non-transparent pixels: it holds all of them
      and each of its four edge lines holds one. */
  ghost predicate BoundingBox(img: Image, r: Rect) {
    && Encloses(img, r)
    && OpaqueInColumn(img, r.min.x) && OpaqueInColumn(img, r.max.x - 1)
    && OpaqueInRow(img, r.min.y) && OpaqueInRow(img, r.max.y - 1)
  }

  /** The one-pixel-wide column of `r` at x, as scanned by the trimmer. */
  function ColumnStrip(r: Rect, x: int): Rect {
    Rect(Point(x, r.min.y), Point(x + 1, r.max.y))
  }

  /** The one-pixel-high row of `r` at y, as scanned by the trimmer. */
  function RowStrip(r: Rect, y: int): Rect {
    Rect(Point(r.min.x, y), Point(r.max.x, y + 1))
  }

  /** What a strip scan tells: the maximum alpha over a strip inside the image is
      zero exactly when no pixel of the strip is visible. */
  lemma StripScan(src: Image, strip: Rect, a: nat)
    requires strip.Inside(src.bounds)
    requires forall p :: SubImage(src, strip).bounds.Contains(p) ==> src.alpha(p) <= a
    requires a == 0 || exists p :: SubImage(src, strip).bounds.Contains(p) && src.alpha(p) == a
    ensures a == 0 <==> forall p :: strip.Contains(p) ==> !Opaque(src, p)
  {
    if a != 0 {
      var p :| SubImage(src, strip).bounds.Contains(p) && src.alpha(p) == a;
      assert strip.Contains(p) && Opaque(src, p);
    }
  }

  /** The first loop of `TrimImage`: moves the right edge left while the
      column just inside it is fully transparent and the width exceeds 1. */
  method TrimRight(src: Image, t: Rect) returns (trim: Rect)
    requires t.WellFormed() && t.Inside(src.bounds) && Encloses(src, t)
    ensures trim.WellFormed() && trim.Inside(t) && Encloses(src, trim)
    ensures trim.min == t.min && trim.max.y == t.max.y
    ensures t.Dx() <= 1 ==> trim == t
    ensures t.Dx() >= 1 ==> trim.Dx() >= 1
    ensures !AllTransparent(src) ==> OpaqueInColumn(src, trim.max.x - 1)
    ensures AllTransparent(src) && t.Dx() >= 1 ==> trim.Dx() == 1
  {
    trim := t;
    while trim.Dx() > 1
      invariant trim.WellFormed() && trim.Inside(t) && Encloses(src, trim)
      invariant trim.min == t.min && trim.max.y == t.max.y
      invariant t.Dx() <= 1 ==> trim == t
      invariant t.Dx() >= 1 ==> trim.Dx() >= 1
      decreases trim.Dx()
    {
      var strip := ColumnStrip(trim, trim.max.x - 1);
      var a := ImageMaxAlpha(SubImage(src, strip));
      StripScan(src, strip, a);
      if a != 0 {
        break;
      }
      trim := Rect(trim.min, Point(trim.max.x - 1, trim.max.y));
    }
  }

  /** The second loop of `TrimImage`: moves the left edge right while the
      column just inside it is fully transparent and the width exceeds 1. */
  method TrimLeft(src: Image, t: Rect) returns (trim: Rect)
    requires t.WellFormed() && t.Inside(src.bounds) && Encloses(src, t)
    ensures trim.WellFormed() && trim.Inside(t) && Encloses(src, trim)
    ensures trim.max == t.max && trim.min.y == t.min.y
    ensures t.Dx() <= 1 ==> trim == t
    ensures t.Dx() >= 1 ==> trim.Dx() >= 1
    ensures !AllTransparent(src) ==> OpaqueInColumn(src, trim.min.x)
    ensures AllTransparent(src) && t.Dx() >= 1 ==> trim.Dx() == 1
  {
    trim := t;
    while trim.Dx() > 1
      invariant trim.WellFormed() && trim.Inside(t) && Encloses(src, trim)
      invariant trim.max == t.max && trim.min.y == t.min.y
      invariant t.Dx() <= 1 ==> trim == t
      invariant t.Dx() >= 1 ==> trim.Dx() >= 1
      decreases trim.Dx()
    {
      var strip := ColumnStrip(trim, trim.min.x);
      var a := ImageMaxAlpha(SubImage(src, strip));
      StripScan(src, strip, a);
      if a != 0 {
        break;
      }
      trim := Rect(Point(trim.min.x + 1, trim.min.y), trim.max);
    }
  }

  /** The third loop of `TrimImage`: moves the bottom edge up while the
      row just inside it is fully transparent and the height exceeds 1. */
  method TrimBottom(src: Image, t: Rect) returns (trim: Rect)
    requires t.WellFormed() && t.Inside(src.bounds) && Encloses(src, t)
    ensures trim.WellFormed() && trim.Inside(t) && Encloses(src, trim)
    ensures trim.min == t.min && trim.max.x == t.max.x
    ensures t.Dy() <= 1 ==> trim == t
    ensures t.Dy() >= 1 ==> trim.Dy() >= 1
    ensures !AllTransparent(src) ==> OpaqueInRow(src, trim.max.y - 1)
    ensures AllTransparent(src) && t.Dy() >= 1 ==> trim.Dy() == 1
  {
    trim := t;
    while trim.Dy() > 1
      invariant trim.WellFormed() && trim.Inside(t) && Encloses(src, trim)
      invariant trim.min == t.min && trim.max.x == t.max.x
      invariant t.Dy() <= 1 ==> trim == t
      invariant t.Dy() >= 1 ==> trim.Dy() >= 1
      decreases trim.Dy()
    {
      var strip := RowStrip(trim, trim.max.y - 1);
      var a := ImageMaxAlpha(SubImage(src, strip));
      StripScan(src, strip, a);
      if a != 0 {
        break;
      }
      trim := Rect(trim.min, Point(trim.max.x, trim.max.y - 1));
    }
  }

  /** The fourth loop of `TrimImage`: moves the top edge down while the
      row just inside it is fully transparent and the height exceeds 1. */
  method TrimTop(src: Image, t: Rect) returns (trim: Rect)
    requires t.WellFormed() && t.Inside(src.bounds) && Encloses(src, t)
    ensures trim.WellFormed() && trim.Inside(t) && Encloses(src, trim)
    ensures trim.max == t.max && trim.min.x == t.min.x
    ensures t.Dy() <= 1 ==> trim == t
    ensures t.Dy() >= 1 ==> trim.Dy() >= 1
    ensures !AllTransparent(src) ==> OpaqueInRow(src, trim.min.y)
    ensures AllTransparent(src) && t.Dy() >= 1 ==> trim.Dy() == 1
  {
    trim := t;
    while trim.Dy() > 1
      invariant trim.WellFormed() && trim.Inside(t) && Encloses(src, trim)
      invariant trim.max == t.max && trim.min.x == t.min.x
      invariant t.Dy() <= 1 ==> trim == t
      invariant t.Dy() >= 1 ==> trim.Dy() >= 1
      decreases trim.Dy()
    {
      var strip := RowStrip(trim, trim.min.y);
      var a := ImageMaxAlpha(SubImage(src, strip));
      StripScan(src, strip, a);
      if a != 0 {
        break;
      }
      trim := Rect(Point(trim.min.x, trim.min.y + 1), trim.max);
    }
  }

  /** `TrimImage`: trims the right, left, bottom and top edges in that order,
      each against the rectangle left by the previous step, and returns the
      sub-image of what remains. A visible image is cut to the bounding box of
      its visible pixels; a fully transparent one to the single pixel at its
      minimum corner; an image without pixels to ZR. */
  method TrimImage(src: Image) returns (dst: Image)
    requires src.bounds.WellFormed()
    ensures dst.alpha == src.alpha
    ensures src.bounds.Empty() ==> dst.bounds == ZR
    ensures !src.bounds.Empty() ==> dst.bounds.Inside(src.bounds) && dst.bounds.Dx() >= 1 && dst.bounds.Dy() >= 1
    ensures !AllTransparent(src) ==> BoundingBox(src, dst.bounds)
    ensures !src.bounds.Empty() && AllTransparent(src) ==>
              dst.bounds == Rect(src.bounds.min, src.bounds.min.Add(Point(1, 1)))
  {
    var trim := TrimRight(src, src.bounds);
    trim := TrimLeft(src, trim);
    trim := TrimBottom(src, trim);
    trim := TrimTop(src, trim);
    dst := SubImage(src, trim);
  }

  /** The bounding box is determined by the image: two rectangles that both
      satisfy `BoundingBox` are the same rectangle. */
  lemma BoundingBoxUnique(img: Image, r1: Rect, r2: Rect)
    requires BoundingBox(img, r1) && BoundingBox(img, r2)
    ensures r1 == r2
  {
    forall r, o | r in {r1, r2} && o in {r1, r2} && BoundingBox(img, r) && BoundingBox(img, o)
      ensures o.min.x <= r.min.x && r.max.x <= o.max.x && o.min.y <= r.min.y && r.max.y <= o.max.y
    {
      var a :| Opaque(img, a) && a.x == r.min.x;
      var b :| Opaque(img, b) && b.x == r.max.x - 1;
      var c :| Opaque(img, c) && c.y == r.min.y;
      var d :| Opaque(img, d) && d.y == r.max.y - 1;
      assert o.Contains(a) && o.Contains(b) && o.Contains(c) && o.Contains(d);
    }
  }
}
