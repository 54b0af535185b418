// Rect: an axis-aligned rectangle with U16 origin and extent, its containment
// test (inclusive on the far edge) and its corner-based overlap test.

module Geom {
  import opened Types

  datatype Rect = Rect(X: U16, Y: U16, Width: U16, Height: U16)
  {
    /** Containment of a U16 point; the far-edge sums are computed in `int`, so they never wrap. */
    predicate IsInside(x: U16, y: U16)
    {
      x >= X && x <= X + Width && y >= Y && y <= Y + Height
    }

    /** True when one of r's four corners, each narrowed to U16, is inside this rectangle. */
    predicate IsOverlapping(r: Rect)
    {
      || IsInside(ToU16(r.X + 0), ToU16(r.Y + 0))
      || IsInside(ToU16(r.X + r.Width), ToU16(r.Y + r.Height))
      || IsInside(ToU16(r.X + r.Width), ToU16(r.Y + 0))
      || IsInside(ToU16(r.X + 0), ToU16(r.Y + r.Height))
    }

    /** The region of the plane the rectangle stands for: both closed intervals, over all integers. */
    predicate Covers(x: int, y: int)
    {
      X <= x <= X + Width && Y <= y <= Y + Height
    }

    /** Overlap as the name promises: the two closed regions share a point. */
    predicate Intersects(r: Rect)
    {
      X <= r.X + r.Width && r.X <= X + Width && Y <= r.Y + r.Height && r.Y <= Y + Height
    }
  }

  /** The default constructor `Rect()`. */
  const DEFAULT_RECT: Rect := Rect(0, 0, 0, 0)

  /** For points a U16 can hold, IsInside is exactly membership in the closed region. */
  lemma IsInsideIsCovers(r: Rect, x: U16, y: U16)
    ensures r.IsInside(x, y) <==> r.Covers(x, y)
  {
  }

  /** The far edge is inclusive: the far corner is inside whenever a U16 can hold it, and the next point is not. */
  lemma FarEdgeInclusive(r: Rect)
    ensures r.X + r.Width <= MAX_U16 && r.Y + r.Height <= MAX_U16 ==>
              r.IsInside(r.X + r.Width, r.Y + r.Height)
    ensures r.X + r.Width < MAX_U16 ==> !r.IsInside(r.X + r.Width + 1, r.Y)
    ensures r.Y + r.Height < MAX_U16 ==> !r.IsInside(r.X, r.Y + r.Height + 1)
  {
  }

  lemma TenByTenExample()
    ensures Rect(0, 0, 10, 10).IsInside(10, 10)
    ensures !Rect(0, 0, 10, 10).IsInside(11, 11)
  {
  }

  /** The default rectangle has zero extent and contains exactly the origin. */
  lemma DefaultRectIsOrigin(x: U16, y: U16)
    ensures DEFAULT_RECT.IsInside(x, y) <==> x == 0 && y == 0
  {
  }

  /** The far-edge sums do not wrap: a rectangle at the top of the U16 range does not reach 0. */
  lemma NoWrapInIsInside()
    ensures Rect(MAX_U16, MAX_U16, 1, 1).IsInside(MAX_U16, MAX_U16)
    ensures !Rect(MAX_U16, MAX_U16, 1, 1).IsInside(0, 0)
  {
  }

  /** When none of r's corners wraps past 65535, the corner test is sound: a reported overlap is a real one. */
  lemma CornerTestSoundWithoutWrap(a: Rect, r: Rect)
    requires r.X + r.Width <= MAX_U16 && r.Y + r.Height <= MAX_U16
    ensures a.IsOverlapping(r) ==> a.Intersects(r)
  {
  }

  /** Every rectangle overlaps itself, through its origin corner. */
  lemma OverlapsItself(r: Rect)
    ensures r.IsOverlapping(r)
  {
    assert r.IsInside(r.X, r.Y);
  }

  /** As written, IsOverlapping misses containment: this rectangle lies inside r, yet no corner of r is inside it. */
  lemma IsOverlappingMissesContainment()
    ensures !Rect(10, 10, 5, 5).IsOverlapping(Rect(0, 0, 100, 100))
    ensures Rect(10, 10, 5, 5).Covers(12, 12) && Rect(0, 0, 100, 100).Covers(12, 12)
  {
  }

  /** As written, IsOverlapping misses every strict containment without wrap: no corner of r lies inside the smaller a. */
  lemma IsOverlappingMissesEveryContainment(a: Rect, r: Rect)
    requires r.X < a.X && a.X + a.Width < r.X + r.Width && r.X + r.Width <= MAX_U16
    requires r.Y < a.Y && a.Y + a.Height < r.Y + r.Height && r.Y + r.Height <= MAX_U16
    ensures !a.IsOverlapping(r) && a.Intersects(r)
  {
  }

  /** As written, IsOverlapping also misses a straddle: r crosses this rectangle, yet none of r's corners is inside it. */
  lemma IsOverlappingMissesStraddle()
    ensures Rect(10, 10, 10, 10).Intersects(Rect(5, 15, 20, 3))
    ensures !Rect(10, 10, 10, 10).IsOverlapping(Rect(5, 15, 20, 3))
  {
  }

  /** As written, a far corner past 65535 narrows to a small U16 and can report an overlap that does not exist. */
  lemma IsOverlappingFooledByWrap()
    ensures DEFAULT_RECT.IsOverlapping(Rect(MAX_U16, 0, 1, 0))
    ensures !DEFAULT_RECT.Intersects(Rect(MAX_U16, 0, 1, 0))
  {
    assert DEFAULT_RECT.IsInside(ToU16(MAX_U16 + 1), ToU16(0 + 0));
  }

  /** A negative origin narrows to U16 before the test: Rect(-50, -50, 200, 200) does not overlap Rect(0, 0, 100, 100). */
  lemma NegativeOriginExample()
    ensures !Rect(0, 0, 100, 100).IsOverlapping(Rect(ToU16(-50), ToU16(-50), 200, 200))
  {
  }

  /** The corrected test: Intersects holds exactly when the two closed regions share a point. */
  lemma IntersectsIffSharedPoint(a: Rect, b: Rect)
    ensures a.Intersects(b) <==> exists x: int, y: int :: a.Covers(x, y) && b.Covers(x, y)
  {
    if a.Intersects(b) {
      var x := if a.X < b.X then b.X else a.X;
      var y := if a.Y < b.Y then b.Y else a.Y;
      assert a.Covers(x, y) && b.Covers(x, y);
    }
  }

  /** Intersects is symmetric and reflexive, and accepts the containment example IsOverlapping misses. */
  lemma IntersectsRepairsOverlap(a: Rect, b: Rect)
    ensures a.Intersects(b) == b.Intersects(a)
    ensures Rect(10, 10, 5, 5).Intersects(Rect(0, 0, 100, 100))
    ensures a.Intersects(a)
  {
  }

  /** Intersects sees every containment, in either order of its arguments. */
  lemma IntersectsSeesContainment(a: Rect, b: Rect)
    requires a.X <= b.X && b.X + b.Width <= a.X + a.Width
    requires a.Y <= b.Y && b.Y + b.Height <= a.Y + a.Height
    ensures a.Intersects(b) && b.Intersects(a)
  {
  }
}
