/**
 * Axis-aligned rectangles with a half-open interior (src/rect.rs): the
 * top-left corner is inside, the right column and bottom row are not.
 */
module Rects {
  import opened Wrappers
  import opened Positions
  import Sizes

  /** The axis on which a rectangle's corners are out of order. */
  datatype Dimension = X | Y

  /** The two coordinates that were compared: `lower` should not exceed `higher`. */
  datatype InvalidActual = InvalidActual(lower: int, higher: int)

  /** `rect::Error`. */
  datatype Error = Invalid(dimension: Dimension, actual: InvalidActual)

  function Max(a: int, b: int): int { if a >= b then a else b }

  function Min(a: int, b: int): int { if a <= b then a else b }

  /**
   * A rectangle given by its two corners. The fields are the `top_left()` and
   * `bottom_right()` accessors. `TryNew`, `New`, `Default` and `Intersect`
   * each yield a `Valid()` rectangle; the datatype itself admits any corners,
   * so members that need the order say so.
   */
  datatype Rect = Rect(topLeft: Pos, bottomRight: Pos) {

    /** The corners are ordered on both axes. */
    predicate Valid()
    {
      topLeft.x <= bottomRight.x && topLeft.y <= bottomRight.y
    }

    function Left(): int { topLeft.x }

    function Right(): int { bottomRight.x }

    function Top(): int { topLeft.y }

    function Bottom(): int { bottomRight.y }

    function TopRight(): Pos { Pos.New(Right(), Top()) }

    function BottomLeft(): Pos { Pos.New(Left(), Bottom()) }

    /** `Rect::try_new`: the x axis is checked before the y axis. */
    static function TryNew(topLeft: Pos, bottomRight: Pos): (r: Result<Rect, Error>)
      ensures r.Ok? <==> topLeft.x <= bottomRight.x && topLeft.y <= bottomRight.y
      ensures r.Ok? ==> r.value.Valid() && r.value.topLeft == topLeft && r.value.bottomRight == bottomRight
      ensures topLeft.x > bottomRight.x ==>
                r == Err(Invalid(X, InvalidActual(topLeft.x, bottomRight.x)))
      ensures topLeft.x <= bottomRight.x && topLeft.y > bottomRight.y ==>
                r == Err(Invalid(Y, InvalidActual(topLeft.y, bottomRight.y)))
    {
      if topLeft.x > bottomRight.x then
        Err(Invalid(X, InvalidActual(topLeft.x, bottomRight.x)))
      else if topLeft.y > bottomRight.y then
        Err(Invalid(Y, InvalidActual(topLeft.y, bottomRight.y)))
      else
        Ok(Rect(topLeft, bottomRight))
    }

    /** `Rect::new`: the rectangle of the given size whose top-left corner is `topLeft`. */
    static function New(topLeft: Pos, size: Sizes.Size): (r: Rect)
      ensures r.Valid() && r.topLeft == topLeft
      ensures r.Width() == size.width && r.Height() == size.height && r.Size() == size
    {
      Rect(topLeft, Pos.New(topLeft.x + size.width, topLeft.y + size.height))
    }

    /** The derived `Rect::default()`: both corners at the origin. */
    static function Default(): (r: Rect)
      ensures r.Valid() && r.IsZeroSize()
      ensures r.topLeft == Pos.Default() && r.bottomRight == Pos.Default()
    {
      Rect(Pos.Default(), Pos.Default())
    }

    /** Never negative: the corners are ordered. */
    function Width(): (w: nat)
      requires Valid()
      ensures Left() + w == Right()
    {
      Right() - Left()
    }

    function Height(): (h: nat)
      requires Valid()
      ensures Top() + h == Bottom()
    {
      Bottom() - Top()
    }

    function Size(): (s: Sizes.Size)
      requires Valid()
      ensures s.width == Width() && s.height == Height()
    {
      Sizes.Size.New(Width(), Height())
    }

    /** One of the half-open ranges `left..right`, `top..bottom` is empty. */
    predicate IsZeroSize(): (zero: bool)
      ensures !zero ==> Valid() && Width() > 0 && Height() > 0
    {
      !(Left() < Right()) || !(Top() < Bottom())
    }

    /** Both half-open ranges `left..right` and `top..bottom` hold the position. */
    predicate Contains(p: Pos): (inside: bool)
      ensures inside ==> Valid() && !IsZeroSize() && p != bottomRight
    {
      Left() <= p.x < Right() && Top() <= p.y < Bottom()
    }

    /** This rectangle's corners lie within `outer`'s on every side. */
    predicate Inside(outer: Rect)
    {
      outer.Left() <= Left() && Right() <= outer.Right() &&
      outer.Top() <= Top() && Bottom() <= outer.Bottom()
    }
  }

  /**
   * `&a & &b`: the componentwise maximum of the top-left corners and minimum
   * of the bottom-right corners, validated by `TryNew`; `None` when they are
   * out of order.
   */
  function Intersect(a: Rect, b: Rect): (r: Option<Rect>)
    ensures r.None? <==> Max(a.Left(), b.Left()) > Min(a.Right(), b.Right()) ||
                         Max(a.Top(), b.Top()) > Min(a.Bottom(), b.Bottom())
    ensures r.Some? ==> r.value.Valid() && r.value.Inside(a) && r.value.Inside(b)
    ensures forall p :: (r.Some? && r.value.Contains(p)) <==> a.Contains(p) && b.Contains(p)
  {
    Rect.TryNew(
      Pos.New(Max(a.Left(), b.Left()), Max(a.Top(), b.Top())),
      Pos.New(Min(a.Right(), b.Right()), Min(a.Bottom(), b.Bottom()))
    ).ToOption()
  }

  /** A rectangle is zero-size exactly when it contains no position. */
  lemma ZeroSizeIffEmpty(r: Rect)
    ensures r.IsZeroSize() <==> forall p :: !r.Contains(p)
  {
    if !r.IsZeroSize() {
      assert r.Contains(r.topLeft);
    }
  }

  /** For a valid rectangle, zero size means a side of length zero. */
  lemma ZeroSizeIffNoExtent(r: Rect)
    requires r.Valid()
    ensures r.IsZeroSize() <==> r.Left() == r.Right() || r.Top() == r.Bottom()
    ensures r.IsZeroSize() <==> r.Width() == 0 || r.Height() == 0
  {
  }

  /**
   * Of the four corners only the top-left one can be inside, and it is inside
   * exactly when the rectangle is not zero-size.
   */
  lemma CornerMembership(r: Rect)
    ensures r.Contains(r.topLeft) <==> !r.IsZeroSize()
    ensures !r.Contains(r.bottomRight) && !r.Contains(r.TopRight()) && !r.Contains(r.BottomLeft())
  {
  }

  /** `Rect::new` and `size()` are inverse: a valid rectangle is its corner plus its size. */
  lemma NewSizeRoundTrip(r: Rect, p: Pos, s: Sizes.Size)
    requires r.Valid()
    ensures Rect.New(r.topLeft, r.Size()) == r
    ensures Rect.New(p, s).Size() == s && Rect.New(p, s).topLeft == p
  {
  }

  lemma IntersectCommutative(a: Rect, b: Rect)
    ensures Intersect(a, b) == Intersect(b, a)
  {
  }

  lemma IntersectIdempotent(a: Rect)
    requires a.Valid()
    ensures Intersect(a, a) == Some(a)
  {
  }

  /**
   * Two rectangles that share only an edge or a corner intersect in a
   * zero-size rectangle, not in `None`; they still have no position in common.
   */
  lemma IntersectTouching(a: Rect, b: Rect)
    requires Max(a.Left(), b.Left()) <= Min(a.Right(), b.Right())
    requires Max(a.Top(), b.Top()) <= Min(a.Bottom(), b.Bottom())
    requires Max(a.Left(), b.Left()) == Min(a.Right(), b.Right()) ||
             Max(a.Top(), b.Top()) == Min(a.Bottom(), b.Bottom())
    ensures Intersect(a, b).Some? && Intersect(a, b).value.IsZeroSize()
    ensures forall p :: !(a.Contains(p) && b.Contains(p))
  {
    ZeroSizeIffEmpty(Intersect(a, b).value);
  }

  /** Rectangles with a positive gap on some axis do not intersect at all. */
  lemma IntersectDisjoint(a: Rect, b: Rect)
    requires a.Valid() && b.Valid()
    requires a.Right() < b.Left() || b.Right() < a.Left() || a.Bottom() < b.Top() || b.Bottom() < a.Top()
    ensures Intersect(a, b) == None
  {
  }

  /** The construction cases the source's own tests exercise. */
  lemma ConstructionExamples()
    ensures Rect.TryNew(Pos(1, 2), Pos(3, 4)) == Ok(Rect(Pos(1, 2), Pos(3, 4)))
    ensures Rect.TryNew(Pos(3, 2), Pos(1, 4)) == Err(Invalid(X, InvalidActual(3, 1)))
    ensures Rect.TryNew(Pos(1, 4), Pos(3, 2)) == Err(Invalid(Y, InvalidActual(4, 2)))
    ensures Rect.TryNew(Pos(3, 4), Pos(1, 2)) == Err(Invalid(X, InvalidActual(3, 1)))
    ensures Rect.TryNew(Pos(5, 0), Pos(2, 4)) == Err(Invalid(X, InvalidActual(5, 2)))
    ensures Rect.New(Pos(1, 2), Sizes.Size(3, 4)) == Rect(Pos(1, 2), Pos(4, 6))
    ensures Rect(Pos(1, 2), Pos(4, 9)).Size() == Sizes.Size(3, 7)
  {
  }

  /*
   * The intersection tests build their rectangles with `Rect::new(pos, size)`;
   * they are written here by their corners (`New` adds the size to the
   * top-left corner, as `ConstructionExamples` shows).
   */

  /** Overlapping rectangles, as in the source's `intersection` test. */
  lemma OverlapExample()
    ensures Intersect(Rect(Pos(2, 2), Pos(4, 3)), Rect(Pos(3, 1), Pos(6, 4))) == Some(Rect(Pos(3, 2), Pos(4, 3)))
    ensures !Rect(Pos(3, 2), Pos(4, 3)).IsZeroSize()
  {
  }

  /** Separated rectangles, as in the source's `empty_intersection` test. */
  lemma DisjointExample()
    ensures Intersect(Rect(Pos(1, 1), Pos(2, 2)), Rect(Pos(3, 3), Pos(4, 4))) == None
  {
  }

  /** Rectangles meeting at a corner, as in the source's `zero_size_intersection_in_dot` test. */
  lemma CornerTouchExample()
    ensures Intersect(Rect(Pos(1, 1), Pos(2, 2)), Rect(Pos(2, 2), Pos(3, 3))) == Some(Rect(Pos(2, 2), Pos(2, 2)))
    ensures Rect(Pos(2, 2), Pos(2, 2)).IsZeroSize()
  {
  }

  /** Rectangles sharing an edge, as in the source's `zero_size_intersection_in_line` test. */
  lemma EdgeTouchExample()
    ensures Intersect(Rect(Pos(1, 1), Pos(2, 2)), Rect(Pos(1, 2), Pos(2, 3))) == Some(Rect(Pos(1, 2), Pos(2, 2)))
    ensures Rect(Pos(1, 2), Pos(2, 2)).IsZeroSize()
  {
  }

  /** The membership cases the source's own tests exercise. */
  lemma ContainsExamples()
    ensures Rect(Pos(1, 1), Pos(3, 3)).Contains(Pos(2, 2))
    ensures !Rect(Pos(1, 1), Pos(3, 3)).Contains(Pos(4, 4))
    ensures !Rect(Pos(1, 1), Pos(3, 3)).Contains(Pos(3, 3))
    ensures !Rect.Default().Contains(Pos.Default())
  {
  }
}
