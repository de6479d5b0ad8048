/** Pixel positions (src/pos.rs). Coordinates are unbounded signed integers. */
module Positions {

  /** glam's `IVec2`: a pair of signed components. */
  datatype IVec2 = IVec2(x: int, y: int)

  /** A position on the canvas or beyond its edges. */
  datatype Pos = Pos(x: int, y: int) {

    /** `Pos::new`. */
    static function New(x: int, y: int): (p: Pos)
      ensures p.x == x && p.y == y
    {
      Pos(x, y)
    }

    /** The derived `Pos::default()`: the origin. */
    static function Default(): (p: Pos)
      ensures p.x == 0 && p.y == 0
    {
      Pos(0, 0)
    }

    /** `From<Pos> for IVec2`. */
    function ToIVec2(): (v: IVec2)
      ensures v.x == x && v.y == y
    {
      IVec2(x, y)
    }

    /** `From<IVec2> for Pos`. */
    static function FromIVec2(v: IVec2): (p: Pos)
      ensures p.x == v.x && p.y == v.y
    {
      New(v.x, v.y)
    }
  }

  /** The two conversions are inverse to each other. */
  lemma IVec2RoundTrip(p: Pos, v: IVec2)
    ensures Pos.FromIVec2(p.ToIVec2()) == p
    ensures Pos.FromIVec2(v).ToIVec2() == v
  {
  }
}
