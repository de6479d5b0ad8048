/** Non-negative extents (src/size.rs). */
module Sizes {

  /** glam's `UVec2`: a pair of unsigned components. */
  datatype UVec2 = UVec2(x: nat, y: nat)

  /** A width and a height, both non-negative. */
  datatype Size = Size(width: nat, height: nat) {

    /** `Size::new`. */
    static function New(width: nat, height: nat): (s: Size)
      ensures s.width == width && s.height == height
    {
      Size(width, height)
    }

    /** The derived `Size::default()`: nothing wide and nothing high. */
    static function Default(): (s: Size)
      ensures s.width == 0 && s.height == 0
    {
      Size(0, 0)
    }

    /** `From<Size> for UVec2`: width becomes x, height becomes y. */
    function ToUVec2(): (v: UVec2)
      ensures v.x == width && v.y == height
    {
      UVec2(width, height)
    }

    /** `From<UVec2> for Size`: x becomes width, y becomes height. */
    static function FromUVec2(v: UVec2): (s: Size)
      ensures s.width == v.x && s.height == v.y
    {
      New(v.x, v.y)
    }
  }

  /** The two conversions are inverse to each other. */
  lemma UVec2RoundTrip(s: Size, v: UVec2)
    ensures Size.FromUVec2(s.ToUVec2()) == s
    ensures Size.FromUVec2(v).ToUVec2() == v
  {
  }
}
