/**
 * The canvas (src/canvas.rs): a height-by-width grid of packed pixels and the
 * fixed rectangle of its own bounds. Every drawing call writes the grid in
 * place, and only at positions inside its effective clip, which lies inside
 * the bounds, so every write is in range.
 */
module Canvases {
  import opened Wrappers
  import opened Positions
  import Sizes
  import opened Rects
  import opened Raster

  /**
   * The rectangle covering exactly the cells of `buffer`, indexed `[y, x]`:
   * `Rect.New((0, 0), (width, height))`, which is how the constructor builds
   * `globalRect`.
   */
  function Bounds(buffer: array2<Color>): (r: Rect)
    ensures r.Valid()
    ensures forall p :: r.Contains(p) <==> 0 <= p.y < buffer.Length0 && 0 <= p.x < buffer.Length1
  {
    Rect(Pos(0, 0), Pos(buffer.Length1, buffer.Length0))
  }

  /** Cancelling a positive factor keeps a strict order. */
  lemma MulCancel(a: int, b: int, w: int)
    requires w > 0 && w * a < w * b
    ensures a < b
  {
  }

  /** A multiple of `w` strictly between `-w` and `w` is zero. */
  lemma ZeroMultiple(d: int, w: int)
    requires w > 0 && -w < w * d < w
    ensures d == 0
  {
  }

  /** A row-major index below `h * w` lies in one of the `h` rows. */
  lemma RowBelowHeight(i: int, h: nat, w: nat)
    requires 0 <= i < h * w
    ensures w > 0 && 0 <= i / w < h && 0 <= i % w < w
  {
    assert w != 0;
    assert w * (i / w) <= i;
    MulCancel(i / w, h, w);
  }

  /** Splitting `y * w + x` by the row width gives back `(y, x)`. */
  lemma RowMajorSplit(y: int, x: int, w: nat)
    requires 0 <= x < w
    ensures (y * w + x) / w == y && (y * w + x) % w == x
  {
    var i := y * w + x;
    assert w * (i / w) + i % w == w * y + x;
    assert w * (y - i / w) == i % w - x;
    ZeroMultiple(y - i / w, w);
  }

  class Canvas {
    /** Row-major pixels: `buffer[y, x]`, `Length0` rows of `Length1` columns. */
    const buffer: array2<Color>
    /** The canvas's own bounds, the default clip. */
    const globalRect: Rect

    ghost predicate Valid()
    {
      globalRect == Bounds(buffer)
    }

    /** `Canvas::new`: every pixel holds `defaultColor`. */
    constructor (defaultColor: Color, size: Sizes.Size)
      ensures Valid() && fresh(buffer)
      ensures buffer.Length0 == size.height && buffer.Length1 == size.width
      ensures globalRect == Rect.New(Pos.New(0, 0), size)
      ensures forall y, x :: 0 <= y < buffer.Length0 && 0 <= x < buffer.Length1 ==> buffer[y, x] == defaultColor
    {
      buffer := new Color[size.height, size.width]((y, x) => defaultColor);
      globalRect := Rect.New(Pos.New(0, 0), size);
    }

    /**
     * The pixels as the flat row-major sequence `flush` copies to the
     * presentation surface.
     */
    function Flush(): (flat: seq<Color>)
      reads buffer
      ensures |flat| == buffer.Length0 * buffer.Length1
    {
      var h, w := buffer.Length0, buffer.Length1;
      seq(h * w, i requires 0 <= i < h * w reads buffer =>
        RowBelowHeight(i, h, w);
        buffer[i / w, i % w])
    }

    /** In the flushed sequence, pixel `(x, y)` sits at `y * width + x`. */
    lemma FlushRowMajor(y: int, x: int)
      requires 0 <= y < buffer.Length0 && 0 <= x < buffer.Length1
      ensures y * buffer.Length1 + x < |Flush()|
      ensures Flush()[y * buffer.Length1 + x] == buffer[y, x]
    {
      var h, w := buffer.Length0, buffer.Length1;
      var i := y * w + x;
      assert i < (y + 1) * w <= h * w;
      RowMajorSplit(y, x, w);
    }

    /** A canvas whose pixels all hold one colour, as after `new`, flushes to that colour throughout. */
    lemma FlushUniform(c: Color)
      requires forall y, x :: 0 <= y < buffer.Length0 && 0 <= x < buffer.Length1 ==> buffer[y, x] == c
      ensures forall i :: 0 <= i < |Flush()| ==> Flush()[i] == c
    {
      forall i | 0 <= i < |Flush()|
        ensures Flush()[i] == c
      {
        RowBelowHeight(i, buffer.Length0, buffer.Length1);
      }
    }

    // ------------------------------------------------------------ dots

    /** `draw_dot_in_rect_inner`: sets the pixel at `pos` when the clip holds it. */
    static method DrawDotInRectInner(buffer: array2<Color>, pos: Pos, color: Color, rect: Rect)
      requires rect.Inside(Bounds(buffer))
      modifies buffer
      ensures forall y, x :: 0 <= y < buffer.Length0 && 0 <= x < buffer.Length1 ==>
                buffer[y, x] == DotPixel(pos, color, rect, Pos(x, y), old(buffer[y, x]))
    {
      if rect.Contains(pos) {
        buffer[pos.y, pos.x] := color;
      }
    }

    /** `draw_dot`: a dot clipped to the canvas. */
    method DrawDot(pos: Pos, color: Color)
      requires Valid()
      modifies buffer
      ensures forall y, x :: 0 <= y < buffer.Length0 && 0 <= x < buffer.Length1 ==>
                buffer[y, x] == DotPixel(pos, color, globalRect, Pos(x, y), old(buffer[y, x]))
    {
      DrawDotInRectInner(buffer, pos, color, globalRect);
    }

    /** `draw_dot_in_rect`: a dot clipped to `rect` and the canvas; nothing if they do not meet. */
    method DrawDotInRect(pos: Pos, color: Color, rect: Rect)
      requires Valid()
      modifies buffer
      ensures var clip := Intersect(globalRect, rect);
              forall y, x :: 0 <= y < buffer.Length0 && 0 <= x < buffer.Length1 ==>
                buffer[y, x] == if clip.None? then old(buffer[y, x])
                                else DotPixel(pos, color, clip.value, Pos(x, y), old(buffer[y, x]))
    {
      var clip := Intersect(globalRect, rect);
      if clip.Some? {
        DrawDotInRectInner(buffer, pos, color, clip.value);
      }
    }

    // ------------------------------------------------------------ circles

    /** `draw_circle_in_rect_inner`: scans the circle's bounding box clamped to the clip. */
    static method DrawCircleInRectInner(buffer: array2<Color>, center: Pos, radius: nat, outlineColor: Color,
                                        fillColor: Color, rect: Rect)
      requires radius != 0 && !rect.IsZeroSize()
      requires rect.Inside(Bounds(buffer))
      modifies buffer
      ensures forall y, x :: 0 <= y < buffer.Length0 && 0 <= x < buffer.Length1 ==>
                buffer[y, x] == CirclePixel(center, radius, outlineColor, fillColor, rect, Pos(x, y), old(buffer[y, x]))
    {
      var r2 := radius * radius;
      var xLo := Clamp(center.x - radius, rect.Left(), rect.Right() - 1);
      var xHi := Clamp(center.x + radius, rect.Left(), rect.Right() - 1);
      var yLo := Clamp(center.y - radius, rect.Top(), rect.Bottom() - 1);
      var yHi := Clamp(center.y + radius, rect.Top(), rect.Bottom() - 1);

      for x := xLo to xHi + 1
        invariant forall py, px :: 0 <= py < buffer.Length0 && 0 <= px < buffer.Length1 ==>
                    buffer[py, px] == if xLo <= px < x && yLo <= py <= yHi
                                      then CirclePixel(center, radius, outlineColor, fillColor, rect, Pos(px, py), old(buffer[py, px]))
                                      else old(buffer[py, px])
      {
        var offsetX := x - center.x;
        var offsetX2 := offsetX * offsetX;
        for y := yLo to yHi + 1
          invariant forall py, px :: 0 <= py < buffer.Length0 && 0 <= px < buffer.Length1 ==>
                      buffer[py, px] == if (xLo <= px < x && yLo <= py <= yHi) || (px == x && yLo <= py < y)
                                        then CirclePixel(center, radius, outlineColor, fillColor, rect, Pos(px, py), old(buffer[py, px]))
                                        else old(buffer[py, px])
        {
          var offsetY := y - center.y;
          var dist := offsetX2 + offsetY * offsetY;
          assert dist == SquaredDistance(center, Pos(x, y));
          if dist < r2 + radius {
            buffer[y, x] := if dist <= r2 - radius then fillColor else outlineColor;
          }
        }
      }

      forall py, px | 0 <= py < buffer.Length0 && 0 <= px < buffer.Length1 && !(xLo <= px <= xHi && yLo <= py <= yHi)
        ensures CirclePixel(center, radius, outlineColor, fillColor, rect, Pos(px, py), old(buffer[py, px])) == old(buffer[py, px])
      {
        if rect.Contains(Pos(px, py)) && SquaredDistance(center, Pos(px, py)) < radius * radius + radius {
          ScanMissesNothing(center, radius, rect, Pos(px, py));
        }
      }
    }

    /** `draw_dot_or_circle_in_rect_inner`. */
    static method DrawDotOrCircleInRectInner(buffer: array2<Color>, center: Pos, radius: nat, outlineColor: Color,
                                             fillColor: Color, rect: Rect)
      requires rect.Inside(Bounds(buffer))
      modifies buffer
      ensures forall y, x :: 0 <= y < buffer.Length0 && 0 <= x < buffer.Length1 ==>
                buffer[y, x] == DotOrCirclePixel(center, radius, outlineColor, fillColor, rect, Pos(x, y), old(buffer[y, x]))
    {
      if rect.IsZeroSize() {
        return;
      }
      if radius == 0 {
        DrawDotInRectInner(buffer, center, outlineColor, rect);
      } else {
        DrawCircleInRectInner(buffer, center, radius, outlineColor, fillColor, rect);
      }
    }

    /** `draw_circle`: a circle clipped to the canvas. */
    method DrawCircle(center: Pos, radius: nat, outlineColor: Color, fillColor: Color)
      requires Valid()
      modifies buffer
      ensures forall y, x :: 0 <= y < buffer.Length0 && 0 <= x < buffer.Length1 ==>
                buffer[y, x] == DotOrCirclePixel(center, radius, outlineColor, fillColor, globalRect, Pos(x, y), old(buffer[y, x]))
    {
      DrawDotOrCircleInRectInner(buffer, center, radius, outlineColor, fillColor, globalRect);
    }

    /** `draw_circle_in_rect`: a circle clipped to `rect` and the canvas; nothing if they do not meet. */
    method DrawCircleInRect(center: Pos, radius: nat, outlineColor: Color, fillColor: Color, rect: Rect)
      requires Valid()
      modifies buffer
      ensures var clip := Intersect(globalRect, rect);
              forall y, x :: 0 <= y < buffer.Length0 && 0 <= x < buffer.Length1 ==>
                buffer[y, x] == if clip.None? then old(buffer[y, x])
                                else DotOrCirclePixel(center, radius, outlineColor, fillColor, clip.value, Pos(x, y), old(buffer[y, x]))
    {
      var clip := Intersect(globalRect, rect);
      if clip.Some? {
        DrawDotOrCircleInRectInner(buffer, center, radius, outlineColor, fillColor, clip.value);
      }
    }

    // ------------------------------------------------------------ lines

    /**
     * One pass of the loop body of `draw_line_in_rect_inner` after the dot:
     * a stop at `to`; else `e2 = 2 * error`, an x step (or a stop when x is
     * already at the target column), then a y step (or a stop when y is
     * already at the target row). It agrees with `Advance`: it stops exactly
     * when `Advance` ends the walk and otherwise yields the state `Advance`
     * yields, closer to `to`.
     */
    static method LineStep(from: Pos, to: Pos, dx: nat, dy: int, sx: bool, sy: bool, pos: Pos, error: int)
      returns (stop: bool, nextPos: Pos, nextError: int)
      requires Line(from, to).InBox(pos)
      requires dx == Line(from, to).Dx() && dy == Line(from, to).Dy()
      requires sx == Line(from, to).Sx() && sy == Line(from, to).Sy()
      ensures stop <==> Advance(Line(from, to), pos, error).None?
      ensures !stop ==> Advance(Line(from, to), pos, error) == Some(Walker(nextPos, nextError))
      ensures !stop ==> AbsDiff(nextPos.x, to.x) + AbsDiff(nextPos.y, to.y) < AbsDiff(pos.x, to.x) + AbsDiff(pos.y, to.y)
    {
      stop, nextPos, nextError := true, pos, error;
      if pos != to {
        var e2 := 2 * error;
        stop := false;
        if e2 >= dy {
          if nextPos.x == to.x {
            stop := true;
          } else {
            nextError := nextError + dy;
            if sx {
              nextPos := nextPos.(x := nextPos.x + 1);
            } else {
              nextPos := nextPos.(x := nextPos.x - 1);
            }
          }
        }
        if !stop && e2 <= dx {
          if nextPos.y == to.y {
            stop := true;
          } else {
            nextError := nextError + dx;
            if sy {
              nextPos := nextPos.(y := nextPos.y + 1);
            } else {
              nextPos := nextPos.(y := nextPos.y - 1);
            }
          }
        }
      }
    }

    /**
     * `draw_line_in_rect_inner`: nothing when the clip is empty or both
     * endpoints lie beyond the same edge of the clip; otherwise the walk.
     */
    static method DrawLineInRectInner(buffer: array2<Color>, from: Pos, to: Pos, color: Color, rect: Rect)
      requires rect.Inside(Bounds(buffer))
      modifies buffer
      ensures forall y, x :: 0 <= y < buffer.Length0 && 0 <= x < buffer.Length1 ==>
                buffer[y, x] == LinePixel(from, to, color, rect, Pos(x, y), old(buffer[y, x]))
    {
      if RejectedEarly(from, to, rect) {
        EarlyRejectionSound(from, to, rect);
        return;
      }
      PlotLine(buffer, from, to, color, rect);
    }

    /**
     * The loop of `draw_line_in_rect_inner` after the early return: walks
     * from `from` to `to`, drawing each position through the clip.
     */
    static method PlotLine(buffer: array2<Color>, from: Pos, to: Pos, color: Color, rect: Rect)
      requires rect.Inside(Bounds(buffer)) && !RejectedEarly(from, to, rect)
      modifies buffer
      ensures forall y, x :: 0 <= y < buffer.Length0 && 0 <= x < buffer.Length1 ==>
                buffer[y, x] == LinePixel(from, to, color, rect, Pos(x, y), old(buffer[y, x]))
    {
      var dx := AbsDiff(from.x, to.x);
      var sx := from.x < to.x;
      var dy := -(AbsDiff(from.y, to.y) as int);
      var sy := from.y < to.y;
      var error := dx + dy;
      var pos := from;

      ghost var line := Line(from, to);
      ghost var start := Walker(from, line.Dx() + line.Dy());
      ghost var plotted: seq<Pos> := [];
      assert dx == line.Dx() && dy == line.Dy() && sx == line.Sx() && sy == line.Sy();
      while true
        invariant line.InBox(pos) && Reaches(line, start, plotted, Walker(pos, error))
        invariant forall py, px :: 0 <= py < buffer.Length0 && 0 <= px < buffer.Length1 ==>
                    buffer[py, px] == if Pos(px, py) in plotted && rect.Contains(Pos(px, py)) then color
                                      else old(buffer[py, px])
        decreases AbsDiff(pos.x, to.x) + AbsDiff(pos.y, to.y)
      {
        DrawDotInRectInner(buffer, pos, color, rect);
        var stop, nextPos, nextError := LineStep(from, to, dx, dy, sx, sy, pos, error);
        ReachesNext(line, start, plotted, Walker(pos, error), stop, Walker(nextPos, nextError));
        plotted := plotted + [pos];
        if stop {
          break;
        }
        pos, error := nextPos, nextError;
      }
    }

    /** `draw_line`: a line clipped to the canvas. */
    method DrawLine(from: Pos, to: Pos, color: Color)
      requires Valid()
      modifies buffer
      ensures forall y, x :: 0 <= y < buffer.Length0 && 0 <= x < buffer.Length1 ==>
                buffer[y, x] == LinePixel(from, to, color, globalRect, Pos(x, y), old(buffer[y, x]))
    {
      DrawLineInRectInner(buffer, from, to, color, globalRect);
    }

    /** `draw_line_in_rect`: a line clipped to `rect` and the canvas; nothing if they do not meet. */
    method DrawLineInRect(from: Pos, to: Pos, color: Color, rect: Rect)
      requires Valid()
      modifies buffer
      ensures var clip := Intersect(globalRect, rect);
              forall y, x :: 0 <= y < buffer.Length0 && 0 <= x < buffer.Length1 ==>
                buffer[y, x] == if clip.None? then old(buffer[y, x])
                                else LinePixel(from, to, color, clip.value, Pos(x, y), old(buffer[y, x]))
    {
      var clip := Intersect(globalRect, rect);
      if clip.Some? {
        DrawLineInRectInner(buffer, from, to, color, clip.value);
      }
    }
  }
}
