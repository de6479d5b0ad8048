/**
 * The per-pixel rules behind the canvas drawing primitives (src/canvas.rs):
 * which colour each pixel has after a dot, a circle or a line is drawn
 * through a clip rectangle, and the integer line walk itself.
 */
module Raster {
  import opened Positions
  import opened Wrappers
  import opened Rects

  /** An opaque packed pixel, the source's `u32`. */
  newtype Color = c: int | 0 <= c < 0x1_0000_0000

  /** `i32::abs_diff`. */
  function AbsDiff(a: int, b: int): (d: nat)
    ensures a <= b ==> a + d == b
    ensures b <= a ==> b + d == a
  {
    if a < b then b - a else a - b
  }

  /** `i32::clamp`, which requires `lo <= hi`. */
  function Clamp(v: int, lo: int, hi: int): (r: int)
    requires lo <= hi
    ensures lo <= r <= hi
    ensures lo <= v <= hi ==> r == v
    ensures v < lo ==> r == lo
    ensures hi < v ==> r == hi
  {
    if v < lo then lo else if hi < v then hi else v
  }

  // ---------------------------------------------------------------- dots

  /** The colour of pixel `p` after a dot of `color` at `pos` is drawn through `clip`. */
  function DotPixel(pos: Pos, color: Color, clip: Rect, p: Pos, before: Color): Color
  {
    if clip.Contains(pos) && p == pos then color else before
  }

  /**
   * With a clip as the active rectangle, a dot on its bottom-right corner is
   * never drawn, and a dot on its top-left corner is drawn unless the clip
   * is zero-size.
   */
  lemma DotCorners(clip: Rect, color: Color, p: Pos, before: Color)
    ensures DotPixel(clip.bottomRight, color, clip, p, before) == before
    ensures !clip.IsZeroSize() ==> DotPixel(clip.topLeft, color, clip, clip.topLeft, before) == color
  {
    CornerMembership(clip);
  }

  // ---------------------------------------------------------------- circles

  /** The squared Euclidean distance of `p` from `center`. */
  function SquaredDistance(center: Pos, p: Pos): nat
  {
    (p.x - center.x) * (p.x - center.x) + (p.y - center.y) * (p.y - center.y)
  }

  /** What a circle does to a pixel at a given squared distance from its center. */
  datatype Shade = Fill | Outline | Untouched

  /** The thresholds of canvas.rs:125-126: `r² + r` for being drawn, `r² - r` for fill. */
  function Classify(d: nat, radius: nat): Shade
  {
    if d < radius * radius + radius then
      if d <= radius * radius - radius then Fill else Outline
    else
      Untouched
  }

  /** For a positive radius the three shades partition the distances into three bands. */
  lemma ClassifyBands(d: nat, radius: nat)
    requires radius > 0
    ensures Classify(d, radius) == Fill <==> d <= radius * radius - radius
    ensures Classify(d, radius) == Outline <==> radius * radius - radius < d < radius * radius + radius
    ensures Classify(d, radius) == Untouched <==> d >= radius * radius + radius
  {
  }

  /** The colour of pixel `p` after a circle of positive radius is drawn through `clip`. */
  function CirclePixel(center: Pos, radius: nat, outline: Color, fill: Color, clip: Rect, p: Pos,
                       before: Color): Color
  {
    if !clip.Contains(p) then before
    else
      match Classify(SquaredDistance(center, p), radius)
      case Fill => fill
      case Outline => outline
      case Untouched => before
  }

  /**
   * `draw_dot_or_circle_in_rect_inner`: nothing through a zero-size clip, a dot
   * in the outline colour for radius zero, a circle otherwise.
   */
  function DotOrCirclePixel(center: Pos, radius: nat, outline: Color, fill: Color, clip: Rect, p: Pos,
                            before: Color): Color
  {
    if clip.IsZeroSize() then before
    else if radius == 0 then DotPixel(center, outline, clip, p, before)
    else CirclePixel(center, radius, outline, fill, clip, p, before)
  }

  /** A circle of radius zero is its center pixel in the outline colour, whatever the fill colour. */
  lemma RadiusZeroIsDot(center: Pos, outline: Color, fill: Color, clip: Rect, p: Pos, before: Color)
    ensures DotOrCirclePixel(center, 0, outline, fill, clip, p, before)
              == if p == center && clip.Contains(center) then outline else before
  {
    ZeroSizeIffEmpty(clip);
  }

  /** The worked example: center (10, 10), radius 5, inside a clip that holds the pixels. */
  lemma CircleExample(outline: Color, fill: Color, clip: Rect, before: Color)
    requires clip.Contains(Pos(10, 10)) && clip.Contains(Pos(15, 10)) && clip.Contains(Pos(16, 10))
    ensures DotOrCirclePixel(Pos(10, 10), 5, outline, fill, clip, Pos(10, 10), before) == fill
    ensures DotOrCirclePixel(Pos(10, 10), 5, outline, fill, clip, Pos(15, 10), before) == outline
    ensures DotOrCirclePixel(Pos(10, 10), 5, outline, fill, clip, Pos(16, 10), before) == before
  {
  }

  lemma MulSign(a: int, b: int)
    requires a >= 0 && b <= 0
    ensures a * b <= 0
  {
  }

  lemma SquareMonotone(m: int, n: int)
    requires 0 <= n <= m
    ensures n * n <= m * m
  {
    assert m * m - n * n == (m - n) * (m + n);
    MulSign(m - n, -(m + n));
  }

  /** A pixel more than `radius` away from the center on one axis is too far to be drawn. */
  lemma FarComponent(a: int, b: int, radius: nat)
    requires a > radius || a < -(radius as int)
    ensures a * a + b * b >= radius * radius + radius
  {
    var m := if a >= 0 then a else -a;
    assert a * a == m * m;
    SquareMonotone(m, radius + 1);
    assert (radius + 1) * (radius + 1) == radius * radius + 2 * radius + 1;
    assert b * b >= 0;
  }

  /** So a pixel the circle draws is at most `radius` away from the center on each axis. */
  lemma NearComponents(a: int, b: int, radius: nat)
    requires a * a + b * b < radius * radius + radius
    ensures -(radius as int) <= a <= radius
  {
    if a > radius || a < -(radius as int) {
      FarComponent(a, b, radius);
    }
  }

  /**
   * The clamped scan ranges of canvas.rs:107-117 miss no pixel of the clip that
   * the circle draws: every such pixel lies within both ranges.
   */
  lemma ScanMissesNothing(center: Pos, radius: nat, clip: Rect, p: Pos)
    requires !clip.IsZeroSize()
    requires clip.Contains(p)
    requires SquaredDistance(center, p) < radius * radius + radius
    ensures Clamp(center.x - radius, clip.Left(), clip.Right() - 1) <= p.x
    ensures p.x <= Clamp(center.x + radius, clip.Left(), clip.Right() - 1)
    ensures Clamp(center.y - radius, clip.Top(), clip.Bottom() - 1) <= p.y
    ensures p.y <= Clamp(center.y + radius, clip.Top(), clip.Bottom() - 1)
  {
    var dx, dy := p.x - center.x, p.y - center.y;
    NearComponents(dx, dy, radius);
    NearComponents(dy, dx, radius);
  }

  // ---------------------------------------------------------------- lines

  /** A line and the constants computed once before its walk (canvas.rs:182-185). */
  datatype Line = Line(from: Pos, to: Pos) {

    function Dx(): nat { AbsDiff(from.x, to.x) }

    function Dy(): int { -(AbsDiff(from.y, to.y) as int) }

    predicate Sx() { from.x < to.x }

    predicate Sy() { from.y < to.y }

    /** One x step in the walk's fixed direction. */
    function StepX(x: int): int { if Sx() then x + 1 else x - 1 }

    function StepY(y: int): int { if Sy() then y + 1 else y - 1 }

    /** The bounding box of the two end points, both ends included. */
    predicate InBox(p: Pos)
    {
      Min(from.x, to.x) <= p.x <= Max(from.x, to.x) && Min(from.y, to.y) <= p.y <= Max(from.y, to.y)
    }

    /** `q` follows `p` by one step: each coordinate stays or moves one unit toward `to`, not both stay. */
    predicate Step(p: Pos, q: Pos)
    {
      p != q && (q.x == p.x || q.x == StepX(p.x)) && (q.y == p.y || q.y == StepY(p.y))
    }

    /**
     * The error accumulator after `i` x steps and `j` y steps:
     * `dx + dy + i * dy + j * dx`.
     */
    ghost predicate ErrorInvariant(p: Pos, error: int)
    {
      error == Dx() + Dy() + AbsDiff(p.x, from.x) * Dy() + AbsDiff(p.y, from.y) * Dx()
    }

    /** Whether x is the major axis: the line is at least as wide as it is high. */
    predicate XMajor() { Dx() >= -Dy() }

    /**
     * The error stays within half the major extent of its starting value
     * `dx + dy`, which keeps the major-axis step always enabled.
     */
    ghost predicate MajorBound(error: int)
    {
      var m := Max(Dx(), -Dy());
      -m <= 2 * (error - Dx() - Dy()) <= m
    }
  }

  /** The walk's mutable state: the current position and the error accumulator. */
  datatype Walker = Walker(pos: Pos, error: int)

  /**
   * What one pass of the loop body of canvas.rs:194-216 does after plotting
   * `pos`: the next state, or `None` where the loop breaks. A step moves one
   * unit toward `to` on at least one axis and stays in the bounding box.
   */
  function Advance(l: Line, pos: Pos, error: int): (next: Option<Walker>)
    requires l.InBox(pos)
    ensures pos == l.to ==> next.None?
    ensures next.Some? ==> l.InBox(next.value.pos) && l.Step(pos, next.value.pos)
    ensures next.Some? ==> AbsDiff(next.value.pos.x, l.to.x) + AbsDiff(next.value.pos.y, l.to.y)
                           < AbsDiff(pos.x, l.to.x) + AbsDiff(pos.y, l.to.y)
  {
    if pos == l.to then None
    else
      var e2 := 2 * error;
      if e2 >= l.Dy() && pos.x == l.to.x then None
      else
        var xMoves := e2 >= l.Dy();
        var pos1 := if xMoves then pos.(x := l.StepX(pos.x)) else pos;
        var error1 := if xMoves then error + l.Dy() else error;
        if e2 <= l.Dx() && pos1.y == l.to.y then None
        else
          var yMoves := e2 <= l.Dx();
          var pos2 := if yMoves then pos1.(y := l.StepY(pos1.y)) else pos1;
          var error2 := if yMoves then error1 + l.Dx() else error1;
          Some(Walker(pos2, error2))
  }

  /** The positions the loop plots from state (`pos`, `error`) on. */
  function WalkFrom(l: Line, pos: Pos, error: int): (w: seq<Pos>)
    requires l.InBox(pos)
    ensures |w| >= 1 && w[0] == pos
    decreases AbsDiff(pos.x, l.to.x) + AbsDiff(pos.y, l.to.y)
  {
    match Advance(l, pos, error)
    case None => [pos]
    case Some(next) => [pos] + WalkFrom(l, next.pos, next.error)
  }

  /**
   * Every plotted position lies in the bounding box, and each follows the
   * one before by a single step toward `to`.
   */
  lemma {:induction false} WalkShape(l: Line, pos: Pos, error: int)
    requires l.InBox(pos)
    ensures forall k :: 0 <= k < |WalkFrom(l, pos, error)| ==> l.InBox(WalkFrom(l, pos, error)[k])
    ensures forall k :: 0 <= k < |WalkFrom(l, pos, error)| - 1 ==>
              l.Step(WalkFrom(l, pos, error)[k], WalkFrom(l, pos, error)[k + 1])
    decreases AbsDiff(pos.x, l.to.x) + AbsDiff(pos.y, l.to.y)
  {
    var next := Advance(l, pos, error);
    if next.Some? {
      WalkShape(l, next.value.pos, next.value.error);
      var w, rest := WalkFrom(l, pos, error), WalkFrom(l, next.value.pos, next.value.error);
      assert w == [pos] + rest;
      forall k | 0 <= k < |w| ensures l.InBox(w[k]) {
        if k > 0 {
          assert w[k] == rest[k - 1];
        }
      }
      forall k | 0 <= k < |w| - 1 ensures l.Step(w[k], w[k + 1]) {
        if k > 0 {
          assert w[k] == rest[k - 1] && w[k + 1] == rest[k];
        } else {
          assert w[0] == pos && w[1] == rest[0] == next.value.pos;
        }
      }
    }
  }

  /**
   * `plotted` holds the positions the loop plots on its way from state `w`
   * to state `last`, one per pass, `last`'s own position not yet included.
   */
  predicate Reaches(l: Line, w: Walker, plotted: seq<Pos>, last: Walker)
    decreases |plotted|
  {
    if |plotted| == 0 then w == last
    else
      plotted[0] == w.pos && l.InBox(w.pos) &&
      match Advance(l, w.pos, w.error)
      case None => false
      case Some(next) => Reaches(l, next, plotted[1..], last)
  }

  /** One more pass of the loop extends the trace by the position it plots. */
  lemma {:induction false} ReachesExtend(l: Line, w: Walker, plotted: seq<Pos>, last: Walker, next: Walker)
    requires Reaches(l, w, plotted, last)
    requires l.InBox(last.pos) && Advance(l, last.pos, last.error) == Some(next)
    ensures Reaches(l, w, plotted + [last.pos], next)
    decreases |plotted|
  {
    if |plotted| > 0 {
      var n := Advance(l, w.pos, w.error).value;
      ReachesExtend(l, n, plotted[1..], last, next);
      assert (plotted + [last.pos])[1..] == plotted[1..] + [last.pos];
    }
  }

  /**
   * Where the loop breaks, what it has plotted is exactly the walk: the link
   * from the loop of canvas.rs:188-217 to `WalkFrom`.
   */
  lemma {:induction false} ReachesWalk(l: Line, w: Walker, plotted: seq<Pos>, last: Walker)
    requires l.InBox(w.pos) && Reaches(l, w, plotted, last)
    requires l.InBox(last.pos) && Advance(l, last.pos, last.error).None?
    ensures plotted + [last.pos] == WalkFrom(l, w.pos, w.error)
    decreases |plotted|
  {
    if |plotted| > 0 {
      var n := Advance(l, w.pos, w.error).value;
      ReachesWalk(l, n, plotted[1..], last);
      assert plotted + [last.pos] == [w.pos] + (plotted[1..] + [last.pos]);
    }
  }

  /**
   * With `i` x steps and `j` y steps taken, the x step cannot be refused once
   * x has arrived while y has not: the doubled error is then below `dy`.
   */
  lemma XBreakUnreachable(dx: nat, dy: int, i: nat, j: nat, error: int)
    requires error == dx + dy + i * dy + j * dx
    requires i == dx && j < -dy
    ensures 2 * error < dy
  {
    assert error == dx * (1 + j + dy) + dy;
    MulSign(dx, 1 + j + dy);
  }

  /** Symmetrically, once y has arrived while x has not, the doubled error exceeds `dx`. */
  lemma YBreakUnreachable(dx: nat, dy: int, i: nat, j: nat, error: int)
    requires error == dx + dy + i * dy + j * dx
    requires j == -dy && i < dx
    ensures 2 * error > dx
  {
    assert j * dx == -(dy * dx);
    MulSign(dx - i - 1, dy);
    assert 2 * error - dx == dx - 2 * ((dx - i - 1) * dy);
  }

  /** Each x step adds `dy` and each y step adds `dx` to the error, keeping its closed form. */
  lemma ErrorStep(dx: nat, dy: int, i: nat, j: nat, error: int, xMoves: bool, yMoves: bool)
    requires error == dx + dy + i * dy + j * dx
    ensures error + (if xMoves then dy else 0) + (if yMoves then dx else 0)
            == dx + dy + (if xMoves then i + 1 else i) * dy + (if yMoves then j + 1 else j) * dx
  {
  }

  /**
   * Zingl's invariant keeps both inner breaks from firing: short of `to`, the
   * loop body always takes a step, and the step keeps the invariant.
   */
  lemma InnerBreaksUnreachable(l: Line, pos: Pos, error: int)
    requires l.InBox(pos) && l.ErrorInvariant(pos, error) && pos != l.to
    ensures Advance(l, pos, error).Some?
    ensures l.ErrorInvariant(Advance(l, pos, error).value.pos, Advance(l, pos, error).value.error)
  {
    var dx, dy := l.Dx(), l.Dy();
    var i, j := AbsDiff(pos.x, l.from.x), AbsDiff(pos.y, l.from.y);
    var e2 := 2 * error;
    if pos.x == l.to.x {
      XBreakUnreachable(dx, dy, i, j, error);
    }
    if pos.y == l.to.y {
      YBreakUnreachable(dx, dy, i, j, error);
    }
    var xMoves, yMoves := e2 >= dy, e2 <= dx;
    var next := Advance(l, pos, error).value;
    assert next.error == error + (if xMoves then dy else 0) + (if yMoves then dx else 0);
    assert AbsDiff(next.pos.x, l.from.x) == if xMoves then i + 1 else i;
    assert AbsDiff(next.pos.y, l.from.y) == if yMoves then j + 1 else j;
    ErrorStep(dx, dy, i, j, error, xMoves, yMoves);
  }

  /** So the walk stops only on reaching `to`, after plotting it. */
  lemma {:induction false} WalkEndsAtTarget(l: Line, pos: Pos, error: int)
    requires l.InBox(pos) && l.ErrorInvariant(pos, error)
    ensures var w := WalkFrom(l, pos, error); w[|w| - 1] == l.to
    decreases AbsDiff(pos.x, l.to.x) + AbsDiff(pos.y, l.to.y)
  {
    if pos != l.to {
      InnerBreaksUnreachable(l, pos, error);
      var next := Advance(l, pos, error).value;
      WalkEndsAtTarget(l, next.pos, next.error);
    }
  }

  /**
   * Every position `draw_line_in_rect_inner` plots, in order: it starts at
   * `from`, ends at `to`, moves one step toward `to` at a time and never leaves
   * the bounding box of the two end points.
   */
  function LineWalk(from: Pos, to: Pos): (w: seq<Pos>)
    ensures |w| >= 1 && w[0] == from && w[|w| - 1] == to
  {
    var l := Line(from, to);
    WalkEndsAtTarget(l, from, l.Dx() + l.Dy());
    WalkFrom(l, from, l.Dx() + l.Dy())
  }

  /**
   * Short of `to`, a pass always steps along the major axis and keeps the
   * error within its bound.
   */
  lemma MajorStep(l: Line, pos: Pos, error: int)
    requires l.InBox(pos) && l.ErrorInvariant(pos, error) && l.MajorBound(error) && pos != l.to
    ensures Advance(l, pos, error).Some?
    ensures var next := Advance(l, pos, error).value;
            l.ErrorInvariant(next.pos, next.error) && l.MajorBound(next.error)
    ensures var next := Advance(l, pos, error).value;
            if l.XMajor() then pos.x != l.to.x && next.pos.x == l.StepX(pos.x)
            else pos.y != l.to.y && next.pos.y == l.StepY(pos.y)
  {
    InnerBreaksUnreachable(l, pos, error);
  }

  /**
   * From any state the loop reaches, the walk has one position per remaining
   * unit along the major axis, plus the last one.
   */
  lemma {:induction false} WalkLength(l: Line, pos: Pos, error: int)
    requires l.InBox(pos) && l.ErrorInvariant(pos, error) && l.MajorBound(error)
    ensures |WalkFrom(l, pos, error)| == 1 + if l.XMajor() then AbsDiff(pos.x, l.to.x) else AbsDiff(pos.y, l.to.y)
    decreases AbsDiff(pos.x, l.to.x) + AbsDiff(pos.y, l.to.y)
  {
    if pos != l.to {
      MajorStep(l, pos, error);
      var next := Advance(l, pos, error).value;
      WalkLength(l, next.pos, next.error);
    }
  }

  /**
   * The line is one pixel wide: every pass moves along the major axis, so the
   * walk holds exactly `max(|dx|, |dy|) + 1` positions.
   */
  lemma LineWalkLength(from: Pos, to: Pos)
    ensures |LineWalk(from, to)| == Max(AbsDiff(from.x, to.x), AbsDiff(from.y, to.y)) + 1
  {
    var l := Line(from, to);
    assert LineWalk(from, to) == WalkFrom(l, from, l.Dx() + l.Dy());
    WalkLength(l, from, l.Dx() + l.Dy());
  }

  /**
   * One pass of the loop of canvas.rs:188-217 on the trace: after plotting
   * `last.pos`, either the loop breaks and the trace is the whole walk, or the
   * trace reaches the next walker.
   */
  lemma ReachesNext(l: Line, start: Walker, plotted: seq<Pos>, last: Walker, stop: bool, next: Walker)
    requires start == Walker(l.from, l.Dx() + l.Dy())
    requires l.InBox(last.pos) && Reaches(l, start, plotted, last)
    requires stop <==> Advance(l, last.pos, last.error).None?
    requires !stop ==> Advance(l, last.pos, last.error) == Some(next)
    ensures stop ==> plotted + [last.pos] == LineWalk(l.from, l.to)
    ensures !stop ==> l.InBox(next.pos) && Reaches(l, start, plotted + [last.pos], next)
  {
    if stop {
      ReachesWalk(l, start, plotted, last);
    } else {
      ReachesExtend(l, start, plotted, last, next);
    }
  }

  /** The whole walk stays in the bounding box and moves one step toward `to` at a time. */
  lemma LineWalkShape(from: Pos, to: Pos)
    ensures forall k :: 0 <= k < |LineWalk(from, to)| ==> Line(from, to).InBox(LineWalk(from, to)[k])
    ensures forall k :: 0 <= k < |LineWalk(from, to)| - 1 ==>
              Line(from, to).Step(LineWalk(from, to)[k], LineWalk(from, to)[k + 1])
  {
    var l := Line(from, to);
    assert LineWalk(from, to) == WalkFrom(l, from, l.Dx() + l.Dy());
    WalkShape(l, from, l.Dx() + l.Dy());
  }

  /** A diagonal walk plots exactly the diagonal pixels. */
  lemma DiagonalExample()
    ensures LineWalk(Pos(0, 0), Pos(3, 3)) == [Pos(0, 0), Pos(1, 1), Pos(2, 2), Pos(3, 3)]
  {
  }

  /** A horizontal walk plots every pixel between and including its end points. */
  lemma HorizontalExample()
    ensures LineWalk(Pos(0, 0), Pos(4, 0)) == [Pos(0, 0), Pos(1, 0), Pos(2, 0), Pos(3, 0), Pos(4, 0)]
  {
    var l := Line(Pos(0, 0), Pos(4, 0));
    // The walk unfolded from its end, one pass at a time.
    assert WalkFrom(l, Pos(4, 0), 4) == [Pos(4, 0)];
    assert Advance(l, Pos(3, 0), 4) == Some(Walker(Pos(4, 0), 4));
    assert WalkFrom(l, Pos(3, 0), 4) == [Pos(3, 0), Pos(4, 0)];
    assert Advance(l, Pos(2, 0), 4) == Some(Walker(Pos(3, 0), 4));
    assert WalkFrom(l, Pos(2, 0), 4) == [Pos(2, 0), Pos(3, 0), Pos(4, 0)];
    assert Advance(l, Pos(1, 0), 4) == Some(Walker(Pos(2, 0), 4));
    assert WalkFrom(l, Pos(1, 0), 4) == [Pos(1, 0), Pos(2, 0), Pos(3, 0), Pos(4, 0)];
  }

  /** The early return of canvas.rs:174-181. */
  predicate RejectedEarly(from: Pos, to: Pos, clip: Rect)
  {
    clip.IsZeroSize()
    || (from.x < clip.Left() && to.x < clip.Left())
    || (from.x >= clip.Right() && to.x >= clip.Right())
    || (from.y < clip.Top() && to.y < clip.Top())
    || (from.y >= clip.Bottom() && to.y >= clip.Bottom())
  }

  /** The colour of pixel `p` after a line is drawn through `clip`: walked pixels inside the clip. */
  function LinePixel(from: Pos, to: Pos, color: Color, clip: Rect, p: Pos, before: Color): Color
  {
    if p in LineWalk(from, to) && clip.Contains(p) then color else before
  }

  /**
   * The early return is conservative: when it fires, no position of the walk
   * lies in the clip, so skipping the walk changes nothing.
   */
  lemma EarlyRejectionSound(from: Pos, to: Pos, clip: Rect)
    requires RejectedEarly(from, to, clip)
    ensures forall p :: p in LineWalk(from, to) ==> !clip.Contains(p)
  {
    ZeroSizeIffEmpty(clip);
    LineWalkShape(from, to);
  }

  // ---------------------------------------------------------------- all primitives

  /** Every primitive changes only pixels inside its clip. */
  lemma WritesStayInClip(center: Pos, radius: nat, from: Pos, to: Pos, c1: Color, c2: Color, clip: Rect,
                         p: Pos, before: Color)
    ensures DotPixel(center, c1, clip, p, before) != before ==> clip.Contains(p)
    ensures DotOrCirclePixel(center, radius, c1, c2, clip, p, before) != before ==> clip.Contains(p)
    ensures LinePixel(from, to, c1, clip, p, before) != before ==> clip.Contains(p)
  {
  }

  /** A zero-size clip makes every primitive a no-op. */
  lemma ZeroSizeClipIsNoOp(center: Pos, radius: nat, from: Pos, to: Pos, c1: Color, c2: Color, clip: Rect,
                           p: Pos, before: Color)
    requires clip.IsZeroSize()
    ensures DotPixel(center, c1, clip, p, before) == before
    ensures DotOrCirclePixel(center, radius, c1, c2, clip, p, before) == before
    ensures LinePixel(from, to, c1, clip, p, before) == before
  {
    ZeroSizeIffEmpty(clip);
  }
}
