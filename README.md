# verle rasterizer, modelled in Dafny

This project models the clipping rasterizer of verle. It covers four parts of the source:

- `Pos` and `Size`, the integer value types;
- `Rect`, the half-open rectangle with validated construction;
- `&a & &b`, the intersection that clips every drawing call;
- `Canvas`, a height-by-width grid of packed `u32` pixels with a fixed global rectangle.

`Canvas` offers three drawing primitives, each in a whole-canvas form and in a rectangle-scoped form:

- a dot;
- a line, drawn by Zingl's integer Bresenham walk with a same-side early rejection;
- a circle with fill and outline colours, whose pixels are classified by the thresholds `r² − r` and `r² + r`.

Modules, one per source file, plus `Wrappers`, which is shared, and `Raster`, the pure specifications behind `Canvases`:

- `Wrappers`: `Option` and `Result`.
- `Positions` (src/pos.rs), `Sizes` (src/size.rs) and `Rects` (src/rect.rs): datatypes and functions, since the source is pure there.
- `Raster`: pure specifications of what each primitive does to one pixel.
  - `DotPixel`, `CirclePixel`, `DotOrCirclePixel` and `LinePixel`.
  - The line walk as a function: `Advance` is one pass of the loop body, `WalkFrom` and `LineWalk` give the whole walk.
  - `Reaches`, the trace predicate that connects the imperative loop to `WalkFrom`.
  - The lemmas about all of these.
- `Canvases`: class `Canvas`.
  - It holds `buffer: array2<Color>`, indexed `[y, x]`, and `globalRect`.
  - Every drawing method modifies `buffer` in place.
  - Each method's postcondition gives the new value of every pixel as the matching `Raster` function of its old value.

Coordinates are unbounded signed integers, and sizes and radii are natural numbers. The source snapshot mixes `i32` positions (src/pos.rs:5-6) with `u32` rectangle accessors and `UVec2` arithmetic (src/rect.rs:45, 70-87, 121). The model follows the signed reading everywhere. Under it, the `as usize` indexing in canvas.rs is always in range: every write is guarded by a clip rectangle that lies inside the buffer's bounds, and the inner methods require exactly that (`rect.Inside(Bounds(buffer))`).

## Model

| member | source | states |
|---|---|---|
| Wrappers.Result.ToOption | src/rect.rs:126 | `Result::ok`: `Some` exactly for `Ok`, carrying its value |
| Positions.Pos.New | src/pos.rs:10-13 | `Pos::new(x, y)` has exactly the fields `x` and `y` |
| Positions.Pos.Default | src/pos.rs:3 | the derived default position is the origin |
| Positions.Pos.ToIVec2 | src/pos.rs:16-21 | converting to `IVec2` keeps both components |
| Positions.Pos.FromIVec2 | src/pos.rs:23-28 | converting from `IVec2` keeps both components |
| Positions.IVec2RoundTrip | src/pos.rs:16-28 | both conversion round trips are the identity |
| Sizes.Size.New | src/size.rs:10-13 | `Size::new(w, h)` has width `w` and height `h` |
| Sizes.Size.Default | src/size.rs:3 | the derived default size is zero by zero |
| Sizes.Size.ToUVec2 | src/size.rs:16-21 | converting to `UVec2` maps width to x and height to y |
| Sizes.Size.FromUVec2 | src/size.rs:23-28 | converting from `UVec2` maps x to width and y to height |
| Sizes.UVec2RoundTrip | src/size.rs:16-28 | both conversion round trips are the identity |
| Rects.Rect.TryNew | src/rect.rs:16-39 | succeeds iff the corners are ordered on both axes, storing them unchanged; otherwise the error names X when x is inverted (even if y is too), else Y, with `lower` the top-left and `higher` the bottom-right coordinate |
| Rects.Rect.New | src/rect.rs:42-47 | the result is valid, keeps the top-left corner, and has width, height and size equal to the given size |
| Rects.Rect.Default | src/rect.rs:8 | the derived default rectangle has both corners at the origin and is zero-size |
| Rects.Rect.Width | src/rect.rs:89-92 | the width is non-negative and left plus width is right |
| Rects.Rect.Height | src/rect.rs:94-97 | the height is non-negative and top plus height is bottom |
| Rects.Rect.Size | src/rect.rs:99-102 | the size holds the width and the height |
| Rects.Rect.Left | src/rect.rs:69-72 | the `x` of the top-left corner; its meaning for membership is stated by Rects.CornerMembership and Rects.ZeroSizeIffNoExtent |
| Rects.Rect.Right | src/rect.rs:74-77 | the `x` of the bottom-right corner, the exclusive right edge (Rects.CornerMembership) |
| Rects.Rect.Top | src/rect.rs:79-82 | the `y` of the top-left corner (Rects.CornerMembership) |
| Rects.Rect.Bottom | src/rect.rs:84-87 | the `y` of the bottom-right corner, the exclusive bottom edge (Rects.CornerMembership) |
| Rects.Rect.TopRight | src/rect.rs:59-62 | the corner `(right, top)`, never contained (Rects.CornerMembership) |
| Rects.Rect.BottomLeft | src/rect.rs:64-67 | the corner `(left, bottom)`, never contained (Rects.CornerMembership) |
| Rects.Rect.IsZeroSize | src/rect.rs:104-107 | a rectangle that is not zero-size is valid with positive width and height; zero-size iff it contains no position (Rects.ZeroSizeIffEmpty) |
| Rects.Rect.Contains | src/rect.rs:109-112 | a rectangle that contains a position is valid and not zero-size, and the position is not the bottom-right corner; the half-open ranges are pinned down by Rects.CornerMembership and Rects.ContainsExamples |
| Rects.Intersect | src/rect.rs:115-128 | `None` iff max(lefts) > min(rights) or max(tops) > min(bottoms); a result is valid and inside both operands, and it contains a position iff both operands do |
| Rects.ZeroSizeIffEmpty | src/rect.rs:104-112 | a rectangle is zero-size iff it contains no position |
| Rects.ZeroSizeIffNoExtent | src/rect.rs:104-107 | for a valid rectangle, zero-size iff left == right or top == bottom, i.e. width or height is zero |
| Rects.CornerMembership | src/rect.rs:109-112 | the top-left corner is inside iff the rectangle is not zero-size; the bottom-right, top-right and bottom-left corners never are |
| Rects.NewSizeRoundTrip | src/rect.rs:42-47 | `new(r.top_left, r.size()) == r` for a valid `r`, and `new(p, s).size() == s` |
| Rects.IntersectCommutative | src/rect.rs:118-127 | `a & b == b & a` |
| Rects.IntersectIdempotent | src/rect.rs:118-127 | `a & a == Some(a)` for a valid `a` |
| Rects.IntersectTouching | src/rect.rs:118-127 | rectangles meeting only at an edge or corner intersect in `Some` zero-size rectangle and share no position |
| Rects.IntersectDisjoint | src/rect.rs:118-127 | valid rectangles with a positive gap on some axis intersect in `None` |
| Rects.ConstructionExamples | src/rect.rs:165-223 | the construction tests: ordered corners succeed; X, Y and X-before-Y errors carry the expected values, including (5,0)–(2,4) giving X with 5 and 2; `new((1,2),(3,4))` has bottom-right corner (4,6) |
| Rects.OverlapExample | src/rect.rs:268-277 | the `intersection` test: the overlap is (3,2)–(4,3) and is not zero-size |
| Rects.DisjointExample | src/rect.rs:279-284 | the `empty_intersection` test: `None` |
| Rects.CornerTouchExample | src/rect.rs:286-295 | the `zero_size_intersection_in_dot` test: a zero-size rectangle at (2,2) |
| Rects.EdgeTouchExample | src/rect.rs:297-306 | the `zero_size_intersection_in_line` test: a zero-size rectangle (1,2)–(2,2) |
| Rects.ContainsExamples | src/rect.rs:416-446 | the `contains` tests: inside, outside, the bottom-right corner excluded, the default rectangle empty |
| Raster.AbsDiff | src/canvas.rs:182 | `abs_diff`: the non-negative distance `d` with `min + d == max` |
| Raster.Line.Dx | src/canvas.rs:182 | `dx = abs(to.x − from.x)`; with `Dy` it gives the error's closed form used by Raster.XBreakUnreachable and Raster.InnerBreaksUnreachable |
| Raster.Line.Dy | src/canvas.rs:184 | `dy = −abs(to.y − from.y)` (Raster.YBreakUnreachable, Raster.InnerBreaksUnreachable) |
| Raster.Line.Sx | src/canvas.rs:183 | x steps up iff `from.x < to.x`; Raster.Advance proves each step moves toward `to` |
| Raster.Line.Sy | src/canvas.rs:185 | y steps up iff `from.y < to.y` (Raster.Advance) |
| Raster.Classify | src/canvas.rs:125-130 | the fill/outline/untouched choice; Raster.ClassifyBands proves the three bands for r > 0 |
| Raster.Clamp | src/canvas.rs:107 | `clamp` lands in `[lo, hi]`, keeps values already there, and maps values below or above to the nearer bound |
| Raster.DotCorners | src/canvas.rs:149-153 | a dot on the clip's bottom-right corner never writes; a dot on its top-left corner writes unless the clip is zero-size |
| Raster.ClassifyBands | src/canvas.rs:125-130 | for r > 0: fill iff d ≤ r² − r, outline iff r² − r < d < r² + r, untouched iff d ≥ r² + r |
| Raster.RadiusZeroIsDot | src/canvas.rs:77-78 | radius 0 changes only the center pixel, to the outline colour whatever the fill colour, and only if the clip holds it |
| Raster.CircleExample | src/canvas.rs:119-133 | center (10,10), radius 5: (10,10) is fill, (15,10) is outline, (16,10) is untouched |
| Raster.ScanMissesNothing | src/canvas.rs:107-117 | every clip pixel with d < r² + r lies within both clamped scan ranges |
| Raster.Advance | src/canvas.rs:191-216 | one pass after the dot: stops at `to`; a step stays in the bounding box, moves each coordinate by at most one toward `to` (at least one moves), and gets strictly closer to `to` |
| Raster.WalkFrom | src/canvas.rs:189-217 | the walk from a state is non-empty and begins with that state's position |
| Raster.WalkShape | src/canvas.rs:194-216 | every walked position is in the bounding box, and consecutive positions are one step apart |
| Raster.ReachesExtend | src/canvas.rs:189-217 | one more pass of the loop extends the plotted trace by the position it plots |
| Raster.ReachesWalk | src/canvas.rs:189-217 | when the loop breaks, the positions plotted so far are exactly the walk |
| Raster.ReachesNext | src/canvas.rs:189-217 | after one pass, either the loop breaks and the trace is `LineWalk(from, to)`, or the trace reaches the next in-box state |
| Raster.XBreakUnreachable | src/canvas.rs:195-198 | with the error in Zingl's closed form, the x-side break cannot fire while y has not arrived |
| Raster.YBreakUnreachable | src/canvas.rs:206-209 | symmetrically, the y-side break cannot fire while x has not arrived |
| Raster.ErrorStep | src/canvas.rs:199-210 | each x step adds `dy` and each y step adds `dx`, keeping the closed form of the error |
| Raster.InnerBreaksUnreachable | src/canvas.rs:194-216 | short of `to`, a pass always steps and keeps the error invariant |
| Raster.WalkEndsAtTarget | src/canvas.rs:189-217 | the walk ends exactly at `to` |
| Raster.MajorStep | src/canvas.rs:194-216 | short of `to`, a pass always steps along the major axis (x when abs Δx ≥ abs Δy, else y) and keeps the error within half the major extent of its start |
| Raster.WalkLength | src/canvas.rs:188-217 | from any reachable state the walk has one position per remaining unit along the major axis, plus the last |
| Raster.LineWalkLength | src/canvas.rs:182-217 | the line is one pixel wide: the walk has exactly max(abs Δx, abs Δy) + 1 positions |
| Raster.LineWalk | src/canvas.rs:182-217 | the plotted sequence starts at `from` and ends at `to` |
| Raster.LineWalkShape | src/canvas.rs:182-217 | the whole walk stays in the bounding box of `from` and `to`, one step at a time |
| Raster.DiagonalExample | src/canvas.rs:182-217 | (0,0)→(3,3) visits exactly (0,0), (1,1), (2,2), (3,3) |
| Raster.HorizontalExample | src/canvas.rs:182-217 | (0,0)→(4,0) visits exactly (0,0) … (4,0) |
| Raster.RejectedEarly | src/canvas.rs:174-178 | the same-side early return; Raster.EarlyRejectionSound proves that when it fires no walked position is in the clip |
| Raster.EarlyRejectionSound | src/canvas.rs:174-181 | when the early return fires, no walked position lies in the clip, so skipping the walk loses nothing |
| Raster.WritesStayInClip | src/canvas.rs:150-151 | dot, dot-or-circle and line change no pixel outside their clip |
| Raster.ZeroSizeClipIsNoOp | src/canvas.rs:74-76 | with a zero-size clip, dot, dot-or-circle and line change nothing |
| Canvases.Bounds | src/canvas.rs:18 | the buffer's bounds are valid and contain exactly the in-range `(x, y)` |
| Canvases.Canvas.constructor | src/canvas.rs:15-20 | `height` rows of `width` columns, every pixel the default colour, global rectangle `new((0,0), size)` |
| Canvases.Canvas.Flush | src/canvas.rs:23-30 | the flushed sequence has `height * width` pixels |
| Canvases.Canvas.FlushRowMajor | src/canvas.rs:28 | pixel `(x, y)` is at index `y * width + x` of the flushed sequence |
| Canvases.Canvas.FlushUniform | src/canvas.rs:28 | a canvas whose pixels all hold one colour, such as a new one, flushes to that colour throughout |
| Canvases.Canvas.DrawDotInRectInner | src/canvas.rs:148-153 | sets `(pos.y, pos.x)` to the colour iff the clip contains `pos`; every other pixel is unchanged |
| Canvases.Canvas.DrawDot | src/canvas.rs:136-139 | a dot clipped to the global rectangle |
| Canvases.Canvas.DrawDotInRect | src/canvas.rs:141-146 | nothing if the clip misses the canvas, else a dot clipped to their intersection |
| Canvases.Canvas.DrawCircleInRectInner | src/canvas.rs:91-134 | after the nested scan, every pixel is as `CirclePixel` says: fill, outline or unchanged by squared distance, inside the clip only |
| Canvases.Canvas.DrawDotOrCircleInRectInner | src/canvas.rs:65-89 | nothing through a zero-size clip, an outline-coloured dot for radius 0, otherwise the circle |
| Canvases.Canvas.DrawCircle | src/canvas.rs:32-42 | a circle clipped to the global rectangle |
| Canvases.Canvas.DrawCircleInRect | src/canvas.rs:44-63 | nothing if the clip misses the canvas, else a circle clipped to their intersection |
| Canvases.Canvas.LineStep | src/canvas.rs:191-216 | the loop body after the dot stops exactly where `Advance` ends the walk, and otherwise produces `Advance`'s next state, closer to `to` |
| Canvases.Canvas.PlotLine | src/canvas.rs:182-217 | after the loop, exactly the walked positions inside the clip hold the colour; every other pixel is unchanged |
| Canvases.Canvas.DrawLineInRectInner | src/canvas.rs:167-218 | with the early return, every pixel is as `LinePixel` says: walked and inside the clip, or unchanged |
| Canvases.Canvas.DrawLine | src/canvas.rs:155-158 | a line clipped to the global rectangle |
| Canvases.Canvas.DrawLineInRect | src/canvas.rs:160-165 | nothing if the clip misses the canvas, else a line clipped to their intersection |

## Left out

- src/main.rs: the winit window, event loop and softbuffer surface. This is I/O, not part of the rasterizer.
- src/lib.rs: module declarations and re-exports only. The colour constants module is not part of this model.
- Canvases.Canvas.Flush: returns the row-major sequence rather than copying it into a `softbuffer::Buffer`. The `InvalidBufferLayout` error is not modelled. It can only arise from a non-contiguous `ndarray` layout, and the canvas always allocates its buffer in standard layout.
- `Display` for `Dimension` and the `thiserror` messages of `rect::Error` and `canvas::Error` are not modelled. They are string formatting only.
- Machine integers: the model does not reproduce `i32`/`u32` overflow, wrap-around or the `as i32`/`as u32`/`as usize` casts. This covers the `UVec2` addition in `Rect::new`, `radius * radius`, and the pixel indexing. Coordinates are unbounded `int`, sizes and radii `nat`, and colours a `u32` newtype that the model never inspects.
- Rects.Rect.New: computes `top_left + size` in signed arithmetic. It does not model the detour through `UVec2` (src/rect.rs:45), which assumes non-negative corners.
- Rects.Intersect: takes componentwise max/min of signed coordinates. It does not model the source's conversion through `UVec2`, which differs only for negative coordinates.
- Canvases.Canvas.DrawCircleInRectInner: `debug_assert!(radius != 0)` and `debug_assert!(!rect.is_zero_size())` are preconditions here, not runtime checks.
- Canvases.Canvas.LineStep and Canvases.Canvas.PlotLine: the loop of `draw_line_in_rect_inner` is split in two. The body after the dot is its own method, and the loop is a method apart from the early return. Each `break` (src/canvas.rs:191-193, 196-198, 207-209) becomes `stop := true`, the y step is guarded by `!stop`, and the next state starts as a copy of the current one; the computations and their order are unchanged.
- The source has no checked conversion between signed positions and unsigned sizes, and no error for one; none is modelled.
