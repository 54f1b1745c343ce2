/** The integer rasterizers of pyterm/draw.py: rectangles and circles, each
    painted with `put_pixel` over nested loops. */
module Drawing {
  import opened Common
  import opened Surface

  /** Whether `rect` paints the cell at offset (x, y) of a `w x h` box with
      border `width` (0 fills the box). */
  predicate RectCell(x: int, y: int, w: int, h: int, width: int)
  {
    && 0 <= x < w && 0 <= y < h
    && (width == 0 || x < width || x >= w - width || y < width || y >= h - width)
  }

  /** `rect(surface, color, (p1, p2, w, h), width)`: every painted cell set
      to `color` (deleted for None), every other pixel kept. */
  method DrawRect(surface: Image, color: Option<RGB>, rectangle: (int, int, int, int), width: int)
    modifies surface`pixels
    ensures forall q :: surface.GetPixel(q)
                        == if RectCell(q.0 - rectangle.0, q.1 - rectangle.1, rectangle.2, rectangle.3, width)
                           then color else Get(old(surface.pixels), q)
  {
    var (pos1, pos2, w, h) := rectangle;
    var x := 0;
    while x < w
      invariant 0 <= x <= Max0(w)
      invariant forall q :: Get(surface.pixels, q)
                            == if RectCell(q.0 - pos1, q.1 - pos2, w, h, width) && q.0 - pos1 < x
                               then color else Get(old(surface.pixels), q)
    {
      ghost var before := surface.pixels;
      DrawRectColumn(surface, color, rectangle, width, x);
      forall q ensures Get(surface.pixels, q)
                       == if RectCell(q.0 - pos1, q.1 - pos2, w, h, width) && q.0 - pos1 < x + 1
                          then color else Get(old(surface.pixels), q)
      {
        if q.0 - pos1 != x {
          assert Get(surface.pixels, q) == Get(before, q);
        }
      }
      x := x + 1;
    }
  }

  /** The inner loop of `rect`: column `x` of the box. */
  method DrawRectColumn(surface: Image, color: Option<RGB>, rectangle: (int, int, int, int), width: int, x: int)
    requires 0 <= x < rectangle.2
    modifies surface`pixels
    ensures forall q :: Get(surface.pixels, q)
                        == if q.0 - rectangle.0 == x && RectCell(x, q.1 - rectangle.1, rectangle.2, rectangle.3, width)
                           then color else Get(old(surface.pixels), q)
  {
    var (pos1, pos2, w, h) := rectangle;
    var y := 0;
    while y < h
      invariant 0 <= y <= Max0(h)
      invariant forall q :: Get(surface.pixels, q)
                            == if q.0 - pos1 == x && RectCell(x, q.1 - pos2, w, h, width) && q.1 - pos2 < y
                               then color else Get(old(surface.pixels), q)
    {
      ghost var before := surface.pixels;
      if width == 0 {
        surface.PutPixel((pos1 + x, pos2 + y), color);
      } else if x < width || x >= w - width {
        surface.PutPixel((pos1 + x, pos2 + y), color);
      } else if y < width || y >= h - width {
        surface.PutPixel((pos1 + x, pos2 + y), color);
      }
      assert surface.pixels == if RectCell(x, y, w, h, width) then Put(before, (pos1 + x, pos2 + y), color) else before;
      forall q ensures Get(surface.pixels, q)
                       == if q.0 - pos1 == x && RectCell(x, q.1 - pos2, w, h, width) && q.1 - pos2 < y + 1
                          then color else Get(old(surface.pixels), q)
      {
        if q != (pos1 + x, pos2 + y) {
          assert Get(surface.pixels, q) == Get(before, q);
        }
      }
      y := y + 1;
    }
  }

  /** A border at least half as thick as the box fills the whole box; a
      filled or bordered rectangle of non-positive size paints nothing. */
  lemma RectThickBorderFills(x: int, y: int, w: int, h: int, width: int)
    ensures 0 < w <= 2 * width && 0 <= x < w && 0 <= y < h ==> RectCell(x, y, w, h, width)
    ensures w <= 0 || h <= 0 ==> !RectCell(x, y, w, h, width)
  {
  }

  /** For a positive border the unpainted cells are exactly the interior
      `[width, w - width) x [width, h - width)`. */
  lemma RectInterior(x: int, y: int, w: int, h: int, width: int)
    requires width > 0 && 0 <= x < w && 0 <= y < h
    ensures !RectCell(x, y, w, h, width) <==> width <= x < w - width && width <= y < h - width
  {
  }

  function Square(n: int): int { n * n }

  /** Whether `circle` paints offset (dx, dy) for the given radius and ring
      width: inside the loop square, and inside the disk (width 0) or the
      ring `(radius - width)^2 <= d <= radius^2`. */
  predicate CircleCell(dx: int, dy: int, radius: int, width: int)
  {
    var d := Square(dx) + Square(dy);
    && -radius <= dx <= radius && -radius <= dy <= radius
    && ((d <= Square(radius) && width == 0) || Square(radius) >= d >= Square(radius - width))
  }

  /** `circle(surface, color, (x, y), radius, width)`, column by column. */
  method DrawCircle(surface: Image, color: Option<RGB>, position: Pos, radius: int, width: int)
    modifies surface`pixels
    ensures forall q :: surface.GetPixel(q)
                        == if CircleCell(q.0 - position.0, q.1 - position.1, radius, width)
                           then color else Get(old(surface.pixels), q)
  {
    var dx := -radius;
    while dx < radius + 1
      invariant -radius <= dx && (radius >= 0 ==> dx <= radius + 1)
      invariant forall q :: Get(surface.pixels, q)
                            == if CircleCell(q.0 - position.0, q.1 - position.1, radius, width) && q.0 - position.0 < dx
                               then color else Get(old(surface.pixels), q)
    {
      ghost var before := surface.pixels;
      DrawCircleColumn(surface, color, position, radius, width, dx);
      forall q ensures Get(surface.pixels, q)
                       == if CircleCell(q.0 - position.0, q.1 - position.1, radius, width) && q.0 - position.0 < dx + 1
                          then color else Get(old(surface.pixels), q)
      {
        if q.0 - position.0 != dx {
          assert Get(surface.pixels, q) == Get(before, q);
        }
      }
      dx := dx + 1;
    }
    forall q ensures surface.GetPixel(q)
                     == if CircleCell(q.0 - position.0, q.1 - position.1, radius, width)
                        then color else Get(old(surface.pixels), q)
    {
      if CircleCell(q.0 - position.0, q.1 - position.1, radius, width) {
        assert q.0 - position.0 <= radius;
      }
    }
  }

  /** The inner loop of `circle`: column `dx` of the loop square. */
  method DrawCircleColumn(surface: Image, color: Option<RGB>, position: Pos, radius: int, width: int, dx: int)
    requires -radius <= dx <= radius
    modifies surface`pixels
    ensures forall q :: Get(surface.pixels, q)
                        == if q.0 - position.0 == dx && CircleCell(dx, q.1 - position.1, radius, width)
                           then color else Get(old(surface.pixels), q)
  {
    var (x, y) := position;
    var dy := -radius;
    while dy < radius + 1
      invariant -radius <= dy <= radius + 1
      invariant forall q :: Get(surface.pixels, q)
                            == if q.0 - x == dx && CircleCell(dx, q.1 - y, radius, width) && q.1 - y < dy
                               then color else Get(old(surface.pixels), q)
    {
      ghost var before := surface.pixels;
      if Square(dx) + Square(dy) <= Square(radius) && width == 0 {
        surface.PutPixel((x + dx, y + dy), color);
      } else if Square(radius) >= Square(dx) + Square(dy) >= Square(radius - width) {
        surface.PutPixel((x + dx, y + dy), color);
      }
      assert surface.pixels
          == if CircleCell(dx, dy, radius, width) then Put(before, (x + dx, y + dy), color) else before;
      forall q ensures Get(surface.pixels, q)
                       == if q.0 - x == dx && CircleCell(dx, q.1 - y, radius, width) && q.1 - y < dy + 1
                          then color else Get(old(surface.pixels), q)
      {
        if q != (x + dx, y + dy) {
          assert Get(surface.pixels, q) == Get(before, q);
        }
      }
      dy := dy + 1;
    }
  }

  lemma SquareLess(b: int, a: int)
    requires 0 <= b < a
    ensures Square(b) < Square(a)
  {
    assert b * b <= a * b;
    assert a * b < a * a;
  }

  /** A square no larger than `r^2` has its root within `[-r, r]`. */
  lemma SquareBound(a: int, r: int)
    requires r >= 0
    ensures Square(a) <= Square(r) ==> -r <= a <= r
  {
    if a > r {
      SquareLess(r, a);
    } else if a < -r {
      SquareLess(r, -a);
    }
  }

  /** With width 0 the painted cells are exactly the closed disk. */
  lemma DiskExact(dx: int, dy: int, radius: int)
    requires radius >= 0
    ensures CircleCell(dx, dy, radius, 0) <==> Square(dx) + Square(dy) <= Square(radius)
  {
    if Square(dx) + Square(dy) <= Square(radius) {
      assert Square(dx) >= 0 && Square(dy) >= 0;
      SquareBound(dx, radius);
      SquareBound(dy, radius);
    }
  }

  /** With a positive width the painted cells are exactly the closed ring. */
  lemma RingExact(dx: int, dy: int, radius: int, width: int)
    requires radius >= 0 && width > 0
    ensures CircleCell(dx, dy, radius, width)
        <==> Square(radius - width) <= Square(dx) + Square(dy) <= Square(radius)
  {
    if Square(dx) + Square(dy) <= Square(radius) {
      assert Square(dx) >= 0 && Square(dy) >= 0;
      SquareBound(dx, radius);
      SquareBound(dy, radius);
    }
  }
}
