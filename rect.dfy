/** Axis-aligned rectangles with anchor-based positioning (pyterm/rect.py).
    Setting an anchor moves the rectangle: it assigns `x` and `y` only. */
module Geometry {
  import opened Common

  class Rect {
    var x: int
    var y: int
    var width: int
    var height: int

    constructor (x: int, y: int, width: int, height: int)
      ensures this.x == x && this.y == y && this.width == width && this.height == height
    {
      this.x := x;
      this.y := y;
      this.width := width;
      this.height := height;
    }

    function ToTuple(): (int, int, int, int)
      reads this
    {
      (x, y, width, height)
    }

    function TopLeft(): Pos
      reads this
    {
      (x, y)
    }

    function TopRight(): Pos
      reads this
    {
      (x + width, y)
    }

    function BottomLeft(): Pos
      reads this
    {
      (x, y + height)
    }

    function BottomRight(): Pos
      reads this
    {
      (x + width, y + height)
    }

    /** `//` in the source; for the positive divisor 2 Dafny's `/` agrees. */
    function Center(): Pos
      reads this
    {
      (x + width / 2, y + height / 2)
    }

    method SetTopLeft(v: Pos)
      modifies this`x, this`y
      ensures TopLeft() == v
      ensures width == old(width) && height == old(height)
    {
      x, y := v.0, v.1;
    }

    method SetTopRight(v: Pos)
      modifies this`x, this`y
      ensures x == v.0 - width && y == v.1
      ensures TopRight() == v
      ensures width == old(width) && height == old(height)
    {
      x, y := v.0 - width, v.1;
    }

    /** Kept as the source has it: the x offset subtracts the HEIGHT and y is
        taken unchanged, so the new bottom-left corner is `v` only when the
        height is zero. */
    method SetBottomLeft(v: Pos)
      modifies this`x, this`y
      ensures x == v.0 - height && y == v.1
      ensures BottomLeft() == (v.0 - height, v.1 + height)
      ensures BottomLeft() == v <==> height == 0
      ensures width == old(width) && height == old(height)
    {
      x, y := v.0 - height, v.1;
    }

    method SetBottomRight(v: Pos)
      modifies this`x, this`y
      ensures x == v.0 - width && y == v.1 - height
      ensures BottomRight() == v
      ensures width == old(width) && height == old(height)
    {
      x, y := v.0 - width, v.1 - height;
    }

    method SetCenter(v: Pos)
      modifies this`x, this`y
      ensures x == v.0 - width / 2 && y == v.1 - height / 2
      ensures Center() == v
      ensures width == old(width) && height == old(height)
    {
      x, y := v.0 - width / 2, v.1 - height / 2;
    }

    predicate CollideRect(other: Rect)
      reads this, other
    {
      && x < other.x + other.width
      && x + width > other.x
      && y < other.y + other.height
      && y + height > other.y
    }

    /** Half-open containment: the left and top edges are inside, the right
        and bottom edges are not. */
    predicate CollidePoint(p: Pos)
      reads this
    {
      x <= p.0 < x + width && y <= p.1 < y + height
    }

    /** `any(self.collidepoint(p) for p in points)`. */
    predicate CollidePoints(points: seq<Pos>)
      reads this
      decreases |points|
    {
      |points| > 0 && (CollidePoint(points[0]) || CollidePoints(points[1..]))
    }

    method Copy() returns (r: Rect)
      ensures fresh(r)
      ensures r.ToTuple() == ToTuple()
    {
      r := new Rect(x, y, width, height);
    }
  }

  /** `colliderect` does not depend on which rectangle asks. */
  lemma CollideRectSymmetric(a: Rect, b: Rect)
    ensures a.CollideRect(b) == b.CollideRect(a)
  {
  }

  /** For rectangles of positive size, `colliderect` holds exactly when the
      two rectangles share a point in the sense of `collidepoint`. */
  lemma CollideRectSharesPoint(a: Rect, b: Rect)
    requires a.width > 0 && a.height > 0 && b.width > 0 && b.height > 0
    ensures a.CollideRect(b) <==> exists p :: a.CollidePoint(p) && b.CollidePoint(p)
  {
    if a.CollideRect(b) {
      var p := (if a.x <= b.x then b.x else a.x, if a.y <= b.y then b.y else a.y);
      assert a.CollidePoint(p) && b.CollidePoint(p);
    }
  }

  /** `collidepoints` holds exactly when some listed point collides; in
      particular it is false on an empty list. */
  lemma {:induction false} CollidePointsAny(r: Rect, points: seq<Pos>)
    ensures r.CollidePoints(points) <==> exists i :: 0 <= i < |points| && r.CollidePoint(points[i])
    decreases |points|
  {
    if |points| > 0 {
      CollidePointsAny(r, points[1..]);
      if r.CollidePoints(points[1..]) {
        var i :| 0 <= i < |points| - 1 && r.CollidePoint(points[1..][i]);
        assert r.CollidePoint(points[i + 1]);
      }
      if exists i :: 0 <= i < |points| && r.CollidePoint(points[i]) {
        var i :| 0 <= i < |points| && r.CollidePoint(points[i]);
        if i > 0 {
          assert r.CollidePoint(points[1..][i - 1]);
        }
      }
    }
  }
}
