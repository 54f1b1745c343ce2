/** `flip` from pyterm/transform.py. */
module Transform {
  import opened Common
  import opened Surface

  predicate InBox(p: Pos, size: Pos)
  {
    0 <= p.0 < size.0 && 0 <= p.1 < size.1
  }

  /** Where `flip` moves the pixel at `p`. */
  function FlipPos(p: Pos, size: Pos, flipX: bool, flipY: bool): (r: Pos)
    ensures InBox(p, size) ==> InBox(r, size)
  {
    (if flipX then size.0 - 1 - p.0 else p.0, if flipY then size.1 - 1 - p.1 else p.1)
  }

  /** Flipping a position twice with the same flags gives it back. */
  lemma FlipPosInvolution(p: Pos, size: Pos, flipX: bool, flipY: bool)
    ensures FlipPos(FlipPos(p, size, flipX, flipY), size, flipX, flipY) == p
  {
  }

  /** The pixel a flipped copy of `src` holds at `q`: the source pixel that
      lands there; nothing outside `[0,w) x [0,h)`. */
  function Flipped(src: map<Pos, RGB>, size: Pos, flipX: bool, flipY: bool, q: Pos): Option<RGB>
  {
    if InBox(q, size) then Get(src, FlipPos(q, size, flipX, flipY)) else None
  }

  /** `flip(surface, flip_x, flip_y)`: a new image of the same size holding
      the in-box pixels moved by `FlipPos`. */
  method Flip(surface: Image, flipX: bool, flipY: bool) returns (img: Image)
    ensures fresh(img) && img.size == surface.size
    ensures forall q :: img.GetPixel(q) == Flipped(surface.pixels, surface.size, flipX, flipY, q)
  {
    img := new Image(surface.size);
    var x := 0;
    while x < surface.Width()
      invariant 0 <= x <= Max0(surface.Width())
      invariant fresh(img) && img.size == surface.size
      invariant forall q :: Get(img.pixels, q)
                            == var p := FlipPos(q, surface.size, flipX, flipY);
                               if InBox(q, surface.size) && p.0 < x then Get(surface.pixels, p) else None
    {
      ghost var before := img.pixels;
      FlipColumn(surface, img, flipX, flipY, x);
      forall q ensures Get(img.pixels, q)
                       == var p := FlipPos(q, surface.size, flipX, flipY);
                          if InBox(q, surface.size) && p.0 < x + 1 then Get(surface.pixels, p) else None
      {
        var p := FlipPos(q, surface.size, flipX, flipY);
        if !(InBox(q, surface.size) && p.0 == x) {
          assert Get(img.pixels, q) == Get(before, q);
        }
      }
      x := x + 1;
    }
    forall q ensures img.GetPixel(q) == Flipped(surface.pixels, surface.size, flipX, flipY, q) {
      if InBox(q, surface.size) {
        assert InBox(FlipPos(q, surface.size, flipX, flipY), surface.size);
      }
    }
  }

  /** The inner loop of `flip`: source column `x` moved into `img`. */
  method FlipColumn(surface: Image, img: Image, flipX: bool, flipY: bool, x: int)
    requires img != surface && img.size == surface.size && 0 <= x < surface.Width()
    modifies img`pixels
    ensures forall q :: Get(img.pixels, q)
                        == var p := FlipPos(q, surface.size, flipX, flipY);
                           if InBox(q, surface.size) && p.0 == x then Get(surface.pixels, p)
                           else Get(old(img.pixels), q)
  {
    var w, h := surface.Width(), surface.Height();
    var y := 0;
    while y < h
      invariant 0 <= y <= Max0(h)
      invariant forall q :: Get(img.pixels, q)
                            == var p := FlipPos(q, surface.size, flipX, flipY);
                               if InBox(q, surface.size) && p.0 == x && p.1 < y then Get(surface.pixels, p)
                               else Get(old(img.pixels), q)
    {
      ghost var before := img.pixels;
      var newX := if !flipX then x else w - 1 - x;
      var newY := if !flipY then y else h - 1 - y;
      img.PutPixel((newX, newY), surface.GetPixel((x, y)));
      FlipPosInvolution((x, y), surface.size, flipX, flipY);
      forall q ensures Get(img.pixels, q)
                       == var p := FlipPos(q, surface.size, flipX, flipY);
                          if InBox(q, surface.size) && p.0 == x && p.1 < y + 1 then Get(surface.pixels, p)
                          else Get(old(img.pixels), q)
      {
        if q != (newX, newY) {
          assert Get(img.pixels, q) == Get(before, q);
        }
      }
      y := y + 1;
    }
  }

  /** Flipping twice with the same flags restores the source restricted to
      `[0,w) x [0,h)`. */
  lemma FlipTwice(src: map<Pos, RGB>, once: map<Pos, RGB>, size: Pos, flipX: bool, flipY: bool)
    requires forall q :: Get(once, q) == Flipped(src, size, flipX, flipY, q)
    ensures forall q :: Flipped(once, size, flipX, flipY, q) == if InBox(q, size) then Get(src, q) else None
  {
    forall q ensures Flipped(once, size, flipX, flipY, q) == if InBox(q, size) then Get(src, q) else None {
      if InBox(q, size) {
        var p := FlipPos(q, size, flipX, flipY);
        assert Get(once, p) == Flipped(src, size, flipX, flipY, p);
        FlipPosInvolution(q, size, flipX, flipY);
      }
    }
  }
}
