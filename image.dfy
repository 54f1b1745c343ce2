/** The pixel surface (pyterm/image.py): a logical size and a sparse map from
    coordinates to colours. Absence of a key means "unset", not black. */
module Surface {
  import opened Common
  import opened Compositor
  import opened Geometry

  /** Inclusive blit mask: a source pixel at `p` is copied only when
      `0 <= p.x <= width` and `0 <= p.y <= height` of the source. */
  predicate InBlitMask(p: Pos, size: Pos)
  {
    0 <= p.0 <= size.0 && 0 <= p.1 <= size.1
  }

  /** The colour at `q` after blitting `src` (of size `srcSize`) onto `dst`
      at offset `dest`: the source pixel at `q - dest` when it is set and inside
      the mask, otherwise whatever `dst` had. */
  function BlitAt(dst: map<Pos, RGB>, src: map<Pos, RGB>, srcSize: Pos, dest: Pos, q: Pos): Option<RGB>
  {
    var p := (q.0 - dest.0, q.1 - dest.1);
    if p in src && InBlitMask(p, srcSize) then Some(src[p]) else Get(dst, q)
  }

  /** The token stream `__to_string` stores for an image of the given size:
      every scratch row pair `i, i + 1` for `i = 0, 2, ... < h`, each row of
      `w + 1` half-block cells. */
  function ImageFrame(pixels: map<Pos, RGB>, size: Pos): seq<Token>
  {
    Frame(Scratch(pixels, size.0, size.1), Max0(size.1 + 1) - 1, Max0(size.0 + 1), map[])
  }

  /** The rows of `ImageFrame` before they are joined by newlines: one per
      index of `range(0, h, 2)`, so none for a height of 0 or less. */
  function ImageRows(pixels: map<Pos, RGB>, size: Pos): (rows: seq<seq<Token>>)
    ensures |rows| == RowCount(size.1)
    ensures size.1 <= 0 ==> rows == []
  {
    FrameRows(Scratch(pixels, size.0, size.1), Max0(size.1 + 1) - 1, Max0(size.0 + 1), map[])
  }

  /** What an image frame shows: one row per pixel-row pair, every row of
      `w + 1` glyphs drawn from and back to a clean pen, glyph k of row r
      showing pixel (k, 2r) above pixel (k, 2r + 1). */
  lemma ImageFrameShows(pixels: map<Pos, RGB>, size: Pos, r: nat) returns (gs: seq<Glyph>)
    requires r < |ImageRows(pixels, size)|
    ensures |ImageRows(pixels, size)| == RowCount(size.1)
    ensures 0 <= 2 * r + 1 <= size.1
    ensures Draw(ImageRows(pixels, size)[r], Clean) == (gs, Clean)
    ensures |gs| == Max0(size.0 + 1)
    ensures forall k :: 0 <= k < |gs| ==>
      Halves(gs[k]) == (Get(pixels, (k, 2 * r)), Get(pixels, (k, 2 * r + 1)))
  {
    var grid := Scratch(pixels, size.0, size.1);
    gs := FrameRowDraw(grid, Max0(size.1 + 1) - 1, Max0(size.0 + 1), map[], r);
    forall k | 0 <= k < |gs|
      ensures Halves(gs[k]) == (Get(pixels, (k, 2 * r)), Get(pixels, (k, 2 * r + 1)))
    {
      var none: map<Pos, char> := map[];
      assert Get(none, (k, 2 * r)) == None;
    }
  }

  /** Rendering is a function of the pixels inside `[0,w] x [0,h]` alone:
      painting outside that box never changes the frame. */
  lemma ImageFrameIgnoresOutside(p1: map<Pos, RGB>, p2: map<Pos, RGB>, size: Pos)
    requires forall x, y :: 0 <= x <= size.0 && 0 <= y <= size.1 ==> Get(p1, (x, y)) == Get(p2, (x, y))
    ensures ImageFrame(p1, size) == ImageFrame(p2, size)
  {
    ScratchIgnoresOutside(p1, p2, size.0, size.1);
  }

  datatype KwValue = Point(p: Pos) | Number(n: int)

  /** One keyword argument of `to_rect`. */
  datatype KwArg = KwArg(key: string, value: KwValue)

  datatype ToRectError =
    | InvalidKey(key: string)      // ValueError("Invalid key: ...")
    | WrongValueType(key: string)  // TypeError from indexing or subtracting the value
    | NoKeyword                    // `r` unbound: `return r` with no keyword given

  /** The top-left corner given to `Rect(0, 0, w, h)` by one keyword. */
  function Placed(w: int, h: int, kw: KwArg): Result<Pos, ToRectError>
  {
    var k := kw.key;
    if k in {"center", "topleft", "topright", "bottomleft", "bottomright"} then
      if !kw.value.Point? then Err(WrongValueType(k))
      else
        var v := kw.value.p;
        if k == "center" then Ok((v.0 - w / 2, v.1 - h / 2))
        else if k == "topleft" then Ok(v)
        else if k == "topright" then Ok((v.0 - w, v.1))
        else if k == "bottomleft" then Ok((v.0 - h, v.1))
        else Ok((v.0 - w, v.1 - h))
    else if k in {"left", "right", "top", "bottom"} then
      if !kw.value.Number? then Err(WrongValueType(k))
      else
        var n := kw.value.n;
        if k == "left" then Ok((n, 0))
        else if k == "right" then Ok((n - w, 0))
        else if k == "top" then Ok((0, n))
        else Ok((0, n - h))
    else Err(InvalidKey(k))
  }

  /** The outcome of the keyword loop of `to_rect`, keyword by keyword: the
      first failing keyword raises, otherwise the rectangle built for the
      last keyword is returned. */
  function Placement(w: int, h: int, kws: seq<KwArg>): Result<Pos, ToRectError>
    decreases |kws|
  {
    if kws == [] then Err(NoKeyword)
    else match Placed(w, h, kws[0])
      case Err(e) => Err(e)
      case Ok(p) => if |kws| == 1 then Ok(p) else Placement(w, h, kws[1..])
  }

  /** When every keyword is valid, only the last one decides the position. */
  lemma {:induction false} PlacementLast(w: int, h: int, kws: seq<KwArg>)
    requires kws != []
    requires forall j :: 0 <= j < |kws| ==> Placed(w, h, kws[j]).Ok?
    ensures Placement(w, h, kws) == Placed(w, h, kws[|kws| - 1])
    decreases |kws|
  {
    if |kws| > 1 {
      PlacementLast(w, h, kws[1..]);
      assert kws[1..][|kws[1..]| - 1] == kws[|kws| - 1];
    }
  }

  /** The first failing keyword decides the error, whatever follows it. */
  lemma {:induction false} PlacementFirstError(w: int, h: int, kws: seq<KwArg>, j: nat)
    requires j < |kws| && Placed(w, h, kws[j]).Err?
    requires forall i :: 0 <= i < j ==> Placed(w, h, kws[i]).Ok?
    ensures Placement(w, h, kws) == Err(Placed(w, h, kws[j]).error)
    decreases j
  {
    if j > 0 {
      PlacementFirstError(w, h, kws[1..], j - 1);
    }
  }

  class Image {
    const size: Pos
    var pixels: map<Pos, RGB>
    /** The last rendered frame (`__image`). */
    var image: seq<Token>

    constructor (size: Pos)
      ensures this.size == size && pixels == map[] && image == []
    {
      this.size := size;
      pixels := map[];
      image := [];
    }

    function Width(): int { size.0 }

    function Height(): int { size.1 }

    function GetPixel(pos: Pos): Option<RGB>
      reads this
    {
      Get(pixels, pos)
    }

    /** Set (or delete, for None) one pixel; no bounds check. */
    method PutPixel(pos: Pos, color: Option<RGB>)
      modifies this`pixels
      ensures pixels == Put(old(pixels), pos, color)
      ensures GetPixel(pos) == color
      ensures forall q :: q != pos ==> GetPixel(q) == Get(old(pixels), q)
    {
      if color.None? && pos in pixels {
        pixels := pixels - {pos};
      } else if color.Some? {
        pixels := pixels[pos := color.value];
      }
    }

    /** Set every pixel of `[0,width) x [0,height)` (exclusive bounds) to
        `color`, or delete them all for None; pixels outside are kept. */
    method Fill(color: Option<RGB>)
      modifies this`pixels
      ensures forall q :: GetPixel(q)
                          == if 0 <= q.0 < Width() && 0 <= q.1 < Height() then color else Get(old(pixels), q)
    {
      var x := 0;
      while x < size.0
        invariant 0 <= x <= Max0(size.0)
        invariant forall q :: Get(pixels, q)
                              == if 0 <= q.0 < x && 0 <= q.1 < size.1 then color else Get(old(pixels), q)
      {
        var y := 0;
        while y < size.1
          invariant 0 <= y <= Max0(size.1)
          invariant forall q :: Get(pixels, q)
                                == if (0 <= q.0 < x && 0 <= q.1 < size.1) || (q.0 == x && 0 <= q.1 < y) then color
                                   else Get(old(pixels), q)
        {
          if color.None? && (x, y) in pixels {
            pixels := pixels - {(x, y)};
          } else if color.Some? {
            pixels := pixels[(x, y) := color.value];
          }
          y := y + 1;
        }
        x := x + 1;
      }
    }

    /** Masked overwrite: copy the set pixels of `src` inside its inclusive
        mask, shifted by `dest`. Nothing is ever deleted. */
    method Blit(src: Image, dest: Pos)
      modifies this`pixels
      ensures forall q :: GetPixel(q) == BlitAt(old(pixels), old(src.pixels), src.size, dest, q)
      ensures old(pixels).Keys <= pixels.Keys
      ensures old(src.pixels) == map[] ==> pixels == old(pixels)
    {
      var items := src.pixels;
      var rest := items.Keys;
      while rest != {}
        invariant rest <= items.Keys
        invariant old(pixels).Keys <= pixels.Keys
        invariant forall q :: Get(pixels, q) == BlitAt(old(pixels), items - rest, src.size, dest, q)
        decreases rest
      {
        var pos :| pos in rest;
        var pix := items[pos];
        ghost var before := pixels;
        if 0 <= pos.0 <= src.size.0 && 0 <= pos.1 <= src.size.1 {
          pixels := pixels[(pos.0 + dest.0, pos.1 + dest.1) := pix];
        }
        forall q ensures Get(pixels, q) == BlitAt(old(pixels), items - (rest - {pos}), src.size, dest, q) {
          var p := (q.0 - dest.0, q.1 - dest.1);
          assert p in items - (rest - {pos}) <==> p in items - rest || p == pos;
          if p != pos {
            assert Get(pixels, q) == Get(before, q);
          }
        }
        rest := rest - {pos};
      }
      assert items - rest == items;
      if items == map[] {
        MapsEqual(pixels, old(pixels));
      }
    }

    /** `__to_string`: scatter into the scratch grid and render it. */
    method ToString()
      modifies this`image
      ensures image == ImageFrame(pixels, size)
    {
      var grid := Scatter(pixels, size.0, size.1);
      image := Frame(grid, |grid| - 1, Max0(size.0 + 1), map[]);
    }

    /** A new image of the rectangle's size holding this image's masked
        pixels shifted by `(-rect.x, -rect.y)`; nothing clips them to the
        new image's own size. */
    method Cropped(rect: Rect) returns (img: Image)
      ensures fresh(img)
      ensures img.size == (rect.width, rect.height)
      ensures forall q :: img.GetPixel(q)
                          == var p := (q.0 + rect.x, q.1 + rect.y);
                             if InBlitMask(p, size) then GetPixel(p) else None
    {
      img := new Image((rect.width, rect.height));
      img.Blit(this, (-rect.x, -rect.y));
      forall q ensures img.GetPixel(q) == var p := (q.0 + rect.x, q.1 + rect.y);
                                          if InBlitMask(p, size) then GetPixel(p) else None {
        assert img.GetPixel(q) == BlitAt(map[], pixels, size, (-rect.x, -rect.y), q);
      }
    }

    /** `to_rect(**keys)`: a rectangle of this image's size, positioned by the
        keywords in order; each keyword starts again from `(0, 0)`. */
    method ToRect(kws: seq<KwArg>) returns (res: Result<Rect, ToRectError>)
      ensures res.Err? <==> Placement(Width(), Height(), kws).Err?
      ensures res.Err? ==> res.error == Placement(Width(), Height(), kws).error
      ensures res.Ok? ==>
                && fresh(res.value)
                && res.value.TopLeft() == Placement(Width(), Height(), kws).value
                && res.value.width == Width() && res.value.height == Height()
    {
      var w, h := Width(), Height();
      var last: Option<Rect> := None;
      var i := 0;
      while i < |kws|
        invariant 0 <= i <= |kws|
        invariant (i == 0) == last.None?
        invariant forall j :: 0 <= j < i ==> Placed(w, h, kws[j]).Ok?
        invariant last.Some? ==>
                    && fresh(last.value)
                    && Placed(w, h, kws[i - 1]) == Ok(last.value.TopLeft())
                    && last.value.width == w && last.value.height == h
      {
        var kw := kws[i];
        var k := kw.key;
        var r := new Rect(0, 0, w, h);
        if k == "center" && kw.value.Point? {
          r.SetCenter(kw.value.p);
        } else if k == "topleft" && kw.value.Point? {
          r.SetTopLeft(kw.value.p);
        } else if k == "topright" && kw.value.Point? {
          r.SetTopRight(kw.value.p);
        } else if k == "bottomleft" && kw.value.Point? {
          r.SetBottomLeft(kw.value.p);
        } else if k == "bottomright" && kw.value.Point? {
          r.SetBottomRight(kw.value.p);
        } else if k == "left" && kw.value.Number? {
          r.x := kw.value.n;
        } else if k == "right" && kw.value.Number? {
          r.x := kw.value.n - r.width;
        } else if k == "top" && kw.value.Number? {
          r.y := kw.value.n;
        } else if k == "bottom" && kw.value.Number? {
          r.y := kw.value.n - r.height;
        } else {
          PlacementFirstError(w, h, kws, i);
          if k in {"center", "topleft", "topright", "bottomleft", "bottomright",
                   "left", "right", "top", "bottom"} {
            return Err(WrongValueType(k));
          }
          return Err(InvalidKey(k));
        }
        last := Some(r);
        i := i + 1;
      }
      if last.None? {
        return Err(NoKeyword);
      }
      PlacementLast(w, h, kws);
      res := Ok(last.value);
    }
  }
}
