/** The terminal display (pyterm/display.py): a pixel map like `Image`'s, a
    text overlay, a viewport limited by the terminal's size, and the flags
    that derive the display's size from the terminal. */
module Screen {
  import opened Common
  import opened Compositor
  import opened Surface
  import Input

  /** The size flags; the values behind them are not part of this model. */
  datatype Flag = FullScreen | FullWidth | FullHeight

  /** The terminal's size in character cells, as read when it is needed. */
  datatype Terminal = Terminal(width: nat, height: nat)

  /** `__unpack_args`: FULLSCREEN, then FULLWIDTH, then FULLHEIGHT, each
      overwriting the dimensions it names. The result does not depend on the
      order: each dimension is the terminal's exactly when a flag names it. */
  function Unpacked(size: Pos, args: seq<Flag>, term: Terminal): (r: Pos)
    ensures r.0 == if FullScreen in args || FullWidth in args then term.width - 1 else size.0
    ensures r.1 == if FullScreen in args || FullHeight in args then term.height * 2 - 3 else size.1
  {
    var s1 := if FullScreen in args then (term.width - 1, term.height * 2 - 3) else size;
    var s2 := if FullWidth in args then (term.width - 1, s1.1) else s1;
    if FullHeight in args then (s2.0, term.height * 2 - 3) else s2
  }

  /** The clipped scratch grid of `__to_string`: `w = min(width, min_width)`,
      `h = min(height, min_height)`. */
  function ViewGrid(pixels: map<Pos, RGB>, size: Pos, minW: nat, minH: nat): Grid
  {
    Scratch(pixels, Min(size.0, minW), Min(size.1, minH))
  }

  /** The bound of the row range: `min(len(scr) - 1, min_height - 1)`. */
  function ViewRowEnd(pixels: map<Pos, RGB>, size: Pos, minW: nat, minH: nat): int
  {
    Min(|ViewGrid(pixels, size, minW, minH)| - 1, minH - 1)
  }

  /** The cells per row: `len(scr[i][:min_width])`. */
  function ViewCols(size: Pos, minW: nat): nat
  {
    Min(Max0(Min(size.0, minW) + 1), minW)
  }

  /** The rows of `DisplayFrame`: one per index of
      `range(0, min(h, min_height - 1), 2)`, so none when the display or the
      terminal has no pixel rows. */
  function DisplayRows(pixels: map<Pos, RGB>, text: map<Pos, char>, size: Pos, minW: nat, minH: nat)
    : (rows: seq<seq<Token>>)
    ensures |rows| == RowCount(Min(Min(size.1, minH), minH - 1))
    ensures size.1 <= 0 || minH <= 1 ==> rows == []
  {
    FrameRows(ViewGrid(pixels, size, minW, minH), ViewRowEnd(pixels, size, minW, minH), ViewCols(size, minW), text)
  }

  /** The token stream `__to_string` stores in `__screen`. */
  function DisplayFrame(pixels: map<Pos, RGB>, text: map<Pos, char>, size: Pos, minW: nat, minH: nat): seq<Token>
  {
    JoinLines(DisplayRows(pixels, text, size, minW, minH))
  }

  /** What a display frame shows: row r pairs pixel rows 2r and 2r + 1, both
      inside the display and the terminal; it has one glyph per column up to
      the smaller of `width + 1` and the terminal width, the k-th showing the
      overlay character at (k, 2r) on the blended backdrop when there is one,
      and the half-block of the two pixels otherwise. */
  lemma DisplayFrameShows(pixels: map<Pos, RGB>, text: map<Pos, char>, size: Pos, minW: nat, minH: nat, r: nat)
    returns (gs: seq<Glyph>)
    requires r < |DisplayRows(pixels, text, size, minW, minH)|
    ensures |DisplayRows(pixels, text, size, minW, minH)| == RowCount(Min(Min(size.1, minH), minH - 1))
    ensures 2 * r + 1 <= size.1 && 2 * r + 1 < minH
    ensures Draw(DisplayRows(pixels, text, size, minW, minH)[r], Clean) == (gs, Clean)
    ensures |gs| == Min(Max0(Min(size.0, minW) + 1), minW)
    ensures |gs| <= Max0(size.0 + 1) && |gs| <= minW
    ensures forall k :: 0 <= k < |gs| ==>
      Shows(gs[k], Get(pixels, (k, 2 * r)), Get(pixels, (k, 2 * r + 1)), Get(text, (k, 2 * r)))
  {
    var grid := ViewGrid(pixels, size, minW, minH);
    gs := FrameRowDraw(grid, ViewRowEnd(pixels, size, minW, minH), ViewCols(size, minW), text, r);
  }

  /** Pixels outside the clipped box `[0,w] x [0,h]` never reach the screen. */
  lemma DisplayFrameIgnoresOutside(p1: map<Pos, RGB>, p2: map<Pos, RGB>, text: map<Pos, char>,
                                   size: Pos, minW: nat, minH: nat)
    requires forall x, y :: 0 <= x <= Min(size.0, minW) && 0 <= y <= Min(size.1, minH) ==>
      Get(p1, (x, y)) == Get(p2, (x, y))
    ensures DisplayFrame(p1, text, size, minW, minH) == DisplayFrame(p2, text, size, minW, minH)
  {
    ScratchIgnoresOutside(p1, p2, Min(size.0, minW), Min(size.1, minH));
  }

  class Display {
    var size: Pos
    var pixels: map<Pos, RGB>
    /** The text overlay, one character per cell key. */
    var text: map<Pos, char>
    /** The terminal width and twice its height, in pixels. */
    var minWidth: nat
    var minHeight: nat
    var ended: bool
    /** The last rendered frame (`__screen`). */
    var screen: seq<Token>

    constructor (size: Pos, args: seq<Flag>, term: Terminal)
      ensures this.size == Unpacked(size, args, term)
      ensures pixels == map[] && text == map[] && !ended && screen == []
      ensures minWidth == term.width && minHeight == term.height * 2
    {
      this.size := size;
      pixels := map[];
      text := map[];
      ended := false;
      screen := [];
      minWidth, minHeight := term.width, term.height * 2;
      new;
      UnpackArgs(args, term);
    }

    method UnpackArgs(args: seq<Flag>, term: Terminal)
      modifies this`size
      ensures size == Unpacked(old(size), args, term)
    {
      if FullScreen in args {
        size := (term.width - 1, term.height * 2 - 3);
      }
      if FullWidth in args {
        size := (term.width - 1, size.1);
      }
      if FullHeight in args {
        size := (size.0, term.height * 2 - 3);
      }
    }

    /** The SIGWINCH handler's field update. */
    method OnResize(term: Terminal)
      modifies this`minWidth, this`minHeight
      ensures minWidth == term.width && minHeight == term.height * 2
    {
      minWidth, minHeight := term.width, term.height * 2;
    }

    function Width(): int
      reads this
    {
      size.0
    }

    function Height(): int
      reads this
    {
      size.1
    }

    function GetPixel(pos: Pos): Option<RGB>
      reads this
    {
      Get(pixels, pos)
    }

    method PutPixel(pos: Pos, color: Option<RGB>)
      modifies this`pixels
      ensures pixels == Put(old(pixels), pos, color)
      ensures GetPixel(pos) == color
      ensures forall q :: q != pos ==> GetPixel(q) == Get(old(pixels), q)
    {
      if color.None? && pos in pixels {
        pixels := pixels - {pos};
      } else if color.Some? {
        pixels := pixels[pos := color.value];
      }
    }

    /** Clear the overlay; None empties the pixel map, a colour sets every
        pixel of `[0,width] x [0,height)` (inclusive in x, exclusive in y). */
    method Fill(color: Option<RGB>)
      modifies this`pixels, this`text
      ensures text == map[]
      ensures color.None? ==> pixels == map[]
      ensures color.Some? ==> forall q :: GetPixel(q)
                                          == if 0 <= q.0 <= Width() && 0 <= q.1 < Height() then color
                                             else Get(old(pixels), q)
    {
      text := map[];
      if color.None? {
        pixels := map[];
        return;
      }
      var c := color.value;
      var x := 0;
      while x < size.0 + 1
        invariant 0 <= x <= Max0(size.0 + 1)
        invariant text == map[]
        invariant forall q :: Get(pixels, q)
                              == if 0 <= q.0 < x && 0 <= q.1 < size.1 then color else Get(old(pixels), q)
      {
        var y := 0;
        while y < size.1
          invariant 0 <= y <= Max0(size.1)
          invariant text == map[]
          invariant forall q :: Get(pixels, q)
                                == if (0 <= q.0 < x && 0 <= q.1 < size.1) || (q.0 == x && 0 <= q.1 < y) then color
                                   else Get(old(pixels), q)
        {
          pixels := pixels[(x, y) := c];
          y := y + 1;
        }
        x := x + 1;
      }
    }

    /** The same masked overwrite as `Image.blit`. */
    method Blit(src: Image, dest: Pos)
      modifies this`pixels
      ensures forall q :: GetPixel(q) == BlitAt(old(pixels), src.pixels, src.size, dest, q)
      ensures old(pixels).Keys <= pixels.Keys
      ensures src.pixels == map[] ==> pixels == old(pixels)
    {
      var items := src.pixels;
      var rest := items.Keys;
      while rest != {}
        invariant rest <= items.Keys
        invariant old(pixels).Keys <= pixels.Keys
        invariant forall q :: Get(pixels, q) == BlitAt(old(pixels), items - rest, src.size, dest, q)
        decreases rest
      {
        var pos :| pos in rest;
        var pix := items[pos];
        ghost var before := pixels;
        if 0 <= pos.0 <= src.size.0 && 0 <= pos.1 <= src.size.1 {
          pixels := pixels[(pos.0 + dest.0, pos.1 + dest.1) := pix];
        }
        forall q ensures Get(pixels, q) == BlitAt(old(pixels), items - (rest - {pos}), src.size, dest, q) {
          var p := (q.0 - dest.0, q.1 - dest.1);
          assert p in items - (rest - {pos}) <==> p in items - rest || p == pos;
          if p != pos {
            assert Get(pixels, q) == Get(before, q);
          }
        }
        rest := rest - {pos};
      }
      assert items - rest == items;
      if items == map[] {
        MapsEqual(pixels, old(pixels));
      }
    }

    /** Write `s` into the overlay from `pos` rightwards, one cell per
        character; other overlay entries are kept. */
    method AddRawText(pos: Pos, s: string)
      modifies this`text
      ensures forall q :: Get(text, q)
                          == if q.1 == pos.1 && 0 <= q.0 - pos.0 < |s| then Some(s[q.0 - pos.0])
                             else Get(old(text), q)
    {
      var index := 0;
      while index < |s|
        invariant 0 <= index <= |s|
        invariant forall q :: Get(text, q)
                              == if q.1 == pos.1 && 0 <= q.0 - pos.0 < index then Some(s[q.0 - pos.0])
                                 else Get(old(text), q)
      {
        text := text[(pos.0 + index, pos.1) := s[index]];
        index := index + 1;
      }
    }

    /** `__to_string`: scatter the clipped box and render the viewport. */
    method ToString()
      modifies this`screen
      ensures screen == DisplayFrame(pixels, text, size, minWidth, minHeight)
    {
      var w, h := Min(size.0, minWidth), Min(size.1, minHeight);
      var grid := Scatter(pixels, w, h);
      assert grid == ViewGrid(pixels, size, minWidth, minHeight);
      var rowEnd, cols := Min(|grid| - 1, minHeight - 1), Min(Max0(w + 1), minWidth);
      assert FrameFits(grid, rowEnd, cols) by {
        assert forall y :: 0 <= y < |grid| ==> |grid[y]| == Max0(w + 1);
      }
      screen := Frame(grid, rowEnd, cols, text);
    }

    function Ended(): bool
      reads this
    {
      ended
    }

    /** `exit()`: mark the display ended and close the input listener. */
    method Exit(input: Input.InputState)
      modifies this`ended, input`closed
      ensures ended && input.closed
    {
      ended := true;
      input.Close();
    }
  }
}
