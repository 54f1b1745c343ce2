/** The pixel-to-glyph compositor shared by `Image` and `Display`.

    A rendered frame is a sequence of abstract tokens: `Fg(c)` and `Bg(c)` stand
    for the foreground and background colour escapes, `Reset` for the reset
    escape and `Ch(c)` for one printed character. To say what a frame MEANS, the
    module also models how a terminal draws such tokens (`Draw`) and which two
    colours a drawn half-block glyph shows in its upper and lower halves
    (`Halves`). */
module Compositor {
  import opened Common

  datatype Token = Fg(color: RGB) | Bg(color: RGB) | Reset | Ch(ch: char)

  /** Upper half block U+2580 and lower half block U+2584. */
  const UpperHalf: char := '\U{2580}'
  const LowerHalf: char := '\U{2584}'

  // ---------------------------------------------------------------------
  // One cell

  /** `Image.join`: one cell from the pixel pair (top, bottom). */
  function HalfBlock(top: Option<RGB>, bottom: Option<RGB>): seq<Token>
  {
    if top.None? && bottom.None? then [Ch(' ')]
    else if top.None? then [Fg(bottom.value), Ch(LowerHalf), Reset]
    else if bottom.None? then [Fg(top.value), Ch(UpperHalf), Reset]
    else [Fg(top.value), Bg(bottom.value), Ch(UpperHalf), Reset]
  }

  /** Channel-wise floor average. Dafny's `/` by a positive divisor rounds
      down, like Python's `//`. */
  function Blend(a: RGB, b: RGB): (c: RGB)
    ensures Min(a.r, b.r) <= c.r <= a.r + b.r - Min(a.r, b.r)
    ensures Min(a.g, b.g) <= c.g <= a.g + b.g - Min(a.g, b.g)
    ensures Min(a.b, b.b) <= c.b <= a.b + b.b - Min(a.b, b.b)
    ensures a == b ==> c == a
  {
    RGB((a.r + b.r) / 2, (a.g + b.g) / 2, (a.b + b.b) / 2)
  }

  /** The text branch of `Display.join`: the character itself, never a block
      glyph, on a background taken from the pixel pair. */
  function TextCell(ch: char, top: Option<RGB>, bottom: Option<RGB>): seq<Token>
  {
    if top.Some? && bottom.Some? then [Bg(Blend(top.value, bottom.value)), Ch(ch), Reset]
    else if bottom.Some? then [Bg(bottom.value), Ch(ch), Reset]
    else if top.Some? then [Bg(top.value), Ch(ch), Reset]
    else [Ch(ch)]
  }

  /** `Display.join`: a text-overlay character wins over the half-block rule. */
  function Cell(top: Option<RGB>, bottom: Option<RGB>, text: Option<char>): seq<Token>
  {
    if text.Some? then TextCell(text.value, top, bottom) else HalfBlock(top, bottom)
  }

  // ---------------------------------------------------------------------
  // How a terminal draws tokens

  /** The current colour state of the terminal. */
  datatype Pen = Pen(fg: Option<RGB>, bg: Option<RGB>)

  const Clean: Pen := Pen(None, None)

  /** One drawn character with the colours it was drawn in. */
  datatype Glyph = Glyph(ch: char, fg: Option<RGB>, bg: Option<RGB>)

  function NextPen(t: Token, pen: Pen): Pen
  {
    match t
    case Fg(c) => pen.(fg := Some(c))
    case Bg(c) => pen.(bg := Some(c))
    case Reset => Clean
    case Ch(_) => pen
  }

  /** The glyphs a terminal draws for `ts`, starting in `pen`, and its final pen. */
  function Draw(ts: seq<Token>, pen: Pen): (seq<Glyph>, Pen)
    decreases |ts|
  {
    if ts == [] then ([], pen)
    else
      var rest := Draw(ts[1..], NextPen(ts[0], pen));
      if ts[0].Ch? then ([Glyph(ts[0].ch, pen.fg, pen.bg)] + rest.0, rest.1) else rest
  }

  /** The colours seen in the upper and lower half of a drawn cell: an upper
      half block shows its foreground on top, a lower half block at the bottom,
      any other character shows the background in both halves. */
  function Halves(g: Glyph): (Option<RGB>, Option<RGB>)
  {
    if g.ch == UpperHalf then (g.fg, g.bg)
    else if g.ch == LowerHalf then (g.bg, g.fg)
    else (g.bg, g.bg)
  }

  /** The background intended behind an overlay character. */
  function Backdrop(top: Option<RGB>, bottom: Option<RGB>): Option<RGB>
  {
    if top.Some? && bottom.Some? then Some(Blend(top.value, bottom.value))
    else if top.Some? then top
    else bottom
  }

  /** What a correctly drawn cell looks like: an overlay character on its
      backdrop, otherwise a glyph whose halves are exactly the two pixels. */
  predicate Shows(g: Glyph, top: Option<RGB>, bottom: Option<RGB>, text: Option<char>)
  {
    if text.Some? then g.ch == text.value && g.fg.None? && g.bg == Backdrop(top, bottom)
    else Halves(g) == (top, bottom)
  }

  lemma {:induction false} DrawAppend(a: seq<Token>, b: seq<Token>, pen: Pen)
    ensures Draw(a + b, pen)
         == (Draw(a, pen).0 + Draw(b, Draw(a, pen).1).0, Draw(b, Draw(a, pen).1).1)
    decreases |a|
  {
    if a == [] {
      assert a + b == b;
      assert [] + Draw(b, pen).0 == Draw(b, pen).0;
    } else {
      assert (a + b)[0] == a[0];
      assert (a + b)[1..] == a[1..] + b;
      var p := NextPen(a[0], pen);
      DrawAppend(a[1..], b, p);
      if a[0].Ch? {
        var g := Glyph(a[0].ch, pen.fg, pen.bg);
        var r1 := Draw(a[1..], p);
        assert [g] + (r1.0 + Draw(b, r1.1).0) == ([g] + r1.0) + Draw(b, r1.1).0;
      }
    }
  }

  lemma DrawChar(c: char, pen: Pen)
    ensures Draw([Ch(c)], pen) == ([Glyph(c, pen.fg, pen.bg)], pen)
  {
    assert [Ch(c)][1..] == [];
    assert [Glyph(c, pen.fg, pen.bg)] + [] == [Glyph(c, pen.fg, pen.bg)];
  }

  lemma DrawCharReset(c: char, pen: Pen)
    ensures Draw([Ch(c), Reset], pen) == ([Glyph(c, pen.fg, pen.bg)], Clean)
  {
    assert [Ch(c), Reset][1..] == [Reset];
    assert [Reset][1..] == [];
    assert Draw([Reset], pen) == ([], Clean);
    assert [Glyph(c, pen.fg, pen.bg)] + [] == [Glyph(c, pen.fg, pen.bg)];
  }

  lemma DrawColourCharReset(t: Token, c: char)
    requires t.Fg? || t.Bg?
    ensures Draw([t, Ch(c), Reset], Clean)
         == ([Glyph(c, NextPen(t, Clean).fg, NextPen(t, Clean).bg)], Clean)
  {
    assert [t, Ch(c), Reset][1..] == [Ch(c), Reset];
    DrawCharReset(c, NextPen(t, Clean));
  }

  lemma DrawTwoColourCharReset(t: RGB, b: RGB, c: char)
    ensures Draw([Fg(t), Bg(b), Ch(c), Reset], Clean) == ([Glyph(c, Some(t), Some(b))], Clean)
  {
    var s := [Fg(t), Bg(b), Ch(c), Reset];
    assert s[1..] == [Bg(b), Ch(c), Reset];
    assert s[1..][1..] == [Ch(c), Reset];
    DrawCharReset(c, Pen(Some(t), Some(b)));
  }

  /** The half-block rule: every cell draws exactly one glyph showing the top
      pixel above and the bottom pixel below, leaves the pen clean (no colour
      bleeds into the next cell), uses a space exactly when both pixels are
      unset, the lower half block exactly when only the bottom one is set, and
      a background colour exactly when both are set. */
  lemma HalfBlockDraw(top: Option<RGB>, bottom: Option<RGB>) returns (g: Glyph)
    ensures Draw(HalfBlock(top, bottom), Clean) == ([g], Clean)
    ensures Halves(g) == (top, bottom)
    ensures g.ch == ' ' <==> top.None? && bottom.None?
    ensures g.ch == LowerHalf <==> top.None? && bottom.Some?
    ensures g.ch == UpperHalf <==> top.Some?
    ensures g.bg.Some? <==> top.Some? && bottom.Some?
    ensures top.None? && bottom.None? ==> HalfBlock(top, bottom) == [Ch(' ')]
  {
    if top.None? && bottom.None? {
      g := Glyph(' ', None, None);
      DrawChar(' ', Clean);
    } else if top.None? {
      g := Glyph(LowerHalf, bottom, None);
      DrawColourCharReset(Fg(bottom.value), LowerHalf);
    } else if bottom.None? {
      g := Glyph(UpperHalf, top, None);
      DrawColourCharReset(Fg(top.value), UpperHalf);
    } else {
      g := Glyph(UpperHalf, top, bottom);
      DrawTwoColourCharReset(top.value, bottom.value, UpperHalf);
    }
  }

  /** The text rule: the character alone is drawn (block glyphs are
      suppressed), with no foreground, on the channel average of both pixels,
      on the one pixel that is set, or on no background at all; the pen is
      clean afterwards. */
  lemma TextCellDraw(ch: char, top: Option<RGB>, bottom: Option<RGB>) returns (g: Glyph)
    ensures Draw(TextCell(ch, top, bottom), Clean) == ([g], Clean)
    ensures g.ch == ch && g.fg.None?
    ensures top.Some? && bottom.Some? ==> g.bg == Some(Blend(top.value, bottom.value))
    ensures top.Some? && bottom.None? ==> g.bg == top
    ensures top.None? && bottom.Some? ==> g.bg == bottom
    ensures top.None? && bottom.None? ==> g.bg.None? && TextCell(ch, top, bottom) == [Ch(ch)]
  {
    if top.None? && bottom.None? {
      g := Glyph(ch, None, None);
      DrawChar(ch, Clean);
    } else {
      var bg := Backdrop(top, bottom);
      g := Glyph(ch, None, bg);
      DrawColourCharReset(Bg(bg.value), ch);
    }
  }

  /** `Display.join` draws one glyph that shows its cell and leaves the pen clean. */
  lemma CellDraw(top: Option<RGB>, bottom: Option<RGB>, text: Option<char>) returns (g: Glyph)
    ensures Draw(Cell(top, bottom, text), Clean) == ([g], Clean)
    ensures Shows(g, top, bottom, text)
  {
    if text.Some? {
      g := TextCellDraw(text.value, top, bottom);
    } else {
      g := HalfBlockDraw(top, bottom);
    }
  }

  // ---------------------------------------------------------------------
  // The dense scratch grid

  /** Rows of optional pixels; `grid[y][x]` is the pixel at (x, y). */
  type Grid = seq<seq<Option<RGB>>>

  /** The `(h+1) x (w+1)` scratch grid holding exactly the pixels of
      `[0,w] x [0,h]`; a negative size gives no rows or empty rows, as
      Python's `range` does. */
  function Scratch(pixels: map<Pos, RGB>, w: int, h: int): Grid
  {
    seq(Max0(h + 1), y => seq(Max0(w + 1), x => Get(pixels, (x, y))))
  }

  /** The scatter step of `__to_string`: allocate the scratch grid of unset
      cells and copy every pixel inside `[0,w] x [0,h]` into it. */
  method Scatter(pixels: map<Pos, RGB>, w: int, h: int) returns (grid: Grid)
    ensures grid == Scratch(pixels, w, h)
  {
    var scr := new Option<RGB>[Max0(h + 1), Max0(w + 1)]((_, _) => None);
    var rest := pixels.Keys;
    while rest != {}
      invariant rest <= pixels.Keys
      invariant forall y, x :: 0 <= y < scr.Length0 && 0 <= x < scr.Length1 ==>
        scr[y, x] == if (x, y) in pixels && (x, y) !in rest then Some(pixels[(x, y)]) else None
      decreases rest
    {
      var pos :| pos in rest;
      if 0 <= pos.0 <= w && 0 <= pos.1 <= h {
        scr[pos.1, pos.0] := Some(pixels[pos]);
      }
      rest := rest - {pos};
    }
    grid := seq(scr.Length0, y requires 0 <= y < scr.Length0 reads scr =>
                  seq(scr.Length1, x requires 0 <= x < scr.Length1 reads scr => scr[y, x]));
    forall y | 0 <= y < |grid|
      ensures grid[y] == Scratch(pixels, w, h)[y]
    {
      assert forall x :: 0 <= x < |grid[y]| ==> grid[y][x] == Get(pixels, (x, y));
    }
  }

  /** Pixels outside `[0,w] x [0,h]` never reach the scratch grid. */
  lemma ScratchIgnoresOutside(p1: map<Pos, RGB>, p2: map<Pos, RGB>, w: int, h: int)
    requires forall x, y :: 0 <= x <= w && 0 <= y <= h ==> Get(p1, (x, y)) == Get(p2, (x, y))
    ensures Scratch(p1, w, h) == Scratch(p2, w, h)
  {
    var g1, g2 := Scratch(p1, w, h), Scratch(p2, w, h);
    forall y | 0 <= y < |g1| ensures g1[y] == g2[y] {
      forall x | 0 <= x < |g1[y]| ensures g1[y][x] == g2[y][x] {
        assert g1[y][x] == Get(p1, (x, y)) && g2[y][x] == Get(p2, (x, y));
      }
    }
  }

  // ---------------------------------------------------------------------
  // Rows and frames

  /** The number of indices in `range(0, rowEnd, 2)`. */
  function RowCount(rowEnd: int): nat
  {
    if rowEnd <= 0 then 0 else (rowEnd + 1) / 2
  }

  /** Every row index `i < rowEnd` has a row `i + 1` below it, and every row
      has at least `cols` cells. */
  predicate FrameFits(grid: Grid, rowEnd: int, cols: nat)
  {
    rowEnd <= |grid| - 1 && forall y :: 0 <= y < |grid| ==> cols <= |grid[y]|
  }

  function Flatten(ss: seq<seq<Token>>): seq<Token>
    decreases |ss|
  {
    if ss == [] then [] else ss[0] + Flatten(ss[1..])
  }

  /** `"\n".join(rows)`. */
  function JoinLines(rows: seq<seq<Token>>): seq<Token>
    decreases |rows|
  {
    if rows == [] then []
    else if |rows| == 1 then rows[0]
    else rows[0] + [Ch('\n')] + JoinLines(rows[1..])
  }

  /** The cells of the output row pairing scratch rows `i` and `i + 1`; the
      overlay is looked up at key `(column, i)`. */
  function RowCells(grid: Grid, i: nat, cols: nat, text: map<Pos, char>): seq<seq<Token>>
    requires i + 1 < |grid| && cols <= |grid[i]| && cols <= |grid[i + 1]|
  {
    seq(cols, k requires 0 <= k < cols => Cell(grid[i][k], grid[i + 1][k], Get(text, (k, i))))
  }

  /** The output rows, one for each scratch index `i = 0, 2, ... < rowEnd`. */
  function FrameRows(grid: Grid, rowEnd: int, cols: nat, text: map<Pos, char>): seq<seq<Token>>
    requires FrameFits(grid, rowEnd, cols)
  {
    seq(RowCount(rowEnd), r requires 0 <= r < RowCount(rowEnd) => Flatten(RowCells(grid, 2 * r, cols, text)))
  }

  /** A rendered frame: its rows joined by newlines. */
  function Frame(grid: Grid, rowEnd: int, cols: nat, text: map<Pos, char>): seq<Token>
    requires FrameFits(grid, rowEnd, cols)
  {
    JoinLines(FrameRows(grid, rowEnd, cols, text))
  }

  lemma {:induction false} DrawFlatten(cells: seq<seq<Token>>, gs: seq<Glyph>)
    requires |gs| == |cells|
    requires forall k :: 0 <= k < |cells| ==> Draw(cells[k], Clean) == ([gs[k]], Clean)
    ensures Draw(Flatten(cells), Clean) == (gs, Clean)
    decreases |cells|
  {
    if cells != [] {
      DrawFlatten(cells[1..], gs[1..]);
      DrawAppend(cells[0], Flatten(cells[1..]), Clean);
      assert gs == [gs[0]] + gs[1..];
    }
  }

  /** Output row `r`, drawn from a clean pen, is exactly `cols` glyphs, the
      k-th showing the pixels at scratch rows `2r` (top) and `2r + 1` (bottom)
      of column k, or the overlay character at `(k, 2r)`; the pen is clean at
      the end of the row. */
  lemma FrameRowDraw(grid: Grid, rowEnd: int, cols: nat, text: map<Pos, char>, r: nat)
    returns (gs: seq<Glyph>)
    requires FrameFits(grid, rowEnd, cols) && r < RowCount(rowEnd)
    ensures 2 * r + 1 < |grid|
    ensures Draw(FrameRows(grid, rowEnd, cols, text)[r], Clean) == (gs, Clean)
    ensures |gs| == cols
    ensures forall k :: 0 <= k < cols ==>
      Shows(gs[k], grid[2 * r][k], grid[2 * r + 1][k], Get(text, (k, 2 * r)))
  {
    var cells := RowCells(grid, 2 * r, cols, text);
    gs := seq(cols, k requires 0 <= k < cols =>
            var d := Draw(cells[k], Clean).0; if d == [] then Glyph(' ', None, None) else d[0]);
    forall k | 0 <= k < cols
      ensures Draw(cells[k], Clean) == ([gs[k]], Clean)
      ensures Shows(gs[k], grid[2 * r][k], grid[2 * r + 1][k], Get(text, (k, 2 * r)))
    {
      var g := CellDraw(grid[2 * r][k], grid[2 * r + 1][k], Get(text, (k, 2 * r)));
    }
    DrawFlatten(cells, gs);
  }
}
