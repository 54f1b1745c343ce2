# pyterm core in Dafny

This project models the core of pyterm, a Python library that draws pixel graphics in a terminal. It uses the half-block characters `▀` and `▄`, so one character cell shows two vertically stacked pixels. The model covers these parts:

- **Surfaces.** `Image` (module `Surface`) and `Display` (module `Screen`) are classes over a sparse map from `(x, y)` to an RGB triple. An absent key means "unset", not black. The model covers `put_pixel`, `get_pixel`, `fill` and `blit`. It covers `cropped` and `to_rect` on images. On the display it covers the text overlay (`add_raw_text`), the size flags, the resize update and `exit`.
- **Compositor.** Module `Compositor` models `__to_string` in two steps:
  - it scatters the map into a dense `(h+1) × (w+1)` scratch grid (`Scatter`, an in-place loop over a 2-D array);
  - `join` turns each vertical pixel pair into one cell of tokens.

  The tokens are `Fg(rgb)`, `Bg(rgb)`, `Reset` and `Ch(c)`, standing for the colour escapes, the reset escape and a printed character. On the display, an overlay character replaces the block glyph. It sits on the average of the two colours when both are set, on the one set colour otherwise, and on no background when neither is set. To state what a frame *means* rather than how it is built, the module also models a terminal:
  - `Draw` gives the glyphs drawn for a token stream and the pen left at the end;
  - `Halves` gives the two colours a drawn glyph shows.

  The lemmas prove that every cell draws one glyph, shows exactly its two pixels (or its overlay character on the right backdrop) and leaves the pen clean.
- **Rect** (module `Geometry`). It has anchor getters and setters, collisions and copy. The `bottomleft` setter is kept as the code has it: x becomes `v.x - height` and y becomes `v.y`.
- **Input** (module `Input`). It covers:
  - the button table (`to_name`);
  - the `symb` key-name table and `get_key_name`;
  - the byte decoder of the listener loop, as a function `Decode` over the remaining bytes, and the loop over a whole input as `Run`;
  - the deduplicating event queue and the pressed-key table with its focus-loss reset (`on_press`/`on_release`);
  - the drain-and-clear `get`;
  - event equality.

  The module-level globals of `__events.py` become the fields of class `InputState`.
- **Rasterizers and flip** (modules `Drawing`, `Transform`). These are the nested `put_pixel` loops of `draw.rect`, `draw.circle` and `transform.flip`. The set of pixels each one paints is stated exactly.

Three behaviours of the listener loop in `pyterm/__events.py` are easy to misread, and the model keeps them as the code has them:

- **Mouse report position.** Lines 202-206 queue the position `(b1 - 33, 2 * (b2 - 33))`. So the report `ESC [ M 0x20 0x21 0x22` queues a LeftMouseDown at `(0, 2)` (`Input.DecodeExampleReport`).
- **Undecodable bytes.** Lines 195-232 do not skip malformed input:
  - a lone byte `>= 0x80` raises `UnicodeDecodeError`, which ends the listener loop;
  - a mouse report cut short raises `IndexError`;
  - an unmapped button code is still queued, with kind `None`.

  The model has each of these outcomes: `Stopped(BadUtf8)`, `Stopped(TruncatedReport)`, and a `MouseEntry` whose kind is `None`.
- **Plain key bytes.** Line 223 reads the variable `event`, which only a mouse report binds. A plain key byte that arrives before any mouse report therefore raises `NameError` and ends the loop. After a report, the comparison with the four-byte `b'/x1b'` is always false. The model keeps a flag `reportRead` for "`event` is bound" and gives `Stopped(UnboundEvent)` in the first case. It also proves that the decoder and `get_key_name` spell a character's name differently exactly when its `symb` name contains a space (`Input.KeyNameSpellings`).

Coordinates and colour channels are unbounded integers, as in Python. Python's `//` by 2 is Dafny's `/` by 2, since both round down.

## Model

| member | source | states |
|---|---|---|
| `Common.Put` | pyterm/image.py:63-69 | After `put_pixel(p, c)` the lookup at `p` is `c`: a colour is stored, and None means absent. Every other key keeps its lookup. |
| `Common.PutNoneIdempotent` | pyterm/image.py:66-67 | Deleting twice equals deleting once. Deleting an absent key leaves the map unchanged. |
| `Compositor.Blend` | pyterm/display.py:106-108 | The channel-wise floor average lies between the two channels, and blending a colour with itself gives that colour back. |
| `Compositor.HalfBlock` | pyterm/image.py:74-82 | Definition of `join`: a space when both pixels are unset; the bottom colour as foreground with `▄` when only the top is unset; otherwise the top colour as foreground, the bottom colour as background when it is set, `▀`, and a reset. What the tokens show is proved by `Compositor.HalfBlockDraw`. |
| `Compositor.TextCell` | pyterm/display.py:104-113 | Definition of the overlay branch of `join`: the character on a background of the floor average when both pixels are set, else of the bottom pixel, else of the top pixel, followed by a reset; a bare character when neither is set. Proved about by `Compositor.TextCellDraw`. |
| `Compositor.Cell` | pyterm/display.py:103-121 | Definition of display `join`: `TextCell` when the overlay has a character at the cell, `HalfBlock` otherwise. Proved about by `Compositor.CellDraw`. |
| `Compositor.HalfBlockDraw` | pyterm/image.py:74-82 | A cell draws exactly one glyph and leaves a clean pen. The glyph's upper and lower halves show the top and bottom pixels. The glyph is a space iff both pixels are unset, `▄` iff only the bottom one is set, and `▀` iff the top one is set. A background colour is used iff both pixels are set. |
| `Compositor.TextCellDraw` | pyterm/display.py:104-113 | An overlay cell draws only its character, never a block glyph, with no foreground. Its background is the floor average when both pixels are set, the one set pixel otherwise, and none when neither is set. The pen is clean afterwards. |
| `Compositor.CellDraw` | pyterm/display.py:103-121 | Every display cell, text or not, draws one glyph that shows its cell, and leaves the pen clean. |
| `Compositor.Scatter` | pyterm/image.py:85-93 | The scatter loop yields the `(h+1) × (w+1)` grid whose cell `(x, y)` holds the pixel at `(x, y)`, or unset. |
| `Compositor.Scratch` | pyterm/image.py:85-93 | Definition: `h+1` rows of `w+1` cells (none for a negative count, as `range` gives), where cell `(x, y)` holds the pixel at `(x, y)` or is unset. `Compositor.Scatter` is proved equal to it. |
| `Compositor.ScratchIgnoresOutside` | pyterm/image.py:91-93 | Pixels outside `[0,w] × [0,h]` never reach the scratch grid. |
| `Compositor.FrameRows` | pyterm/display.py:135-142 | Definition: one output row for each `i` in `range(0, rowEnd, 2)`. Row i concatenates the cells of the first `cols` columns, pairing scratch rows i and i+1 and looking the overlay up at `(column, i)`. The image frame is the case of an empty overlay and `cols = w+1`. |
| `Compositor.Frame` | pyterm/image.py:95-103 | Definition: the rows of `FrameRows` joined by newline tokens, with none after the last row, as `"\n".join` does. |
| `Compositor.FrameRowDraw` | pyterm/display.py:135-143 | Output row r has exactly `cols` glyphs and ends with a clean pen. Glyph k shows scratch rows `2r` and `2r+1` of column k, or the overlay character stored at key `(k, 2r)`. |
| `Geometry.Rect.constructor` | pyterm/rect.py:5-9 | The four fields are stored as given. |
| `Geometry.Rect.ToTuple` | pyterm/rect.py:11-12 | Definition: `(x, y, width, height)`. |
| `Geometry.Rect.TopLeft` | pyterm/rect.py:14-16 | Definition: `(x, y)`. |
| `Geometry.Rect.TopRight` | pyterm/rect.py:22-24 | Definition: `(x + width, y)`. |
| `Geometry.Rect.BottomLeft` | pyterm/rect.py:30-32 | Definition: `(x, y + height)`. |
| `Geometry.Rect.BottomRight` | pyterm/rect.py:38-40 | Definition: `(x + width, y + height)`. |
| `Geometry.Rect.Center` | pyterm/rect.py:46-48 | Definition: `(x + width // 2, y + height // 2)`, with Dafny's `/` by 2 agreeing with `//`. |
| `Geometry.Rect.SetTopLeft` | pyterm/rect.py:18-20 | Afterwards `topleft == v`; width and height are unchanged. |
| `Geometry.Rect.SetTopRight` | pyterm/rect.py:26-28 | `x = v.x - width` and `y = v.y`, so `topright == v`; the size is unchanged. |
| `Geometry.Rect.SetBottomLeft` | pyterm/rect.py:34-36 | `x = v.x - height` and `y = v.y`, as written. The new `bottomleft` is `(v.x - height, v.y + height)`, which equals `v` iff the height is 0. |
| `Geometry.Rect.SetBottomRight` | pyterm/rect.py:42-44 | Afterwards `bottomright == v`; the size is unchanged. |
| `Geometry.Rect.SetCenter` | pyterm/rect.py:50-52 | `x = v.x - width // 2` and `y = v.y - height // 2`, so `center == v`. |
| `Geometry.Rect.Copy` | pyterm/rect.py:71-72 | The copy is a new rectangle with the same `to_tuple()`. |
| `Geometry.Rect.CollideRect` | pyterm/rect.py:54-60 | Definition: strict overlap on both axes, `x < o.x + o.width`, `x + width > o.x`, and the same in y. |
| `Geometry.Rect.CollidePoint` | pyterm/rect.py:62-66 | Definition: half-open containment, `x <= p.x < x + width` and `y <= p.y < y + height`. |
| `Geometry.Rect.CollidePoints` | pyterm/rect.py:68-69 | Definition: `any` over the list by recursion on its head. Its meaning is proved by `Geometry.CollidePointsAny`. |
| `Geometry.CollideRectSymmetric` | pyterm/rect.py:54-60 | `a.colliderect(b) == b.colliderect(a)`. |
| `Geometry.CollideRectSharesPoint` | pyterm/rect.py:54-66 | For positive sizes, `colliderect` holds iff some point satisfies the half-open `collidepoint` of both rectangles. |
| `Geometry.CollidePointsAny` | pyterm/rect.py:62-69 | `collidepoints(ps)` holds iff some listed point collides; so it is false on an empty list. |
| `Surface.Image.constructor` | pyterm/image.py:11-16 | A new image has the given size, no pixels and an empty frame. |
| `Surface.Image.Width` | pyterm/image.py:31-33 | Definition: the first component of the size. |
| `Surface.Image.Height` | pyterm/image.py:35-37 | Definition: the second component of the size. |
| `Surface.Image.GetPixel` | pyterm/image.py:71-72 | Definition: the stored colour at the position, or unset when the key is absent. |
| `Surface.Image.PutPixel` | pyterm/image.py:63-72 | `get_pixel(p)` afterwards is the colour given, or unset for None. Every other pixel is unchanged. |
| `Surface.Image.Fill` | pyterm/image.py:43-50 | Every pixel of `[0,width) × [0,height)` (exclusive bounds) becomes the colour, or is deleted for None. Pixels outside are kept. |
| `Surface.Image.Blit` | pyterm/image.py:52-55 | Pixel `q` becomes the source pixel at `q - dest` when that pixel is set and inside the inclusive mask `[0,w] × [0,h]`; otherwise it keeps its value. No key is ever deleted, so an empty source changes nothing. |
| `Surface.Image.ToString` | pyterm/image.py:84-103 | The stored frame is `ImageFrame(pixels, size)`. |
| `Surface.ImageRows` | pyterm/image.py:95-103 | There is one row per index of `range(0, h, 2)`, so a frame of height 0 or less has no rows. |
| `Surface.ImageFrameShows` | pyterm/image.py:95-103 | The frame has one row per pixel-row pair `i = 0, 2, … < h`. Each row is `w+1` glyphs, and glyph k shows pixel `(k, 2r)` above pixel `(k, 2r+1)`. |
| `Surface.ImageFrameIgnoresOutside` | pyterm/image.py:91-93 | Two pixel maps that agree on `[0,w] × [0,h]` render the same frame. |
| `Surface.Placed` | pyterm/image.py:174-195 | Definition: the top-left corner of `Rect(0, 0, w, h)` after one keyword. The five anchors take a point and apply the setter's arithmetic, `bottomleft` with its height quirk. `left`/`right`/`top`/`bottom` take a number and set one coordinate. A value of the wrong shape is `WrongValueType`, any other key `InvalidKey`. |
| `Surface.Placement` | pyterm/image.py:173-196 | Definition: the keyword loop. The first keyword whose `Placed` fails decides the error; otherwise the last keyword decides the corner; no keyword leaves `r` unbound. Proved about by `Surface.PlacementLast` and `Surface.PlacementFirstError`. |
| `Surface.Image.Cropped` | pyterm/image.py:140-143 | The result has size `(r.width, r.height)`. Its pixel `q` is this image's pixel at `q + (r.x, r.y)` when that lies in `[0,width] × [0,height]`, and unset otherwise. Nothing clips the result to `r`. |
| `Surface.PlacementLast` | pyterm/image.py:173-196 | When every keyword is valid, only the last keyword decides the position, because `r` is rebuilt on each iteration. |
| `Surface.PlacementFirstError` | pyterm/image.py:173-195 | The first bad keyword decides the error, whatever follows it. |
| `Surface.Image.ToRect` | pyterm/image.py:172-196 | The result is a new rectangle of the image's size, placed by the keyword loop. An unknown key gives `ValueError`, a value of the wrong shape a `TypeError`, and no keyword the unbound `r`. |
| `Screen.Unpacked` | pyterm/display.py:84-90 | Applying the flags in order gives a width of `tw - 1` iff FULLSCREEN or FULLWIDTH is present, and a height of `th*2 - 3` iff FULLSCREEN or FULLHEIGHT is present. |
| `Screen.Display.UnpackArgs` | pyterm/display.py:84-90 | The size becomes `Unpacked(old size, flags, terminal)`. |
| `Screen.Display.constructor` | pyterm/display.py:11-25 | The size comes from the flags, the pixel map and the overlay start empty, the display is not ended, and the viewport is the terminal's width and twice its height. |
| `Screen.Display.OnResize` | pyterm/display.py:43-45 | The viewport is re-read: `min_width = tw` and `min_height = th*2`. |
| `Screen.Display.Width` | pyterm/display.py:51-53 | Definition: the first component of the size. |
| `Screen.Display.Height` | pyterm/display.py:55-57 | Definition: the second component of the size. |
| `Screen.Display.GetPixel` | pyterm/display.py:92-93 | Definition: the stored colour at the position, or unset when the key is absent. |
| `Screen.Display.PutPixel` | pyterm/display.py:92-101 | Same set/get round trip as on images: None deletes the key or does nothing. |
| `Screen.Display.Fill` | pyterm/display.py:63-71 | The overlay is always cleared. None empties the pixel map. A colour sets `[0,width] × [0,height)`, inclusive in x and exclusive in y, and keeps everything else. |
| `Screen.Display.Blit` | pyterm/display.py:73-76 | The same masked overwrite as `Image.blit`. |
| `Screen.Display.AddRawText` | pyterm/display.py:27-29 | Overlay key `(pos.x + i, pos.y)` becomes `s[i]` for every index `i`; every other key is unchanged. |
| `Screen.Display.ToString` | pyterm/display.py:123-143 | The stored frame is `DisplayFrame(pixels, text, size, min_width, min_height)`. |
| `Screen.Display.Ended` | pyterm/display.py:151-153 | Definition: the `ended` flag, which only `Exit` sets. |
| `Screen.DisplayRows` | pyterm/display.py:124-142 | There is one row per index of `range(0, min(h, min_height - 1), 2)` with `h = min(height, min_height)`, so there are none when the height is 0 or less or `min_height` is at most 1. |
| `Screen.DisplayFrameShows` | pyterm/display.py:124-143 | The rows are those `i` in `range(0, min(h, min_height - 1), 2)` with `h = min(height, min_height)`. Each row has `min(w+1, min_width)` glyphs with `w = min(width, min_width)`. Glyph k of row r shows its overlay character at `(k, 2r)` on the blended backdrop, or else the half-block of pixels `(k, 2r)` and `(k, 2r+1)`. |
| `Screen.DisplayFrameIgnoresOutside` | pyterm/display.py:124-133 | Pixels outside the clipped box `[0,w] × [0,h]` never change the frame. |
| `Screen.Display.Exit` | pyterm/display.py:155-159 | The display is ended and the input listener is closed. |
| `Input.ToName` | pyterm/__events.py:160-177 | Maps 0 to LeftMouseDown and 3 to LeftMouseUp; both 32 and 35 to MouseMove; 64, 65, 66 and 67 to ScrollDown, ScrollUp, ScrollLeft and ScrollRight. Every other code gives None. Each name comes from exactly those codes. |
| `Input.KeyName` | pyterm/__events.py:22-73 | Definition of `get_key_name` over the `symb` table: the base name is the uppercased `name` of a special key, the `char` of a key code, or the value itself. A single `symb` character is replaced by its spoken name with `_` for spaces, uppercased, and `KEY_` is prefixed. Proved about by `Input.KeyNameSymb`. |
| `Input.DecodedKeyName` | pyterm/__events.py:227-230 | Definition: `KEY_` plus the uppercased `symb` name with its spaces kept, or plus the character itself. Compared with `KeyName` by `Input.KeyNameSpellings`. |
| `Input.PressName` | pyterm/__events.py:124-127 | Definition: `KEY_` plus the uppercased `name` of a special key, or plus a key code's `char`, with no `symb` lookup. |
| `Input.KeyNameSymb` | pyterm/__events.py:62-73 | `get_key_name` of a `symb` character is `KEY_` plus its spoken name uppercased with `_` for spaces, and holds no space. |
| `Input.KeyNameSpellings` | pyterm/__events.py:227-232 | The listener's name for a character equals `get_key_name`'s iff the character is not a `symb` entry whose spoken name has a space. |
| `Input.EventEq` | pyterm/__events.py:275-307 | `__eq__` holds iff both events are of the same class with equal `(key, type)` or `(type, pos)`. |
| `Input.ToEvent` | pyterm/__events.py:312-316 | Definition: a KEY entry becomes a `KeyboardEvent` and a MOUSE entry a `MouseEvent`, with the same values. Proved injective by `Input.ToEventInjective`. |
| `Input.ToEventInjective` | pyterm/__events.py:310-318 | Converting queue entries to events loses nothing: equal events come from equal entries. |
| `Input.Decode` | pyterm/__events.py:194-232 | One loop turn consumes a non-empty prefix and leaves a suffix. A mouse report consumes exactly 6 bytes. A key from a plain byte needs a bound `event` and a byte below 0x80. |
| `Input.DecodeMouse` | pyterm/__events.py:196-206 | For bytes `ESC [ M b0 b1 b2`, the decoder gives a MOUSE entry `(to_name(b0-32), (b1-33, 2*(b2-33)))` and leaves the remaining bytes. |
| `Input.DecodeExampleReport` | pyterm/__events.py:196-206 | `ESC [ M 0x20 0x21 0x22` decodes to a LeftMouseDown at `(0, 2)`. |
| `Input.ArrowName` | pyterm/__events.py:209-216 | Only `A` to `D` after `ESC [` name an arrow key. |
| `Input.DecodeEscapeSequence` | pyterm/__events.py:207-221 | `ESC [ A/B/C/D` gives KEY_UP, KEY_DOWN, KEY_RIGHT or KEY_LEFT. Any other two bytes after ESC queue nothing and are consumed. |
| `Input.DecodeKeyByte` | pyterm/__events.py:222-232 | A byte below 0x80 other than ESC queues `KEY_` plus its `symb` name in capitals, spaces kept, or plus the character itself. Before any mouse report it stops the loop instead. |
| `Input.Apply` | pyterm/__events.py:196-232 | Definition of one loop turn's effect. A mouse entry is appended unless already queued and binds `event`. A key appends a KEYDOWN entry without a duplicate check and sets `pressed[name]`. A stop ends the loop. |
| `Input.Run` | pyterm/__events.py:192-232 | Definition: `Decode` and `Apply` repeated until the bytes run out or the loop stops. Proved about by `Input.RunInvariants`. |
| `Input.RunInvariants` | pyterm/__events.py:192-232 | The listener loop only appends to the queue and keeps mouse entries unique. It never releases a pressed key. Every key entry it adds is a KEYDOWN whose key is then pressed. |
| `Input.InputState.constructor` | pyterm/__events.py:96-106 | Starts with an empty queue, the given pressed table and window identity, and not closed. |
| `Input.InputState.Close` | pyterm/__events.py:155-157 | `CLOSED` becomes true. |
| `Input.InputState.ReleaseAll` | pyterm/__events.py:120-123 | Every known key is marked released; no key is added or removed. |
| `Input.InputState.OnPress` | pyterm/__events.py:119-134 | On another window, every key is released and nothing is queued. Otherwise `(name, KEYDOWN)` is queued at most once and `pressed[name]` becomes true. |
| `Input.InputState.OnRelease` | pyterm/__events.py:137-153 | Same focus guard. Otherwise `(name, KEYUP)` is queued at most once and `pressed[name]` becomes false. |
| `Input.InputState.Poll` | pyterm/__events.py:192-232 | The loop over the available bytes does what `Run` specifies, and does nothing once closed. |
| `Input.InputState.Get` | pyterm/__events.py:310-318 | Returns one event per queued entry, in order, and leaves the queue empty, so a second `get` returns nothing. |
| `Drawing.DrawRect` | pyterm/draw.py:1-10 | Exactly the cells `RectCell` selects, offset by `(p1, p2)`, get the colour; every other pixel is unchanged. |
| `Drawing.RectThickBorderFills` | pyterm/draw.py:3-10 | A border at least half the box width fills the box. A box of non-positive size paints nothing. |
| `Drawing.RectInterior` | pyterm/draw.py:7-10 | With a positive border, the unpainted cells are exactly `[width, w-width) × [width, h-width)`. |
| `Drawing.DrawRectColumn` | pyterm/draw.py:4-10 | The inner loop paints exactly column `x` of the rectangle. |
| `Drawing.RectCell` | pyterm/draw.py:3-10 | Definition: offset `(x, y)` lies in `[0,w) × [0,h)` and either the border width is 0 or `x` or `y` lies within `width` of an edge. |
| `Drawing.DrawCircle` | pyterm/draw.py:13-20 | Exactly the offsets `CircleCell` selects get the colour; every other pixel is unchanged. |
| `Drawing.DrawCircleColumn` | pyterm/draw.py:16-20 | The inner loop paints exactly column `dx` of the circle. |
| `Drawing.CircleCell` | pyterm/draw.py:15-20 | Definition: both offsets lie in `[-r, r]`, and `dx² + dy²` is at most `r²` with width 0, or lies in `[(r - width)², r²]`. |
| `Drawing.DiskExact` | pyterm/draw.py:15-18 | With width 0, the painted offsets are exactly `dx² + dy² <= r²`. |
| `Drawing.RingExact` | pyterm/draw.py:15-20 | With a positive width, the painted offsets are exactly `(r - width)² <= dx² + dy² <= r²`. |
| `Transform.FlipPos` | pyterm/transform.py:31-32 | A position inside the box stays inside the box. |
| `Transform.FlipPosInvolution` | pyterm/transform.py:31-32 | Moving a position twice with the same flags gives it back. |
| `Transform.Flipped` | pyterm/transform.py:27-35 | Definition: inside `[0,w) × [0,h)` the source pixel at `FlipPos(q)`, outside it unset. `Transform.Flip` is proved to produce it. |
| `Transform.Flip` | pyterm/transform.py:27-35 | The result is a new image of the same size. Its pixel `q` in `[0,w) × [0,h)` is the source pixel at `FlipPos(q)`, and every pixel outside that box is unset. |
| `Transform.FlipColumn` | pyterm/transform.py:30-33 | The inner loop moves exactly source column `x` into the new image and keeps every other pixel. |
| `Transform.FlipTwice` | pyterm/transform.py:27-35 | Flipping twice with the same flags restores the source restricted to `[0,w) × [0,h)`. |

## Left out

- **Named colours.** Strings resolved through `COLORS` are left out; `pyterm/colors.py` is not part of this model. Colours are RGB triples or None. This also hides that `Image.fill` stores `color[...]` rather than the resolved `c[...]` at pyterm/image.py:50. The two agree for triples.
- **Escape strings.** The exact ANSI strings produced by `color_rgb`/`on_color_rgb` are abstract tokens.
- **Terminal I/O.** `update`, `__clear`, the `clear()` writes in the constructor and in `exit`, and the SIGWINCH registration are output or process control. `OnResize` models only the field update. The terminal's size is passed in as a `Terminal` value.
- **Outside libraries.** The PIL paths (`add_text`, `Image.open`, `Image.fromPIL`) use a foreign image and font library.
- **Listener thread.** Threading, `select`, `termios`/`tty`, cbreak and hidden-cursor modes, the mouse-tracking writes and the thread launch are concurrency and terminal I/O. `Poll` takes the available bytes as a parameter. A short read is treated as the end of the stream. Because `Poll` runs sequentially, `CLOSED` cannot change during one call.
- **Window and pressed table.** `get_win` calls platform window APIs. Its result is a parameter of `OnPress`/`OnRelease` and of the `InputState` constructor. The initial `pressed` table, built from the keyboard library's key list, is a constructor argument.
- **Key objects.** A key that is `None`, or a key code whose `char` is `None`, makes `on_press` raise. `OnPress` and `OnRelease` require a special key or a key code, and a key code's `char` is a string.
- **Dead branches.** The branch at line 217 compares a two-byte read with a three-byte literal, so it never matches; it is omitted. The escape branch at lines 223-226 can never match, as described above.
- **Letter case.** `str.upper()` is modelled on ASCII letters only, which covers every `symb` name.
- Surface.Image.ToRect: for `left` or `top` with a tuple value, Python stores the tuple in `x` or `y` and carries on. The model reports `WrongValueType` for any position key given a non-integer, since rectangle fields are integers here.
- **Aliasing.** `Surface.Image.Blit` of an image onto itself takes a snapshot of the source map first, so every source pixel is read before any is written. Python iterates over the dictionary it is changing, which gives two different outcomes. A self-blit that adds a new key raises `RuntimeError` at the next iteration step. One that adds no key can read pixels already overwritten earlier in insertion order. `Screen.Display.Blit` takes an `Image`, so it cannot alias the display.
- **Drawing on a display.** `draw.rect`, `draw.circle` and `transform.flip` are modelled on `Image` only. Python would also accept a `Display`.
- **Floating point.** `transform.scale`, `scale2x`, `scale_by` and `rotate`, `draw.line` and `draw.polygon`, and all of `pyterm/clock.py` use floating point or a clock.
- **Keys module.** The values of the `keys.FULLSCREEN`/`FULLWIDTH`/`FULLHEIGHT` constants are left out; `pyterm/keys.py` is not part of this model. They are three distinct flags.
