# Marquee on a serpentine LED panel — a verified model

This project models the core of a Go program that scrolls text across a 20 × 5
panel of addressable LEDs. The LEDs are wired as one strip that runs up one
column and down the next (a serpentine, or boustrophedon, layout). The model
covers three parts:

- **Utils** (`utils.dfy`). `CoordinatesToIndex` maps a panel point to the
  index of its LED on the strip, with an optional vertical flip.
  `IndexToCoordinates` is its inverse. `RGBToColor` packs three 16-bit
  channels into a `0xRRGGBB` word, using `bv32` for Go's `uint32`.
- **GlyphTable** (`glyph_table.dfy`). The static table `charDict` is written
  as a lookup function. It gives each byte that has a glyph a cut on the
  five-row font sheet: the cut's first column and its width.
- **Marquee** (`marquee.dfy`).
  - `Setup` cuts every glyph of the table from the decoded font sheet into
    the atlas `charmap`. It takes the table's keys in an unspecified order,
    as Go's map iteration does.
  - `Display` runs a width pass (`CompositeWidth`), then a draw pass
    (`Compose`, which blits each glyph with `Draw`), then the scroll loop.
    For each offset, the scroll loop fills the 100-slot LED buffer
    (`FillFrame`), sleeps, and renders.
  - The font sheet, the glyphs and the canvas are lit/unlit grids. The
    canvas is an `array2<bool>`. The LED buffer is the driver's
    `array<bv32>`.
  - Sleeping and rendering are recorded in a ghost `trace` of `Slept` and
    `Rendered(frame)` events.

The layout is specified by the function `Pixel`, which gives the canvas pixel
after the draw pass. Lemmas then characterise it: inside a glyph's rectangle
the canvas shows that glyph's pixel, and everywhere else it is unlit.
`ExpectedFrame` gives the frame for one scroll offset, and `ScrollTrace` gives
the events of a whole scroll.

Points where the code does something a reader might not expect:

- The scroll bound is exclusive (`offset < compositeWidth - 20`). A scroll
  therefore shows `compositeWidth - 20` frames, not one more.
- Each frame sleeps first and then renders. A render error is discarded, and
  `Display` always succeeds.
- The width pass starts at 40 columns, but the draw cursor starts at 20. The
  cursor therefore ends at `compositeWidth - 20`, not at `compositeWidth`.
  The text has 20 blank columns on each side.
- A cut that reaches past the font sheet is clipped to the sheet. No error is
  raised.
- The mapper flips about `bounds.Max.Y`, not about the window's own rows. It
  picks the column direction from the parity of the raw `x`. At the only call
  site the bounds are the panel at the origin, where neither quirk matters.
  For a flipped window that does not start at row 0, an index can fall
  outside the window (`Utils.FlipOutsideOffsetWindow`). The lemmas therefore
  require such windows to start at row 0.

## Model

| member | source | states |
|---|---|---|
| `Utils.CoordinatesToIndex` | utils/utils.go:5-15 | the mapper as written: flips about `maxY`, picks the column direction from the parity of the raw `x`; a window point's index lies in its column's block `[(x-minX)*height, (x-minX+1)*height)` |
| `Utils.IndexInRange` | utils/utils.go:5-15 | every point of a window is sent into `[0, width*height)`, flipped or not |
| `Utils.IndexRoundTrip` | utils/utils.go:5-15 | reading back the coordinates of a point's index gives the point |
| `Utils.IndexInjective` | utils/utils.go:10-14 | two points of the window never share an LED |
| `Utils.CoordinatesRoundTrip` | utils/utils.go:10-14 | every index in `[0, width*height)` is the LED of exactly one window point; with `IndexInjective`, the map is a bijection onto that range |
| `Utils.ColumnIndices` | utils/utils.go:10-14 | column `x` holds exactly the indices `[(x-minX)*height, (x-minX+1)*height)` |
| `Utils.FlipSymmetry` | utils/utils.go:6-8 | flipped, row `y` maps like unflipped row `maxY-1-y` |
| `Utils.FlipOutsideOffsetWindow` | utils/utils.go:6-11 | in a flipped window whose rows do not start at 0, a point of the window can get index -1 |
| `Utils.ColumnDirection` | utils/utils.go:10-14 | at the origin, unflipped, for any `h >= 1`: an even column starts at row 0 with index `x*h` and runs up (`x*h + y`); an odd one starts at row `h-1` and runs down (`x*h + h-1-y`) |
| `Utils.AdjacentAlongColumn` | utils/utils.go:11-14 | consecutive indices within a column are vertically adjacent |
| `Utils.AdjacentAcrossColumns` | utils/utils.go:11-14 | the last index of a column and the first of the next are horizontally adjacent on the same row |
| `Utils.SerpentineAdjacency` | utils/utils.go:10-14 | the LEDs with indices `i` and `i+1` are panel neighbours at Manhattan distance 1 |
| `Utils.RGBToColor` | utils/utils.go:17-19 | the result is below `2^24`; its three bytes are the high bytes of `r`, `g` and `b` |
| `Utils.RGBToColorIsOr` | utils/utils.go:18 | the additions never carry: the result is the bitwise OR of the shifted bytes |
| `Utils.RGBToColorOfBytes` | utils/utils.go:17-19 | bytes shifted into the high half pack to `r<<16 \| g<<8 \| b` |
| `Utils.RGBToColorOfScaledBytes` | marquee/marquee.go:234 | the caller's `channel*255` scaling packs each byte `c` as `c-1` (0 stays 0), so white becomes `0xfefefe` |
| `GlyphTable.CharDict` | marquee/marquee.go:37-120 | every cut is 1 to 5 columns wide and lies within columns `[0, 286)`; the space (32) has no entry |
| `GlyphTable.LowercaseSharesUppercase` | marquee/marquee.go:38-89 | byte `97+i` has an entry, the same as byte `65+i`'s, for `i < 26` |
| `GlyphTable.CutsApart` | marquee/marquee.go:37-120 | two different cuts are disjoint, with at least one blank column between them |
| `Marquee.CutGlyph` | marquee/marquee.go:180-185 | the glyph is the cut's rectangle intersected with the sheet, rebased at the origin: empty exactly when they share no pixel, otherwise `min(width, sheet.width - offset) × min(5, sheet.height)`, with pixel `(x, y)` equal to sheet pixel `(offset + x, y)`; on a large enough sheet it is exactly `width × 5` |
| `Marquee.AtlasGlyphs` | marquee/marquee.go:179-187 | on a sheet of at least 286 × 5, the atlas has exactly the table's bytes (not the space); glyph `k` is `width_k × 5` and its pixel `(x, y)` is sheet pixel `(off_k + x, y)` |
| `Marquee.Marquee.constructor` | main.go:41 | the zero marquee has no glyphs, no driver and an empty trace |
| `Marquee.Marquee.Setup` | marquee/marquee.go:160-190 | stores the driver and broker settings; afterwards `charmap` is the atlas of the sheet; returns the driver's Init outcome |
| `Marquee.TextWidthAppend` | marquee/marquee.go:247-254 | the laid-out width of `a + b` is the width of `a` plus the width of `b` |
| `Marquee.TextWidthCounts` | marquee/marquee.go:245-254 | the laid-out width is `3 × (number of spaces)` plus `width + 1` for each byte found in the atlas |
| `Marquee.UnknownBytesTakeNoRoom` | marquee/marquee.go:245-272 | a message of unknown bytes only has width 0, so its canvas is 40 columns, and no pixel of it is lit |
| `Marquee.HiWidth` | marquee/marquee.go:245-254 | with the table's atlas, "HI" gives a composite width of 48 |
| `Marquee.Marquee.CompositeWidth` | marquee/marquee.go:245-254 | the width pass returns `40 + TextWidth(charmap, message)` |
| `Marquee.Draw` | marquee/marquee.go:267-269 | copies the glyph's pixels into the part of the rectangle `(pos,0)-(pos+width,5)` that both the glyph and the canvas cover; every other pixel is unchanged |
| `Marquee.Marquee.Compose` | marquee/marquee.go:256-272 | returns a fresh `compositeWidth × 5` canvas equal to `Pixel` at every point; the cursor ends at `20 + TextWidth`, which is `compositeWidth - 20` |
| `Marquee.GlyphInsideCanvas` | marquee/marquee.go:259-272 | every glyph rectangle starts at or after column 20 and ends, with its blank column, by `compositeWidth - 20`, so nothing is clipped |
| `Marquee.GlyphsApart` | marquee/marquee.go:262-270 | a later glyph starts at least one blank column after an earlier one ends |
| `Marquee.PixelInGlyph` | marquee/marquee.go:261-271 | inside glyph `k`'s rectangle, the canvas shows glyph `k`'s pixel |
| `Marquee.PixelOutsideGlyphs` | marquee/marquee.go:256-272 | a canvas pixel outside every glyph rectangle stays unlit |
| `Marquee.FillFrame` | marquee/marquee.go:290-301 | every LED slot is written exactly once: the LED of flipped panel point `(x, y)` is `color` if canvas pixel `(x+offset, y)` is lit and 0 otherwise |
| `Marquee.FrameLights` | marquee/marquee.go:290-299 | a frame has 100 slots, each holding `color` or 0; the slot of point `(x, y)` is `color` exactly when the sampled canvas pixel is lit |
| `Marquee.ScrollTraceFrames` | marquee/marquee.go:289-304 | a scroll of `n` frames is `2n` events; event `2j` is the sleep and event `2j+1` renders frame `j` |
| `Marquee.ScrollStaysOnCanvas` | marquee/marquee.go:289-293 | there are `compositeWidth - 20 >= 20` frames, and every sampled column `x + offset` lies in `[0, compositeWidth)` |
| `Marquee.Marquee.Display` | marquee/marquee.go:243-306 | appends exactly `compositeWidth - 20` sleep-then-render pairs, one per offset in order, each rendering that offset's frame; leaves the last frame in the buffer; always returns success |

## Left out

- `WaitForMessages` (marquee/marquee.go:192-241) is left out: it is network I/O and concurrency (the AMQP connection, queue declaration and consumer, JSON decoding, the goroutine and the `forever` channel). Its colour scaling is covered by `Utils.RGBToColorOfScaledBytes`.
- `utils.ParseHexColor` is not part of this model: it is called at marquee/marquee.go:233, but utils/utils.go does not define it.
- The font sheet is a parameter of `Setup`. Opening and decoding the PNG file, and `log.Fatal` on failure, are file I/O.
- The LED driver is hardware. It is modelled as `Driver`: a buffer, a fixed Init outcome, and a Render whose outcome is unconstrained on every call. Brightness, DMA and `Fini` are left out.
- `time.Sleep` is timing. It is kept only as a `Slept(ms)` event in the ghost trace.
- Colour conversions are foreign library calls: NRGBA cloning, `draw.Src` into RGBA, and the 16-bit `.RGBA()` reading. They are reduced to one lit/unlit bit per pixel, with lit meaning the red channel reads 65535. The canvas therefore holds only that bit.
- The `check` panic helper, color_wipe/color_wipe.go (a hardware demo) and main.go (flags and driver construction) are glue.
- Go's `int` is 64-bit. Coordinates, widths and offsets are unbounded integers here, since panel and message sizes are far from overflow.
- `Display` requires a driver whose buffer has exactly 100 slots, as main.go:36 configures it. In Go a missing driver or a shorter buffer panics, and a longer buffer is accepted with only its first 100 slots written; the model does not cover those cases.
- `Utils.IndexInRange`, `Utils.IndexRoundTrip`, `Utils.IndexInjective`, `Utils.CoordinatesRoundTrip`, `Utils.ColumnIndices` and `Utils.SerpentineAdjacency` are weaker than the code: they assume that `height` equals the window's height and that a flipped window starts at row 0. The mapper's behaviour outside these conditions is only shown by `Utils.FlipOutsideOffsetWindow`.
