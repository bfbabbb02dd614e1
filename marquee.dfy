/**
 * The marquee of the marquee package (marquee/marquee.go): Setup cuts the
 * glyph atlas from the font sheet, and Display lays a message out on an
 * off-screen canvas, then scrolls a 20 × 5 window across it, pushing one
 * frame per offset to the serpentine LED strip.
 */
module Marquee {
  import opened Utils
  import opened GlyphTable

  /** Rows of every glyph cut and of the canvas. */
  const Rows := 5
  /** The panel: `width` × `height` lights, `ledCounts` of them. */
  const PanelWidth := 20
  const PanelHeight := 5
  const LedCount := PanelWidth * PanelHeight
  /** The width pass starts at LeadMargin, the draw cursor at DrawStart. */
  const LeadMargin := 40
  const DrawStart := 20
  /** A space moves the cursor this many columns. */
  const SpaceAdvance := 3
  /** The rectangle Display hands to the mapper: the panel at the origin. */
  const Panel := Rect(0, 0, PanelWidth, PanelHeight)

  function Min(a: int, b: int): int
  {
    if a <= b then a else b
  }

  function Max(a: int, b: int): int
  {
    if a <= b then b else a
  }

  /**
   * A decoded image reduced to lit and unlit pixels, column by column
   * (pixels[x][y]). A pixel is lit when its red channel, read as 16 bits,
   * is 65535; colour otherwise plays no part in the layout.
   */
  datatype Bitmap = Bitmap(width: nat, height: nat, pixels: seq<seq<bool>>) {
    predicate Valid()
    {
      |pixels| == width && forall x :: 0 <= x < width ==> |pixels[x]| == height
    }

    /** Outside its bounds an image has the zero colour, which is unlit. */
    function At(x: int, y: int): bool
    {
      if 0 <= x < |pixels| && 0 <= y < |pixels[x]| then pixels[x][y] else false
    }
  }

  /**
   * One glyph, cut from the sheet and rebased at the origin. The cut is
   * clipped to the sheet's bounds (an empty intersection gives the empty
   * image); on a sheet of at least SheetWidth × Rows nothing is clipped.
   */
  function CutGlyph(sheet: Bitmap, cut: Cut): (glyph: Bitmap)
    ensures glyph.Valid()
    ensures glyph.width <= cut.width && glyph.height <= Rows
    // the glyph is empty exactly when the cut and the sheet share no pixel
    ensures glyph.width == 0 <==> glyph.height == 0
    ensures glyph.width == 0 <==> cut.width == 0 || sheet.width <= cut.offset || sheet.height == 0
    // otherwise it is the cut's rectangle intersected with the sheet's
    ensures glyph.width > 0 ==>
      glyph.width == Min(cut.width, sheet.width - cut.offset) && glyph.height == Min(Rows, sheet.height)
    ensures forall x, y :: 0 <= x < glyph.width && 0 <= y < glyph.height ==> glyph.At(x, y) == sheet.At(cut.offset + x, y)
    ensures 0 < cut.width && cut.offset + cut.width <= sheet.width && Rows <= sheet.height
            ==> glyph.width == cut.width && glyph.height == Rows
  {
    var w := Min(cut.offset + cut.width, sheet.width) - cut.offset;
    var h := Min(Rows, sheet.height);
    if w <= 0 || h <= 0 then Bitmap(0, 0, [])
    else Bitmap(w, h, seq(w, x => seq(h, y => sheet.At(cut.offset + x, y))))
  }

  /** The atlas Setup builds: every byte of the table mapped to its glyph. */
  function Atlas(sheet: Bitmap): map<byte, Bitmap>
  {
    map k | k in CharKeys :: CutGlyph(sheet, CharDict(k).value)
  }

  /**
   * On a sheet large enough for the table, glyph k is exactly its cut's width
   * and five rows tall, and its pixel (x, y) is the sheet's pixel
   * (offset + x, y). The space has no glyph.
   */
  lemma AtlasGlyphs(sheet: Bitmap, k: byte)
    requires sheet.Valid()
    requires SheetWidth <= sheet.width && Rows <= sheet.height
    ensures Space !in Atlas(sheet)
    ensures k in Atlas(sheet) <==> CharDict(k).Some?
    ensures k in Atlas(sheet) ==>
      var g, cut := Atlas(sheet)[k], CharDict(k).value;
      g.width == cut.width && g.height == Rows
      && forall x, y :: 0 <= x < g.width && 0 <= y < Rows ==> g.At(x, y) == sheet.At(cut.offset + x, y)
  {
  }

  /**
   * How far one byte moves the layout cursor: SpaceAdvance for a space, the
   * glyph's width plus one blank column for a byte in the atlas, nothing for
   * any other byte. The two tests are made independently, as in the source.
   */
  function Advance(charmap: map<byte, Bitmap>, c: byte): nat
  {
    (if c == Space then SpaceAdvance else 0) + (if c in charmap then charmap[c].width + 1 else 0)
  }

  /** The columns the message occupies, margins aside. */
  function TextWidth(charmap: map<byte, Bitmap>, message: seq<byte>): nat
  {
    if message == [] then 0
    else TextWidth(charmap, message[..|message| - 1]) + Advance(charmap, message[|message| - 1])
  }

  /** Laying out two pieces one after the other takes the sum of their widths. */
  lemma {:induction false} TextWidthAppend(charmap: map<byte, Bitmap>, a: seq<byte>, b: seq<byte>)
    ensures TextWidth(charmap, a + b) == TextWidth(charmap, a) + TextWidth(charmap, b)
    decreases |b|
  {
    if b != [] {
      var b' := b[..|b| - 1];
      assert (a + b)[..|a + b| - 1] == a + b';
      TextWidthAppend(charmap, a, b');
    } else {
      assert a + b == a;
    }
  }

  /** A prefix of the message is never wider than the message. */
  lemma TextWidthPrefix(charmap: map<byte, Bitmap>, message: seq<byte>, n: nat)
    requires n <= |message|
    ensures TextWidth(charmap, message[..n]) <= TextWidth(charmap, message)
  {
    assert message == message[..n] + message[n..];
    TextWidthAppend(charmap, message[..n], message[n..]);
  }

  /** How many spaces the message holds. */
  function Spaces(message: seq<byte>): nat
  {
    if message == [] then 0 else (if message[0] == Space then 1 else 0) + Spaces(message[1..])
  }

  /** The columns taken by the message's glyphs, each with its blank column. */
  function GlyphColumns(charmap: map<byte, Bitmap>, message: seq<byte>): nat
  {
    if message == [] then 0
    else (if message[0] in charmap then charmap[message[0]].width + 1 else 0) + GlyphColumns(charmap, message[1..])
  }

  /**
   * The laid-out width is SpaceAdvance per space plus width + 1 per byte
   * found in the atlas; bytes of neither kind add nothing.
   */
  lemma {:induction false} TextWidthCounts(charmap: map<byte, Bitmap>, message: seq<byte>)
    ensures TextWidth(charmap, message) == SpaceAdvance * Spaces(message) + GlyphColumns(charmap, message)
    decreases |message|
  {
    if message != [] {
      TextWidthCounts(charmap, message[1..]);
      assert message == [message[0]] + message[1..];
      TextWidthAppend(charmap, [message[0]], message[1..]);
      assert [message[0]][..0] == [];
    }
  }

  /**
   * A message with no space and no byte of the atlas lays out to nothing,
   * so its canvas is the bare margins, and no pixel of it is lit.
   */
  lemma {:induction false} UnknownBytesTakeNoRoom(charmap: map<byte, Bitmap>, message: seq<byte>)
    requires forall i :: 0 <= i < |message| ==> message[i] != Space && message[i] !in charmap
    ensures TextWidth(charmap, message) == 0
    ensures forall x, y :: !Pixel(charmap, message, x, y)
    decreases |message|
  {
    if message != [] {
      UnknownBytesTakeNoRoom(charmap, message[..|message| - 1]);
    }
    forall x, y
      ensures !Pixel(charmap, message, x, y)
    {
      PixelOutsideGlyphs(charmap, message, x, y);
    }
  }

  /** The draw cursor at byte k of the message, once a space has moved it. */
  function GlyphPos(charmap: map<byte, Bitmap>, message: seq<byte>, k: nat): int
    requires k < |message|
  {
    DrawStart + TextWidth(charmap, message[..k]) + (if message[k] == Space then SpaceAdvance else 0)
  }

  /**
   * The part of the rectangle (pos, 0)-(pos + width, Rows) that the glyph's
   * own bounds cover: what draw.Draw copies when it blits the glyph at pos.
   */
  predicate Covers(glyph: Bitmap, pos: int, x: int, y: int)
  {
    pos <= x < pos + glyph.width && 0 <= y < Min(Rows, glyph.height)
  }

  /** Pixel (x, y) belongs to the glyph blitted for byte k. */
  predicate InGlyph(charmap: map<byte, Bitmap>, message: seq<byte>, k: nat, x: int, y: int)
    requires k < |message|
  {
    message[k] in charmap && Covers(charmap[message[k]], GlyphPos(charmap, message, k), x, y)
  }

  /**
   * The canvas pixel (x, y) after the draw pass over the message: the pixel
   * of the last glyph blitted over it, unlit if none was.
   */
  ghost function Pixel(charmap: map<byte, Bitmap>, message: seq<byte>, x: int, y: int): bool
    decreases |message|
  {
    if message == [] then false
    else
      var k := |message| - 1;
      if InGlyph(charmap, message, k, x, y) then charmap[message[k]].At(x - GlyphPos(charmap, message, k), y)
      else Pixel(charmap, message[..k], x, y)
  }

  /**
   * Every glyph rectangle lies inside the canvas, between the 20 blank
   * columns on either side: from DrawStart to at most DrawStart plus the
   * laid-out width, one blank column included.
   */
  lemma GlyphInsideCanvas(charmap: map<byte, Bitmap>, message: seq<byte>, k: nat)
    requires k < |message| && message[k] in charmap
    ensures DrawStart <= GlyphPos(charmap, message, k)
    ensures GlyphPos(charmap, message, k) + charmap[message[k]].width + 1 <= DrawStart + TextWidth(charmap, message)
  {
    assert message[..k + 1][..k] == message[..k];
    TextWidthPrefix(charmap, message, k + 1);
  }

  /** A later glyph starts at least one blank column after an earlier one ends. */
  lemma GlyphsApart(charmap: map<byte, Bitmap>, message: seq<byte>, j: nat, k: nat)
    requires j < k < |message| && message[j] in charmap
    ensures GlyphPos(charmap, message, j) + charmap[message[j]].width + 1 <= GlyphPos(charmap, message, k)
  {
    GlyphInsideCanvas(charmap, message[..k], j);
    assert message[..k][..j] == message[..j];
  }

  /** Cutting the message after byte k leaves the positions of bytes up to k unchanged. */
  lemma GlyphPosOfPrefix(charmap: map<byte, Bitmap>, message: seq<byte>, n: nat, k: nat)
    requires k < n <= |message|
    ensures GlyphPos(charmap, message[..n], k) == GlyphPos(charmap, message, k)
  {
    assert message[..n][..k] == message[..k];
  }

  /** Inside the rectangle of glyph k the canvas shows that glyph's pixel. */
  lemma {:induction false} PixelInGlyph(charmap: map<byte, Bitmap>, message: seq<byte>, k: nat, x: int, y: int)
    requires k < |message| && InGlyph(charmap, message, k, x, y)
    ensures Pixel(charmap, message, x, y) == charmap[message[k]].At(x - GlyphPos(charmap, message, k), y)
    decreases |message|
  {
    var last := |message| - 1;
    if k < last {
      if message[last] in charmap {
        GlyphsApart(charmap, message, k, last);
      }
      assert !InGlyph(charmap, message, last, x, y);
      GlyphPosOfPrefix(charmap, message, last, k);
      PixelInGlyph(charmap, message[..last], k, x, y);
    }
  }

  /** Outside every glyph rectangle the canvas stays unlit. */
  lemma {:induction false} PixelOutsideGlyphs(charmap: map<byte, Bitmap>, message: seq<byte>, x: int, y: int)
    requires forall k :: 0 <= k < |message| ==> !InGlyph(charmap, message, k, x, y)
    ensures !Pixel(charmap, message, x, y)
    decreases |message|
  {
    if message != [] {
      var last := |message| - 1;
      forall k | 0 <= k < last
        ensures !InGlyph(charmap, message[..last], k, x, y)
      {
        GlyphPosOfPrefix(charmap, message, last, k);
        assert !InGlyph(charmap, message, k, x, y);
      }
      PixelOutsideGlyphs(charmap, message[..last], x, y);
    }
  }

  /** What Display does, in order: a pause of `ms` milliseconds, or a push of the LED buffer to the strip. */
  datatype Event = Slept(ms: int) | Rendered(frame: seq<uint32>)

  /**
   * The frame for one scroll offset: the light of panel point (x, y) shows
   * `color` when canvas pixel (x + offset, y) is lit and is black otherwise.
   */
  ghost function ExpectedFrame(charmap: map<byte, Bitmap>, message: seq<byte>, offset: int, color: uint32): seq<uint32>
  {
    seq(LedCount, i =>
      var p := IndexToCoordinates(Panel, PanelHeight, true, i);
      if Pixel(charmap, message, p.0 + offset, p.1) then color else 0)
  }

  /** The events of the first `frames` offsets: each a pause, then a render of that offset's frame. */
  ghost function ScrollTrace(charmap: map<byte, Bitmap>, message: seq<byte>, delay: int, color: uint32, frames: nat): seq<Event>
  {
    if frames == 0 then []
    else ScrollTrace(charmap, message, delay, color, frames - 1)
         + [Slept(delay), Rendered(ExpectedFrame(charmap, message, frames - 1, color))]
  }

  /**
   * Frame by frame: event 2j is the pause and event 2j + 1 renders the frame
   * of offset j, so each frame is rendered exactly once, after its pause.
   */
  lemma {:induction false} ScrollTraceFrames(charmap: map<byte, Bitmap>, message: seq<byte>, delay: int, color: uint32, frames: nat)
    ensures |ScrollTrace(charmap, message, delay, color, frames)| == 2 * frames
    ensures forall j :: 0 <= j < frames ==>
      ScrollTrace(charmap, message, delay, color, frames)[2 * j] == Slept(delay)
      && ScrollTrace(charmap, message, delay, color, frames)[2 * j + 1] == Rendered(ExpectedFrame(charmap, message, j, color))
  {
    if frames > 0 {
      ScrollTraceFrames(charmap, message, delay, color, frames - 1);
    }
  }

  /**
   * A frame holds `color` or black in each of its LedCount slots; the light
   * of panel point (x, y) is `color` exactly when canvas pixel
   * (x + offset, y) is lit (for a non-black color).
   */
  lemma FrameLights(charmap: map<byte, Bitmap>, message: seq<byte>, offset: int, color: uint32, x: int, y: int)
    requires 0 <= x < PanelWidth && 0 <= y < PanelHeight
    ensures |ExpectedFrame(charmap, message, offset, color)| == LedCount
    ensures forall i :: 0 <= i < LedCount ==>
      ExpectedFrame(charmap, message, offset, color)[i] == color || ExpectedFrame(charmap, message, offset, color)[i] == 0
    ensures 0 <= CoordinatesToIndex(Panel, x, y, PanelHeight, true) < LedCount
    ensures ExpectedFrame(charmap, message, offset, color)[CoordinatesToIndex(Panel, x, y, PanelHeight, true)]
            == if Pixel(charmap, message, x + offset, y) then color else 0
  {
    IndexInRange(Panel, x, y, PanelHeight, true);
    IndexRoundTrip(Panel, x, y, PanelHeight, true);
  }

  /**
   * The scroll runs LeadMargin + TextWidth - PanelWidth frames, never fewer
   * than 20, and every column it samples lies on the canvas.
   */
  lemma ScrollStaysOnCanvas(charmap: map<byte, Bitmap>, message: seq<byte>, offset: int, x: int)
    requires 0 <= offset < LeadMargin + TextWidth(charmap, message) - PanelWidth && 0 <= x < PanelWidth
    ensures LeadMargin + TextWidth(charmap, message) - PanelWidth >= 20
    ensures 0 <= x + offset < LeadMargin + TextWidth(charmap, message)
  {
  }

  /** The message "HI" on the table's atlas: 40 + (5 + 1) + (1 + 1) = 48 columns, so 28 frames. */
  lemma HiWidth(sheet: Bitmap)
    requires sheet.Valid()
    requires SheetWidth <= sheet.width && Rows <= sheet.height
    ensures LeadMargin + TextWidth(Atlas(sheet), [72, 73]) == 48
  {
    var atlas := Atlas(sheet);
    AtlasGlyphs(sheet, 72);
    AtlasGlyphs(sheet, 73);
    assert atlas[72].width == 5 && atlas[73].width == 1;
    var hi: seq<byte> := [72, 73];
    assert hi[..1] == [72] && hi[..1][..0] == [];
    assert TextWidth(atlas, hi[..1]) == 6;
  }

  /**
   * draw.Draw(canvas, (pos,0)-(pos+width,Rows), glyph, (0,0), draw.Src):
   * copies the glyph's pixels into the part of that rectangle the glyph and
   * the canvas both cover; everything else is left as it was.
   */
  method Draw(canvas: array2<bool>, glyph: Bitmap, pos: int)
    modifies canvas
    ensures forall x, y :: 0 <= x < canvas.Length0 && 0 <= y < canvas.Length1 ==>
      canvas[x, y] == if Covers(glyph, pos, x, y) then glyph.At(x - pos, y) else old(canvas[x, y])
  {
    var x0, x1 := Max(pos, 0), Min(pos + glyph.width, canvas.Length0);
    var y1 := Min(Min(Rows, glyph.height), canvas.Length1);
    var y := 0;
    while y < y1
      invariant 0 <= y <= Max(y1, 0)
      invariant forall a, b :: 0 <= a < canvas.Length0 && 0 <= b < canvas.Length1 ==>
        canvas[a, b] == if Covers(glyph, pos, a, b) && b < y then glyph.At(a - pos, b) else old(canvas[a, b])
    {
      var x := x0;
      while x < x1
        invariant x0 <= x <= Max(x1, x0)
        invariant forall a, b :: 0 <= a < canvas.Length0 && 0 <= b < canvas.Length1 ==>
          canvas[a, b] == if Covers(glyph, pos, a, b) && (b < y || (b == y && a < x)) then glyph.At(a - pos, b) else old(canvas[a, b])
      {
        canvas[x, y] := glyph.At(x - pos, y);
        x := x + 1;
      }
      y := y + 1;
    }
  }

  /**
   * One frame fill: every LED slot of the panel is written exactly once.
   * The light of panel point (x, y), flipped, shows `color` if canvas pixel
   * (x + offset, y) is lit and black otherwise.
   */
  method FillFrame(leds: array<uint32>, canvas: array2<bool>, offset: nat, color: uint32)
    requires leds.Length == LedCount && canvas.Length1 == Rows && offset + PanelWidth <= canvas.Length0
    modifies leds
    ensures forall x, y :: 0 <= x < PanelWidth && 0 <= y < PanelHeight ==>
      0 <= CoordinatesToIndex(Panel, x, y, PanelHeight, true) < LedCount
      && leds[CoordinatesToIndex(Panel, x, y, PanelHeight, true)] == if canvas[x + offset, y] then color else 0
    ensures forall i :: 0 <= i < LedCount ==>
      var p := IndexToCoordinates(Panel, PanelHeight, true, i);
      InWindow(Panel, p.0, p.1) && leds[i] == if canvas[p.0 + offset, p.1] then color else 0
  {
    for y := 0 to PanelHeight
      invariant forall a, b :: 0 <= a < PanelWidth && 0 <= b < y ==>
        leds[CoordinatesToIndex(Panel, a, b, PanelHeight, true)] == if canvas[a + offset, b] then color else 0
    {
      for x := 0 to PanelWidth
        invariant forall a, b :: 0 <= a < PanelWidth && 0 <= b < y ==>
          leds[CoordinatesToIndex(Panel, a, b, PanelHeight, true)] == if canvas[a + offset, b] then color else 0
        invariant forall a :: 0 <= a < x ==>
          leds[CoordinatesToIndex(Panel, a, y, PanelHeight, true)] == if canvas[a + offset, y] then color else 0
      {
        var drawColor: uint32 := if canvas[x + offset, y] then color else 0;
        IndexInRange(Panel, x, y, PanelHeight, true);
        forall a, b | 0 <= a < PanelWidth && 0 <= b < PanelHeight && (a, b) != (x, y)
          ensures CoordinatesToIndex(Panel, a, b, PanelHeight, true) != CoordinatesToIndex(Panel, x, y, PanelHeight, true)
        {
          if CoordinatesToIndex(Panel, a, b, PanelHeight, true) == CoordinatesToIndex(Panel, x, y, PanelHeight, true) {
            IndexInjective(Panel, PanelHeight, true, a, b, x, y);
          }
        }
        leds[CoordinatesToIndex(Panel, x, y, PanelHeight, true)] := drawColor;
      }
    }
    forall x, y | 0 <= x < PanelWidth && 0 <= y < PanelHeight
      ensures 0 <= CoordinatesToIndex(Panel, x, y, PanelHeight, true) < LedCount
    {
      IndexInRange(Panel, x, y, PanelHeight, true);
    }
    forall i | 0 <= i < LedCount
      ensures var p := IndexToCoordinates(Panel, PanelHeight, true, i);
              InWindow(Panel, p.0, p.1) && CoordinatesToIndex(Panel, p.0, p.1, PanelHeight, true) == i
    {
      CoordinatesRoundTrip(Panel, PanelHeight, true, i);
    }
  }

  /**
   * The LED strip driver (the wsEngine interface): the colour buffer of
   * channel 0, and the outcome the hardware gives to Init.
   */
  class Driver {
    const leds: array<uint32>
    const initFails: bool

    constructor (ledCount: nat, initFails: bool)
      ensures fresh(leds) && leds.Length == ledCount
      ensures this.initFails == initFails
    {
      leds := new uint32[ledCount](_ => 0);
      this.initFails := initFails;
    }

    method Init() returns (failed: bool)
      ensures failed == initFails
    {
      failed := initFails;
    }

    /**
     * Pushes the buffer to the strip; the buffer itself is not changed. Any
     * call may fail or succeed, independently of the calls before it.
     */
    method Render() returns (failed: bool)
    {
      failed :| true;
    }
  }

  class Marquee {
    var charmap: map<byte, Bitmap>
    var ws: Driver?
    var rabbitHost: string
    var rabbitPort: int
    var queue: string
    var username: string
    var password: string
    /** Every pause and every render Display has performed, in order. */
    ghost var trace: seq<Event>

    /** The zero value `&marquee.Marquee{}`: no glyphs and no driver yet. */
    constructor ()
      ensures charmap == map[] && ws == null && trace == []
    {
      charmap := map[];
      ws := null;
      rabbitHost, rabbitPort, queue, username, password := "", 0, "", "", "";
      trace := [];
    }

    /**
     * Records the driver and the broker settings, cuts every glyph of the
     * table from the decoded font sheet (in whatever order the table's keys
     * come), and returns the outcome of the driver's Init.
     */
    method Setup(ws: Driver, rabbitHost: string, queue: string, username: string, password: string, rabbitPort: int, sheet: Bitmap)
      returns (failed: bool)
      requires sheet.Valid()
      modifies this
      ensures this.ws == ws && this.rabbitHost == rabbitHost && this.rabbitPort == rabbitPort
      ensures this.queue == queue && this.username == username && this.password == password
      ensures charmap == Atlas(sheet)
      ensures trace == old(trace)
      ensures failed == ws.initFails
    {
      this.ws := ws;
      this.rabbitHost := rabbitHost;
      this.rabbitPort := rabbitPort;
      this.queue := queue;
      this.username := username;
      this.password := password;
      charmap := map[];
      var pending := CharKeys;
      while pending != {}
        invariant pending <= CharKeys
        invariant charmap.Keys == CharKeys - pending
        invariant forall k :: k in charmap ==> charmap[k] == CutGlyph(sheet, CharDict(k).value)
        invariant this.ws == ws && this.rabbitHost == rabbitHost && this.rabbitPort == rabbitPort
        invariant this.queue == queue && this.username == username && this.password == password
        invariant trace == old(trace)
        decreases |pending|
      {
        var k :| k in pending;
        var c := CharDict(k).value;
        charmap := charmap[k := CutGlyph(sheet, c)];
        pending := pending - {k};
      }
      failed := ws.Init();
    }

    /** The width pass: the canvas width for the message. */
    method CompositeWidth(message: seq<byte>) returns (compositeWidth: nat)
      ensures compositeWidth == LeadMargin + TextWidth(charmap, message)
    {
      compositeWidth := LeadMargin;
      for i := 0 to |message|
        invariant compositeWidth == LeadMargin + TextWidth(charmap, message[..i])
      {
        assert message[..i + 1][..i] == message[..i];
        var c := message[i];
        if c == Space {
          compositeWidth := compositeWidth + SpaceAdvance;
        }
        if c in charmap {
          compositeWidth := compositeWidth + charmap[c].width + 1;
        }
      }
      assert message[..|message|] == message;
    }

    /**
     * The draw pass: a fresh, unlit canvas of compositeWidth × Rows with the
     * message's glyphs blitted from DrawStart on; returns the canvas and the
     * final cursor.
     */
    method Compose(message: seq<byte>, compositeWidth: nat) returns (canvas: array2<bool>, currentPos: int)
      ensures fresh(canvas) && canvas.Length0 == compositeWidth && canvas.Length1 == Rows
      ensures currentPos == DrawStart + TextWidth(charmap, message)
      ensures forall x, y :: 0 <= x < compositeWidth && 0 <= y < Rows ==> canvas[x, y] == Pixel(charmap, message, x, y)
    {
      canvas := new bool[compositeWidth, Rows]((x, y) => false);
      currentPos := DrawStart;
      for i := 0 to |message|
        invariant currentPos == DrawStart + TextWidth(charmap, message[..i])
        invariant forall x, y :: 0 <= x < compositeWidth && 0 <= y < Rows ==> canvas[x, y] == Pixel(charmap, message[..i], x, y)
      {
        ghost var before := message[..i];
        assert message[..i + 1][..i] == before;
        var c := message[i];
        if c == Space {
          currentPos := currentPos + SpaceAdvance;
        }
        assert currentPos == GlyphPos(charmap, message[..i + 1], i);
        if c in charmap {
          var glyph := charmap[c];
          Draw(canvas, glyph, currentPos);
          currentPos := currentPos + glyph.width + 1;
        }
      }
      assert message[..|message|] == message;
    }

    /**
     * Lays the message out, then scrolls: for each offset from 0 while
     * offset < compositeWidth - PanelWidth, fills the LED buffer from the
     * window at that offset, sleeps `delay` milliseconds and renders. The
     * render's error is discarded and Display always succeeds.
     */
    method Display(message: seq<byte>, delay: int, color: uint32) returns (failed: bool)
      requires ws != null && ws.leds.Length == LedCount
      modifies this`trace, ws.leds
      ensures !failed
      ensures trace == old(trace) + ScrollTrace(charmap, message, delay, color, LeadMargin + TextWidth(charmap, message) - PanelWidth)
      ensures ws.leds[..] == ExpectedFrame(charmap, message, LeadMargin + TextWidth(charmap, message) - PanelWidth - 1, color)
    {
      var compositeWidth := CompositeWidth(message);
      var canvas, currentPos := Compose(message, compositeWidth);
      assert currentPos == compositeWidth - DrawStart;
      var offset := 0;
      while offset < compositeWidth - PanelWidth
        invariant 0 <= offset <= compositeWidth - PanelWidth
        invariant forall x, y :: 0 <= x < compositeWidth && 0 <= y < Rows ==> canvas[x, y] == Pixel(charmap, message, x, y)
        invariant trace == old(trace) + ScrollTrace(charmap, message, delay, color, offset)
        invariant offset > 0 ==> ws.leds[..] == ExpectedFrame(charmap, message, offset - 1, color)
      {
        FillFrame(ws.leds, canvas, offset, color);
        forall i | 0 <= i < LedCount
          ensures ws.leds[..][i] == ExpectedFrame(charmap, message, offset, color)[i]
        {
          var p := IndexToCoordinates(Panel, PanelHeight, true, i);
          assert canvas[p.0 + offset, p.1] == Pixel(charmap, message, p.0 + offset, p.1);
        }
        assert ws.leds[..] == ExpectedFrame(charmap, message, offset, color);
        trace := trace + [Slept(delay)];
        var renderFailed := ws.Render();
        trace := trace + [Rendered(ws.leds[..])];
        offset := offset + 1;
      }
      failed := false;
    }
  }
}
