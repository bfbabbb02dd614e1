/**
 * The helpers of the utils package (utils/utils.go): the serpentine
 * mapping from panel coordinates to the index of a light on the strip, and
 * the packing of three 16-bit colour channels into one 0xRRGGBB word.
 */
module Utils {

  /** Go's uint32: a 32-bit word whose arithmetic wraps around. */
  type uint32 = bv32

  /** Go's image.Rectangle: the half-open box [minX, maxX) × [minY, maxY). */
  datatype Rect = Rect(minX: int, minY: int, maxX: int, maxY: int)

  /**
   * A window the mapper addresses correctly: the serpentine period `height`
   * is the window's own height, and a flipped window starts at row 0, since
   * the flip mirrors about bounds.maxY alone (the only call site passes the
   * panel at the origin).
   */
  predicate IsWindow(bounds: Rect, height: int, flipY: bool)
  {
    bounds.minX <= bounds.maxX && 0 < height && height == bounds.maxY - bounds.minY
    && (flipY ==> bounds.minY == 0)
  }

  predicate InWindow(bounds: Rect, x: int, y: int)
  {
    bounds.minX <= x < bounds.maxX && bounds.minY <= y < bounds.maxY
  }

  /** The number of lights in the window. */
  function Area(bounds: Rect): int
  {
    (bounds.maxX - bounds.minX) * (bounds.maxY - bounds.minY)
  }

  /**
   * The strip runs up one column and down the next. With flipY the row is
   * mirrored first, about bounds.maxY (not about `height`); the column
   * direction is chosen by the parity of the raw x, not of x - bounds.minX.
   * Go's `x%2 == 0` and Dafny's `x % 2 == 0` agree on every integer.
   */
  function CoordinatesToIndex(bounds: Rect, x: int, y: int, height: int, flipY: bool): (i: int)
    // a point of the window lands in its column's block of `height` indices
    ensures IsWindow(bounds, height, flipY) && InWindow(bounds, x, y) ==>
      0 <= i - (x - bounds.minX) * height < height
  {
    var y := if flipY then (bounds.maxY - 1) - y else y;
    if x % 2 == 0 then (x - bounds.minX) * height + (y - bounds.minY)
    else (x - bounds.minX) * height + (height - 1) - (y - bounds.minY)
  }

  /**
   * The inverse of CoordinatesToIndex: the light with index i sits in column
   * i / height, at position i % height along that column.
   */
  function IndexToCoordinates(bounds: Rect, height: int, flipY: bool, i: int): (p: (int, int))
    requires 0 < height
  {
    var x := bounds.minX + i / height;
    var along := if x % 2 == 0 then i % height else height - 1 - i % height;
    var y := bounds.minY + along;
    (x, if flipY then (bounds.maxY - 1) - y else y)
  }

  /** q * h + r, with 0 <= r < h, has quotient q and remainder r. */
  lemma DivModOf(q: int, r: int, h: int)
    requires 0 <= r < h
    ensures (q * h + r) / h == q && (q * h + r) % h == r
  {
    var n := q * h + r;
    var d := q - n / h;
    assert n == (n / h) * h + n % h;
    assert d * h == n % h - r;
    if d > 0 {
      MulMonotone(1, d, h);
    } else if d < 0 {
      MulMonotone(d, -1, h);
    }
  }

  lemma MulMonotone(a: int, b: int, h: int)
    requires a <= b && 0 <= h
    ensures a * h <= b * h
  {
    assert b * h - a * h == (b - a) * h;
  }

  /** Where the index of a window point lies: its column times the period, plus its place along the column. */
  lemma IndexSplit(bounds: Rect, x: int, y: int, height: int, flipY: bool)
    requires IsWindow(bounds, height, flipY) && InWindow(bounds, x, y)
    ensures var along := CoordinatesToIndex(bounds, x, y, height, flipY) - (x - bounds.minX) * height;
            0 <= along < height
  {
  }

  /** Every point of the window is sent into [0, Area). */
  lemma IndexInRange(bounds: Rect, x: int, y: int, height: int, flipY: bool)
    requires IsWindow(bounds, height, flipY) && InWindow(bounds, x, y)
    ensures 0 <= CoordinatesToIndex(bounds, x, y, height, flipY) < Area(bounds)
  {
    var col := x - bounds.minX;
    IndexSplit(bounds, x, y, height, flipY);
    MulMonotone(0, col, height);
    MulMonotone(col + 1, bounds.maxX - bounds.minX, height);
  }

  /** Reading back the coordinates of a point's index gives the point. */
  lemma IndexRoundTrip(bounds: Rect, x: int, y: int, height: int, flipY: bool)
    requires IsWindow(bounds, height, flipY) && InWindow(bounds, x, y)
    ensures IndexToCoordinates(bounds, height, flipY, CoordinatesToIndex(bounds, x, y, height, flipY)) == (x, y)
  {
    var col := x - bounds.minX;
    var i := CoordinatesToIndex(bounds, x, y, height, flipY);
    IndexSplit(bounds, x, y, height, flipY);
    DivModOf(col, i - col * height, height);
  }

  /** No two points of the window share a light. */
  lemma IndexInjective(bounds: Rect, height: int, flipY: bool, x1: int, y1: int, x2: int, y2: int)
    requires IsWindow(bounds, height, flipY) && InWindow(bounds, x1, y1) && InWindow(bounds, x2, y2)
    requires CoordinatesToIndex(bounds, x1, y1, height, flipY) == CoordinatesToIndex(bounds, x2, y2, height, flipY)
    ensures x1 == x2 && y1 == y2
  {
    IndexRoundTrip(bounds, x1, y1, height, flipY);
    IndexRoundTrip(bounds, x2, y2, height, flipY);
  }

  /** Every index in [0, Area) is the light of exactly the window point IndexToCoordinates names. */
  lemma CoordinatesRoundTrip(bounds: Rect, height: int, flipY: bool, i: int)
    requires IsWindow(bounds, height, flipY) && 0 <= i < Area(bounds)
    ensures var p := IndexToCoordinates(bounds, height, flipY, i);
            InWindow(bounds, p.0, p.1) && CoordinatesToIndex(bounds, p.0, p.1, height, flipY) == i
  {
    var col, r := i / height, i % height;
    assert i == col * height + r;
    if col < 0 {
      MulMonotone(col, -1, height);
    }
    if col >= bounds.maxX - bounds.minX {
      MulMonotone(bounds.maxX - bounds.minX, col, height);
    }
  }

  /**
   * Column x holds exactly the indices [(x - minX) * height, (x - minX + 1) * height):
   * each of them is the light of some row of the column, and no other index is.
   */
  lemma ColumnIndices(bounds: Rect, height: int, flipY: bool, x: int, i: int)
    requires IsWindow(bounds, height, flipY) && bounds.minX <= x < bounds.maxX
    ensures (exists y :: InWindow(bounds, x, y) && CoordinatesToIndex(bounds, x, y, height, flipY) == i)
        <==> (x - bounds.minX) * height <= i < (x - bounds.minX + 1) * height
  {
    var col := x - bounds.minX;
    if exists y :: InWindow(bounds, x, y) && CoordinatesToIndex(bounds, x, y, height, flipY) == i {
      var y :| InWindow(bounds, x, y) && CoordinatesToIndex(bounds, x, y, height, flipY) == i;
      IndexSplit(bounds, x, y, height, flipY);
    }
    if col * height <= i < (col + 1) * height {
      DivModOf(col, i - col * height, height);
      var p := IndexToCoordinates(bounds, height, flipY, i);
      assert p.0 == x;
      MulMonotone(col + 1, bounds.maxX - bounds.minX, height);
      MulMonotone(0, col, height);
      CoordinatesRoundTrip(bounds, height, flipY, i);
    }
  }

  /** Flipping mirrors the row about bounds.maxY before the serpentine mapping. */
  lemma FlipSymmetry(bounds: Rect, x: int, y: int, height: int)
    ensures CoordinatesToIndex(bounds, x, y, height, true) == CoordinatesToIndex(bounds, x, (bounds.maxY - 1) - y, height, false)
  {
  }

  /**
   * The flip mirrors about bounds.maxY alone: in a window that does not
   * start at row 0, a flipped point can land outside the window's indices.
   */
  lemma FlipOutsideOffsetWindow()
    ensures var bounds := Rect(0, 1, 1, 3);
            InWindow(bounds, 0, 2) && CoordinatesToIndex(bounds, 0, 2, 2, true) == -1
  {
  }

  /**
   * On a window at the origin without flip, an even column starts at the
   * bottom row and runs up (the index grows with y), an odd one starts at
   * the top row and runs down; this holds for a single row too.
   */
  lemma ColumnDirection(w: int, h: int, x: int, y: int)
    requires 0 <= x < w && 0 <= y < h
    ensures var bounds := Rect(0, 0, w, h);
            CoordinatesToIndex(bounds, x, if x % 2 == 0 then 0 else h - 1, h, false) == x * h
            && CoordinatesToIndex(bounds, x, y, h, false) == x * h + (if x % 2 == 0 then y else h - 1 - y)
            && (y + 1 < h ==>
                CoordinatesToIndex(bounds, x, y + 1, h, false) == CoordinatesToIndex(bounds, x, y, h, false) + (if x % 2 == 0 then 1 else -1))
  {
  }

  function Abs(n: int): nat
  {
    if n < 0 then -n else n
  }

  /** The light at position r along column col: IndexToCoordinates read through quotient and remainder. */
  lemma IndexToCoordinatesAt(bounds: Rect, height: int, flipY: bool, col: int, r: int)
    requires 0 <= r < height
    ensures var x := bounds.minX + col;
            var y := bounds.minY + (if x % 2 == 0 then r else height - 1 - r);
            IndexToCoordinates(bounds, height, flipY, col * height + r) == (x, if flipY then (bounds.maxY - 1) - y else y)
  {
    DivModOf(col, r, height);
  }

  /** Two consecutive positions along one column are neighbouring rows. */
  lemma AdjacentAlongColumn(bounds: Rect, height: int, flipY: bool, col: int, r: int)
    requires 0 <= r && r + 1 < height
    ensures var p, q := IndexToCoordinates(bounds, height, flipY, col * height + r), IndexToCoordinates(bounds, height, flipY, col * height + r + 1);
            p.0 == q.0 && Abs(p.1 - q.1) == 1
  {
    IndexToCoordinatesAt(bounds, height, flipY, col, r);
    IndexToCoordinatesAt(bounds, height, flipY, col, r + 1);
  }

  /** The last position of one column and the first of the next are side by side on one row. */
  lemma AdjacentAcrossColumns(bounds: Rect, height: int, flipY: bool, col: int)
    requires 0 < height
    ensures var p, q := IndexToCoordinates(bounds, height, flipY, col * height + height - 1), IndexToCoordinates(bounds, height, flipY, (col + 1) * height);
            q.0 == p.0 + 1 && p.1 == q.1
  {
    IndexToCoordinatesAt(bounds, height, flipY, col, height - 1);
    IndexToCoordinatesAt(bounds, height, flipY, col + 1, 0);
    assert (bounds.minX + col + 1) % 2 != (bounds.minX + col) % 2;
  }

  /** Consecutive lights on the strip are neighbours on the panel. */
  lemma SerpentineAdjacency(bounds: Rect, height: int, flipY: bool, i: int)
    requires IsWindow(bounds, height, flipY) && 0 <= i && i + 1 < Area(bounds)
    ensures var p, q := IndexToCoordinates(bounds, height, flipY, i), IndexToCoordinates(bounds, height, flipY, i + 1);
            Abs(p.0 - q.0) + Abs(p.1 - q.1) == 1
  {
    var col, r := i / height, i % height;
    assert i == col * height + r;
    if r + 1 < height {
      AdjacentAlongColumn(bounds, height, flipY, col, r);
    } else {
      assert (col + 1) * height == i + 1;
      AdjacentAcrossColumns(bounds, height, flipY, col);
    }
  }

  /**
   * Packs the high bytes of three 16-bit channels into 0xRRGGBB. Go's `<<`
   * binds tighter than `+`; the parentheses make that explicit.
   */
  function RGBToColor(r: uint32, g: uint32, b: uint32): (c: uint32)
    ensures c < 0x100_0000
    ensures (c >> 16) & 0xff == (r >> 8) & 0xff
    ensures (c >> 8) & 0xff == (g >> 8) & 0xff
    ensures c & 0xff == (b >> 8) & 0xff
  {
    (((r >> 8) & 0xff) << 16) + (((g >> 8) & 0xff) << 8) + ((b >> 8) & 0xff)
  }

  /** The three bytes occupy disjoint bits, so the additions never carry. */
  lemma RGBToColorIsOr(r: uint32, g: uint32, b: uint32)
    ensures RGBToColor(r, g, b) == (((r >> 8) & 0xff) << 16) | (((g >> 8) & 0xff) << 8) | ((b >> 8) & 0xff)
  {
  }

  /** Byte channels shifted into the high half come out as 0xRRGGBB. */
  lemma RGBToColorOfBytes(r: uint32, g: uint32, b: uint32)
    requires r < 256 && g < 256 && b < 256
    ensures RGBToColor(r << 8, g << 8, b << 8) == (r << 16) | (g << 8) | b
  {
  }

  /** The channel byte a 0..255 value becomes when the caller scales it by 255 rather than 257. */
  function Scaled(v: uint32): (s: uint32)
    requires v < 256
  {
    if v == 0 then 0 else v - 1
  }

  /**
   * The caller passes each 8-bit channel multiplied by 255; the packed byte
   * is then one less than the channel (0 stays 0), so 0xff becomes 0xfe.
   */
  lemma RGBToColorOfScaledBytes(r: uint32, g: uint32, b: uint32)
    requires r < 256 && g < 256 && b < 256
    ensures RGBToColor(r * 255, g * 255, b * 255) == (Scaled(r) << 16) | (Scaled(g) << 8) | Scaled(b)
    ensures RGBToColor(0xff * 255, 0xff * 255, 0xff * 255) == 0xfefefe
  {
  }
}
