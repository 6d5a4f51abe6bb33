/**
 * The 1-bit framebuffer drawing of components/bitui/bitui.c.  Pixel (x, y)
 * lives in byte `y * width + x / 8`, the most significant bit being the
 * leftmost pixel; a drawing call sets the pixels it covers to the
 * context's colour and keeps every other bit.  Offsets handed to
 * bitui_colorize are `uint16_t`, so the model reduces them modulo 2^16.
 */
module Bitui {

  /** Every `uint16_t` is below this. */
  const ShortLimit: int := 0x1_0000

  /** The conversion of an int to a `uint16_t` parameter or local. */
  function Short(v: int): (r: int)
    ensures 0 <= r < ShortLimit
    ensures 0 <= v < ShortLimit ==> r == v
  {
    v % ShortLimit
  }

  /** `bitui_point_t`: two `uint16_t` coordinates. */
  datatype Point = Point(x: int, y: int)

  /** The bit of a byte that holds pixel column `r` of that byte (0 is the leftmost, the most significant bit). */
  function PixelMask(r: int): (m: bv8)
    requires 0 <= r < 8
    ensures SingleBit(m)
  {
    if r == 0 then 0x80 else if r == 1 then 0x40 else if r == 2 then 0x20 else if r == 3 then 0x10
    else if r == 4 then 0x08 else if r == 5 then 0x04 else if r == 6 then 0x02 else 0x01
  }

  predicate SingleBit(m: bv8) {
    m == 0x80 || m == 0x40 || m == 0x20 || m == 0x10 || m == 0x08 || m == 0x04 || m == 0x02 || m == 0x01
  }

  /** Byte b has one of the bits of m set. */
  predicate Has(b: bv8, m: bv8) {
    b & m != 0
  }

  predicate Bit(b: bv8, r: int)
    requires 0 <= r < 8
  {
    Has(b, PixelMask(r))
  }

  /** The byte bitui_colorize writes: the mask's bits take the colour, the others stay. */
  function Colorized(b: bv8, mask: bv8, color: bool): bv8 {
    var temp := b & !mask;
    if color then temp | mask else temp
  }

  /** bitui_colorize sets exactly the masked pixels of the byte to the colour. */
  lemma ColorizedBits(b: bv8, mask: bv8, color: bool, r: int)
    requires 0 <= r < 8
    ensures Bit(Colorized(b, mask, color), r) == if Bit(mask, r) then color else Bit(b, r)
  {
    ColorizedSingle(b, mask, color, PixelMask(r));
  }

  lemma ColorizedSingle(b: bv8, mask: bv8, color: bool, m: bv8)
    requires SingleBit(m)
    ensures Has(mask, m) ==> Has(Colorized(b, mask, color), m) == color
    ensures !Has(mask, m) ==> Has(Colorized(b, mask, color), m) == Has(b, m)
  {
  }

  /** The pixels a framebuffer shows: pixel (x, y) is bit `x % 8` of byte `y * width + x / 8`. */
  predicate Pixel(fb: seq<bv8>, width: int, x: int, y: int)
    requires 0 <= x && 0 <= y * width + x / 8 < |fb|
  {
    Bit(fb[y * width + x / 8], x % 8)
  }

  // ------------------------------------------------------------------
  // Horizontal lines
  // ------------------------------------------------------------------

  function Clamp(v: int): (r: int)
    ensures 0 <= r <= 8
  {
    if v < 0 then 0 else if v > 8 then 8 else v
  }

  /** `0xff >> n`: the pixels of a byte from column n on. */
  function RightOnes(n: int): bv8
    requires 0 <= n <= 8
  {
    if n == 0 then 0xFF else if n == 1 then 0x7F else if n == 2 then 0x3F else if n == 3 then 0x1F
    else if n == 4 then 0x0F else if n == 5 then 0x07 else if n == 6 then 0x03 else if n == 7 then 0x01 else 0x00
  }

  /** `0xff << (8 - n)` cut to a byte: the first n pixels of a byte. */
  function LeftOnes(n: int): bv8
    requires 0 <= n <= 8
  {
    !RightOnes(n)
  }

  /** The shifts bitui_hline computes its masks with. */
  lemma OnesShifts(n: int)
    requires 0 <= n <= 8
    ensures (0xFF as bv8) >> n == RightOnes(n)
    ensures (0xFF as bv8) << (8 - n) == LeftOnes(n)
  {
    if n == 0 {} else if n == 1 {} else if n == 2 {} else if n == 3 {}
    else if n == 4 {} else if n == 5 {} else if n == 6 {} else if n == 7 {} else {}
  }

  /** The mask of pixel columns `lo .. hi - 1` of one byte, in the form bitui_hline computes it. */
  function ByteMask(lo: int, hi: int): bv8
    requires 0 <= lo <= hi <= 8
  {
    RightOnes(lo) ^ RightOnes(hi)
  }

  lemma ByteMaskBits(lo: int, hi: int, r: int)
    requires 0 <= lo <= hi <= 8 && 0 <= r < 8
    ensures Bit(ByteMask(lo, hi), r) <==> lo <= r < hi
  {
    var m := PixelMask(r);
    ShiftedOnesBits(lo, r);
    ShiftedOnesBits(hi, r);
    XorSingle(RightOnes(lo), RightOnes(hi), m);
    assert Bit(ByteMask(lo, hi), r) == Has(RightOnes(lo) ^ RightOnes(hi), m);
  }

  lemma ShiftedOnesBits(n: int, r: int)
    requires 0 <= n <= 8 && 0 <= r < 8
    ensures Bit(RightOnes(n), r) <==> n <= r
  {
    if n == 0 {} else if n == 1 {} else if n == 2 {} else if n == 3 {}
    else if n == 4 {} else if n == 5 {} else if n == 6 {} else if n == 7 {} else {}
  }

  lemma XorSingle(a: bv8, b: bv8, m: bv8)
    requires SingleBit(m)
    ensures Has(a ^ b, m) <==> Has(a, m) != Has(b, m)
  {
  }

  /** The pixels of byte column `b` of a row that lie in `[x1, x2)`. */
  function RowMask(x1: int, x2: int, b: int): bv8
    requires x1 <= x2
  {
    ByteMask(Clamp(x1 - 8 * b), Clamp(x2 - 8 * b))
  }

  /** A bit of RowMask is set exactly when its pixel lies in `[x1, x2)`. */
  lemma RowMaskBits(x1: int, x2: int, b: int, r: int)
    requires x1 <= x2 && 0 <= r < 8
    ensures Bit(RowMask(x1, x2, b), r) <==> x1 <= 8 * b + r < x2
  {
    ByteMaskBits(Clamp(x1 - 8 * b), Clamp(x2 - 8 * b), r);
  }

  /** `row_start`: the byte of pixel (0, y), as a `uint16_t`. */
  function RowStart(y: int, width: int): int {
    Short(y * width)
  }

  /** The last byte bitui_hline writes, relative to the row start. */
  function LastByte(x1: int, x2: int): int {
    if x1 / 8 == x2 / 8 || x2 % 8 != 0 then x2 / 8 else x2 / 8 - 1
  }

  /** What bitui_hline needs: `x1 <= x2` (its assertion) and every byte it writes inside the framebuffer. */
  predicate HLineFits(width: int, length: int, y: int, x1: int, x2: int) {
    0 <= y < ShortLimit && 0 <= x1 <= x2 < ShortLimit && RowStart(y, width) + LastByte(x1, x2) < length
  }

  /** The framebuffer after bitui_hline(y, x1, x2). */
  function HLineImage(fb: seq<bv8>, width: int, color: bool, y: int, x1: int, x2: int): (r: seq<bv8>)
    requires x1 <= x2
    ensures |r| == |fb|
  {
    seq(|fb|, k requires 0 <= k < |fb| => RowByte(fb[k], RowStart(y, width), x1, x2, color, k))
  }

  /** Byte k of the framebuffer once the pixels `[x1, x2)` of the row starting at byte `rowStart` are drawn. */
  function RowByte(b: bv8, rowStart: int, x1: int, x2: int, color: bool, k: int): bv8
    requires x1 <= x2
  {
    if k >= rowStart then Colorized(b, RowMask(x1, x2, k - rowStart), color) else b
  }

  /**
   * On a framebuffer whose rows hold `width` bytes and with `x2` inside the
   * row, bitui_hline sets exactly the pixels `[x1, x2)` of row `y`.
   */
  lemma HLineDrawsExactly(fb: seq<bv8>, width: int, color: bool, y: int, x1: int, x2: int, xx: int, yy: int)
    requires 0 < width && 0 <= y && y * width < ShortLimit && 0 <= x1 <= x2 <= 8 * width
    requires 0 <= xx < 8 * width && 0 <= yy && yy * width + xx / 8 < |fb|
    ensures Pixel(HLineImage(fb, width, color, y, x1, x2), width, xx, yy)
         == if yy == y && x1 <= xx < x2 then color else Pixel(fb, width, xx, yy)
  {
    var k := yy * width + xx / 8;
    var rowStart := RowStart(y, width);
    assert rowStart == y * width;
    if yy < y {
      RowsOrdered(yy, y, width, xx / 8);
    } else if yy > y {
      RowsOrdered(y, yy, width, 0);
    }
    assert yy < y <==> k < rowStart;
    assert yy == y ==> k - rowStart == xx / 8;
    assert yy > y ==> k - rowStart >= width;
    var image := HLineImage(fb, width, color, y, x1, x2);
    assert image[k] == RowByte(fb[k], rowStart, x1, x2, color, k);
    RowByteBits(fb[k], rowStart, x1, x2, color, k, xx % 8);
  }

  /** Bit r of byte k of a drawn row is the colour exactly when its pixel lies in `[x1, x2)`. */
  lemma RowByteBits(b: bv8, rowStart: int, x1: int, x2: int, color: bool, k: int, r: int)
    requires x1 <= x2 && 0 <= r < 8
    ensures Bit(RowByte(b, rowStart, x1, x2, color, k), r)
         == if k >= rowStart && x1 <= 8 * (k - rowStart) + r < x2 then color else Bit(b, r)
  {
    if k >= rowStart {
      ColorizedBits(b, RowMask(x1, x2, k - rowStart), color, r);
      RowMaskBits(x1, x2, k - rowStart, r);
    }
  }

  lemma {:induction false} MulMonotone(a: int, b: int, c: int)
    requires 0 <= a <= b && 0 <= c
    ensures a * c <= b * c
  {
    if a < b {
      MulMonotone(a, b - 1, c);
      assert (b - 1) * c == b * c - c;
    }
  }

  /** Every byte of a row lies before the next row, and a later row starts at least `width` bytes later. */
  lemma RowsOrdered(lo: int, hi: int, width: int, c: int)
    requires 0 <= lo < hi && 0 < width && 0 <= c < width
    ensures lo * width + c < hi * width
    ensures hi * width - lo * width >= width
  {
    MulMonotone(lo + 1, hi, width);
    assert (lo + 1) * width == lo * width + width;
  }

  /** A byte offset names one row and one byte of that row. */
  lemma RowsDistinct(y: int, c: int, yy: int, cc: int, width: int)
    requires 0 <= y && 0 <= yy && 0 < width && 0 <= c < width && 0 <= cc < width
    requires y * width + c == yy * width + cc
    ensures y == yy && c == cc
  {
    if y < yy {
      RowsOrdered(y, yy, width, c);
    } else if yy < y {
      RowsOrdered(yy, y, width, cc);
    }
  }

  /** The masks bitui_hline computes are RowMask at the bytes it writes, and RowMask is empty elsewhere. */
  lemma RowMaskCases(x1: int, x2: int, b: int)
    requires 0 <= x1 <= x2
    ensures b < x1 / 8 || b > x2 / 8 ==> RowMask(x1, x2, b) == 0
    ensures x1 / 8 == b == x2 / 8 ==> RowMask(x1, x2, b) == (RightOnes(x1 % 8)) ^ (RightOnes(x2 % 8))
    ensures b == x1 / 8 < x2 / 8 ==> RowMask(x1, x2, b) == RightOnes(x1 % 8)
    ensures x1 / 8 < b < x2 / 8 ==> RowMask(x1, x2, b) == 0xFF
    ensures x1 / 8 < b == x2 / 8 && x2 % 8 != 0 ==> RowMask(x1, x2, b) == LeftOnes(x2 % 8)
    ensures x1 / 8 < b == x2 / 8 && x2 % 8 == 0 ==> RowMask(x1, x2, b) == 0
  {
  }

  lemma ColorizedNothing(b: bv8, color: bool)
    ensures Colorized(b, 0, color) == b
  {
  }

  lemma ColorizedAll(b: bv8, color: bool)
    ensures Colorized(b, 0xFF, color) == if color then 0xFF else 0x00
  {
  }

  // ------------------------------------------------------------------
  // Vertical lines
  // ------------------------------------------------------------------

  /** `col`: the byte column of pixel column x, as the `uint8_t` it is stored in. */
  function Column(x: int): int {
    (x / 8) % 0x100
  }

  /** What bitui_vline needs: `y1 <= y2` (its assertion), a loop that ends, every byte it writes inside the framebuffer. */
  predicate VLineFits(width: int, length: int, x: int, y1: int, y2: int) {
    0 <= x < ShortLimit && 0 <= y1 <= y2 < ShortLimit - 1 && y2 * width + Column(x) < length
  }

  /** The framebuffer after bitui_vline(x, y1, y2): the rows `y1 .. y2` colorized one after the other. */
  function VLineImage(fb: seq<bv8>, width: int, color: bool, x: int, y1: int, y2: int): (r: seq<bv8>)
    requires 0 <= x
    ensures |r| == |fb|
    decreases y2 - y1
  {
    if y2 < y1 then fb
    else
      var before := VLineImage(fb, width, color, x, y1, y2 - 1);
      var k := y2 * width + Column(x);
      if 0 <= k < |before| then before[k := Colorized(before[k], PixelMask(x % 8), color)] else before
  }

  lemma ShiftedOne(r: int)
    requires 0 <= r < 8
    ensures (1 as bv8) << (7 - r) == PixelMask(r)
  {
    if r == 0 {} else if r == 1 {} else if r == 2 {} else if r == 3 {}
    else if r == 4 {} else if r == 5 {} else if r == 6 {} else {}
  }

  /**
   * With the column inside the row (and below the 2048 pixels the
   * `uint8_t` column reaches), bitui_vline sets exactly the pixels of
   * column x in rows `y1 .. y2`.
   */
  lemma {:induction false} VLineDrawsExactly(fb: seq<bv8>, width: int, color: bool, x: int, y1: int, y2: int, xx: int, yy: int)
    requires 0 < width && 0 <= x < 8 * width && x < 8 * 0x100 && 0 <= y1
    requires 0 <= xx < 8 * width && 0 <= yy && yy * width + xx / 8 < |fb|
    ensures Pixel(VLineImage(fb, width, color, x, y1, y2), width, xx, yy)
         == if xx == x && y1 <= yy <= y2 then color else Pixel(fb, width, xx, yy)
    decreases y2 - y1
  {
    if y1 <= y2 {
      VLineDrawsExactly(fb, width, color, x, y1, y2 - 1, xx, yy);
      VLineRowStep(VLineImage(fb, width, color, x, y1, y2 - 1), width, color, x, y2, xx, yy);
    }
  }

  /** One row of bitui_vline sets pixel (x, y) and no other. */
  lemma VLineRowStep(before: seq<bv8>, width: int, color: bool, x: int, y: int, xx: int, yy: int)
    requires 0 < width && 0 <= x < 8 * width && x < 8 * 0x100 && 0 <= y
    requires 0 <= xx < 8 * width && 0 <= yy && yy * width + xx / 8 < |before|
    ensures var k := y * width + Column(x);
            var after := if 0 <= k < |before| then before[k := Colorized(before[k], PixelMask(x % 8), color)] else before;
            Pixel(after, width, xx, yy) == if xx == x && yy == y then color else Pixel(before, width, xx, yy)
  {
    var k := y * width + Column(x);
    var kk := yy * width + xx / 8;
    assert Column(x) == x / 8;
    if kk == k {
      RowsDistinct(yy, xx / 8, y, x / 8, width);
      ColorizedBits(before[k], PixelMask(x % 8), color, xx % 8);
      MaskBit(x % 8, xx % 8);
    } else if xx == x && yy == y {
      assert false;
    }
  }

  /** Row y of bitui_vline writes the byte of column x in that row, an offset below 65536. */
  lemma VLineRow(before: seq<bv8>, fb: seq<bv8>, width: int, color: bool, x: int, y1: int, y: int, y2: int)
    requires 0 <= x && 0 < width && 0 <= y1 <= y <= y2 && y2 * width + Column(x) < |fb| <= ShortLimit
    requires fb == VLineImage(before, width, color, x, y1, y - 1)
    ensures var k := y * width + Column(x);
            0 <= k < |fb| && Short(k) == k
            && VLineImage(before, width, color, x, y1, y) == fb[k := Colorized(fb[k], PixelMask(x % 8), color)]
  {
    MulMonotone(y, y2, width);
  }

  lemma MaskBit(r: int, s: int)
    requires 0 <= r < 8 && 0 <= s < 8
    ensures Bit(PixelMask(r), s) <==> r == s
  {
  }

  // ------------------------------------------------------------------
  // Rectangles
  // ------------------------------------------------------------------

  /** bitui_rect_t */
  datatype Rectangle = Rectangle(x: int, y: int, w: int, h: int)

  predicate ShortRect(rect: Rectangle) {
    0 <= rect.x < ShortLimit && 0 <= rect.y < ShortLimit && 0 <= rect.w < ShortLimit && 0 <= rect.h < ShortLimit
  }

  /** The end of the horizontal edges: `x + w` as a `uint16_t` parameter. */
  function RightEnd(rect: Rectangle): int {
    Short(rect.x + rect.w)
  }

  /** The row bitui_rect draws the bottom edge on: `y + h - 1` as a `uint16_t` parameter. */
  function BottomRow(rect: Rectangle): int {
    Short(rect.y + rect.h - 1)
  }

  /** The first row of the side edges: `y + 1` as a `uint16_t` parameter. */
  function SideTop(rect: Rectangle): int {
    Short(rect.y + 1)
  }

  /** The last row of the side edges: `y + h - 2` as a `uint16_t` parameter. */
  function SideBottom(rect: Rectangle): int {
    Short(rect.y + rect.h - 2)
  }

  /** The column of the right edge: `x + w - 1` as a `uint16_t` parameter. */
  function RightColumn(rect: Rectangle): int {
    Short(rect.x + rect.w - 1)
  }

  /** What bitui_rect needs: each of the lines it draws fits (so in particular `x + w` does not wrap). */
  predicate RectFits(width: int, length: int, rect: Rectangle) {
    ShortRect(rect)
    && HLineFits(width, length, rect.y, rect.x, RightEnd(rect))
    && HLineFits(width, length, BottomRow(rect), rect.x, RightEnd(rect))
    && (rect.h > 2 ==>
          VLineFits(width, length, rect.x, SideTop(rect), SideBottom(rect))
          && VLineFits(width, length, RightColumn(rect), SideTop(rect), SideBottom(rect)))
  }

  /** The framebuffer once bitui_rect has drawn the top and bottom edges. */
  function EdgesImage(fb: seq<bv8>, width: int, color: bool, rect: Rectangle): (r: seq<bv8>)
    requires rect.x <= RightEnd(rect)
    ensures |r| == |fb|
  {
    var top := HLineImage(fb, width, color, rect.y, rect.x, RightEnd(rect));
    HLineImage(top, width, color, BottomRow(rect), rect.x, RightEnd(rect))
  }

  /** The framebuffer after bitui_rect. */
  function RectImage(fb: seq<bv8>, width: int, color: bool, rect: Rectangle): (r: seq<bv8>)
    requires 0 <= rect.x && rect.x <= RightEnd(rect)
    ensures |r| == |fb|
  {
    var edges := EdgesImage(fb, width, color, rect);
    if rect.h > 2 then
      var left := VLineImage(edges, width, color, rect.x, SideTop(rect), SideBottom(rect));
      VLineImage(left, width, color, RightColumn(rect), SideTop(rect), SideBottom(rect))
    else
      edges
  }

  /** The pixels of the outline bitui_rect draws, for a non-empty rectangle. */
  predicate OnOutline(rect: Rectangle, xx: int, yy: int) {
    var x0, x1 := rect.x, rect.x + rect.w;
    var y0, y1 := rect.y, rect.y + rect.h - 1;
    ((yy == y0 || yy == y1) && x0 <= xx < x1)
    || (rect.h > 2 && (xx == x0 || xx == x1 - 1) && y0 < yy < y1)
  }

  /**
   * A non-empty rectangle inside the rows: bitui_rect sets exactly its
   * outline (the top and bottom edges, and the side edges between them
   * when it is more than two rows high) and keeps every other pixel.
   */
  lemma {:induction false} RectDrawsOutline(fb: seq<bv8>, width: int, color: bool, rect: Rectangle, xx: int, yy: int)
    requires 0 < width && ShortRect(rect) && 0 < rect.w && 0 < rect.h
    requires rect.x + rect.w <= 8 * width && rect.x + rect.w <= 8 * 0x100
    requires (rect.y + rect.h) * width <= ShortLimit
    requires 0 <= xx < 8 * width && 0 <= yy && yy * width + xx / 8 < |fb|
    ensures Pixel(RectImage(fb, width, color, rect), width, xx, yy)
         == if OnOutline(rect, xx, yy) then color else Pixel(fb, width, xx, yy)
  {
    var x0, x1 := rect.x, rect.x + rect.w;
    var yb := rect.y + rect.h - 1;
    MulMonotone(1, width, rect.y + rect.h);
    assert rect.y + rect.h <= ShortLimit;
    assert RightEnd(rect) == x1 && RightColumn(rect) == x1 - 1;
    assert rect.h > 2 ==> SideTop(rect) == rect.y + 1 && SideBottom(rect) == yb - 1;
    var edges := EdgesImage(fb, width, color, rect);
    EdgesDrawn(fb, width, color, rect, xx, yy);
    if rect.h > 2 {
      var left := VLineImage(edges, width, color, x0, SideTop(rect), SideBottom(rect));
      VLineDrawsExactly(edges, width, color, x0, SideTop(rect), SideBottom(rect), xx, yy);
      VLineDrawsExactly(left, width, color, RightColumn(rect), SideTop(rect), SideBottom(rect), xx, yy);
    }
  }

  lemma EdgesDrawn(fb: seq<bv8>, width: int, color: bool, rect: Rectangle, xx: int, yy: int)
    requires 0 < width && ShortRect(rect) && 0 < rect.w && 0 < rect.h
    requires rect.x + rect.w <= 8 * width && rect.x + rect.w < ShortLimit
    requires (rect.y + rect.h) * width <= ShortLimit
    requires 0 <= xx < 8 * width && 0 <= yy && yy * width + xx / 8 < |fb|
    ensures Pixel(EdgesImage(fb, width, color, rect), width, xx, yy)
         == if (yy == rect.y || yy == rect.y + rect.h - 1) && rect.x <= xx < rect.x + rect.w then color
            else Pixel(fb, width, xx, yy)
  {
    var x0, x1 := rect.x, rect.x + rect.w;
    var yb := rect.y + rect.h - 1;
    assert BottomRow(rect) == yb && RightEnd(rect) == x1;
    MulMonotone(rect.y, yb, width);
    assert (yb + 1) * width == yb * width + width;
    var top := HLineImage(fb, width, color, rect.y, x0, x1);
    HLineDrawsExactly(fb, width, color, rect.y, x0, x1, xx, yy);
    HLineDrawsExactly(top, width, color, yb, x0, x1, xx, yy);
  }

  /**
   * A line spanning several bytes, drawn as bitui_hline draws it: the first
   * byte from pixel `x1 % 8` on, then the whole bytes up to the last one,
   * then the first `x2 % 8` pixels of the last byte (when there are any).
   */
  lemma {:induction false} SpanIsImage(fb: seq<bv8>, first: seq<bv8>, filled: seq<bv8>, after: seq<bv8>,
                                       width: int, color: bool, y: int, x1: int, x2: int, rowStart: int)
    requires rowStart == RowStart(y, width)
    requires 0 <= x1 <= x2 && x1 / 8 < x2 / 8 && 0 <= rowStart + x1 / 8
    requires rowStart + LastByte(x1, x2) < |fb|
    requires var k := rowStart + x1 / 8;
      first == fb[k := Colorized(fb[k], RightOnes(x1 % 8), color)]
    requires |filled| == |fb| && forall k :: 0 <= k < |fb| ==>
      filled[k] == if rowStart + x1 / 8 < k < rowStart + x2 / 8 then (if color then 0xFF else 0x00) else first[k]
    requires var k := rowStart + x2 / 8;
      after == if x2 % 8 == 0 then filled else filled[k := Colorized(filled[k], LeftOnes(x2 % 8), color)]
    ensures after == HLineImage(fb, width, color, y, x1, x2)
  {
    var image := HLineImage(fb, width, color, y, x1, x2);
    forall k | 0 <= k < |fb|
      ensures after[k] == image[k]
    {
      SpanAt(fb, first, filled, after, width, color, y, x1, x2, rowStart, k);
    }
  }

  /** Byte k of SpanIsImage. */
  lemma SpanAt(fb: seq<bv8>, first: seq<bv8>, filled: seq<bv8>, after: seq<bv8>,
               width: int, color: bool, y: int, x1: int, x2: int, rowStart: int, k: int)
    requires rowStart == RowStart(y, width)
    requires 0 <= x1 <= x2 && x1 / 8 < x2 / 8 && 0 <= rowStart + x1 / 8
    requires rowStart + LastByte(x1, x2) < |fb|
    requires var k := rowStart + x1 / 8;
      first == fb[k := Colorized(fb[k], RightOnes(x1 % 8), color)]
    requires |filled| == |fb| && forall k :: 0 <= k < |fb| ==>
      filled[k] == if rowStart + x1 / 8 < k < rowStart + x2 / 8 then (if color then 0xFF else 0x00) else first[k]
    requires var k := rowStart + x2 / 8;
      after == if x2 % 8 == 0 then filled else filled[k := Colorized(filled[k], LeftOnes(x2 % 8), color)]
    requires 0 <= k < |fb|
    ensures |after| == |fb| && after[k] == RowByte(fb[k], rowStart, x1, x2, color, k)
  {
    var k1, k2 := rowStart + x1 / 8, rowStart + x2 / 8;
    var partial := x2 % 8 != 0;
    UpdatedByte(fb, first, k1, Colorized(fb[k1], RightOnes(x1 % 8), color), true, k);
    var last := if partial then Colorized(filled[k2], LeftOnes(x2 % 8), color) else 0;
    UpdatedByte(filled, after, k2, last, partial, k);
    SpanStages(fb[k], first[k], filled[k], after[k], rowStart, x1, x2, color, k);
  }

  /** Byte k of a sequence after an optional write of v at index j. */
  lemma UpdatedByte(before: seq<bv8>, after: seq<bv8>, j: int, v: bv8, write: bool, k: int)
    requires (write ==> 0 <= j < |before|) && 0 <= k < |before|
    requires after == if write then before[j := v] else before
    ensures |after| == |before| && after[k] == if write && k == j then v else before[k]
  {
  }

  /** The three writes of the multi-byte branch to byte k, one after the other. */
  lemma SpanStages(old_: bv8, f: bv8, g: bv8, h: bv8, rowStart: int, x1: int, x2: int, color: bool, k: int)
    requires 0 <= x1 <= x2 && x1 / 8 < x2 / 8
    requires f == if k == rowStart + x1 / 8 then Colorized(old_, RightOnes(x1 % 8), color) else old_
    requires g == if rowStart + x1 / 8 < k < rowStart + x2 / 8 then (if color then 0xFF else 0x00) else f
    requires h == if k == rowStart + x2 / 8 && x2 % 8 != 0 then Colorized(g, LeftOnes(x2 % 8), color) else g
    ensures h == RowByte(old_, rowStart, x1, x2, color, k)
  {
    SpanByteIsImage(old_, h, rowStart, x1, x2, color, k);
  }

  /** One byte of SpanIsImage. */
  lemma SpanByteIsImage(old_: bv8, new_: bv8, rowStart: int, x1: int, x2: int, color: bool, k: int)
    requires 0 <= x1 <= x2 && x1 / 8 < x2 / 8
    requires new_ == if rowStart + x1 / 8 < k < rowStart + x2 / 8 then (if color then 0xFF else 0x00)
                     else if k == rowStart + x1 / 8 then Colorized(old_, RightOnes(x1 % 8), color)
                     else if k == rowStart + x2 / 8 && x2 % 8 != 0 then Colorized(old_, LeftOnes(x2 % 8), color)
                     else old_
    ensures new_ == RowByte(old_, rowStart, x1, x2, color, k)
  {
    var b := k - rowStart;
    RowMaskCases(x1, x2, b);
    if k < rowStart {
    } else if b < x1 / 8 || b > x2 / 8 || (b == x2 / 8 && x2 % 8 == 0) {
      ColorizedNothing(old_, color);
    } else if x1 / 8 < b < x2 / 8 {
      ColorizedAll(old_, color);
    }
  }

  lemma ByteIsImage(fb: seq<bv8>, width: int, color: bool, y: int, x1: int, x2: int)
    requires 0 <= x1 <= x2 && x1 / 8 == x2 / 8 && 0 <= RowStart(y, width) + x1 / 8 < |fb|
    ensures var k := RowStart(y, width) + x1 / 8;
      fb[k := Colorized(fb[k], (RightOnes(x1 % 8)) ^ (RightOnes(x2 % 8)), color)]
      == HLineImage(fb, width, color, y, x1, x2)
  {
    var rowStart := RowStart(y, width);
    forall k | 0 <= k < |fb|
      ensures HLineImage(fb, width, color, y, x1, x2)[k]
           == if k == rowStart + x1 / 8 then Colorized(fb[k], (RightOnes(x1 % 8)) ^ (RightOnes(x2 % 8)), color) else fb[k]
    {
      RowMaskCases(x1, x2, k - rowStart);
      ColorizedNothing(fb[k], color);
    }
  }

  // ------------------------------------------------------------------
  // The drawing context
  // ------------------------------------------------------------------

  /** bitui_ctx_t: the geometry, the framebuffer and the colour drawing calls use. */
  class Context {
    const width: int
    const height: int
    const stride: int
    const framebuffer: array<bv8>
    var color: bool

    /** The fields are `uint16_t`, a row holds at least one byte, and every offset fits a `uint16_t`. */
    predicate Valid()
      reads this
    {
      0 < width < ShortLimit && 0 <= height < ShortLimit && 0 <= stride < ShortLimit
      && framebuffer.Length <= ShortLimit
    }

    constructor(width: int, height: int, stride: int, framebuffer: array<bv8>, color: bool)
      requires 0 < width < ShortLimit && 0 <= height < ShortLimit && 0 <= stride < ShortLimit
      requires framebuffer.Length <= ShortLimit
      ensures Valid()
      ensures this.width == width && this.height == height && this.stride == stride
      ensures this.framebuffer == framebuffer && this.color == color
    {
      this.width := width;
      this.height := height;
      this.stride := stride;
      this.framebuffer := framebuffer;
      this.color := color;
    }

    /** bitui_colorize: the masked pixels of one byte take the colour. */
    method Colorize(offset: int, mask: bv8)
      requires 0 <= offset < framebuffer.Length
      modifies framebuffer
      ensures framebuffer[..] == old(framebuffer[..])[offset := Colorized(old(framebuffer[offset]), mask, color)]
    {
      var temp := framebuffer[offset] & !mask;
      if color {
        temp := temp | mask;
      }
      framebuffer[offset] := temp;
    }

    /** bitui_hline: the pixels `[x1, x2)` of row y take the colour. */
    method HLine(y: int, x1: int, x2: int)
      requires Valid() && HLineFits(width, framebuffer.Length, y, x1, x2)
      modifies framebuffer
      ensures framebuffer[..] == HLineImage(old(framebuffer[..]), width, color, y, x1, x2)
    {
      var rowStart := RowStart(y, width);
      if x1 / 8 == x2 / 8 {
        HLineByte(y, x1, x2, rowStart);
      } else {
        HLineSpan(y, x1, x2, rowStart);
      }
    }

    /** The branch of bitui_hline for a line within one byte: one mask of the pixels `[x1, x2)`. */
    method HLineByte(y: int, x1: int, x2: int, rowStart: int)
      requires Valid() && HLineFits(width, framebuffer.Length, y, x1, x2) && x1 / 8 == x2 / 8
      requires rowStart == RowStart(y, width)
      modifies framebuffer
      ensures framebuffer[..] == HLineImage(old(framebuffer[..]), width, color, y, x1, x2)
    {
      ghost var before := framebuffer[..];
      var x1Aligned := x1 / 8;
      var mask := RightOnes(x1 % 8) ^ RightOnes(x2 % 8);
      assert LastByte(x1, x2) == x1Aligned;
      assert Short(rowStart + x1Aligned) == rowStart + x1Aligned;
      Colorize(Short(rowStart + x1Aligned), mask);
      ByteIsImage(before, width, color, y, x1, x2);
    }

    /** The branch of bitui_hline for a line over several bytes: a partial first byte, whole bytes, a partial last byte. */
    method HLineSpan(y: int, x1: int, x2: int, rowStart: int)
      requires Valid() && HLineFits(width, framebuffer.Length, y, x1, x2) && x1 / 8 < x2 / 8
      requires rowStart == RowStart(y, width)
      modifies framebuffer
      ensures framebuffer[..] == HLineImage(old(framebuffer[..]), width, color, y, x1, x2)
    {
      ghost var before := framebuffer[..];
      var x1Aligned := x1 / 8;
      var x1Rem := x1 % 8;
      var x2Aligned := x2 / 8;
      var x2Rem := x2 % 8;
      var mask := RightOnes(x1Rem);
      Colorize(Short(rowStart + x1Aligned), mask);
      ghost var first := framebuffer[..];
      x1Aligned := x1Aligned + 1;
      var fill: bv8 := if color then 0xFF else 0x00;
      x1Aligned := FillBytes(rowStart, x1Aligned, x2Aligned, fill);
      ghost var filled := framebuffer[..];
      if x2Rem != 0 {
        mask := LeftOnes(x2Rem);
        Colorize(Short(rowStart + x1Aligned), mask);
      }
      SpanIsImage(before, first, filled, framebuffer[..], width, color, y, x1, x2, rowStart);
    }

    /** The loop of bitui_hline that sets the whole bytes `from .. to - 1` of a row to `fill`. */
    method FillBytes(rowStart: int, from: int, to: int, fill: bv8) returns (next: int)
      requires 0 <= rowStart && 0 <= from <= to && rowStart + to <= framebuffer.Length
      modifies framebuffer
      ensures next == to
      ensures forall k :: 0 <= k < framebuffer.Length ==>
        framebuffer[k] == if rowStart + from <= k < rowStart + to then fill else old(framebuffer[k])
    {
      next := from;
      while next < to
        invariant from <= next <= to
        invariant forall k :: 0 <= k < framebuffer.Length ==>
          framebuffer[k] == if rowStart + from <= k < rowStart + next then fill else old(framebuffer[k])
      {
        framebuffer[rowStart + next] := fill;
        next := next + 1;
      }
    }

    /** bitui_vline: the pixels of column x in rows `y1 .. y2` take the colour. */
    method VLine(x: int, y1: int, y2: int)
      requires Valid() && VLineFits(width, framebuffer.Length, x, y1, y2)
      modifies framebuffer
      ensures framebuffer[..] == VLineImage(old(framebuffer[..]), width, color, x, y1, y2)
    {
      ghost var before := framebuffer[..];
      var col := Column(x);
      var mask := (1 as bv8) << (7 - x % 8);
      ShiftedOne(x % 8);
      var w := width;
      var y := y1;
      while y <= y2
        invariant y1 <= y <= y2 + 1
        invariant framebuffer[..] == VLineImage(before, w, color, x, y1, y - 1)
      {
        VLineRow(before, framebuffer[..], w, color, x, y1, y, y2);
        Colorize(Short(y * w + col), mask);
        y := y + 1;
      }
    }

    /** bitui_rect: the outline of the rectangle takes the colour. */
    method Rect(rect: Rectangle)
      requires Valid() && RectFits(width, framebuffer.Length, rect)
      modifies framebuffer
      ensures framebuffer[..] == RectImage(old(framebuffer[..]), width, color, rect)
    {
      ghost var before := framebuffer[..];
      HLine(rect.y, rect.x, RightEnd(rect));
      HLine(BottomRow(rect), rect.x, RightEnd(rect));
      assert framebuffer[..] == EdgesImage(before, width, color, rect);
      if rect.h > 2 {
        VLine(rect.x, SideTop(rect), SideBottom(rect));
        VLine(RightColumn(rect), SideTop(rect), SideBottom(rect));
      }
    }
  }
}
