/** Pixel memory of a dumb buffer and what `fill_color` does to it, byte by byte. */
module FillColor {
  import opened Words

  /** What a frame looks like in memory: `pitch` bytes separate the starts of two rows. */
  datatype Geometry = Geometry(width: uint32, height: uint32, pitch: uint32)

  /** The bytes a viewer can see: one string of 4*width bytes per row. */
  type Frame = seq<seq<byte>>

  /** Where row y starts in memory. */
  function RowStart(g: Geometry, y: nat): nat {
    y * g.pitch
  }

  /** `y * buf->pitch`, a 32-bit product. */
  function RowOffset(g: Geometry, y: nat): uint32 {
    RowStart(g, y) % TWO_32
  }

  /** The bytes of a 32-bit pixel in memory, least significant first. */
  function PixelBytes(color: uint32): (r: seq<byte>)
    ensures |r| == 4
  {
    [color % 0x100, color / 0x100 % 0x100, color / 0x100 / 0x100 % 0x100, color / 0x100 / 0x100 / 0x100]
  }

  function ColorByte(color: uint32, k: nat): byte
    requires k < 4
  {
    PixelBytes(color)[k]
  }

  function Pixel(b0: byte, b1: byte, b2: byte, b3: byte): uint32 {
    b0 + 0x100 * b1 + 0x1_0000 * b2 + 0x100_0000 * b3
  }

  lemma PixelRoundTrip(color: uint32)
    ensures Pixel(ColorByte(color, 0), ColorByte(color, 1), ColorByte(color, 2), ColorByte(color, 3)) == color
  {
  }

  /** The store `row[x] = color` at byte address `at`. */
  function StorePixel(mem: seq<byte>, at: nat, color: uint32): (r: seq<byte>)
    requires at + 4 <= |mem|
    ensures |r| == |mem|
  {
    mem[at := ColorByte(color, 0)][at + 1 := ColorByte(color, 1)]
       [at + 2 := ColorByte(color, 2)][at + 3 := ColorByte(color, 3)]
  }

  /** Every address the loops of `fill_color` store to lies inside the mapping. */
  ghost predicate StoresFit(g: Geometry, size: nat) {
    forall y: nat | y < g.height :: RowOffset(g, y) + 4 * g.width <= size
  }

  /** The mapping holds whole rows, as the driver's dumb-buffer contract promises. */
  ghost predicate HoldsFrame(g: Geometry, size: nat) {
    g.pitch >= 4 * g.width && (g.height > 0 ==> RowStart(g, g.height - 1) + 4 * g.width <= size)
  }

  /** No row offset exceeds 32 bits. */
  predicate NoWrap(g: Geometry) {
    g.height > 0 ==> RowStart(g, g.height - 1) < TWO_32
  }

  /** Memory after the first x stores of the row that starts at `row`. */
  function FillRow(mem: seq<byte>, row: nat, x: nat, color: uint32): (r: seq<byte>)
    requires row + 4 * x <= |mem|
    ensures |r| == |mem|
  {
    if x == 0 then mem else StorePixel(FillRow(mem, row, x - 1, color), row + 4 * (x - 1), color)
  }

  /** Memory after the first y rows. */
  ghost function FillRows(mem: seq<byte>, g: Geometry, y: nat, color: uint32): (r: seq<byte>)
    requires y <= g.height && StoresFit(g, |mem|)
    ensures |r| == |mem|
  {
    if y == 0 then mem
    else FillRow(FillRows(mem, g, y - 1, color), RowOffset(g, y - 1), g.width, color)
  }

  /** The part of the memory that the display engine scans out. */
  ghost function Visible(mem: seq<byte>, g: Geometry): Frame
    requires HoldsFrame(g, |mem|)
  {
    seq(g.height, y requires 0 <= y < g.height => RowBytes(mem, g, y))
  }

  ghost function RowBytes(mem: seq<byte>, g: Geometry, y: nat): (r: seq<byte>)
    requires HoldsFrame(g, |mem|) && y < g.height
    ensures |r| == 4 * g.width
  {
    RowEnd(g, y);
    mem[RowStart(g, y)..RowStart(g, y) + 4 * g.width]
  }

  lemma RowByte(mem: seq<byte>, g: Geometry, y: nat, c: nat)
    requires HoldsFrame(g, |mem|) && y < g.height && c < 4 * g.width
    ensures RowStart(g, y) + c < |mem| && RowBytes(mem, g, y)[c] == mem[RowStart(g, y) + c]
  {
    RowEnd(g, y);
  }

  lemma RowEnd(g: Geometry, y: nat)
    requires y < g.height
    ensures RowStart(g, y) <= RowStart(g, g.height - 1)
  {
    MulMono(y, g.height - 1, g.pitch);
  }

  lemma MulMono(a: nat, b: nat, c: nat)
    requires a <= b
    ensures a * c <= b * c
  {
  }

  /** A frame whose every pixel is `color`. */
  function Uniform(width: nat, height: nat, color: uint32): Frame {
    seq(height, y => UniformRow(width, color))
  }

  function UniformRow(width: nat, color: uint32): seq<byte> {
    seq(4 * width, b requires 0 <= b < 4 * width => ColorByte(color, b % 4))
  }

  // ------------------------------------------------------------------ one row

  lemma {:induction false} FillRowBytes(mem: seq<byte>, row: nat, x: nat, color: uint32, b: nat)
    requires row + 4 * x <= |mem| && b < |mem|
    ensures FillRow(mem, row, x, color)[b] ==
            if row <= b < row + 4 * x then ColorByte(color, (b - row) % 4) else mem[b]
  {
    if x > 0 {
      FillRowBytes(mem, row, x - 1, color, b);
    }
  }

  // ------------------------------------------------------------------ whole frame

  /** Without a wrap the offsets are the true ones and every store is inside the mapping. */
  lemma OffsetsExact(g: Geometry, size: nat)
    requires NoWrap(g) && HoldsFrame(g, size)
    ensures forall y: nat | y < g.height :: RowOffset(g, y) == RowStart(g, y)
    ensures StoresFit(g, size)
  {
    forall y: nat | y < g.height
      ensures RowOffset(g, y) == RowStart(g, y) && RowOffset(g, y) + 4 * g.width <= size
    {
      RowEnd(g, y);
    }
  }

  /** With or without a wrap, every store of `fill_color` is inside a mapping that holds the frame. */
  lemma StoresStayInside(g: Geometry, size: nat)
    requires HoldsFrame(g, size)
    ensures StoresFit(g, size)
  {
    forall y: nat | y < g.height ensures RowOffset(g, y) + 4 * g.width <= size {
      RowEnd(g, y);
      assert RowOffset(g, y) <= RowStart(g, y);
    }
  }

  /** The first n rows of the frame contain byte address b. */
  ghost predicate InRows(g: Geometry, n: nat, b: nat) {
    exists y: nat | y < n :: RowStart(g, y) <= b < RowStart(g, y) + 4 * g.width
  }

  /** The address of byte c of row y is below that of every later row. */
  lemma RowsApart(g: Geometry, y: nat, z: nat)
    requires y < z && g.pitch >= 4 * g.width
    ensures RowStart(g, y) + 4 * g.width <= RowStart(g, z)
  {
    MulMono(y + 1, z, g.pitch);
    assert RowStart(g, y + 1) == RowStart(g, y) + g.pitch;
  }

  /** A visible byte takes the colour. */
  lemma {:induction false} FilledByte(mem: seq<byte>, g: Geometry, n: nat, color: uint32, y: nat, c: nat)
    requires y < n <= g.height && c < 4 * g.width
    requires NoWrap(g) && HoldsFrame(g, |mem|) && StoresFit(g, |mem|)
    ensures RowStart(g, y) + c < |mem|
    ensures FillRows(mem, g, n, color)[RowStart(g, y) + c] == ColorByte(color, c % 4)
  {
    var b, last := RowStart(g, y) + c, RowStart(g, n - 1);
    assert b < |mem| && RowOffset(g, n - 1) == last && last + 4 * g.width <= |mem| by {
      OffsetsExact(g, |mem|);
      RowEnd(g, y);
      RowEnd(g, n - 1);
    }
    FillRowBytes(FillRows(mem, g, n - 1, color), last, g.width, color, b);
    if y < n - 1 {
      RowsApart(g, y, n - 1);
      assert b < last;
      FilledByte(mem, g, n - 1, color, y, c);
    } else {
      assert b - last == c;
    }
  }

  /** Row padding and everything behind the frame keep their value. */
  lemma {:induction false} PaddingKept(mem: seq<byte>, g: Geometry, n: nat, color: uint32, b: nat)
    requires n <= g.height && NoWrap(g) && HoldsFrame(g, |mem|) && StoresFit(g, |mem|)
    requires b < |mem| && !InRows(g, n, b)
    ensures FillRows(mem, g, n, color)[b] == mem[b]
  {
    if n > 0 {
      var last := RowStart(g, n - 1);
      assert RowOffset(g, n - 1) == last && last + 4 * g.width <= |mem| by {
        OffsetsExact(g, |mem|);
        RowEnd(g, n - 1);
      }
      assert !(last <= b < last + 4 * g.width);
      PaddingKept(mem, g, n - 1, color, b);
      FillRowBytes(FillRows(mem, g, n - 1, color), last, g.width, color, b);
    }
  }

  /** `fill_color` on a frame that does not wrap: the viewer sees one colour, nothing else changes. */
  lemma FillPaintsFrame(mem: seq<byte>, g: Geometry, color: uint32)
    requires NoWrap(g) && HoldsFrame(g, |mem|) && StoresFit(g, |mem|)
    ensures Visible(FillRows(mem, g, g.height, color), g) == Uniform(g.width, g.height, color)
    ensures forall b: nat | b < |mem| && !InRows(g, g.height, b) ::
              FillRows(mem, g, g.height, color)[b] == mem[b]
  {
    var after := FillRows(mem, g, g.height, color);
    forall b: nat | b < |mem| && !InRows(g, g.height, b) ensures after[b] == mem[b] {
      PaddingKept(mem, g, g.height, color, b);
    }
    forall y: nat | y < g.height ensures RowBytes(after, g, y) == UniformRow(g.width, color) {
      FilledRow(mem, g, color, y);
    }
  }

  lemma FilledRow(mem: seq<byte>, g: Geometry, color: uint32, y: nat)
    requires NoWrap(g) && HoldsFrame(g, |mem|) && StoresFit(g, |mem|) && y < g.height
    ensures RowBytes(FillRows(mem, g, g.height, color), g, y) == UniformRow(g.width, color)
  {
    var after := FillRows(mem, g, g.height, color);
    var row, want := RowBytes(after, g, y), UniformRow(g.width, color);
    forall c: nat | c < |row| ensures row[c] == want[c] {
      FilledByte(mem, g, g.height, color, y, c);
      RowByte(after, g, y, c);
    }
  }

  lemma UniformBytes(width: nat, height: nat, color: uint32, y: nat, x: nat, k: nat)
    requires y < height && x < width && k < 4
    ensures |Uniform(width, height, color)[y]| == 4 * width
    ensures Uniform(width, height, color)[y][4 * x + k] == PixelBytes(color)[k]
  {
    assert Uniform(width, height, color)[y] == UniformRow(width, color);
    assert (4 * x + k) % 4 == k;
  }

  lemma UniformByteAt(mem: seq<byte>, g: Geometry, color: uint32, y: nat, x: nat, k: nat, at: nat)
    requires HoldsFrame(g, |mem|) && Visible(mem, g) == Uniform(g.width, g.height, color)
    requires y < g.height && x < g.width && k < 4 && at == RowStart(g, y) + (4 * x + k)
    ensures at < |mem| && mem[at] == PixelBytes(color)[k]
  {
    RowByte(mem, g, y, 4 * x + k);
    assert Visible(mem, g)[y] == RowBytes(mem, g, y);
    UniformBytes(g.width, g.height, color, y, x, k);
  }

  /** Where a uniform frame is shown, the four bytes of every pixel are those of the colour. */
  lemma UniformPixel(mem: seq<byte>, g: Geometry, color: uint32, y: nat, x: nat, at: nat)
    requires HoldsFrame(g, |mem|) && Visible(mem, g) == Uniform(g.width, g.height, color)
    requires y < g.height && x < g.width && at == y * g.pitch + 4 * x
    ensures at + 4 <= |mem| && mem[at..at + 4] == PixelBytes(color)
  {
    UniformByteAt(mem, g, color, y, x, 0, at);
    UniformByteAt(mem, g, color, y, x, 1, at + 1);
    UniformByteAt(mem, g, color, y, x, 2, at + 2);
    UniformByteAt(mem, g, color, y, x, 3, at + 3);
  }

  // ------------------------------------------------------------------ when the product wraps

  /** Byte b is the target of some store of `fill_color`. */
  ghost predicate Stored(g: Geometry, b: nat) {
    exists y: nat | y < g.height :: RowOffset(g, y) <= b < RowOffset(g, y) + 4 * g.width
  }

  /** A byte that is no store's target keeps its value, whether or not offsets wrap. */
  lemma {:induction false} UnstoredKept(mem: seq<byte>, g: Geometry, n: nat, color: uint32, b: nat)
    requires n <= g.height && StoresFit(g, |mem|) && b < |mem| && !Stored(g, b)
    ensures FillRows(mem, g, n, color)[b] == mem[b]
  {
    if n > 0 {
      UnstoredKept(mem, g, n - 1, color, b);
      FillRowBytes(FillRows(mem, g, n - 1, color), RowOffset(g, n - 1), g.width, color, b);
      assert !(RowOffset(g, n - 1) <= b < RowOffset(g, n - 1) + 4 * g.width);
    }
  }

  /**
   * `fill_color` reaches every visible byte exactly when (height - 1) * pitch fits in 32 bits.
   * Otherwise the last byte of the bottom right pixel is out of reach of every store.
   */
  lemma FillCoversIffNoWrap(g: Geometry)
    requires g.width > 0 && g.height > 0 && g.pitch >= 4 * g.width
    ensures (forall b: nat | InRows(g, g.height, b) :: Stored(g, b)) <==> NoWrap(g)
  {
    if NoWrap(g) {
      OffsetsExact(g, RowStart(g, g.height - 1) + 4 * g.width);
      forall b: nat | InRows(g, g.height, b) ensures Stored(g, b) {
        var y: nat :| y < g.height && RowStart(g, y) <= b < RowStart(g, y) + 4 * g.width;
        assert RowOffset(g, y) <= b < RowOffset(g, y) + 4 * g.width;
      }
    } else {
      var y := g.height - 1;
      var last := RowStart(g, y) + 4 * g.width - 1;
      assert RowStart(g, y) <= last < RowStart(g, y) + 4 * g.width;
      assert InRows(g, g.height, last);
      assert !Stored(g, last);
    }
  }

  /** On a frame that wraps and is less than 2^29 pixels wide, no store reaches the last row. */
  lemma WrapMissesLastRow(g: Geometry, b: nat)
    requires g.height > 0 && g.pitch >= 4 * g.width && !NoWrap(g) && 8 * g.width <= TWO_32
    requires RowStart(g, g.height - 1) <= b < RowStart(g, g.height - 1) + 4 * g.width
    ensures !Stored(g, b)
  {
    forall y: nat | y < g.height ensures !(RowOffset(g, y) <= b < RowOffset(g, y) + 4 * g.width) {
      RowEnd(g, y);
      if RowStart(g, y) < TWO_32 {
        RowsApart(g, y, g.height - 1);
      } else {
        assert RowStart(g, y) >= RowOffset(g, y) + TWO_32;
      }
    }
  }

  /**
   * A frame with 16-bit width and height that wraps through its row padding alone: the pixels are fewer
   * than 2^30, and yet the bottom right one is left unpainted.
   */
  lemma WrapLeavesPixel(mem: seq<byte>, color: uint32)
    requires |mem| >= 65530 * 65792 + 4 * 16385
    ensures var g, last := Geometry(16385, 65531, 65792), 65530 * 65792 + 4 * 16385 - 1;
            && g.width < 0x1_0000 && g.height < 0x1_0000 && 4 * g.width * g.height < TWO_32
            && HoldsFrame(g, |mem|) && StoresFit(g, |mem|)
            && InRows(g, g.height, last) && last == RowStart(g, g.height - 1) + 4 * g.width - 1
            && FillRows(mem, g, g.height, color)[last] == mem[last]
  {
    var g, last := Geometry(16385, 65531, 65792), 65530 * 65792 + 4 * 16385 - 1;
    assert RowStart(g, 65530) <= last < RowStart(g, 65530) + 4 * g.width;
    UnstoredKept(mem, g, g.height, color, last);
  }
}
