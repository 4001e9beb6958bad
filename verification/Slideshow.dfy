/** What a viewer of the page-flip program should see, and what the two buffers make the screen show. */
module Slideshow {
  import opened Words
  import opened FillColor

  const COLORS: seq<uint32> := [0x00ff0000, 0x0000ff00, 0x000000ff, 0x00ffffff]

  /** `colors[i % 4]`, the colour of frame i. */
  function ColorOf(i: nat): uint32 {
    COLORS[i % 4]
  }

  /** Record a frame when it differs from the one recorded last. */
  function Note(shown: seq<Frame>, frame: Frame): seq<Frame> {
    if shown != [] && shown[|shown| - 1] == frame then shown else shown + [frame]
  }

  /** What is recorded while the frames are on the screen one after the other. */
  function Film(frames: seq<Frame>): seq<Frame> {
    if frames == [] then [] else Note(Film(frames[..|frames| - 1]), frames[|frames| - 1])
  }

  lemma FilmSnoc(frames: seq<Frame>, frame: Frame)
    ensures Film(frames + [frame]) == Note(Film(frames), frame)
  {
    assert (frames + [frame])[..|frames|] == frames;
  }

  /** If as many frames were recorded as there were, they are all of them. */
  lemma {:induction false} FullFilm(frames: seq<Frame>)
    ensures |Film(frames)| <= |frames|
    ensures |Film(frames)| == |frames| ==> Film(frames) == frames
  {
    if frames != [] {
      FullFilm(frames[..|frames| - 1]);
      assert frames == frames[..|frames| - 1] + [frames[|frames| - 1]];
    }
  }

  /** What a viewer should have seen after n complete frames. */
  function Slides(n: nat, width: nat, height: nat): seq<Frame> {
    Film(Frames(n, width, height))
  }

  /** The first n uniform frames, one colour after the other. */
  function Frames(n: nat, width: nat, height: nat): seq<Frame> {
    seq(n, k requires 0 <= k < n => Uniform(width, height, ColorOf(k)))
  }

  lemma FramesSnoc(n: nat, width: nat, height: nat)
    requires n > 0
    ensures Frames(n, width, height) == Frames(n - 1, width, height) + [Uniform(width, height, ColorOf(n - 1))]
  {
  }

  /** On a mode that has pixels, the slides are exactly the n uniform frames. */
  lemma {:induction false} SlidesAreTheFrames(n: nat, width: nat, height: nat)
    requires width > 0 && height > 0
    ensures Slides(n, width, height) == Frames(n, width, height)
  {
    if n > 0 {
      SlidesAreTheFrames(n - 1, width, height);
      FramesSnoc(n, width, height);
      FilmSnoc(Frames(n - 1, width, height), Uniform(width, height, ColorOf(n - 1)));
      if n > 1 {
        LastFrameDiffers(n - 1, width, height);
      }
    }
  }

  lemma LastFrameDiffers(n: nat, width: nat, height: nat)
    requires width > 0 && height > 0 && n > 0
    ensures Frames(n, width, height)[n - 1] != Uniform(width, height, ColorOf(n))
  {
    UniformInjective(width, height, ColorOf(n - 1), ColorOf(n));
    NeighboursDiffer(n - 1);
  }

  lemma NeighboursDiffer(i: nat)
    ensures ColorOf(i) != ColorOf(i + 1)
  {
    assert (i + 1) % 4 == if i % 4 == 3 then 0 else i % 4 + 1;
  }

  lemma UniformInjective(width: nat, height: nat, c: uint32, d: uint32)
    requires width > 0 && height > 0
    ensures Uniform(width, height, c) == Uniform(width, height, d) ==> c == d
  {
    if Uniform(width, height, c) == Uniform(width, height, d) {
      assert Uniform(width, height, c)[0] == UniformRow(width, c);
      assert Uniform(width, height, d)[0] == UniformRow(width, d);
      forall k: nat | k < 4 ensures ColorByte(c, k) == ColorByte(d, k) {
        assert UniformRow(width, c)[k] == UniformRow(width, d)[k];
      }
      PixelRoundTrip(c);
      PixelRoundTrip(d);
    }
  }

  /** The bytes of a pixel of frame i: blue, green, red, unused; the frames are red, green, blue, white. */
  function SlideBytes(i: nat): (r: seq<byte>)
    ensures |r| == 4
  {
    match i % 4
    case 0 => [0, 0, 0xff, 0]
    case 1 => [0, 0xff, 0, 0]
    case 2 => [0xff, 0, 0, 0]
    case _ => [0xff, 0xff, 0xff, 0]
  }

  lemma ColorBytes(i: nat)
    ensures PixelBytes(ColorOf(i)) == SlideBytes(i)
  {
    var k := i % 4;
    assert ColorOf(i) == COLORS[k];
    assert PixelBytes(COLORS[0]) == [0, 0, 0xff, 0] && PixelBytes(COLORS[1]) == [0, 0xff, 0, 0];
    assert PixelBytes(COLORS[2]) == [0xff, 0, 0, 0] && PixelBytes(COLORS[3]) == [0xff, 0xff, 0xff, 0];
  }

  /** Byte k of pixel x in row y of slide i. */
  lemma SlidePixels(n: nat, width: nat, height: nat, i: nat, y: nat, x: nat, k: nat)
    requires i < n && y < height && x < width && k < 4
    ensures |Slides(n, width, height)| == n && |Slides(n, width, height)[i]| == height
    ensures |Slides(n, width, height)[i][y]| == 4 * width
    ensures Slides(n, width, height)[i][y][4 * x + k] == SlideBytes(i)[k]
  {
    SlidesAreTheFrames(n, width, height);
    ColorBytes(i);
    UniformBytes(width, height, ColorOf(i), y, x, k);
    assert Frames(n, width, height)[i] == Uniform(width, height, ColorOf(i));
  }

  // ------------------------------------------------------------------ the pictures in the buffers

  /** The memory of two buffers for the same mode, each holding whole rows. */
  ghost predicate DoubleBuffer(mems: seq<seq<byte>>, geos: seq<Geometry>) {
    && |mems| == |geos| == 2
    && geos[0].width == geos[1].width && geos[0].height == geos[1].height
    && forall b: nat | b < 2 :: HoldsFrame(geos[b], |mems[b]|)
  }

  /** What buffer b holds after n frames; frame i is drawn into buffer i % 2. */
  ghost function Drawn(mem: seq<byte>, g: Geometry, b: nat, n: nat): (r: seq<byte>)
    requires HoldsFrame(g, |mem|)
    ensures |r| == |mem|
  {
    if n == 0 then mem
    else if (n - 1) % 2 == b then
      StoresStayInside(g, |mem|);
      FillRows(Drawn(mem, g, b, n - 1), g, g.height, ColorOf(n - 1))
    else Drawn(mem, g, b, n - 1)
  }

  /** Frame i as its buffer shows it. */
  ghost function Picture(mems: seq<seq<byte>>, geos: seq<Geometry>, i: nat): Frame
    requires DoubleBuffer(mems, geos)
  {
    Visible(Drawn(mems[i % 2], geos[i % 2], i % 2, i + 1), geos[i % 2])
  }

  /** What the screen has shown after n frames, with or without a wrap. */
  ghost function Pictures(mems: seq<seq<byte>>, geos: seq<Geometry>, n: nat): seq<Frame>
    requires DoubleBuffer(mems, geos)
  {
    Film(seq(n, i requires 0 <= i < n => Picture(mems, geos, i)))
  }

  lemma PicturesSnoc(mems: seq<seq<byte>>, geos: seq<Geometry>, n: nat)
    requires DoubleBuffer(mems, geos)
    ensures Pictures(mems, geos, n + 1) == Note(Pictures(mems, geos, n), Picture(mems, geos, n))
  {
    var before := seq(n, i requires 0 <= i < n => Picture(mems, geos, i));
    var all := seq(n + 1, i requires 0 <= i < n + 1 => Picture(mems, geos, i));
    assert all == before + [Picture(mems, geos, n)];
    FilmSnoc(before, Picture(mems, geos, n));
  }

  /** What both buffers hold after n frames. */
  ghost function DrawnBoth(mems: seq<seq<byte>>, geos: seq<Geometry>, n: nat): (r: seq<seq<byte>>)
    requires DoubleBuffer(mems, geos)
    ensures DoubleBuffer(r, geos)
  {
    [Drawn(mems[0], geos[0], 0, n), Drawn(mems[1], geos[1], 1, n)]
  }

  lemma NothingDrawn(mems: seq<seq<byte>>, geos: seq<Geometry>)
    requires DoubleBuffer(mems, geos)
    ensures DrawnBoth(mems, geos, 0) == mems && Pictures(mems, geos, 0) == []
  {
  }

  /** Frame n changes buffer n % 2 only. */
  lemma DrawnStep(mem: seq<byte>, g: Geometry, b: nat, n: nat)
    requires HoldsFrame(g, |mem|)
    ensures StoresFit(g, |mem|)
    ensures Drawn(mem, g, b, n + 1) ==
            if n % 2 == b then FillRows(Drawn(mem, g, b, n), g, g.height, ColorOf(n)) else Drawn(mem, g, b, n)
  {
    StoresStayInside(g, |mem|);
  }

  lemma OtherBuffer(n: nat)
    ensures (n + 1) % 2 == 1 - n % 2
  {
  }

  /** Drawing frame n into buffer b, which is n % 2. */
  lemma NextDrawn(mems: seq<seq<byte>>, geos: seq<Geometry>, n: nat, b: nat)
    requires DoubleBuffer(mems, geos) && b == n % 2
    ensures var before := DrawnBoth(mems, geos, n);
            && StoresFit(geos[b], |before[b]|)
            && DrawnBoth(mems, geos, n + 1) ==
               before[b := FillRows(before[b], geos[b], geos[b].height, ColorOf(n))]
    ensures Picture(mems, geos, n) == Visible(DrawnBoth(mems, geos, n + 1)[b], geos[b])
  {
    DrawnStep(mems[0], geos[0], 0, n);
    DrawnStep(mems[1], geos[1], 1, n);
  }

  lemma PictureIsUniform(mems: seq<seq<byte>>, geos: seq<Geometry>, i: nat)
    requires DoubleBuffer(mems, geos) && NoWrap(geos[i % 2])
    ensures Picture(mems, geos, i) == Uniform(geos[0].width, geos[0].height, ColorOf(i))
  {
    var b := i % 2;
    StoresStayInside(geos[b], |mems[b]|);
    FillPaintsFrame(Drawn(mems[b], geos[b], b, i), geos[b], ColorOf(i));
  }

  /** Without a wrap the screen shows the slides. */
  lemma PicturesAreSlides(mems: seq<seq<byte>>, geos: seq<Geometry>, n: nat)
    requires DoubleBuffer(mems, geos) && NoWrap(geos[0]) && NoWrap(geos[1])
    ensures Pictures(mems, geos, n) == Slides(n, geos[0].width, geos[0].height)
  {
    var pictures := seq(n, i requires 0 <= i < n => Picture(mems, geos, i));
    forall i | 0 <= i < n ensures pictures[i] == Uniform(geos[0].width, geos[0].height, ColorOf(i)) {
      PictureIsUniform(mems, geos, i);
    }
    assert pictures == Frames(n, geos[0].width, geos[0].height);
  }

  /** A byte that no store reaches is never drawn. */
  lemma {:induction false} DrawnKeeps(mem: seq<byte>, g: Geometry, b: nat, n: nat, at: nat)
    requires HoldsFrame(g, |mem|) && at < |mem| && !Stored(g, at)
    ensures Drawn(mem, g, b, n)[at] == mem[at]
  {
    if n > 0 {
      DrawnKeeps(mem, g, b, n - 1, at);
      if (n - 1) % 2 == b {
        StoresStayInside(g, |mem|);
        UnstoredKept(Drawn(mem, g, b, n - 1), g, g.height, ColorOf(n - 1), at);
      }
    }
  }

  ghost function LastRowByte(mem: seq<byte>, g: Geometry, c: nat): byte
    requires HoldsFrame(g, |mem|) && g.height > 0 && g.width > 0 && c < 4
  {
    RowByte(mem, g, g.height - 1, c);
    mem[RowStart(g, g.height - 1) + c]
  }

  /** On a buffer that wraps no frame is drawn into the last row. */
  lemma LastRowNotDrawn(mem: seq<byte>, g: Geometry, b: nat, n: nat, c: nat)
    requires HoldsFrame(g, |mem|) && !NoWrap(g) && 0 < g.width && 8 * g.width <= TWO_32 && c < 4
    ensures LastRowByte(Drawn(mem, g, b, n), g, c) == LastRowByte(mem, g, c)
  {
    RowByte(mem, g, g.height - 1, c);
    WrapMissesLastRow(g, RowStart(g, g.height - 1) + c);
    DrawnKeeps(mem, g, b, n, RowStart(g, g.height - 1) + c);
  }

  /** On a buffer that wraps no picture changes the last row. */
  lemma LastRowKept(mems: seq<seq<byte>>, geos: seq<Geometry>, i: nat, c: nat)
    requires DoubleBuffer(mems, geos) && !NoWrap(geos[i % 2])
    requires 0 < geos[0].width && 8 * geos[0].width <= TWO_32 && c < 4
    ensures Picture(mems, geos, i)[geos[0].height - 1][c] == LastRowByte(mems[i % 2], geos[i % 2], c)
  {
    var mem, g := mems[i % 2], geos[i % 2];
    LastRowNotDrawn(mem, g, i % 2, i + 1, c);
    RowByte(Drawn(mem, g, i % 2, i + 1), g, g.height - 1, c);
  }

  lemma UniformByte(g: Geometry, i: nat, y: nat, c: nat)
    requires y < g.height && g.width > 0 && c < 4
    ensures Uniform(g.width, g.height, ColorOf(i))[y][c] == ColorByte(ColorOf(i), c)
  {
    assert Uniform(g.width, g.height, ColorOf(i))[y] == UniformRow(g.width, ColorOf(i));
  }

  lemma SlidesShowEachFrame(mems: seq<seq<byte>>, geos: seq<Geometry>, n: nat, i: nat)
    requires DoubleBuffer(mems, geos) && 0 < geos[0].width && geos[0].height > 0 && i < n
    requires Pictures(mems, geos, n) == Slides(n, geos[0].width, geos[0].height)
    ensures Picture(mems, geos, i) == Uniform(geos[0].width, geos[0].height, ColorOf(i))
  {
    var w, h := geos[0].width, geos[0].height;
    var pictures := seq(n, i requires 0 <= i < n => Picture(mems, geos, i));
    SlidesAreTheFrames(n, w, h);
    FullFilm(pictures);
    assert Frames(n, w, h)[i] == pictures[i];
  }

  /** Where the last row never changes, a run that shows the slides shows what was there before. */
  lemma SlidesShowOldByte(mems: seq<seq<byte>>, geos: seq<Geometry>, n: nat, i: nat, b: nat, c: nat)
    requires DoubleBuffer(mems, geos) && i % 2 == b && !NoWrap(geos[b]) && i < n && c < 4
    requires 0 < geos[0].width && 8 * geos[0].width <= TWO_32 && geos[0].height > 0
    requires Pictures(mems, geos, n) == Slides(n, geos[0].width, geos[0].height)
    ensures LastRowByte(mems[b], geos[b], c) == ColorByte(ColorOf(i), c)
  {
    LastRowKept(mems, geos, i, c);
    SlidesShowEachFrame(mems, geos, n, i);
    UniformByte(geos[b], i, geos[0].height - 1, c);
  }

  lemma SlidesRepeatColor(mems: seq<seq<byte>>, geos: seq<Geometry>, n: nat, i: nat, j: nat, b: nat)
    requires DoubleBuffer(mems, geos) && i % 2 == j % 2 == b && !NoWrap(geos[b]) && i < n && j < n
    requires 0 < geos[0].width && 8 * geos[0].width <= TWO_32 && geos[0].height > 0
    requires Pictures(mems, geos, n) == Slides(n, geos[0].width, geos[0].height)
    ensures ColorOf(i) == ColorOf(j)
  {
    forall c: nat | c < 4 ensures ColorByte(ColorOf(i), c) == ColorByte(ColorOf(j), c) {
      SlidesShowOldByte(mems, geos, n, i, b, c);
      SlidesShowOldByte(mems, geos, n, j, b, c);
    }
    PixelRoundTrip(ColorOf(i));
    PixelRoundTrip(ColorOf(j));
  }

  /** The two first frames in a buffer are red and blue, or green and white. */
  lemma TwoApart(b: nat)
    requires b < 2
    ensures b % 2 == (b + 2) % 2 == b && ColorOf(b) != ColorOf(b + 2)
  {
  }

  /** A wrap in either buffer spoils the slides by the fourth frame. */
  lemma WrapSpoilsSlides(mems: seq<seq<byte>>, geos: seq<Geometry>, n: nat, b: nat)
    requires DoubleBuffer(mems, geos) && n >= 4 && b < 2 && !NoWrap(geos[b])
    requires 0 < geos[0].width && 8 * geos[0].width <= TWO_32 && geos[0].height > 0
    ensures Pictures(mems, geos, n) != Slides(n, geos[0].width, geos[0].height)
  {
    TwoApart(b);
    if Pictures(mems, geos, n) == Slides(n, geos[0].width, geos[0].height) {
      SlidesRepeatColor(mems, geos, n, b, b + 2, b);
    }
  }

  /**
   * Over four frames or more the screen shows the slides if and only if no row offset of either buffer
   * exceeds 32 bits, whatever the buffers held before.
   */
  lemma SlidesIffNoWrap(mems: seq<seq<byte>>, geos: seq<Geometry>, n: nat)
    requires DoubleBuffer(mems, geos) && n >= 4
    requires 0 < geos[0].width && 8 * geos[0].width <= TWO_32 && geos[0].height > 0
    ensures Pictures(mems, geos, n) == Slides(n, geos[0].width, geos[0].height)
            <==> NoWrap(geos[0]) && NoWrap(geos[1])
  {
    if NoWrap(geos[0]) && NoWrap(geos[1]) {
      PicturesAreSlides(mems, geos, n);
    } else {
      WrapSpoilsSlides(mems, geos, n, if NoWrap(geos[0]) then 1 else 0);
    }
  }
}
