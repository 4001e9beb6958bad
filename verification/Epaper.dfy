/** The e-paper frame: bit addressing in the frame buffer, the packed image, and the bytes sent to the panel. */
module Epaper {
  import opened Words
  import opened Bits

  const GATES: nat := 250
  const SOURCES: nat := 128
  const GATE_BYTES: nat := 16
  const FRAME_SIZE: nat := 4000

  const IMAGE_WIDTH: nat := 211   // along the gates
  const IMAGE_HEIGHT: nat := 103  // along the sources
  const ROW_WORDS: nat := 7       // (211 + 31) / 32

  // ------------------------------------------------------------------ addressing

  function ByteOf(gate: nat, src: nat): nat {
    gate * GATE_BYTES + src / 8
  }

  /** The position in the byte, counted from the least significant bit. */
  function BitOf(src: nat): (k: nat)
    ensures k < 8
  {
    7 - src % 8
  }

  /** Gates and sources address the 4000 bytes bit by bit: in range, without sharing, without a gap. */
  lemma AddressingIsBijective(gate: nat, src: nat, otherGate: nat, otherSrc: nat, byteIndex: nat, bit: nat)
    requires gate < GATES && src < SOURCES && otherGate < GATES && otherSrc < SOURCES
    requires byteIndex < FRAME_SIZE && bit < 8
    ensures ByteOf(gate, src) < FRAME_SIZE
    ensures ByteOf(gate, src) == ByteOf(otherGate, otherSrc) && BitOf(src) == BitOf(otherSrc)
            <==> gate == otherGate && src == otherSrc
    ensures var g, s := byteIndex / GATE_BYTES, byteIndex % GATE_BYTES * 8 + (7 - bit);
            g < GATES && s < SOURCES && ByteOf(g, s) == byteIndex && BitOf(s) == bit
  {
  }

  /** The pixel a frame shows at a gate and a source; a set bit is white, and source 0 is the top bit. */
  function Shows(frame: seq<byte>, gate: nat, src: nat): bool
    requires |frame| == FRAME_SIZE && gate < GATES && src < SOURCES
  {
    Bit(frame[16 * gate + src / 8], 7 - src % 8)
  }

  /** `b | m` and `b & ~m` with `m = 1u << k` change bit k and no other. */
  lemma OneBitChanges(b: byte, k: nat, l: nat)
    requires k < 8 && l < 8
    ensures Shift1(k) < 256 && Or(b, Shift1(k)) < 256
    ensures Bit(Or(b, Shift1(k)), l) <==> l == k || Bit(b, l)
    ensures Bit(And(b, 255 - Shift1(k)), l) <==> l != k && Bit(b, l)
  {
    assert Pow2(4) == 16 && Pow2(8) == 256;
    Shift1Below(k, 8);
    OrBound(b, Shift1(k), 8);
    Shift1Bits(k, l);
    OrBits(b, Shift1(k), l);
    ComplementBits(Shift1(k), 8, l);
    assert Pow2(8) - 1 - Shift1(k) == 255 - Shift1(k);
    AndBits(b, 255 - Shift1(k), l);
  }

  /** `fb_set`: of the 32000 bits, exactly the addressed one takes the colour. */
  method FbSet(frame: array<byte>, gate: nat, src: nat, white: bool)
    requires frame.Length == FRAME_SIZE && gate < GATES && src < SOURCES
    modifies frame
    ensures forall i: nat, k: nat | i < 4000 && k < 8 ::
              Bit(frame[i], k) ==
              if i == 16 * gate + src / 8 && k == 7 - src % 8 then white else old(Bit(frame[i], k))
  {
    var b, m := ByteOf(gate, src), Shift1(BitOf(src));
    OneBitChanges(frame[b], BitOf(src), 0);
    if white {
      frame[b] := Or(frame[b], m);
    } else {
      frame[b] := And(frame[b], 255 - m);
    }
    forall k: nat | k < 8
      ensures Bit(frame[b], k) == if k == BitOf(src) then white else old(Bit(frame[b], k))
    {
      OneBitChanges(old(frame[b]), BitOf(src), k);
    }
  }

  // ------------------------------------------------------------------ the packed image

  /** Bits of a row packed into a word, most significant first; positions behind the row are 0. */
  function PackBits(row: seq<bool>, from: nat, count: nat): nat {
    if count == 0 then 0
    else 2 * PackBits(row, from, count - 1) +
         if from + count - 1 < |row| && row[from + count - 1] then 1 else 0
  }

  /** An image: 103 rows of 211 pixels, true is white. */
  ghost predicate IsImage(image: seq<seq<bool>>) {
    |image| == IMAGE_HEIGHT && forall r | 0 <= r < IMAGE_HEIGHT :: |image[r]| == IMAGE_WIDTH
  }

  /** `words` is the image in the converter's format: 7 words a row, row after row. */
  ghost predicate Packed(image: seq<seq<bool>>, words: seq<nat>) {
    && IsImage(image) && |words| == 721
    && forall r: nat, w: nat | r < 103 && w < 7 :: words[r * 7 + w] == PackBits(image[r], 32 * w, 32)
  }

  /** A packed word has no more bits than were packed. */
  lemma {:induction false} PackedBelow(row: seq<bool>, from: nat, count: nat)
    ensures PackBits(row, from, count) < Pow2(count)
  {
    if count > 0 {
      PackedBelow(row, from, count - 1);
    }
  }

  /** Bit 31 - i of a packed word is pixel i of its 32 pixels, and 0 behind the row. */
  lemma {:induction false} PackedBit(row: seq<bool>, from: nat, count: nat, i: nat)
    requires i < count
    ensures Bit(PackBits(row, from, count), count - 1 - i) <==> from + i < |row| && row[from + i]
  {
    BitStep(PackBits(row, from, count), count - 1 - i);
    if i < count - 1 {
      PackedBit(row, from, count - 1, i);
    }
  }

  /** `img_white`: pixels outside the image are white. */
  function ImgWhite(words: seq<nat>, gate: nat, src: nat): bool
    requires |words| == IMAGE_HEIGHT * ROW_WORDS
  {
    if gate >= IMAGE_WIDTH || src >= IMAGE_HEIGHT then true
    else Bit(words[src * ROW_WORDS + gate / 32], 31 - gate % 32)
  }

  /** What the panel should show. */
  function Expected(image: seq<seq<bool>>, gate: nat, src: nat): bool
    requires IsImage(image)
  {
    gate >= IMAGE_WIDTH || src >= IMAGE_HEIGHT || image[src][gate]
  }

  /** Unpacking undoes packing. */
  lemma ImgWhiteUnpacks(image: seq<seq<bool>>, words: seq<nat>, gate: nat, src: nat)
    requires Packed(image, words)
    ensures ImgWhite(words, gate, src) == Expected(image, gate, src)
  {
    if gate < IMAGE_WIDTH && src < IMAGE_HEIGHT {
      PackedBit(image[src], 32 * (gate / 32), 32, gate % 32);
    }
  }

  /** Draw the packed image: every pixel of the panel is set once. */
  method Render(frame: array<byte>, words: seq<nat>, ghost image: seq<seq<bool>>)
    requires frame.Length == FRAME_SIZE && Packed(image, words)
    modifies frame
    ensures forall g: nat, s: nat | g < GATES && s < SOURCES :: Shows(frame[..], g, s) == Expected(image, g, s)
  {
    var gate := 0;
    while gate < GATES
      invariant gate <= GATES
      invariant forall g: nat, s: nat | g < gate && s < SOURCES :: Shows(frame[..], g, s) == Expected(image, g, s)
    {
      var src := 0;
      while src < SOURCES
        invariant src <= SOURCES
        invariant forall g: nat, s: nat | g < gate && s < SOURCES :: Shows(frame[..], g, s) == Expected(image, g, s)
        invariant forall s: nat | s < src :: Shows(frame[..], gate, s) == Expected(image, gate, s)
      {
        ImgWhiteUnpacks(image, words, gate, src);
        FbSet(frame, gate, src, ImgWhite(words, gate, src));
        src := src + 1;
      }
      gate := gate + 1;
    }
  }

  // ------------------------------------------------------------------ sending it

  /** One SPI transfer, with the level of the data/command line. */
  datatype Transfer = Transfer(data: bool, bytes: seq<byte>)

  class Panel {
    var dc: bool
    var log: seq<Transfer>

    method SpiTx(bytes: seq<byte>)
      modifies this`log
      ensures log == old(log) + [Transfer(dc, bytes)]
    {
      log := log + [Transfer(dc, bytes)];
    }

    method EpdCmd(c: byte)
      modifies this
      ensures log == old(log) + [Transfer(false, [c])]
    {
      dc := false;
      SpiTx([c]);
    }

    method EpdData(d: byte)
      modifies this
      ensures log == old(log) + [Transfer(true, [d])]
    {
      dc := true;
      SpiTx([d]);
    }

    /** `epd_refresh`: one data byte per transfer, the whole frame in order, then the update commands. */
    method EpdRefresh(frame: array<byte>)
      modifies this
      ensures log == old(log) + [Transfer(false, [0x24])] + Bytewise(frame[..]) +
                     [Transfer(false, [0x22]), Transfer(true, [0xF7]), Transfer(false, [0x20])]
    {
      EpdCmd(0x24);
      dc := true;
      var i := 0;
      while i < frame.Length
        invariant i <= frame.Length && dc
        invariant log == old(log) + [Transfer(false, [0x24])] + Bytewise(frame[..i])
      {
        assert frame[..i + 1] == frame[..i] + [frame[i]];
        SpiTx([frame[i]]);
        i := i + 1;
      }
      assert frame[..i] == frame[..];
      EpdCmd(0x22);
      EpdData(0xF7);
      EpdCmd(0x20);
    }
  }

  function Bytewise(bytes: seq<byte>): seq<Transfer> {
    seq(|bytes|, i requires 0 <= i < |bytes| => Transfer(true, [bytes[i]]))
  }

  /** The command that data bytes at the end of the log belong to. */
  function LastCommand(log: seq<Transfer>): Option<seq<byte>> {
    if log == [] then None
    else if !log[|log| - 1].data then Some(log[|log| - 1].bytes)
    else LastCommand(log[..|log| - 1])
  }

  /** The panel's memory after a log: the data bytes that follow the last write-RAM command. */
  function Received(log: seq<Transfer>): seq<byte> {
    if log == [] then []
    else
      var t, before := log[|log| - 1], log[..|log| - 1];
      if !t.data then (if t.bytes == [0x24] then [] else Received(before))
      else if LastCommand(before) == Some([0x24]) then Received(before) + t.bytes
      else Received(before)
  }

  lemma {:induction false} ReceivedBytewise(log: seq<Transfer>, bytes: seq<byte>)
    requires LastCommand(log) == Some([0x24])
    ensures Received(log + Bytewise(bytes)) == Received(log) + bytes
    ensures LastCommand(log + Bytewise(bytes)) == Some([0x24])
  {
    var all := log + Bytewise(bytes);
    if bytes == [] {
      assert all == log;
    } else {
      var last := |bytes| - 1;
      ReceivedBytewise(log, bytes[..last]);
      assert all[..|all| - 1] == log + Bytewise(bytes[..last]) && all[|all| - 1] == Transfer(true, [bytes[last]]);
      assert bytes == bytes[..last] + [bytes[last]];
    }
  }

  lemma ReceivedAppend(log: seq<Transfer>, t: Transfer)
    ensures !t.data ==> Received(log + [t]) == (if t.bytes == [0x24] then [] else Received(log))
    ensures !t.data ==> LastCommand(log + [t]) == Some(t.bytes)
    ensures t.data ==> LastCommand(log + [t]) == LastCommand(log)
    ensures t.data && LastCommand(log) != Some([0x24]) ==> Received(log + [t]) == Received(log)
  {
    assert (log + [t])[..|log|] == log;
  }

  /** A refresh leaves the frame, and nothing else, in the panel's memory. */
  lemma RefreshDelivers(log: seq<Transfer>, bytes: seq<byte>)
    ensures Received(log + [Transfer(false, [0x24])] + Bytewise(bytes) +
                     [Transfer(false, [0x22]), Transfer(true, [0xF7]), Transfer(false, [0x20])]) == bytes
  {
    var l1 := log + [Transfer(false, [0x24])];
    var l2 := l1 + Bytewise(bytes);
    ReceivedAppend(log, Transfer(false, [0x24]));
    ReceivedBytewise(l1, bytes);
    UpdateKeeps(l2);
    assert l2 + [Transfer(false, [0x22]), Transfer(true, [0xF7]), Transfer(false, [0x20])] ==
           l1 + Bytewise(bytes) + [Transfer(false, [0x22]), Transfer(true, [0xF7]), Transfer(false, [0x20])];
  }

  /** The update commands and their data leave the panel's memory alone. */
  lemma UpdateKeeps(log: seq<Transfer>)
    ensures Received(log + [Transfer(false, [0x22]), Transfer(true, [0xF7]), Transfer(false, [0x20])]) == Received(log)
  {
    var l1 := log + [Transfer(false, [0x22])];
    var l2 := l1 + [Transfer(true, [0xF7])];
    ReceivedAppend(log, Transfer(false, [0x22]));
    ReceivedAppend(l1, Transfer(true, [0xF7]));
    ReceivedAppend(l2, Transfer(false, [0x20]));
    assert l2 + [Transfer(false, [0x20])] ==
           log + [Transfer(false, [0x22]), Transfer(true, [0xF7]), Transfer(false, [0x20])];
  }

  /**
   * From the packed image to the panel: bit k of byte i of its memory is set exactly if the pixel of gate
   * i / 16 and source 8 * (i % 16) + 7 - k is white in the image or outside of it.
   */
  method DisplayImage(panel: Panel, frame: array<byte>, words: seq<nat>, ghost image: seq<seq<bool>>)
    requires frame.Length == FRAME_SIZE && Packed(image, words)
    modifies panel, frame
    ensures Received(panel.log) == frame[..]
    ensures forall g: nat, s: nat | g < GATES && s < SOURCES ::
              Shows(Received(panel.log), g, s) == Expected(image, g, s)
    ensures forall i: nat, k: nat | i < 4000 && k < 8 ::
              Bit(Received(panel.log)[i], k) ==
              var gate, src := i / 16, 8 * (i % 16) + 7 - k;
              gate >= 211 || src >= 103 || image[src][gate]
  {
    Render(frame, words, image);
    RefreshDelivers(panel.log, frame[..]);
    panel.EpdRefresh(frame);
    forall i: nat, k: nat | i < 4000 && k < 8
      ensures Bit(frame[i], k) ==
              var gate, src := i / 16, 8 * (i % 16) + 7 - k;
              gate >= 211 || src >= 103 || image[src][gate]
    {
      AddressingIsBijective(0, 0, 0, 0, i, k);
      assert Shows(frame[..], i / 16, 8 * (i % 16) + 7 - k) == Expected(image, i / 16, 8 * (i % 16) + 7 - k);
    }
  }
}
