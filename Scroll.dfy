/** The scroll compositor of the LED panel as pure functions: the masks,
    the splice of two adjacent message bytes into one panel byte, the frame
    the panel shows at a given bit offset into a message, and the sequence
    of row writes a whole scroll sweep sends to the device. */
module Scroll {
  import opened Bits

  /** `rightMask = (byte)(~(255 << k))` for the bit shift `k = offset % 8`. */
  function RightMask(k: bv8): byte
    requires k < 8
  {
    !((0xFF as byte) << k)
  }

  /** `leftMask = (byte)(~rightMask)`. */
  function LeftMask(k: bv8): byte
    requires k < 8
  {
    !RightMask(k)
  }

  /** The two masks are complementary: together they cover every bit once. */
  lemma MasksComplementary(k: bv8)
    requires k < 8
    ensures LeftMask(k) | RightMask(k) == 0xFF && LeftMask(k) & RightMask(k) == 0
  {
  }

  /** `rightMask` selects exactly the bits below `k`, `leftMask` the rest. */
  lemma MaskBits(k: bv8, q: bv8)
    requires k < 8 && q < 8
    ensures BitRead(RightMask(k), q as int) <==> q < k
    ensures BitRead(LeftMask(k), q as int) <==> q >= k
  {
    BitReadHasBit(RightMask(k), q);
    BitReadHasBit(LeftMask(k), q);
  }

  /** One output byte of `Display` from the current source byte `a` and the
      next one `b`: `(leftMask & (byte)(a << k)) | (rightMask & (byte)(b >> (8 - k)))`. */
  function Splice(a: byte, b: byte, k: bv8): byte
    requires k < 8
  {
    (LeftMask(k) & (a << k)) | (RightMask(k) & (b >> (8 - k)))
  }

  /** The 8-bit window starting `k` bits into the 16-bit value `a b`
      (`a` in the high byte). */
  function Window(a: byte, b: byte, k: bv8): byte
    requires k < 8
  {
    (((((a as bv16) << 8) | (b as bv16)) << k) >> 8) as bv8
  }

  /** The masked splice is exactly that window: no bit is lost or doubled. */
  lemma SpliceIsWindow(a: byte, b: byte, k: bv8)
    requires k < 8
    ensures Splice(a, b, k) == Window(a, b, k)
  {
  }

  /** At a byte-aligned offset the splice is the current byte itself. */
  lemma SpliceAligned(a: byte, b: byte)
    ensures Splice(a, b, 0) == a
  {
  }

  /** Helpers for `SpliceBit`, stated with `HasBit` for solver cost: the
      high bits of a splice come from `a`, the low bits from `b`. */
  lemma SpliceHasBitLeft(a: byte, b: byte, k: bv8, q: bv8)
    requires k <= q < 8
    ensures HasBit(Splice(a, b, k), q) == HasBit(a, q - k)
  {
  }

  lemma SpliceHasBitRight(a: byte, b: byte, k: bv8, q: bv8)
    requires q < k < 8
    ensures HasBit(Splice(a, b, k), q) == HasBit(b, q + 8 - k)
  {
  }

  /** Bit-vector forms of the small positions used by `SpliceBit`. Doing
      these `int` to bit-vector conversions once, here, keeps them out of the
      bit-level lemmas, which stay cheap for the solver. */
  lemma SmallPositions(j: nat, k: nat) returns (q: bv8, kb: bv8)
    requires j < 8 && k < 8
    ensures q < 8 && kb < 8 && q as int == 7 - j && kb == k as bv8
    ensures q >= kb <==> k + j < 8
    ensures q >= kb ==> (q - kb) as int == 7 - j - k
    ensures q < kb ==> (q + 8 - kb) as int == 15 - j - k
  {
    q, kb := (7 - j) as bv8, k as bv8;
  }

  /** Bit `7 - j` of a spliced byte (its `j`-th bit counting from the most
      significant) is the `(k + j)`-th bit of the pair `a b` counting the
      same way. */
  lemma SpliceBit(a: byte, b: byte, k: nat, j: nat)
    requires k < 8 && j < 8
    ensures BitRead(Splice(a, b, k as bv8), 7 - j)
      == if k + j < 8 then BitRead(a, 7 - j - k) else BitRead(b, 15 - j - k)
  {
    var q, kb := SmallPositions(j, k);
    BitReadHasBit(Splice(a, b, kb), q);
    if q >= kb {
      SpliceHasBitLeft(a, b, kb, q);
      BitReadHasBit(a, q - kb);
    } else {
      SpliceHasBitRight(a, b, kb, q);
      BitReadHasBit(b, q + 8 - kb);
    }
  }

  /** A message byte column, or 0 (blank) outside the row. */
  function SourceByte(row: seq<byte>, i: nat): byte
  {
    if i < |row| then row[i] else 0
  }

  /** The byte that panel segment `s` shows for one message row when the
      panel starts `offset` bits into it. */
  function SegmentByte(row: seq<byte>, offset: nat, s: nat): byte
  {
    var start := offset / 8;
    Splice(SourceByte(row, start + s), SourceByte(row, start + s + 1), (offset % 8) as bv8)
  }

  /** Bit `i` of a message row read as one stream of bits, each byte most
      significant bit first; bits beyond the row are off. */
  predicate StreamBit(row: seq<byte>, i: nat)
  {
    BitRead(SourceByte(row, i / 8), 7 - i % 8)
  }

  /** Compositing at any offset slices the bit stream: the `j`-th column of
      segment `s` shows stream bit `offset + 8 * s + j`. */
  lemma SegmentShowsStream(row: seq<byte>, offset: nat, s: nat, j: nat)
    requires j < 8
    ensures BitRead(SegmentByte(row, offset, s), 7 - j) == StreamBit(row, offset + 8 * s + j)
  {
    var start, k, i := offset / 8, offset % 8, offset + 8 * s + j;
    var a, b := SourceByte(row, start + s), SourceByte(row, start + s + 1);
    assert SegmentByte(row, offset, s) == Splice(a, b, k as bv8);
    SpliceBit(a, b, k, j);
    StreamIndex(offset, s, j);
    if k + j < 8 {
      assert StreamBit(row, i) == BitRead(a, 7 - j - k);
    } else {
      assert StreamBit(row, i) == BitRead(b, 15 - j - k);
    }
  }

  /** Where bit `offset + 8 * s + j` of the stream lies: in byte
      `offset / 8 + s` while `offset % 8 + j < 8`, else in the next one. */
  lemma StreamIndex(offset: nat, s: nat, j: nat)
    requires j < 8
    ensures var i, k := offset + 8 * s + j, offset % 8;
      if k + j < 8 then i / 8 == offset / 8 + s && i % 8 == k + j
      else i / 8 == offset / 8 + s + 1 && i % 8 == k + j - 8
  {
    var start, k := offset / 8, offset % 8;
    var i := offset + 8 * s + j;
    assert i == 8 * (start + s) + (k + j);
    if k + j >= 8 {
      assert i == 8 * (start + s + 1) + (k + j - 8);
    }
  }

  /** At a byte-aligned offset each segment shows one message byte unchanged. */
  lemma AlignedSegment(row: seq<byte>, offset: nat, s: nat)
    requires offset % 8 == 0
    ensures SegmentByte(row, offset, s) == SourceByte(row, offset / 8 + s)
  {
    SpliceAligned(SourceByte(row, offset / 8 + s), SourceByte(row, offset / 8 + s + 1));
  }

  /** Segments past the end of the message are blank. */
  lemma BlankPastMessage(row: seq<byte>, offset: nat, s: nat)
    requires offset / 8 + s >= |row|
    ensures SegmentByte(row, offset, s) == 0
  {
  }

  /** What `WriteToPanel` sends for row `r` of a frame: the segment bytes
      followed by the row-select byte. */
  function PanelRow(row: seq<byte>, offset: nat, segments: nat, r: nat): seq<byte>
    requires r < 8
  {
    seq(segments, s requires 0 <= s < segments => SegmentByte(row, offset, s)) + [RowSelect(r)]
  }

  /** The eight row writes of one frame at `offset`. */
  function Frame(message: seq<seq<byte>>, offset: nat, segments: nat): seq<seq<byte>>
    requires |message| >= 8
  {
    seq(8, r requires 0 <= r < 8 => PanelRow(message[r], offset, segments, r))
  }

  /** All row writes for the frames at offsets `start` up to `stop` (exclusive), in order. */
  function ScrollTrace(message: seq<seq<byte>>, segments: nat, start: nat, stop: nat): seq<seq<byte>>
    requires |message| >= 8
    decreases stop
  {
    if stop <= start then [] else ScrollTrace(message, segments, start, stop - 1) + Frame(message, stop - 1, segments)
  }

  /** One past the last offset `Display` composes: the do-while runs once
      for `start`, then while `++offset < bufferColumns - columns`. */
  function EndOffset(start: nat, bufferColumns: int, columns: int): (e: nat)
    ensures e > start
    ensures e == start + 1 || e == bufferColumns - columns
    ensures e >= bufferColumns - columns
  {
    if start + 1 < bufferColumns - columns then bufferColumns - columns else start + 1
  }

  /** A sweep that starts more than one column before `bufferColumns - columns`
      ends with the window `[bufferColumns - columns - 1, bufferColumns - 1)`,
      so no frame of it shows the message's last bit column. */
  lemma LastColumnHidden(start: nat, bufferColumns: int, columns: nat, offset: nat, i: nat)
    requires start + 1 < bufferColumns - columns
    requires start <= offset < EndOffset(start, bufferColumns, columns) && offset <= i < offset + columns
    ensures EndOffset(start, bufferColumns, columns) - 1 == bufferColumns - columns - 1
    ensures i < bufferColumns - 1
  {
  }

  /** The `n`-th frame of a sweep is the frame at `start + n`, written as
      eight consecutive rows 0 to 7, each `segments + 1` bytes ending in its
      row-select byte. */
  lemma {:induction false} ScrollTraceAt(message: seq<seq<byte>>, segments: nat, start: nat, stop: nat, n: nat, r: nat)
    requires |message| >= 8 && start + n < stop && r < 8
    ensures |ScrollTrace(message, segments, start, stop)| == 8 * (stop - start)
    ensures ScrollTrace(message, segments, start, stop)[8 * n + r] == PanelRow(message[r], start + n, segments, r)
    ensures |ScrollTrace(message, segments, start, stop)[8 * n + r]| == segments + 1
    ensures ScrollTrace(message, segments, start, stop)[8 * n + r][segments] == RowSelect(r)
  {
    var prefix := ScrollTrace(message, segments, start, stop - 1);
    var last := Frame(message, stop - 1, segments);
    assert ScrollTrace(message, segments, start, stop) == prefix + last;
    ScrollTraceLength(message, segments, start, stop - 1);
    if start + n < stop - 1 {
      ScrollTraceAt(message, segments, start, stop - 1, n, r);
      assert (prefix + last)[8 * n + r] == prefix[8 * n + r];
    } else {
      assert 8 * n + r == |prefix| + r;
      assert (prefix + last)[8 * n + r] == last[r];
    }
  }

  /** A sweep from `start` to `stop` issues eight writes per offset. */
  lemma {:induction false} ScrollTraceLength(message: seq<seq<byte>>, segments: nat, start: nat, stop: nat)
    requires |message| >= 8
    ensures |ScrollTrace(message, segments, start, stop)| == if stop <= start then 0 else 8 * (stop - start)
  {
    if stop > start {
      ScrollTraceLength(message, segments, start, stop - 1);
    }
  }

  /** A message exactly as wide as the panel, shown from offset 0, gives a
      single frame that is the message itself plus the row-select bytes. */
  lemma ExactFit(message: seq<seq<byte>>, segments: nat)
    requires |message| >= 8 && |message[0]| == segments
    requires forall r :: 0 <= r < 8 ==> |message[r]| == segments
    ensures EndOffset(0, |message[0]| * 8, segments * 8) == 1
    ensures forall r :: 0 <= r < 8 ==> Frame(message, 0, segments)[r] == message[r] + [RowSelect(r)]
  {
    forall r | 0 <= r < 8
      ensures Frame(message, 0, segments)[r] == message[r] + [RowSelect(r)]
    {
      forall s | 0 <= s < segments
        ensures SegmentByte(message[r], 0, s) == message[r][s]
      {
        AlignedSegment(message[r], 0, s);
      }
    }
  }

  /** An empty message (as rendered from the empty string) sweeps a single
      frame whose data bytes are all 0: only the row-select bytes light. */
  lemma EmptyMessage(message: seq<seq<byte>>, start: nat, segments: nat)
    requires |message| >= 8 && forall r :: 0 <= r < 8 ==> message[r] == []
    ensures EndOffset(start, |message[0]| * 8, segments * 8) == start + 1
    ensures forall r, s :: 0 <= r < 8 && 0 <= s < segments ==> Frame(message, start, segments)[r][s] == 0
  {
  }
}
