/** The LED panel: a chain of 8x8 segment modules behind a shift-register
    chain on a serial bus. The panel keeps a hardware buffer of 8 rows, each
    holding one byte per segment and a trailing row-select byte, composes
    a message buffer into it at a bit offset, and writes it out row by row. */
module Components {
  import opened Bits
  import opened Wrappers
  import opened Scroll
  import opened Font

  /** The rows of a jagged message buffer, as values. */
  ghost function MessageRows(buffer: array<array<byte>>): seq<seq<byte>>
    reads buffer, buffer[..]
  {
    seq(buffer.Length, r requires 0 <= r < buffer.Length reads buffer, buffer[..] => buffer[r][..])
  }

  /** `n` zero bytes: a freshly allocated C# `byte[n]`. */
  function Zeros(n: nat): seq<byte>
  {
    seq(n, i => 0)
  }

  /** `message ?? string.Empty`: a `null` message renders as the empty one. */
  function OrEmpty(message: Option<string>): string
  {
    if message.Some? then message.value else ""
  }

  /** `Plot`'s "on" update, `(b & ~m) | (0xFF & m)`, sets the bits of `m`. */
  lemma SetThroughMask(b: byte, m: byte)
    ensures (b & !m) | (0xFF & m) == b | m
  {
  }

  class LEDPanel {
    const Rows: nat
    const Columns: nat
    const Segments: nat
    /** The hardware buffer: `Rows` rows of `Segments + 1` bytes. */
    const Buffer: array2<byte>
    /** Every `Spi.Write` issued so far, oldest first, each the bytes of one row. */
    ghost var Trace: seq<seq<byte>>

    ghost predicate Valid()
      reads Buffer
    {
      Rows == 8 && Segments >= 1 && Columns == Segments * 8 &&
      Buffer.Length0 == Rows && Buffer.Length1 == Segments + 1 &&
      forall r :: 0 <= r < 8 ==> Buffer[r, Segments] == RowSelect(r)
    }

    /** The bytes `WriteToPanel` sends for row `r`. */
    ghost function RowBytes(r: nat): seq<byte>
      requires Valid() && r < 8
      reads Buffer
    {
      seq(Segments + 1, j requires 0 <= j < Segments + 1 reads Buffer => Buffer[r, j])
    }

    /** The eight row writes of the frame now in the hardware buffer. */
    ghost function CurrentFrame(): seq<seq<byte>>
      requires Valid()
      reads Buffer
    {
      seq(8, r requires 0 <= r < 8 && Valid() reads Buffer => RowBytes(r))
    }

    /** A panel of `segments` modules: all data bytes 0, each row ending in
        its row-select byte, nothing written to the device yet. */
    constructor (segments: nat)
      requires segments >= 1
      ensures Valid() && fresh(Buffer)
      ensures Segments == segments && Rows == 8 && Columns == segments * 8
      ensures forall r, s :: 0 <= r < 8 && 0 <= s < Segments ==> Buffer[r, s] == 0
      ensures Trace == []
    {
      Segments := segments;
      Rows := 8;
      Columns := segments * 8;
      Buffer := new byte[8, segments + 1]((r, s) => 0);
      Trace := [];
      new;
      for r := 0 to Rows
        invariant Trace == []
        invariant forall r', s :: 0 <= r' < 8 && 0 <= s < Segments ==> Buffer[r', s] == 0
        invariant forall r' :: 0 <= r' < r ==> Buffer[r', Segments] == RowSelect(r')
      {
        Buffer[r, Segments] := RowSelect(r);
      }
    }

    /** `Clear(value)`: every data byte becomes `value`; the row-select bytes stay. */
    method Clear(value: byte := 0)
      requires Valid()
      modifies Buffer
      ensures Valid()
      ensures forall r, s :: 0 <= r < 8 && 0 <= s < Segments ==> Buffer[r, s] == value
    {
      for r := 0 to Buffer.Length0
        invariant Valid()
        invariant forall r', s :: 0 <= r' < r && 0 <= s < Segments ==> Buffer[r', s] == value
      {
        for s := 0 to Buffer.Length1 - 1
          invariant Valid()
          invariant forall r', s' :: 0 <= r' < r && 0 <= s' < Segments ==> Buffer[r', s'] == value
          invariant forall s' :: 0 <= s' < s ==> Buffer[r, s'] == value
        {
          Buffer[r, s] := value;
        }
      }
    }

    /** `Plot(col, row, isOn)`: sets or clears bit `col % 8` of segment
        `(col >> 3) % Segments` in row `row % Rows`, and changes nothing else. */
    method Plot(col: nat, row: nat, isOn: bool)
      requires Valid()
      modifies Buffer
      ensures Valid()
      ensures Buffer[row % 8, (col / 8) % Segments]
        == BitWrite(old(Buffer[row % 8, (col / 8) % Segments]), col % 8, isOn)
      ensures forall r, s :: (0 <= r < 8 && 0 <= s <= Segments && (r != row % 8 || s != (col / 8) % Segments)
                              ==> Buffer[r, s] == old(Buffer[r, s]))
      ensures BitRead(Buffer[row % 8, (col / 8) % Segments], col % 8) == isOn
      ensures forall q :: 0 <= q < 8 && q != col % 8 ==>
                BitRead(Buffer[row % 8, (col / 8) % Segments], q) == BitRead(old(Buffer[row % 8, (col / 8) % Segments]), q)
    {
      var segment := (col / 8) % Segments;
      var colBitIndex := col % 8;
      var r := row % Rows;
      assert segment < Segments && r < 8;
      var b := Buffer[r, segment];
      var updated := PlotByte(b, colBitIndex, isOn);
      BitWriteSpec(b, colBitIndex, isOn);
      Buffer[r, segment] := updated;
    }

    /** `Plot`'s read-modify-write of the target byte: `(b & ~colBit) |
        (0xFF & colBit)` when on, `b & ~colBit` when off. */
    static method PlotByte(b: byte, colBitIndex: int, isOn: bool) returns (updated: byte)
      ensures updated == BitWrite(b, colBitIndex, isOn)
    {
      var colBit := BitMask(colBitIndex);
      if isOn {
        updated := (b & !colBit) | (0xFF & colBit);
        SetThroughMask(b, colBit);
      } else {
        updated := b & !colBit;
      }
    }

    /** `CreateBuffer(segments)`: a fresh message buffer of `Rows` distinct
        rows, each of `segments` zero bytes. */
    method CreateBuffer(segments: nat) returns (buffer: array<array<byte>>)
      requires Valid()
      ensures fresh(buffer) && buffer.Length == Rows
      ensures forall r :: 0 <= r < Rows ==> fresh(buffer[r]) && buffer[r][..] == Zeros(segments)
      ensures forall r, r' :: 0 <= r < r' < Rows ==> buffer[r] != buffer[r']
      ensures forall r :: 0 <= r < Rows ==> buffer[r] as object != buffer
    {
      var rows: seq<array<byte>> := [];
      for r := 0 to Rows
        invariant |rows| == r
        invariant forall i :: 0 <= i < r ==> fresh(rows[i]) && rows[i][..] == Zeros(segments)
        invariant forall i, i' :: 0 <= i < i' < r ==> rows[i] != rows[i']
      {
        var row := new byte[segments](i => 0);
        assert row[..] == Zeros(segments);
        rows := rows + [row];
      }
      buffer := new array<byte>[Rows](r requires 0 <= r < Rows => rows[r]);
      assert buffer[..] == rows;
    }

    /** The inner loop of `Render`: column `charIndex` of the message buffer
        receives the glyph, row by row; every other byte stays. */
    method DrawCharacter(rows: seq<array<byte>>, charIndex: nat, character: Glyph)
      requires |rows| == 8
      requires forall r :: 0 <= r < 8 ==> charIndex < rows[r].Length
      requires forall r, r' :: 0 <= r < r' < 8 ==> rows[r] != rows[r']
      modifies set r | 0 <= r < 8 :: rows[r]
      ensures forall r :: 0 <= r < 8 ==> rows[r][..] == old(rows[r][..])[charIndex := character[r]]
    {
      for r := 0 to 8
        invariant forall r' :: 0 <= r' < r ==> rows[r'][..] == old(rows[r'][..])[charIndex := character[r']]
        invariant forall r' :: r <= r' < 8 ==> rows[r'][..] == old(rows[r'][..])
      {
        rows[r][charIndex] := character[r];
      }
    }

    /** `Render(message)`: the message buffer of `RenderRows`, freshly
        allocated, or the exception it raises. The hardware buffer is not touched. */
    method Render(font: FontTable, message: Option<string>) returns (result: Result<array<array<byte>>, RenderError>)
      requires Valid()
      ensures result.Ok? <==> RenderRows(font, OrEmpty(message)).Ok?
      ensures result.Err? ==> result.error == RenderRows(font, OrEmpty(message)).error
      ensures result.Ok? ==> (fresh(result.value) && result.value.Length == Rows
                              && (forall r :: 0 <= r < Rows ==> fresh(result.value[r]))
                              && MessageRows(result.value) == RenderRows(font, OrEmpty(message)).value)
    {
      var text := OrEmpty(message);
      var buffer := CreateBuffer(|text|);
      ghost var rows := buffer[..];
      ghost var drawn: seq<Glyph> := [];
      for charIndex := 0 to |text|
        invariant buffer[..] == rows
        invariant Glyphs(font, text[..charIndex]) == Ok(drawn)
        invariant forall r :: 0 <= r < Rows ==> fresh(buffer[r]) && buffer[r].Length == |text|
        invariant forall r, r' :: 0 <= r < r' < Rows ==> buffer[r] != buffer[r']
        invariant forall r :: 0 <= r < Rows ==> buffer[r] as object != buffer
        invariant forall r, i :: 0 <= r < Rows && 0 <= i < charIndex ==> buffer[r][i] == drawn[i][r]
      {
        var characterToRender := text[charIndex];
        var character := GetCharacter(font, characterToRender);
        if character.None? {
          character := GetCharacter(font, ' ');
        }
        assert text[..charIndex + 1][..charIndex] == text[..charIndex];
        if character.None? {
          GlyphsPrefixFails(font, text, charIndex + 1);
          return Err(NotSupported(characterToRender));
        }
        DrawCharacter(buffer[..], charIndex, character.value);
        drawn := drawn + [character.value];
      }
      assert text[..|text|] == text;
      forall r | 0 <= r < Rows
        ensures buffer[r][..] == RenderRows(font, text).value[r]
      {
        forall i | 0 <= i < |text|
          ensures buffer[r][i] == RenderRows(font, text).value[r][i]
        {
          assert buffer[r][i] == drawn[i][r];
        }
      }
      result := Ok(buffer);
    }

    /** The body of `Display`'s loop for one offset: every data byte of row
        `r`, segment `s` becomes the splice of message bytes
        `offset / 8 + s` and `offset / 8 + s + 1` (0 where missing). */
    method ComposeFrame(buffer: array<array<byte>>, bufferColumnOffset: nat)
      requires Valid() && buffer.Length >= 8
      modifies Buffer
      ensures Valid()
      ensures forall r, s :: (0 <= r < 8 && 0 <= s < Segments
                              ==> Buffer[r, s] == SegmentByte(buffer[r][..], bufferColumnOffset, s))
    {
      var startingSegment := bufferColumnOffset / 8;
      var localOffset := (bufferColumnOffset % 8) as bv8;
      var rightMask := RightMask(localOffset);
      var leftMask := LeftMask(localOffset);
      for r := 0 to Rows
        invariant Valid()
        invariant forall r', s :: (0 <= r' < r && 0 <= s < Segments
                                   ==> Buffer[r', s] == SegmentByte(buffer[r'][..], bufferColumnOffset, s))
      {
        var bufferSegment := startingSegment;
        for s := 0 to Segments
          invariant Valid()
          invariant bufferSegment == startingSegment + s
          invariant forall r', s' :: 0 <= r' < r && 0 <= s' < Segments ==>
                                       Buffer[r', s'] == SegmentByte(buffer[r'][..], bufferColumnOffset, s')
          invariant forall s' :: 0 <= s' < s ==> Buffer[r, s'] == SegmentByte(buffer[r][..], bufferColumnOffset, s')
        {
          var composed := ComposeByte(buffer[r], bufferSegment, localOffset, leftMask, rightMask);
          Buffer[r, s] := composed;
          bufferSegment := bufferSegment + 1;
        }
      }
    }

    /** One segment of one row in `Display`'s loop: the byte at
        `bufferSegment` shifted left by `localOffset` joined with the next
        byte shifted right by `8 - localOffset`, each 0 past the end of the
        row, through the two masks. */
    static method ComposeByte(row: array<byte>, bufferSegment: nat, localOffset: bv8, leftMask: byte, rightMask: byte)
      returns (composed: byte)
      requires localOffset < 8 && leftMask == LeftMask(localOffset) && rightMask == RightMask(localOffset)
      ensures composed == Splice(SourceByte(row[..], bufferSegment), SourceByte(row[..], bufferSegment + 1), localOffset)
    {
      var leftByte: byte := 0;
      var rightByte: byte := 0;
      if bufferSegment < row.Length {
        leftByte := row[bufferSegment] << localOffset;
      }
      if bufferSegment + 1 < row.Length {
        rightByte := row[bufferSegment + 1] >> (8 - localOffset);
      }
      composed := (leftMask & leftByte) | (rightMask & rightByte);
    }

    /** The frame in the hardware buffer is the frame of `message` at `offset`. */
    lemma FrameShown(message: seq<seq<byte>>, offset: nat)
      requires Valid() && |message| >= 8
      requires forall r, s :: 0 <= r < 8 && 0 <= s < Segments ==> Buffer[r, s] == SegmentByte(message[r], offset, s)
      ensures CurrentFrame() == Frame(message, offset, Segments)
    {
      forall r | 0 <= r < 8
        ensures CurrentFrame()[r] == Frame(message, offset, Segments)[r]
      {
        assert RowBytes(r) == PanelRow(message[r], offset, Segments, r);
      }
    }

    /** `WriteToPanel`: one write per row, rows 0 to 7 in order. */
    method WriteToPanel()
      requires Valid()
      modifies this
      ensures Valid()
      ensures Trace == old(Trace) + CurrentFrame()
    {
      for row := 0 to Buffer.Length0
        invariant Valid()
        invariant Trace == old(Trace) + CurrentFrame()[..row]
      {
        Trace := Trace + [RowBytes(row)];
        assert CurrentFrame()[..row + 1] == CurrentFrame()[..row] + [RowBytes(row)];
      }
    }

    /** `Display()`: sends the hardware buffer as it is. */
    method Refresh()
      requires Valid()
      modifies this
      ensures Valid()
      ensures Trace == old(Trace) + CurrentFrame()
    {
      WriteToPanel();
    }

    /** `Display(buffer, offset)`: composes and sends one frame for each
        offset from `bufferColumnOffset` on, at least one, while
        `++offset < bufferColumns - Columns`. Afterwards the hardware buffer
        holds the last frame. */
    method Display(buffer: array<array<byte>>, bufferColumnOffset: nat := 0)
      requires Valid() && buffer.Length >= 8
      modifies this, Buffer
      ensures Valid()
      ensures Trace == old(Trace) + ScrollTrace(MessageRows(buffer), Segments, bufferColumnOffset,
                                                EndOffset(bufferColumnOffset, buffer[0].Length * 8, Columns))
      ensures forall r, s :: 0 <= r < 8 && 0 <= s < Segments ==>
                              Buffer[r, s] == SegmentByte(buffer[r][..], EndOffset(bufferColumnOffset, buffer[0].Length * 8, Columns) - 1, s)
    {
      var bufferSegments := buffer[0].Length;
      var bufferColumns := bufferSegments * 8;
      ghost var message := MessageRows(buffer);
      ghost var end := EndOffset(bufferColumnOffset, bufferColumns, Columns);
      var offset := bufferColumnOffset;
      var more := true;
      while more
        invariant Valid()
        invariant MessageRows(buffer) == message
        invariant bufferColumnOffset <= offset <= end
        invariant more <==> offset < end
        invariant more && offset > bufferColumnOffset ==> offset < bufferColumns - Columns
        invariant Trace == old(Trace) + ScrollTrace(message, Segments, bufferColumnOffset, offset)
        invariant offset > bufferColumnOffset ==>
          forall r, s :: (0 <= r < 8 && 0 <= s < Segments ==> Buffer[r, s] == SegmentByte(message[r], offset - 1, s))
        decreases more, bufferColumns - Columns - offset
      {
        ComposeFrame(buffer, offset);
        FrameShown(message, offset);
        WriteToPanel();
        offset := offset + 1;
        more := offset < bufferColumns - Columns;
      }
    }
  }
}
