# LED panel framebuffer

This project models `LEDPanel`, the framebuffer of an 8-row LED dot-matrix panel built from `Segments` 8x8 modules that are chained behind shift registers on a serial (SPI) bus, and proves properties of the model.

- **Hardware buffer.** The panel keeps 8 rows of `Segments + 1` bytes. The last byte of row `r` is the one-hot row-select byte `1 << (7 - r)`.
- **Editing.** `Clear` fills the data bytes. `Plot` sets or clears one pixel bit.
- **Rendering.** `Render` turns a string into an 8-row message buffer, one byte column per character, using an 8x8 font. A missing glyph falls back to the space glyph; when that is missing too, `Render` throws.
- **Display.** `Display(buffer, offset)` is a horizontal scroll compositor. For each bit offset of its sweep, each panel byte is spliced from two adjacent message bytes through complementary masks. The eight rows are then written to the device in order.

The Dafny modules follow the structure of the class:

- `Bits` (`Bits.dfy`): the byte helpers `BitRead`, `BitWrite` and the row-select byte. C# shift semantics are written out: the count is taken modulo 32 and the `int` result is truncated to a byte.
- `Scroll` (`Scroll.dfy`): the masks, the splice, and the frame shown at a bit offset. It also defines the sequence of row writes of a whole sweep and the end of the sweep's loop.
- `Font` (`Font.dfy`): the glyph lookup of `Render` with its fallback and exception, as pure functions over a font table.
- `Components` (`LEDPanel.dfy`): the class `LEDPanel`. Its hardware buffer is an `array2` that the methods update in place. The device is a ghost `Trace`: every `Spi.Write` appends the row it sends.
- `Wrappers` (`Wrappers.dfy`): `Option` and `Result`.

Behaviour of the code worth noting:

- **Empty message.** `Display` of an empty message buffer still composes and sends one blank frame. This is because the loop is a do-while (`Scroll.EmptyMessage`).
- **Sweep bound.** The sweep's upper bound `bufferColumns - Columns` is exclusive.
- **Last column.** For a message wider than the panel, shown from an offset below `bufferColumns - Columns - 1` (such as the default 0), the last frame starts at offset `bufferColumns - Columns - 1`. Its window ends one bit column before the end of the message, so no frame of the sweep shows the message's last bit column (`Scroll.LastColumnHidden`).
- **Short messages.** A message narrower than the panel, shown from offset 0, fills the leading segments. The segments after it are blank (`Scroll.AlignedSegment`, `Scroll.BlankPastMessage`). For example, "HI" on a panel of four segments shows 'H' in segment 0, 'I' in segment 1, and nothing in segments 2 and 3.

`Display()` without arguments is named `Refresh`, since Dafny has no overloading. `Plot`'s helper `PlotByte` and `Display`'s inner steps `ComposeByte` and `ComposeFrame` are the source's inline code as separate methods. The same holds for `Render`'s inner loop, `DrawCharacter`.

## Model

| member | source | states |
|---|---|---|
| Bits.BitMask | CP.Windows.IoT/Components/LEDPanel.cs:125 | `(byte)(1 << position)`: C# takes the shift count modulo 32 and keeps the low 8 bits, so counts 8 to 31 give 0 |
| Bits.BitRead | CP.Windows.IoT/Components/LEDPanel.cs:123-126 | Whether bit `position` of `data` is set; `BitWriteRead`, `BitWriteOther` and `RowSelectOneHot` state what it reads |
| Bits.BitWrite | CP.Windows.IoT/Components/LEDPanel.cs:128-134 | `data` with bit `position` set (by or-ing in the mask) or cleared (by and-ing with its complement); `BitWriteSpec` states its effect bit by bit |
| Bits.RowSelect | CP.Windows.IoT/Components/LEDPanel.cs:54 | The row-select byte `(byte)(1 << 8 - 1 - r)`, with `-` binding tighter than `<<`; `RowSelectOneHot` states it is one-hot |
| Bits.BitWriteRead | CP.Windows.IoT/Components/LEDPanel.cs:128-134 | A bit written with `BitWrite` reads back as the written value, whenever the shift count modulo 32 lies inside the byte |
| Bits.BitWriteOther | CP.Windows.IoT/Components/LEDPanel.cs:128-134 | `BitWrite` leaves every other bit unchanged; a count modulo 32 of 8 or more changes no bit at all |
| Bits.BitWriteSpec | CP.Windows.IoT/Components/LEDPanel.cs:128-134 | For a position 0 to 7: the written bit becomes `value` and the other seven bits keep their values |
| Bits.BitWriteIdempotent | CP.Windows.IoT/Components/LEDPanel.cs:128-134 | Writing the same bit twice gives the same byte as writing it once; with `Plot`'s contract, a repeated `Plot` changes nothing more |
| Bits.RowSelectOneHot | CP.Windows.IoT/Components/LEDPanel.cs:54 | The row-select byte of row `r` has exactly bit `7 - r` set |
| Scroll.RightMask | CP.Windows.IoT/Components/LEDPanel.cs:146 | `rightMask` for shift `k`: the complement of `255 << k`, cut to a byte; `MaskBits` states which bits it holds |
| Scroll.LeftMask | CP.Windows.IoT/Components/LEDPanel.cs:147 | `leftMask`, the complement of `rightMask`; `MasksComplementary` and `MaskBits` state its relation to `rightMask` |
| Scroll.Splice | CP.Windows.IoT/Components/LEDPanel.cs:153-160 | One output byte from the current source byte and the next: left byte shifted left by `k` under `leftMask`, right byte shifted right by `8 - k` under `rightMask`; `SpliceIsWindow` gives its meaning |
| Scroll.SourceByte | CP.Windows.IoT/Components/LEDPanel.cs:153-158 | A message byte, or 0 when the index is past the end of the row, as the two range tests give |
| Scroll.SegmentByte | CP.Windows.IoT/Components/LEDPanel.cs:144-160 | The byte segment `s` shows at `offset`: the splice of source bytes `offset >> 3` + `s` and the next one at shift `offset % 8`; `SegmentShowsStream` gives its meaning |
| Scroll.PanelRow | CP.Windows.IoT/Components/LEDPanel.cs:149-161 | What one `Spi.Write` sends for row `r` of a frame: the `Segments` composed bytes followed by the row-select byte |
| Scroll.Frame | CP.Windows.IoT/Components/LEDPanel.cs:149-163 | The eight row writes of the frame at one offset, rows 0 to 7 |
| Scroll.ScrollTrace | CP.Windows.IoT/Components/LEDPanel.cs:142-164 | The frames for offsets `start` up to `stop`, in order; `ScrollTraceAt` and `ScrollTraceLength` state its shape |
| Scroll.MasksComplementary | CP.Windows.IoT/Components/LEDPanel.cs:146-147 | For every shift 0 to 7 the two masks together cover all eight bits (their bitwise or is 0xFF) and share none (their bitwise and is 0) |
| Scroll.MaskBits | CP.Windows.IoT/Components/LEDPanel.cs:146-147 | `rightMask` selects exactly the bits below `offset % 8` and `leftMask` exactly the bits from it up |
| Scroll.SpliceIsWindow | CP.Windows.IoT/Components/LEDPanel.cs:153-160 | The masked splice of bytes `a` and `b` equals the 8-bit window `((a * 256 + b) << k) >> 8` of their 16-bit concatenation |
| Scroll.SpliceAligned | CP.Windows.IoT/Components/LEDPanel.cs:153-160 | At shift 0 the splice is the current byte unchanged (the right byte, shifted by 8, drops out) |
| Scroll.SpliceBit | CP.Windows.IoT/Components/LEDPanel.cs:153-160 | The `j`-th bit (from the most significant) of a spliced byte is bit `k + j` of the pair `a b` read the same way |
| Scroll.SegmentShowsStream | CP.Windows.IoT/Components/LEDPanel.cs:144-161 | At any offset, column `j` of segment `s` shows bit `offset + 8s + j` of the message row read as a bit stream, most significant bit first, blank past the row |
| Scroll.AlignedSegment | CP.Windows.IoT/Components/LEDPanel.cs:144-161 | At a byte-aligned offset, segment `s` shows message byte `offset / 8 + s` unchanged |
| Scroll.BlankPastMessage | CP.Windows.IoT/Components/LEDPanel.cs:153-158 | Segments that start past the end of the message row are blank |
| Scroll.EndOffset | CP.Windows.IoT/Components/LEDPanel.cs:142-164 | The sweep ends after at least one frame, and it ends at `bufferColumns - Columns` when the loop condition lets it run that far |
| Scroll.LastColumnHidden | CP.Windows.IoT/Components/LEDPanel.cs:164 | When the sweep runs past its first frame, its last frame starts at `bufferColumns - Columns - 1`, and no frame's window reaches the message's last bit column |
| Scroll.ScrollTraceAt | CP.Windows.IoT/Components/LEDPanel.cs:137-175 | A sweep issues 8 writes per offset; write `8n + r` is row `r` of the frame at offset `start + n`, has `Segments + 1` bytes, and ends in row `r`'s row-select byte |
| Scroll.ScrollTraceLength | CP.Windows.IoT/Components/LEDPanel.cs:142-164 | A sweep from `start` to `stop` issues exactly `8 * (stop - start)` writes |
| Scroll.ExactFit | CP.Windows.IoT/Components/LEDPanel.cs:137-164 | A message as wide as the panel, shown from offset 0, gives exactly one frame whose rows are the message rows plus the row-select bytes |
| Scroll.EmptyMessage | CP.Windows.IoT/Components/LEDPanel.cs:137-164 | An empty message gives exactly one frame, and every data byte of that frame is 0 |
| Font.GetCharacter | CP.Windows.IoT/Components/LEDPanel.cs:100 | `Font8x8.GetCharacter`: the glyph of a character, or nothing (`null`) when the font has none |
| Font.GlyphFor | CP.Windows.IoT/Components/LEDPanel.cs:100-104 | The glyph `Render` draws: the character's own, else the space glyph, else the `NotSupportedException` naming the character |
| Font.Glyphs | CP.Windows.IoT/Components/LEDPanel.cs:97-104 | When the lookup succeeds there is one glyph per character |
| Font.RenderRows | CP.Windows.IoT/Components/LEDPanel.cs:90-111 | A rendered message buffer has 8 rows, each as long as the text |
| Font.GlyphsSpec | CP.Windows.IoT/Components/LEDPanel.cs:97-104 | Rendering fails if and only if some character has no glyph and there is no space glyph. The exception names the first unsupported character. Otherwise glyph `i` is the glyph of `text[i]`, or the space glyph when `text[i]` has none |
| Font.GlyphsPrefixFails | CP.Windows.IoT/Components/LEDPanel.cs:103-104 | Once the loop hits a character it cannot draw, the whole render fails with that exception |
| Font.RenderCell | CP.Windows.IoT/Components/LEDPanel.cs:106-107 | Byte `[row][i]` of a rendered buffer is row `row` of the glyph of `text[i]`, or of the space glyph when `text[i]` has none |
| Font.RenderOneCharacter | CP.Windows.IoT/Components/LEDPanel.cs:97-107 | Rendering one supported character gives back its bitmap, one byte per row |
| Components.LEDPanel.Valid | CP.Windows.IoT/Components/LEDPanel.cs:46-55 | The panel's invariant: `Rows == 8`, `Columns == Segments * 8`, 8 rows of `Segments + 1` bytes, and every row ending in its row-select byte. Every method keeps it |
| Components.OrEmpty | CP.Windows.IoT/Components/LEDPanel.cs:93 | A `null` message is read as the empty string; any other message is kept as it is |
| Components.Zeros | CP.Windows.IoT/Components/LEDPanel.cs:119 | The contents of a fresh `byte[segments]`: `segments` zero bytes |
| Components.LEDPanel.RowBytes | CP.Windows.IoT/Components/LEDPanel.cs:175 | The bytes of `Buffer[row]` that one `Spi.Write` receives: the row's `Segments` data bytes and its row-select byte |
| Components.LEDPanel.CurrentFrame | CP.Windows.IoT/Components/LEDPanel.cs:174-175 | The eight writes `WriteToPanel`'s loop issues for the buffer as it stands, rows 0 to 7 in order |
| Components.LEDPanel.constructor | CP.Windows.IoT/Components/LEDPanel.cs:41-56 | `Rows == 8`, `Columns == Segments * 8`, a fresh 8 x `Segments + 1` buffer with all data bytes 0 and the row-select bytes in place, and nothing written yet |
| Components.LEDPanel.Clear | CP.Windows.IoT/Components/LEDPanel.cs:63-69 | Every data byte becomes `value`; the row-select bytes are kept |
| Components.LEDPanel.Plot | CP.Windows.IoT/Components/LEDPanel.cs:72-83 | Only byte `[row % 8][(col >> 3) % Segments]` changes, to `BitWrite` of its old value: bit `col % 8` becomes `isOn` and its other bits keep their values. Every other byte, the row-select bytes included, is unchanged |
| Components.LEDPanel.PlotByte | CP.Windows.IoT/Components/LEDPanel.cs:77-82 | The masked update of the target byte, clearing `colBit` and then or-ing in `255 & colBit` when on, only clearing it when off, is `BitWrite(b, col % 8, isOn)` |
| Components.LEDPanel.CreateBuffer | CP.Windows.IoT/Components/LEDPanel.cs:115-121 | A fresh buffer of 8 distinct fresh rows, each of `segments` zero bytes |
| Components.LEDPanel.DrawCharacter | CP.Windows.IoT/Components/LEDPanel.cs:106-107 | Column `charIndex` of each row receives the glyph's byte for that row, and every other byte stays |
| Components.LEDPanel.Render | CP.Windows.IoT/Components/LEDPanel.cs:90-111 | A `null` message renders as the empty one. The result is the exception when `RenderRows` fails. Otherwise it is a fresh 8-row buffer whose contents equal `RenderRows`. The hardware buffer is untouched |
| Components.LEDPanel.ComposeByte | CP.Windows.IoT/Components/LEDPanel.cs:153-160 | The shifted, masked pair of message bytes, each 0 past the end of the row, is the splice of the two source bytes |
| Components.LEDPanel.ComposeFrame | CP.Windows.IoT/Components/LEDPanel.cs:144-162 | Each data byte `[r][s]` of the hardware buffer becomes segment `s` of message row `r` at the given offset, and the row-select bytes are kept |
| Components.LEDPanel.FrameShown | CP.Windows.IoT/Components/LEDPanel.cs:172-175 | Once composed, the hardware buffer's eight rows are the frame of the message at that offset |
| Components.LEDPanel.WriteToPanel | CP.Windows.IoT/Components/LEDPanel.cs:172-175 | The device receives the eight rows of the hardware buffer, rows 0 to 7 in order; the buffer is unchanged |
| Components.LEDPanel.Refresh | CP.Windows.IoT/Components/LEDPanel.cs:167-170 | `Display()` sends the current frame once and changes no byte of the buffer |
| Components.LEDPanel.Display | CP.Windows.IoT/Components/LEDPanel.cs:137-165 | The device receives the frames for offsets `bufferColumnOffset` up to `EndOffset`, at least one, in order, eight rows each. Afterwards the hardware buffer holds the last frame |

## Left out

- The SPI device (`Spi.Write`, device settings and discovery) is a foreign call. It is modelled only as the ghost `Trace` of written rows. Every `Spi.Write` is assumed to succeed. In the source, a write that throws at line 175 ends `Display` or `WriteToPanel` partway through a frame, after some rows have been sent. The model does not produce such a partial trace.
- The constructor's `ArgumentNullException` for a missing device is left out, since the device is not modelled.
- `Font8x8` is not part of this model. The font is a parameter: a finite map from characters to 8-byte bitmaps.
- The commented-out scroll code in `WriteToPanel` is dead code and is not modelled.
- Negative `col`, `row` and `bufferColumnOffset` are excluded by `nat` parameters. In the source such inputs mostly throw. A `row` whose C# remainder is negative gives a negative index, and lines 80/82 throw `IndexOutOfRangeException`. A negative `col` is floored by `>> 3`, and C#'s `%` keeps the sign of the dividend. So it throws at lines 80/82 only when `(col >> 3) % Segments` is nonzero. Otherwise it addresses segment 0. There a `col % 8` of -7 to -1 gives `colBit == 0` (the count is taken `& 31`, which shifts the bit out of the byte), so nothing changes. A `col % 8` of 0 writes bit 0. A negative `bufferColumnOffset` gives a negative `bufferSegment`, which passes the test at line 155, so line 156 throws `IndexOutOfRangeException`. C#'s masking of a negative `<<` count is modelled only in `BitRead` and `BitWrite`, which take any `int` position.
- Text is a Dafny `string`, a sequence of whole characters. C# strings are UTF-16: `message.Length` and `message[charIndex]` count code units, so the source gives a character outside the Basic Multilingual Plane (written as a surrogate pair) two columns. Each column goes through the space fallback. A Dafny `char` cannot be a lone surrogate, so the model renders such a character as one column.
- The constructor's `Columns = Segments * 8` and `Segments + 1` overflow C#'s 32-bit `int` for huge `segments`. The model uses unbounded integers there.
- Components.LEDPanel.constructor: requires `segments >= 1`. With 0 segments, `Plot` divides by zero and the panel has no data bytes.
- Components.LEDPanel.Display: requires a message buffer of at least 8 rows, the shape `Render` produces. A `null` buffer or a `null` row, for which the source throws `NullReferenceException` at lines 139 and 155, cannot be expressed: Dafny's `array<array<byte>>` is non-null. It does not model `int` overflow of `bufferColumns` or of the offset.
- Components.LEDPanel.Plot: its optional `buffer` argument (plot into a message buffer instead of the hardware buffer) is not modelled; it always plots into the hardware buffer.
- The hardware buffer is an `array2` instead of a jagged `byte[][]`. It is private, created once, and never aliased or resized, so both have the same rows.
- UI, networking, XML, timers and motor-driver code elsewhere in the repository are outside the panel and not modelled.
