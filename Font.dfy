/** Turning text into a message buffer: the glyph lookup of `Render`, with
    its fallback to the space glyph, as pure functions. The font table
    itself (`Font8x8`) is not part of this model; it enters as a finite
    map from characters to 8-byte bitmaps. */
module Font {
  import opened Bits
  import opened Wrappers

  /** An 8x8 bitmap: one byte per row, row 0 first. */
  type Glyph = s: seq<byte> | |s| == 8 witness [0, 0, 0, 0, 0, 0, 0, 0]

  /** `Font8x8.GetCharacter`: a character without an entry returns `null`. */
  type FontTable = map<char, Glyph>

  /** The `NotSupportedException` that `Render` throws. */
  datatype RenderError = NotSupported(character: char)

  /** `Font8x8.GetCharacter`. */
  function GetCharacter(font: FontTable, c: char): Option<Glyph>
  {
    if c in font then Some(font[c]) else None
  }

  /** The glyph `Render` draws for `c`: its own, else the space glyph,
      else the exception. */
  function GlyphFor(font: FontTable, c: char): Result<Glyph, RenderError>
  {
    match GetCharacter(font, c)
    case Some(g) => Ok(g)
    case None =>
      match GetCharacter(font, ' ')
      case Some(g) => Ok(g)
      case None => Err(NotSupported(c))
  }

  /** The glyphs of `text` in order, or the exception for the first
      character the loop cannot draw. */
  function Glyphs(font: FontTable, text: string): (r: Result<seq<Glyph>, RenderError>)
    ensures r.Ok? ==> |r.value| == |text|
    decreases |text|
  {
    if text == [] then Ok([])
    else
      match Glyphs(font, text[..|text| - 1])
      case Err(e) => Err(e)
      case Ok(init) =>
        match GlyphFor(font, text[|text| - 1])
        case Err(e) => Err(e)
        case Ok(g) => Ok(init + [g])
  }

  /** The message buffer `Render` returns: row `r` holds byte `r` of each glyph. */
  function RenderRows(font: FontTable, text: string): (r: Result<seq<seq<byte>>, RenderError>)
    ensures r.Ok? ==> |r.value| == 8 && forall row :: 0 <= row < 8 ==> |r.value[row]| == |text|
  {
    match Glyphs(font, text)
    case Err(e) => Err(e)
    case Ok(gs) => Ok(seq(8, row requires 0 <= row < 8 => seq(|gs|, i requires 0 <= i < |gs| => gs[i][row])))
  }

  /** Rendering fails exactly when some character has no glyph and there is
      no space glyph either; the exception names the first such character;
      otherwise glyph `i` is that of `text[i]`, or the space glyph when it has none. */
  lemma {:induction false} GlyphsSpec(font: FontTable, text: string)
    ensures Glyphs(font, text).Err? <==> ' ' !in font && exists i :: 0 <= i < |text| && text[i] !in font
    ensures Glyphs(font, text).Err? ==>
      exists i :: (0 <= i < |text| && text[i] !in font && Glyphs(font, text).error == NotSupported(text[i])
                   && forall h :: 0 <= h < i ==> text[h] in font)
    ensures Glyphs(font, text).Ok? ==> forall i :: 0 <= i < |text| ==>
      Glyphs(font, text).value[i] == if text[i] in font then font[text[i]] else font[' ']
    decreases |text|
  {
    if text != [] {
      var init := text[..|text| - 1];
      GlyphsSpec(font, init);
      assert forall i :: 0 <= i < |init| ==> init[i] == text[i];
    }
  }

  /** Once a prefix of the text fails to render, the whole text fails with
      the same exception: the loop stops at the first failure. */
  lemma {:induction false} GlyphsPrefixFails(font: FontTable, text: string, n: nat)
    requires n <= |text| && Glyphs(font, text[..n]).Err?
    ensures Glyphs(font, text) == Glyphs(font, text[..n])
    decreases |text| - n
  {
    if n < |text| {
      var longer := text[..n + 1];
      assert longer[..n] == text[..n];
      assert Glyphs(font, longer) == Glyphs(font, text[..n]);
      GlyphsPrefixFails(font, text, n + 1);
    } else {
      assert text[..n] == text;
    }
  }

  /** Each byte of the rendered buffer is the glyph row of its character. */
  lemma RenderCell(font: FontTable, text: string, row: nat, i: nat)
    requires RenderRows(font, text).Ok? && row < 8 && i < |text|
    ensures text[i] in font || ' ' in font
    ensures RenderRows(font, text).value[row][i]
      == (if text[i] in font then font[text[i]] else font[' '])[row]
  {
    GlyphsSpec(font, text);
  }

  /** Rendering one supported character gives back its bitmap, row by row. */
  lemma RenderOneCharacter(font: FontTable, c: char)
    requires c in font
    ensures RenderRows(font, [c]).Ok?
    ensures forall row :: 0 <= row < 8 ==> RenderRows(font, [c]).value[row] == [font[c][row]]
  {
    GlyphsSpec(font, [c]);
  }
}
