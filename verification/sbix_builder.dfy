/** Building a one-strike sbix table from extracted images and installing
    it in the font in place of any previous sbix table. The PNG encoder is
    a parameter. */
module SbixBuilder {
  import opened Wrappers
  import opened Bytes
  import opened FontTables
  import opened StrikeSelection
  import opened Extraction

  /** The image codec's PNG encoder. */
  type Encoder = Image -> Bytes

  const SbixVersion: int := 1
  /** Flags value 1: outlines are kept, the strike is drawn in addition. */
  const SbixFlags: int := 1

  /** One strike at `ppem`/`resolution` with a PNG record per image, placed
      at the origin. Records go to `glyphs`; `glyphData` is left empty. */
  function NewStrike(images: map<GlyphName, Image>, ppem: int, resolution: int, encode: Encoder): (s: SbixStrike)
    ensures s.ppem == ppem && s.resolution == resolution
    ensures s.glyphs.Keys == images.Keys
    ensures forall n :: n in s.glyphs ==>
      s.glyphs[n] == SbixGlyph(n, PngGraphicType, 0, 0, encode(images[n]))
    ensures s.glyphData == map[]
  {
    SbixStrike(ppem, resolution, map[],
      map n | n in images :: SbixGlyph(n, PngGraphicType, 0, 0, encode(images[n])))
  }

  /** The font with its sbix table replaced by a version-1, flags-1 table
      whose strikes dictionary is `{ppem: strike}`. */
  function EmbedSbix(font: Font, images: map<GlyphName, Image>, ppem: int, resolution: int, encode: Encoder): (r: Font)
    ensures SbixTag in r && r[SbixTag].SbixTable?
    ensures r[SbixTag].version == SbixVersion && r[SbixTag].flags == SbixFlags
    ensures |r[SbixTag].strikes| == 1 && r[SbixTag].strikes[0].0 == ppem
    ensures r[SbixTag].strikes[0].1 == NewStrike(images, ppem, resolution, encode)
    ensures r.Keys == font.Keys + {SbixTag}
    ensures forall t :: t in font && t != SbixTag ==> r[t] == font[t]
  {
    font[SbixTag := SbixTable(SbixVersion, SbixFlags, [(ppem, NewStrike(images, ppem, resolution, encode))])]
  }

  /** Reading the embedded font back selects the new strike, and with a
      codec that decodes what it encodes every record gives back its image
      pixel for pixel. */
  lemma EmbedRoundTrip(font: Font, images: map<GlyphName, Image>, ppem: int, resolution: int,
                       encode: Encoder, decode: Codec)
    requires forall n :: n in images ==> decode(encode(images[n])) == Some(images[n])
    ensures ChosenSbix(EmbedSbix(font, images, ppem, resolution, encode))
         == Some(NewStrike(images, ppem, resolution, encode))
    ensures forall n :: n in images ==>
      decode(ChosenSbix(EmbedSbix(font, images, ppem, resolution, encode)).value.glyphs[n].imageData)
        == Some(images[n])
  {
    var r := EmbedSbix(font, images, ppem, resolution, encode);
    var strikes := StrikeValues(r[SbixTag].strikes);
    assert MaxPpemIndex(strikes) == 0;
  }

  /** The extractor looks for sbix images in `glyphData`, which the builder
      leaves empty: on an embedded font the sbix reuse step yields nothing
      for every glyph, and the glyph goes to CBDT or the renderer as if the
      font had no sbix table. */
  lemma EmbeddedStrikeNotReused(font: Font, images: map<GlyphName, Image>, ppem: int, resolution: int,
                                encode: Encoder, name: GlyphName, cbdt: Option<CbdtStrike>, decode: Codec)
    ensures FromTables(name, ChosenSbix(EmbedSbix(font, images, ppem, resolution, encode)), cbdt, decode)
         == FromTables(name, None, cbdt, decode)
  {
    var r := EmbedSbix(font, images, ppem, resolution, encode);
    var strikes := StrikeValues(r[SbixTag].strikes);
    assert MaxPpemIndex(strikes) == 0;
  }
}
