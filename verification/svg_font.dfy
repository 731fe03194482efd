/** Turning a font into an SVG-glyph font: stub an empty outline for every
    glyph without one, add an `SVG ` table with one document per glyph that
    has a PNG (ascending glyph ID, singleton ranges), and remove the legacy
    bitmap tables. The PNG directory is a map from glyph name to the file's
    pixel size and bytes. */
module SvgFont {
  import opened Wrappers
  import opened Bytes
  import opened FontTables
  import opened SvgDocument

  /** A PNG file `<glyphName>.png`: its pixel size and its bytes. */
  datatype PngFile = PngFile(width: nat, height: nat, bytes: Bytes)

  type PngDirectory = map<GlyphName, PngFile>

  /** The outlines already in the font; a missing `glyf` table, or one
      without a glyph map, has none. */
  function ExistingOutlines(font: Font): map<GlyphName, Outline> {
    if GlyfTag in font && font[GlyfTag].GlyfTable? then font[GlyfTag].glyphs else map[]
  }

  /** Every name of `order` gets a `glyf` entry, keeping the entries already
      there, and `loca` is replaced by a fresh empty table. */
  function AddEmptyOutlines(font: Font, order: seq<GlyphName>): (r: Font)
    ensures GlyfTag in r && r[GlyfTag].GlyfTable?
    ensures forall n :: n in order ==> n in r[GlyfTag].glyphs
    ensures forall n :: n in ExistingOutlines(font) ==>
      n in r[GlyfTag].glyphs && r[GlyfTag].glyphs[n] == ExistingOutlines(font)[n]
    ensures forall n :: n in r[GlyfTag].glyphs ==> n in ExistingOutlines(font) || n in order
    ensures forall n :: n in r[GlyfTag].glyphs && n !in ExistingOutlines(font) ==>
      r[GlyfTag].glyphs[n] == EmptyOutline
    ensures LocaTag in r && r[LocaTag] == LocaTable([])
    ensures r.Keys == font.Keys + {GlyfTag, LocaTag}
    ensures forall t :: t in font && t != GlyfTag && t != LocaTag ==> r[t] == font[t]
  {
    var existing := ExistingOutlines(font);
    var glyphs := map n | n in existing.Keys + (set m | m in order) ::
      if n in existing then existing[n] else EmptyOutline;
    font[GlyfTag := GlyfTable(glyphs)][LocaTag := LocaTable([])]
  }

  /** Stubbing twice stubs nothing more. */
  lemma AddEmptyOutlinesIdempotent(font: Font, order: seq<GlyphName>)
    ensures AddEmptyOutlines(AddEmptyOutlines(font, order), order) == AddEmptyOutlines(font, order)
  {
    var once := AddEmptyOutlines(font, order);
    var twice := AddEmptyOutlines(once, order);
    assert twice[GlyfTag].glyphs == once[GlyfTag].glyphs;
  }

  /** The document for the glyph with ID `gid`, covering that glyph only. */
  function DocFor(png: PngFile, gid: nat): SvgDoc {
    SvgDoc(SvgText(png.width, png.height, png.bytes), gid, gid)
  }

  predicate StrictlyAscending(docs: seq<SvgDoc>) {
    forall i, j :: 0 <= i < j < |docs| ==> docs[i].startGlyphId < docs[j].startGlyphId
  }

  /** Every document covers one glyph at or after `start` that has a PNG,
      and is that PNG's document. */
  predicate WellPlaced(order: seq<GlyphName>, pngs: PngDirectory, start: nat, docs: seq<SvgDoc>) {
    forall k :: 0 <= k < |docs| ==>
      && start <= docs[k].startGlyphId < |order|
      && order[docs[k].startGlyphId] in pngs
      && docs[k] == DocFor(pngs[order[docs[k].startGlyphId]], docs[k].startGlyphId)
  }

  /** Every glyph at or after `start` that has a PNG has a document. */
  predicate Complete(order: seq<GlyphName>, pngs: PngDirectory, start: nat, docs: seq<SvgDoc>) {
    forall g :: start <= g < |order| && order[g] in pngs ==>
      exists k :: 0 <= k < |docs| && docs[k].startGlyphId == g
  }

  lemma PrependDoc(order: seq<GlyphName>, pngs: PngDirectory, start: nat, rest: seq<SvgDoc>)
    requires start < |order| && order[start] in pngs
    requires WellPlaced(order, pngs, start + 1, rest) && StrictlyAscending(rest)
    requires Complete(order, pngs, start + 1, rest)
    ensures var docs := [DocFor(pngs[order[start]], start)] + rest;
      WellPlaced(order, pngs, start, docs) && StrictlyAscending(docs) && Complete(order, pngs, start, docs)
  {
    var docs := [DocFor(pngs[order[start]], start)] + rest;
    assert forall k :: 1 <= k < |docs| ==> docs[k] == rest[k - 1];
    forall g | start <= g < |order| && order[g] in pngs
      ensures exists k :: 0 <= k < |docs| && docs[k].startGlyphId == g
    {
      if g == start {
        assert docs[0].startGlyphId == g;
      } else {
        var k :| 0 <= k < |rest| && rest[k].startGlyphId == g;
        assert docs[k + 1].startGlyphId == g;
      }
    }
  }

  lemma SkipGlyph(order: seq<GlyphName>, pngs: PngDirectory, start: nat, rest: seq<SvgDoc>)
    requires start < |order| && order[start] !in pngs
    requires WellPlaced(order, pngs, start + 1, rest) && Complete(order, pngs, start + 1, rest)
    ensures WellPlaced(order, pngs, start, rest) && Complete(order, pngs, start, rest)
  {
  }

  /** The documents for the glyphs from position `start` on, front to back. */
  function DocsFrom(order: seq<GlyphName>, pngs: PngDirectory, start: nat): (docs: seq<SvgDoc>)
    requires start <= |order|
    ensures WellPlaced(order, pngs, start, docs)
    ensures StrictlyAscending(docs)
    ensures Complete(order, pngs, start, docs)
    decreases |order| - start
  {
    if start == |order| then []
    else
      var rest := DocsFrom(order, pngs, start + 1);
      if order[start] in pngs then
        PrependDoc(order, pngs, start, rest);
        [DocFor(pngs[order[start]], start)] + rest
      else
        SkipGlyph(order, pngs, start, rest);
        rest
  }

  /** The document list of the `SVG ` table: one `(svg, gid, gid)` per glyph
      whose PNG exists, in ascending glyph ID. */
  function BuildSvgDocs(order: seq<GlyphName>, pngs: PngDirectory): (docs: seq<SvgDoc>)
    ensures forall k :: 0 <= k < |docs| ==>
      && docs[k].startGlyphId == docs[k].endGlyphId < |order|
      && order[docs[k].startGlyphId] in pngs
      && var png := pngs[order[docs[k].startGlyphId]];
         docs[k].svg == SvgText(png.width, png.height, png.bytes)
    ensures StrictlyAscending(docs)
    ensures forall g :: 0 <= g < |order| ==>
      (order[g] in pngs <==> exists k :: 0 <= k < |docs| && docs[k].startGlyphId == g)
  {
    DocsFrom(order, pngs, 0)
  }

  /** Each document states its PNG's native size and carries its bytes: the
      text reads back as exactly (width, height, file). */
  lemma DocsCarryPngs(order: seq<GlyphName>, pngs: PngDirectory, k: nat)
    requires k < |BuildSvgDocs(order, pngs)|
    ensures var doc := BuildSvgDocs(order, pngs)[k];
      var png := pngs[order[doc.startGlyphId]];
      ParseSvgText(doc.svg) == Some((png.width, png.height, png.bytes))
  {
    var doc := BuildSvgDocs(order, pngs)[k];
    var png := pngs[order[doc.startGlyphId]];
    ParseSvgTextRoundTrip(png.width, png.height, png.bytes);
  }

  /** The font without `sbix`, `CBDT`, `CBLC`, `EBDT` and `EBLC`. */
  function DropBitmapTables(font: Font): (r: Font)
    ensures r.Keys == font.Keys - BitmapTags
    ensures forall t :: t in r ==> r[t] == font[t]
  {
    font - BitmapTags
  }

  lemma DropBitmapTablesIdempotent(font: Font)
    ensures DropBitmapTables(DropBitmapTables(font)) == DropBitmapTables(font)
  {
  }

  /** The whole conversion, as the sequence of table-map steps: stub the
      outlines, install the `SVG ` table, drop the bitmap tables. */
  function BuildSvgFont(font: Font, order: seq<GlyphName>, pngs: PngDirectory): (r: Font)
    ensures GlyfTag in r && r[GlyfTag].GlyfTable?
    ensures forall n :: n in order ==> n in r[GlyfTag].glyphs
    ensures LocaTag in r && r[LocaTag] == LocaTable([])
    ensures SvgTag in r && r[SvgTag] == SvgTable(BuildSvgDocs(order, pngs))
    ensures forall t :: t in BitmapTags ==> t !in r
    ensures r.Keys == font.Keys + {GlyfTag, LocaTag, SvgTag} - BitmapTags
    ensures forall t :: t in r && t !in {GlyfTag, LocaTag, SvgTag} ==> r[t] == font[t]
  {
    var outlined := AddEmptyOutlines(font, order);
    var withSvg := outlined[SvgTag := SvgTable(BuildSvgDocs(order, pngs))];
    DropBitmapTables(withSvg)
  }
}
