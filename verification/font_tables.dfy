/** The in-memory font the two scripts manipulate: a map from four-character
    table tag to table, holding only the tables and fields the scripts read
    or write. The glyph order travels beside it as a sequence of names
    (index = glyph ID). */
module FontTables {
  import opened Wrappers
  import opened Bytes

  type Tag = string
  type GlyphName = string

  const SbixTag: Tag := "sbix"
  const CbdtTag: Tag := "CBDT"
  const CblcTag: Tag := "CBLC"
  const EbdtTag: Tag := "EBDT"
  const EblcTag: Tag := "EBLC"
  const GlyfTag: Tag := "glyf"
  const LocaTag: Tag := "loca"
  const SvgTag: Tag := "SVG "

  /** The legacy bitmap tables removed once the `SVG ` table is in place. */
  const BitmapTags: set<Tag> := {SbixTag, CbdtTag, CblcTag, EbdtTag, EblcTag}

  /** The graphic type of an sbix glyph record holding PNG data. */
  const PngGraphicType: string := "png "

  /** One RGBA8 pixel, straight (non-premultiplied) alpha. */
  datatype Rgba = Rgba(r: byte, g: byte, b: byte, a: byte)

  /** A decoded raster image, pixels row by row. */
  datatype Image = Image(width: nat, height: nat, pixels: seq<Rgba>)

  /** One glyph record of an sbix strike. */
  datatype SbixGlyph = SbixGlyph(
    glyphName: GlyphName,
    graphicType: string,
    originOffsetX: int,
    originOffsetY: int,
    imageData: Bytes)

  /** One sbix strike. `glyphData` is the per-glyph image data the extractor
      reads; `glyphs` is the record map the sbix builder writes. */
  datatype SbixStrike = SbixStrike(
    ppem: int,
    resolution: int,
    glyphData: map<GlyphName, Bytes>,
    glyphs: map<GlyphName, SbixGlyph>)

  /** One CBDT strike: glyph name to raw glyph record bytes (a record
      without data is the empty byte string). */
  type CbdtStrike = map<GlyphName, Bytes>

  /** One `glyf` entry; the stub inserted for glyphs without outlines has
      no contours, no points and no program. */
  datatype Outline = Outline(
    numberOfContours: int,
    endPtsOfContours: seq<int>,
    flags: seq<int>,
    coordinates: seq<(int, int)>,
    program: Option<Bytes>)

  const EmptyOutline: Outline := Outline(0, [], [], [], None)

  /** One record of the `SVG ` table's document list: the document text and
      the glyph-ID range it covers. */
  datatype SvgDoc = SvgDoc(svg: string, startGlyphId: nat, endGlyphId: nat)

  datatype Table =
      /** `strikes` lists the table's ppem-keyed dictionary in iteration order. */
    | SbixTable(version: int, flags: int, strikes: seq<(int, SbixStrike)>)
    | CbdtTable(strikeData: seq<CbdtStrike>)
    | GlyfTable(glyphs: map<GlyphName, Outline>)
    | LocaTable(offsets: seq<nat>)
    | SvgTable(docList: seq<SvgDoc>)
      /** Any table the scripts pass through untouched. */
    | OtherTable(data: Bytes)

  type Font = map<Tag, Table>

  /** No name occurs twice in the glyph order. */
  predicate DistinctNames(order: seq<GlyphName>) {
    forall i, j :: 0 <= i < j < |order| ==> order[i] != order[j]
  }
}
