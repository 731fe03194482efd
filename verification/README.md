# Bitmap-glyph font tables, modelled in Dafny

This project models the table bookkeeping of two font-conversion scripts.

- `converter.py` pulls one RGBA image per glyph out of a font. It reuses the best `sbix` strike, else the last `CBDT` strike, else it renders the outline. It can then write the images back as a one-strike `sbix` table.
- `make_svg_font.py` turns a font plus a directory of glyph-named PNGs into an SVG-glyph font. It stubs empty outlines, adds an `SVG ` table with one data-URI document per glyph, and removes the legacy bitmap tables.

The model is functional:

- a font is a `map<Tag, Table>` keyed by four-character tag;
- the glyph order is a `seq<GlyphName>`, where the index is the glyph ID;
- bytes are `seq<byte>`, where `byte` is the integers 0..255.

The image codec (decode to RGBA, encode to PNG) and the shape renderer are function parameters. The PNG directory is a map from glyph name to the file's pixel size and bytes.

Modules, one file each:

| file | module | models |
|---|---|---|
| `wrappers.dfy` | `Wrappers` | `Option`, `Result` |
| `bytes.dfy` | `Bytes` | `bytes.find`, `struct.unpack(">I")` and its inverse |
| `font_tables.dfy` | `FontTables` | tables, strikes, glyph records, outlines, SVG documents, tags |
| `strike_selection.dfy` | `StrikeSelection` | choosing the sbix and CBDT strikes |
| `cbdt.dfy` | `Cbdt` | locating the image inside a format-17 CBDT glyph record |
| `render.dfy` | `Render` | coverage bitmap to RGBA |
| `extraction.dfy` | `Extraction` | the per-glyph source decision and the extraction loop |
| `sbix_builder.dfy` | `SbixBuilder` | building and installing the sbix table |
| `base64.dfy` | `Base64` | base64 of section 4 of RFC 4648, with a strict decoder |
| `decimal.dfy` | `Decimal` | `str(n)` for the f-string fields, with a reader |
| `svg_document.dfy` | `SvgDocument` | the document text, and a parser that reads it back |
| `svg_font.dfy` | `SvgFont` | outline stubs, the document list, table stripping, the whole conversion |

## Model

| member | source | states |
|---|---|---|
| `StrikeSelection.MaxPpemIndex` | converter.py:38 | the index found has a ppem at least every strike's ppem, and every earlier strike has a strictly smaller ppem (Python `max` keeps the first maximum) |
| `StrikeSelection.ChosenSbix` | converter.py:34-38 | there is no sbix choice exactly when the `sbix` table is absent, has no `strikes` attribute, or has no strikes |
| `StrikeSelection.ChosenSbixIsFirstMaximal` | converter.py:36-38 | the chosen sbix strike is one of the table's strikes, has maximal ppem, and is the first such in iteration order |
| `StrikeSelection.ChosenCbdt` | converter.py:39-40 | the chosen CBDT strike is the last element of `strikeData`; there is none when `CBDT` is absent or the list is empty |
| `Bytes.Find` | converter.py:54 | the offset returned is the first occurrence of the pattern; `None` (Python -1) exactly when it occurs nowhere |
| `Bytes.PackUnpack` | converter.py:58 | reading the four big-endian bytes of a uint32 gives the number back |
| `Bytes.UnpackPack` | converter.py:58 | any four bytes are the big-endian encoding of the uint32 read from them |
| `Cbdt.ImageBlob` | converter.py:53-59 | if the PNG signature prefix occurs, the blob is the suffix from its first occurrence, whatever the length field says; otherwise a record shorter than 9 bytes fails, and a longer one yields bytes 9 to 9+len clipped to the record, where len is the big-endian uint32 at bytes 5..9 |
| `Cbdt.SignatureOverridesLength` | converter.py:54-56 | a record with any metrics and any (wrong) length field followed by a PNG decodes to exactly the PNG bytes |
| `Cbdt.LengthFieldReadsImage` | converter.py:57-59 | a record whose length field is honest and whose image has no signature decodes to exactly the image |
| `Render.CoverageToRgba` | converter.py:21-27 | there is no image exactly when width or rows is 0; otherwise the image is width x rows and pixel i is (0,0,0,coverage[i]); a buffer too short for its size is a failure |
| `Render.AlphaCarriesCoverage` | converter.py:23-26 | the alpha channel of the converted image is exactly the coverage mask, and every pixel is black |
| `Extraction.ExtractImages` | converter.py:41-74 | glyphs are visited in glyph order; on success the result's keys lie in the glyph order and are exactly the glyphs some source produced an image for, each mapped to that image; the run fails exactly when some glyph's outcome is fatal, and it reports the first such glyph |
| `Extraction.SbixEntryDecides` | converter.py:45-48 | a non-empty entry in the chosen sbix strike decides the glyph whatever CBDT or the renderer hold; an undecodable entry is fatal |
| `Extraction.SbixEntryHidesCbdt` | converter.py:45-49 | CBDT is consulted only when the chosen sbix strike has no entry for the glyph; an empty sbix entry goes straight to the renderer |
| `Extraction.CbdtEntryDecides` | converter.py:49-62 | when no sbix entry exists and the CBDT blob decodes, that image is the glyph's, whatever the renderer would produce |
| `Extraction.CbdtNeverAborts` | converter.py:49-69 | CBDT failures are all caught; a record too short for its length field falls through to the renderer |
| `Extraction.OutlineOnlyFontRenders` | converter.py:64-69 | in a font with neither `sbix` nor `CBDT`, every glyph's outcome is the renderer's |
| `SbixBuilder.NewStrike` | converter.py:77-91 | the strike has the given ppem and resolution; its `glyphs` keys equal the image keys; each record is `"png "` at origin (0,0) holding the encoded image; `glyphData` is empty |
| `SbixBuilder.EmbedSbix` | converter.py:92-98 | the `sbix` table has version 1, flags 1 and strikes exactly `{ppem: strike}`; every other table is unchanged |
| `SbixBuilder.EmbedRoundTrip` | converter.py:76-98 | the embedded strike is the one strike selection picks; with a codec that decodes what it encodes, every record gives back its image |
| `SbixBuilder.EmbeddedStrikeNotReused` | converter.py:45 | on an embedded font the sbix reuse step finds nothing, because the extractor reads `glyphData` and the builder fills `glyphs` |
| `Base64.DecodeEncode` | make_svg_font.py:49 | decoding the base64 text gives back the file bytes |
| `Decimal.StringToNatRoundTrip` | make_svg_font.py:50-53 | the decimal text written for a size reads back as that size |
| `SvgDocument.ParseSvgTextRoundTrip` | make_svg_font.py:47-54 | the document text reads back as exactly (w, h, file bytes): `width`, `height`, `viewBox="0 0 w h"` and the `<image>` size all carry the PNG's size, and the href is `data:image/png;base64,` followed by the base64 of the file |
| `SvgFont.AddEmptyOutlines` | make_svg_font.py:22-38 | every glyph-order name has a `glyf` entry; existing entries are unchanged; no other names appear; each inserted entry is the empty outline (0 contours, no points, no flags, no program); `loca` is a fresh empty table; other tables are unchanged |
| `SvgFont.AddEmptyOutlinesIdempotent` | make_svg_font.py:22-38 | stubbing a second time changes nothing |
| `SvgFont.DocsFrom` | make_svg_font.py:43-55 | the documents for positions from `start` on are strictly ascending and placed at glyphs that have a PNG; every such glyph has one |
| `SvgFont.BuildSvgDocs` | make_svg_font.py:41-56 | each document is `(svg, gid, gid)` for a glyph whose PNG exists, with that PNG's text; the list is strictly ascending by glyph ID; a glyph has a document exactly when its PNG exists |
| `SvgFont.DocsCarryPngs` | make_svg_font.py:43-55 | every document in the list reads back as its glyph's PNG size and bytes |
| `SvgFont.DropBitmapTables` | make_svg_font.py:59-62 | none of `sbix`, `CBDT`, `CBLC`, `EBDT`, `EBLC` remains, and every other table is unchanged |
| `SvgFont.DropBitmapTablesIdempotent` | make_svg_font.py:59-62 | stripping twice is stripping once |
| `SvgFont.BuildSvgFont` | make_svg_font.py:75-85 | the result has `glyf` with every glyph-order name, a fresh `loca`, and `SVG ` whose `docList` is the built list; it has no bitmap tags; every other table is unchanged |

## Behaviour of the code worth knowing

- **Where sbix data is read and written.** The extractor reads a strike's `glyphData` entries (converter.py:45-46). `embed_sbix` puts its records in `glyphs` and leaves `glyphData` empty (converter.py:80, 91). The model keeps both fields. `SbixBuilder.EmbeddedStrikeNotReused` shows that, in the in-memory font `embed_sbix` returns, the reuse step finds no sbix entry. `SbixBuilder.EmbedRoundTrip` states the round trip on the table records.
- **A failed sbix decode.** Nothing catches it (converter.py:48), so the run fails, and the model ends extraction with a failure. Only CBDT failures are caught (converter.py:53-62).
- **Ties between sbix strikes.** `max` takes the first maximal strike in the dictionary's iteration order (converter.py:38), and so does the model.
- **Fall-through to the renderer.** After a CBDT blob that does not decode, or after an empty sbix entry, the code renders the glyph (converter.py:64). The model does the same.

## Left out

- Font file load and save, the table directory and checksums: the font is an abstract tag-keyed map.
- FreeType face handling (`select_size`, `set_pixel_sizes`, `load_glyph` flags): the renderer is a parameter from glyph ID to a bitmap or an error.
- PIL decode and PNG encode: these are the `Codec` and `Encoder` parameters. The PNG written for a rendered image is not modelled.
- Writing each glyph's PNG file, `os.makedirs`, `png_file.exists` and `read_bytes`: the PNG directory is a map.
- `to_woff2` (subsetting and WOFF2 compression): a library wrapper.
- Both `main` functions and argument handling: command-line glue.
- `Render.CoverageToRgba`: reads the first width x rows bytes row by row. It does not model FreeType's `pitch`, which `Image.frombytes` also ignores.
- `StrikeSelection.ChosenSbix`: every strike is taken to have a `ppem`. It does not model the `getattr(s, "ppem", 0)` default for a strike without one.
- `Extraction.ExtractImages`: requires the glyph order to hold no repeated names. Under that requirement, `getGlyphID` of the name at position i is i.
- A CBDT entry whose object lacks a `data` attribute is modelled as an empty byte string. Both values are falsy and take the same path.
- `SbixBuilder.EmbeddedStrikeNotReused`: holds for the in-memory font `embed_sbix` returns. It assumes every strike exposes a `glyphData` map of entries with `.data` (converter.py:45-46), and that saving and reloading a font (converter.py:109, 31) keeps strike fields as they are. The font file format is not modelled.
- `SvgFont.BuildSvgDocs`: treats every present PNG file as readable, with a width and height not tied to its bytes. In the code, `Image.open` (make_svg_font.py:47-48) raises on a file that exists but does not decode, nothing catches it, and `build_svg_font` stops.
