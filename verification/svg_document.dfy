/** The text of one SVG document of the `SVG ` table: an `<svg>` element
    sized to the PNG's pixel dimensions holding one `<image>` whose `href`
    is the PNG as a base64 data URI (RFC 2397, with the base64 of section 4
    of RFC 4648). `ParseSvgText` reads the size and the file back out. */
module SvgDocument {
  import opened Wrappers
  import opened Bytes
  import opened Base64
  import opened Decimal

  const SvgOpen: string := "<svg xmlns=\"http://www.w3.org/2000/svg\" width=\""
  const HeightAttr: string := "\" height=\""
  const ViewBoxAttr: string := "\" viewBox=\"0 0 "
  const ViewBoxSeparator: string := " "
  const ImageOpen: string := "\"><image width=\""
  const DataUriPrefix: string := "data:image/png;base64,"
  const HrefAttr: string := "\" href=\"" + DataUriPrefix
  const SvgClose: string := "\" /></svg>"

  /** `w` and `h` printed around `sep`, followed by `rest`. The text is
      built right to left so that a reader consumes it front to back. */
  function Pair(w: nat, sep: string, h: nat, rest: string): string {
    NatToString(w) + (sep + (NatToString(h) + rest))
  }

  /** The document for a `w` x `h` PNG whose file holds `png`: `width`,
      `height`, `viewBox="0 0 w h"` and the `<image>` size all use (w, h). */
  function SvgText(w: nat, h: nat, png: Bytes): string {
    SvgOpen + Pair(w, HeightAttr, h,
      ViewBoxAttr + Pair(w, ViewBoxSeparator, h,
        ImageOpen + Pair(w, HeightAttr, h,
          HrefAttr + (Encode(png) + SvgClose))))
  }

  /** Literal `lit` at the front of `s`; the text after it. */
  function Expect(lit: string, s: string): (r: Option<string>)
    ensures r.Some? <==> |lit| <= |s| && s[..|lit|] == lit
    ensures r.Some? ==> s == lit + r.value
  {
    if |lit| <= |s| && s[..|lit|] == lit then Some(s[|lit|..]) else None
  }

  /** Length of the longest prefix of `s` whose characters satisfy `p`. */
  function Run(p: char -> bool, s: string): (k: nat)
    ensures k <= |s|
    ensures forall i :: 0 <= i < k ==> p(s[i])
    ensures k < |s| ==> !p(s[k])
    decreases |s|
  {
    if |s| > 0 && p(s[0]) then 1 + Run(p, s[1..]) else 0
  }

  /** A decimal number at the front of `s`, and the text after it. */
  function ReadNat(s: string): Option<(nat, string)> {
    var k := Run(IsDigit, s);
    if k == 0 then None else Some((StringToNat(s[..k]), s[k..]))
  }

  /** Two numbers separated by `sep`, and the text after them. */
  function ReadPair(sep: string, s: string): Option<(nat, nat, string)> {
    var first :- ReadNat(s);
    var afterSep :- Expect(sep, first.1);
    var second :- ReadNat(afterSep);
    Some((first.0, second.0, second.1))
  }

  /** A base64 payload at the front of `s`, decoded, and the text after it. */
  function ReadBase64(s: string): Option<(Bytes, string)> {
    var k := Run(IsEncodingChar, s);
    var data :- Decode(s[..k]);
    Some((data, s[k..]))
  }

  /** The `href` attribute and the end of the document: the file bytes. */
  function ParseHref(s: string): Option<Bytes> {
    var r :- Expect(HrefAttr, s);
    var payload :- ReadBase64(r);
    var end :- Expect(SvgClose, payload.1);
    if end == [] then Some(payload.0) else None
  }

  /** The `<image>` element: its width, height and file bytes. */
  function ParseImage(s: string): Option<(nat, nat, Bytes)> {
    var r :- Expect(ImageOpen, s);
    var size :- ReadPair(HeightAttr, r);
    var png :- ParseHref(size.2);
    Some((size.0, size.1, png))
  }

  /** The `viewBox` attribute and what follows; the `<image>` must have the
      view box's size. */
  function ParseViewBox(s: string): Option<(nat, nat, Bytes)> {
    var r :- Expect(ViewBoxAttr, s);
    var viewBox :- ReadPair(ViewBoxSeparator, r);
    var image :- ParseImage(viewBox.2);
    if image.0 == viewBox.0 && image.1 == viewBox.1 then Some(image) else None
  }

  /** The width, height and file bytes a document describes, or `None` if
      the text is not such a document or its three sizes disagree. */
  function ParseSvgText(t: string): Option<(nat, nat, Bytes)> {
    var r :- Expect(SvgOpen, t);
    var size :- ReadPair(HeightAttr, r);
    var inner :- ParseViewBox(size.2);
    if inner.0 == size.0 && inner.1 == size.1 then Some(inner) else None
  }

  lemma ExpectLiteral(lit: string, rest: string)
    ensures Expect(lit, lit + rest) == Some(rest)
  {
    assert (lit + rest)[..|lit|] == lit;
    assert (lit + rest)[|lit|..] == rest;
  }

  lemma {:induction false} RunPrefix(p: char -> bool, d: string, rest: string)
    requires forall i :: 0 <= i < |d| ==> p(d[i])
    requires |rest| > 0 && !p(rest[0])
    ensures Run(p, d + rest) == |d|
    decreases |d|
  {
    if |d| == 0 {
      assert d + rest == rest;
    } else {
      assert (d + rest)[1..] == d[1..] + rest;
      RunPrefix(p, d[1..], rest);
    }
  }

  lemma ReadNatPrefix(n: nat, rest: string)
    requires |rest| > 0 && !IsDigit(rest[0])
    ensures ReadNat(NatToString(n) + rest) == Some((n, rest))
  {
    var d := NatToString(n);
    RunPrefix(IsDigit, d, rest);
    assert (d + rest)[..|d|] == d;
    assert (d + rest)[|d|..] == rest;
    StringToNatRoundTrip(n);
  }

  lemma ReadPairPrefix(w: nat, sep: string, h: nat, rest: string)
    requires |sep| > 0 && !IsDigit(sep[0])
    requires |rest| > 0 && !IsDigit(rest[0])
    ensures ReadPair(sep, Pair(w, sep, h, rest)) == Some((w, h, rest))
  {
    ReadNatPrefix(w, sep + (NatToString(h) + rest));
    ExpectLiteral(sep, NatToString(h) + rest);
    ReadNatPrefix(h, rest);
  }

  lemma ReadBase64Prefix(png: Bytes, rest: string)
    requires |rest| > 0 && !IsEncodingChar(rest[0])
    ensures ReadBase64(Encode(png) + rest) == Some((png, rest))
  {
    var e := Encode(png);
    RunPrefix(IsEncodingChar, e, rest);
    assert (e + rest)[..|e|] == e;
    assert (e + rest)[|e|..] == rest;
    DecodeEncode(png);
  }

  lemma ParseHrefRoundTrip(png: Bytes)
    ensures ParseHref(HrefAttr + (Encode(png) + SvgClose)) == Some(png)
  {
    ExpectLiteral(HrefAttr, Encode(png) + SvgClose);
    assert SvgClose[0] == '"';
    ReadBase64Prefix(png, SvgClose);
    ExpectLiteral(SvgClose, []);
    assert SvgClose + [] == SvgClose;
  }

  lemma ParseImageRoundTrip(w: nat, h: nat, png: Bytes)
    ensures ParseImage(ImageOpen + Pair(w, HeightAttr, h, HrefAttr + (Encode(png) + SvgClose)))
      == Some((w, h, png))
  {
    var tail := HrefAttr + (Encode(png) + SvgClose);
    ExpectLiteral(ImageOpen, Pair(w, HeightAttr, h, tail));
    assert HeightAttr[0] == '"' && tail[0] == '"';
    ReadPairPrefix(w, HeightAttr, h, tail);
    ParseHrefRoundTrip(png);
  }

  lemma ParseViewBoxRoundTrip(w: nat, h: nat, png: Bytes)
    ensures ParseViewBox(ViewBoxAttr + Pair(w, ViewBoxSeparator, h,
      ImageOpen + Pair(w, HeightAttr, h, HrefAttr + (Encode(png) + SvgClose)))) == Some((w, h, png))
  {
    var image := ImageOpen + Pair(w, HeightAttr, h, HrefAttr + (Encode(png) + SvgClose));
    ExpectLiteral(ViewBoxAttr, Pair(w, ViewBoxSeparator, h, image));
    assert ViewBoxSeparator[0] == ' ' && image[0] == '"';
    ReadPairPrefix(w, ViewBoxSeparator, h, image);
    ParseImageRoundTrip(w, h, png);
  }

  /** A document gives back exactly the size and file it was built from. */
  lemma ParseSvgTextRoundTrip(w: nat, h: nat, png: Bytes)
    ensures ParseSvgText(SvgText(w, h, png)) == Some((w, h, png))
  {
    var image := ImageOpen + Pair(w, HeightAttr, h, HrefAttr + (Encode(png) + SvgClose));
    var viewBox := ViewBoxAttr + Pair(w, ViewBoxSeparator, h, image);
    ExpectLiteral(SvgOpen, Pair(w, HeightAttr, h, viewBox));
    assert HeightAttr[0] == '"' && viewBox[0] == '"';
    ReadPairPrefix(w, HeightAttr, h, viewBox);
    ParseViewBoxRoundTrip(w, h, png);
  }
}
