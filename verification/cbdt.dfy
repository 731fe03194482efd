/** Locating the image inside one CBDT glyph record of image format 17
    (OpenType CBDT): a 5-byte smallGlyphMetrics, a big-endian uint32
    dataLen, then dataLen bytes of image. A PNG signature anywhere in the
    record takes precedence over the length field. */
module Cbdt {
  import opened Wrappers
  import opened Bytes

  const MetricsSize: nat := 5
  const HeaderSize: nat := 9

  /** The image bytes of `data`, or `None` where unpacking the length field
      raises (the record is too short to hold it). */
  function ImageBlob(data: Bytes): (r: Option<Bytes>)
    ensures forall i: nat ::
      (OccursAt(PngSignaturePrefix, data, i) && forall j: nat :: j < i ==> !OccursAt(PngSignaturePrefix, data, j))
      ==> r == Some(data[i..])
    ensures (forall i: nat :: !OccursAt(PngSignaturePrefix, data, i)) ==>
      (r.None? <==> |data| < HeaderSize)
    ensures (forall i: nat :: !OccursAt(PngSignaturePrefix, data, i)) && |data| >= HeaderSize ==>
      var len := BigEndianUInt32(data[MetricsSize..HeaderSize]);
      r == Some(data[HeaderSize..if HeaderSize + len <= |data| then HeaderSize + len else |data|])
  {
    match Find(PngSignaturePrefix, data)
    case Some(offset) => Some(data[offset..])
    case None =>
      if |data| < HeaderSize then None
      else
        var len := BigEndianUInt32(data[MetricsSize..HeaderSize]);
        Some(data[HeaderSize..Min(HeaderSize + len, |data|)])
  }

  function Min(a: nat, b: nat): nat {
    if a <= b then a else b
  }

  /** A record that declares the wrong length but carries a PNG after its
      header still yields exactly the PNG bytes. */
  lemma SignatureOverridesLength(metrics: Bytes, lengthField: Bytes, png: Bytes)
    requires |metrics| == MetricsSize && |lengthField| == 4
    requires |png| >= 4 && png[..4] == PngSignaturePrefix
    requires forall i: nat :: i < HeaderSize ==> !OccursAt(PngSignaturePrefix, metrics + lengthField + png, i)
    ensures ImageBlob(metrics + lengthField + png) == Some(png)
  {
    var data := metrics + lengthField + png;
    assert data[HeaderSize..HeaderSize + 4] == png[..4];
    assert OccursAt(PngSignaturePrefix, data, HeaderSize);
    assert data[HeaderSize..] == png;
  }

  /** A well-formed record whose image does not contain the signature is
      read through its length field and yields exactly the image. */
  lemma LengthFieldReadsImage(metrics: Bytes, image: Bytes)
    requires |metrics| == MetricsSize && |image| < UInt32Limit
    requires forall i: nat :: !OccursAt(PngSignaturePrefix, metrics + UInt32BigEndian(|image|) + image, i)
    ensures ImageBlob(metrics + UInt32BigEndian(|image|) + image) == Some(image)
  {
    var data := metrics + UInt32BigEndian(|image|) + image;
    assert data[MetricsSize..HeaderSize] == UInt32BigEndian(|image|);
    PackUnpack(|image|);
    assert data[HeaderSize..HeaderSize + |image|] == image;
  }
}
