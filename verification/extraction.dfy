/** The per-glyph extraction loop: for every glyph in glyph order, reuse
    the chosen sbix strike, else the chosen CBDT strike, else render the
    outline; collect the images that some source produced. The image codec
    and the shape renderer are parameters. */
module Extraction {
  import opened Wrappers
  import opened Bytes
  import opened FontTables
  import opened StrikeSelection
  import opened Cbdt
  import opened Render

  /** Failures that end the whole run: an sbix image the codec cannot
      decode (nothing catches it), and a coverage buffer too short for its
      bitmap's size (the image library raises, and only renderer errors are
      caught). */
  datatype FatalReason = SbixImageUndecodable | CoverageBufferTooShort

  datatype ExtractionError = ExtractionError(glyph: GlyphName, reason: FatalReason)

  /** One source's answer for one glyph. */
  datatype GlyphOutcome = Found(image: Image) | Absent | Abort(reason: FatalReason)

  /** The image codec: decodes encoded bytes to RGBA, `None` when it raises. */
  type Codec = Bytes -> Option<Image>

  /** The shape renderer, by glyph ID. */
  type Renderer = nat -> RenderResult

  /** The reuse step: the sbix strike when it has an entry for the glyph
      (an empty entry gives nothing, and CBDT is then not consulted);
      otherwise the CBDT strike, whose failures are all caught. */
  function FromTables(name: GlyphName, sbix: Option<SbixStrike>, cbdt: Option<CbdtStrike>, decode: Codec): GlyphOutcome {
    if sbix.Some? && name in sbix.value.glyphData then
      var data := sbix.value.glyphData[name];
      if |data| == 0 then Absent
      else match decode(data)
        case Some(img) => Found(img)
        case None => Abort(SbixImageUndecodable)
    else if cbdt.Some? && name in cbdt.value then
      var data := cbdt.value[name];
      if |data| == 0 then Absent
      else match ImageBlob(data)
        case None => Absent
        case Some(blob) =>
          match decode(blob)
          case Some(img) => Found(img)
          case None => Absent
    else Absent
  }

  /** The render fallback: a renderer error or a zero-size bitmap gives
      nothing. */
  function FromRenderer(result: RenderResult): GlyphOutcome {
    match result
    case RenderError => Absent
    case Rendered(bmp) =>
      match CoverageToRgba(bmp)
      case ZeroSize => Absent
      case BufferTooShort => Abort(CoverageBufferTooShort)
      case Converted(img) => Found(img)
  }

  /** The image of glyph `name` with ID `gid`: the render fallback runs
      exactly when the tables gave nothing. */
  function GlyphImage(name: GlyphName, gid: nat, sbix: Option<SbixStrike>, cbdt: Option<CbdtStrike>,
                      decode: Codec, render: Renderer): GlyphOutcome
  {
    var reused := FromTables(name, sbix, cbdt, decode);
    if reused.Absent? then FromRenderer(render(gid)) else reused
  }

  /** The outcome for the glyph at position `i` of the glyph order. */
  function Outcome(font: Font, order: seq<GlyphName>, i: nat, decode: Codec, render: Renderer): GlyphOutcome
    requires i < |order|
  {
    GlyphImage(order[i], i, ChosenSbix(font), ChosenCbdt(font), decode, render)
  }

  /** Visits the glyph order once, front to back. On success the result
      holds exactly the glyphs some source produced an image for; a fatal
      failure reports the first glyph that caused one. */
  method ExtractImages(font: Font, order: seq<GlyphName>, decode: Codec, render: Renderer)
    returns (r: Result<map<GlyphName, Image>, ExtractionError>)
    requires DistinctNames(order)
    ensures r.Failure? <==> exists i :: 0 <= i < |order| && Outcome(font, order, i, decode, render).Abort?
    ensures r.Failure? ==> exists i :: (0 <= i < |order| && order[i] == r.error.glyph
      && Outcome(font, order, i, decode, render) == Abort(r.error.reason)
      && forall k :: 0 <= k < i ==> !Outcome(font, order, k, decode, render).Abort?)
    ensures r.Success? ==> forall n :: n in r.value ==> n in order
    ensures r.Success? ==> forall i :: 0 <= i < |order| ==>
      (order[i] in r.value <==> Outcome(font, order, i, decode, render).Found?)
    ensures r.Success? ==> forall i :: 0 <= i < |order| && Outcome(font, order, i, decode, render).Found? ==>
      r.value[order[i]] == Outcome(font, order, i, decode, render).image
  {
    var sbix := ChosenSbix(font);
    var cbdt := ChosenCbdt(font);
    var images: map<GlyphName, Image> := map[];
    var i := 0;
    while i < |order|
      invariant 0 <= i <= |order|
      invariant forall k :: 0 <= k < i ==> !Outcome(font, order, k, decode, render).Abort?
      invariant forall n :: n in images ==> n in order[..i]
      invariant forall k :: 0 <= k < i ==>
        (order[k] in images <==> Outcome(font, order, k, decode, render).Found?)
      invariant forall k :: 0 <= k < i && Outcome(font, order, k, decode, render).Found? ==>
        images[order[k]] == Outcome(font, order, k, decode, render).image
    {
      var outcome := GlyphImage(order[i], i, sbix, cbdt, decode, render);
      assert outcome == Outcome(font, order, i, decode, render);
      match outcome {
        case Abort(reason) =>
          return Failure(ExtractionError(order[i], reason));
        case Absent =>
        case Found(img) =>
          images := images[order[i] := img];
      }
      assert order[..i + 1] == order[..i] + [order[i]];
      i := i + 1;
    }
    assert order[..i] == order;
    r := Success(images);
  }

  /** Reuse takes strict priority: a non-empty entry in the chosen sbix
      strike decides the glyph whatever CBDT holds and whatever the
      renderer would draw. */
  lemma SbixEntryDecides(name: GlyphName, gid: nat, sbix: SbixStrike,
                         cbdt1: Option<CbdtStrike>, cbdt2: Option<CbdtStrike>,
                         decode: Codec, render1: Renderer, render2: Renderer)
    requires name in sbix.glyphData && |sbix.glyphData[name]| > 0
    ensures GlyphImage(name, gid, Some(sbix), cbdt1, decode, render1)
         == GlyphImage(name, gid, Some(sbix), cbdt2, decode, render2)
    ensures decode(sbix.glyphData[name]).Some? ==>
      GlyphImage(name, gid, Some(sbix), cbdt1, decode, render1) == Found(decode(sbix.glyphData[name]).value)
    ensures decode(sbix.glyphData[name]).None? ==>
      GlyphImage(name, gid, Some(sbix), cbdt1, decode, render1) == Abort(SbixImageUndecodable)
  {
  }

  /** CBDT is consulted only when the chosen sbix strike has no entry for
      the glyph: with an entry present, CBDT never changes the answer, and
      an empty entry goes straight to the renderer. */
  lemma SbixEntryHidesCbdt(name: GlyphName, gid: nat, sbix: SbixStrike,
                           cbdt1: Option<CbdtStrike>, cbdt2: Option<CbdtStrike>,
                           decode: Codec, render: Renderer)
    requires name in sbix.glyphData
    ensures GlyphImage(name, gid, Some(sbix), cbdt1, decode, render)
         == GlyphImage(name, gid, Some(sbix), cbdt2, decode, render)
    ensures |sbix.glyphData[name]| == 0 ==>
      GlyphImage(name, gid, Some(sbix), cbdt1, decode, render) == FromRenderer(render(gid))
  {
  }

  /** A CBDT entry whose blob decodes decides the glyph whatever the
      renderer would draw: reuse wins over rendering for CBDT as for sbix. */
  lemma CbdtEntryDecides(name: GlyphName, gid: nat, sbix: Option<SbixStrike>, cbdt: CbdtStrike,
                         decode: Codec, render1: Renderer, render2: Renderer)
    requires sbix.None? || name !in sbix.value.glyphData
    requires name in cbdt && |cbdt[name]| > 0
    requires ImageBlob(cbdt[name]).Some? && decode(ImageBlob(cbdt[name]).value).Some?
    ensures GlyphImage(name, gid, sbix, Some(cbdt), decode, render1)
         == GlyphImage(name, gid, sbix, Some(cbdt), decode, render2)
         == Found(decode(ImageBlob(cbdt[name]).value).value)
  {
  }

  /** Every CBDT failure is caught: a CBDT entry never aborts the run, and
      when it yields no image the renderer decides. */
  lemma CbdtNeverAborts(name: GlyphName, gid: nat, sbix: Option<SbixStrike>, cbdt: CbdtStrike,
                        decode: Codec, render: Renderer)
    requires sbix.None? || name !in sbix.value.glyphData
    requires name in cbdt
    ensures !FromTables(name, sbix, Some(cbdt), decode).Abort?
    ensures ImageBlob(cbdt[name]).None? ==>
      GlyphImage(name, gid, sbix, Some(cbdt), decode, render) == FromRenderer(render(gid))
  {
  }

  /** A font without bitmap tables is rendered glyph by glyph. */
  lemma OutlineOnlyFontRenders(font: Font, order: seq<GlyphName>, i: nat, decode: Codec, render: Renderer)
    requires SbixTag !in font && CbdtTag !in font
    requires i < |order|
    ensures Outcome(font, order, i, decode, render) == FromRenderer(render(i))
  {
  }
}
