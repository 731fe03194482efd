/** Which existing bitmap strike the extractor reuses: the sbix strike of
    largest ppem (the first such, as Python's `max` returns it), and the
    last CBDT strike. */
module StrikeSelection {
  import opened Wrappers
  import opened FontTables

  /** The strikes of an sbix dictionary, in iteration order. */
  function StrikeValues(entries: seq<(int, SbixStrike)>): (r: seq<SbixStrike>)
    ensures |r| == |entries|
    ensures forall i :: 0 <= i < |entries| ==> r[i] == entries[i].1
  {
    seq(|entries|, i requires 0 <= i < |entries| => entries[i].1)
  }

  /** Index of the first strike of maximal ppem: a left-to-right scan that
      replaces the best so far only on a strictly larger ppem. */
  function MaxPpemIndex(strikes: seq<SbixStrike>): (k: nat)
    requires |strikes| > 0
    ensures k < |strikes|
    ensures forall j :: 0 <= j < |strikes| ==> strikes[j].ppem <= strikes[k].ppem
    ensures forall j :: 0 <= j < k ==> strikes[j].ppem < strikes[k].ppem
    decreases |strikes|
  {
    if |strikes| == 1 then 0
    else
      var best := MaxPpemIndex(strikes[..|strikes| - 1]);
      if strikes[|strikes| - 1].ppem > strikes[best].ppem then |strikes| - 1 else best
  }

  /** The sbix strike to reuse, if the font has an sbix table with strikes. */
  function ChosenSbix(font: Font): (r: Option<SbixStrike>)
    ensures r.None? <==> SbixTag !in font || !font[SbixTag].SbixTable? || |font[SbixTag].strikes| == 0
  {
    if SbixTag in font && font[SbixTag].SbixTable? && |font[SbixTag].strikes| > 0 then
      var strikes := StrikeValues(font[SbixTag].strikes);
      Some(strikes[MaxPpemIndex(strikes)])
    else None
  }

  /** The CBDT strike to reuse: the last one of `strikeData`. */
  function ChosenCbdt(font: Font): (r: Option<CbdtStrike>)
    ensures r.None? <==> CbdtTag !in font || !font[CbdtTag].CbdtTable? || |font[CbdtTag].strikeData| == 0
    ensures r.Some? ==> r.value == font[CbdtTag].strikeData[|font[CbdtTag].strikeData| - 1]
  {
    if CbdtTag in font && font[CbdtTag].CbdtTable? && |font[CbdtTag].strikeData| > 0 then
      var strikes := font[CbdtTag].strikeData;
      Some(strikes[|strikes| - 1])
    else None
  }

  /** The chosen sbix strike is one of the table's strikes, has a ppem at
      least that of every strike, and every strike listed before it has a
      strictly smaller ppem. */
  lemma ChosenSbixIsFirstMaximal(font: Font)
    requires ChosenSbix(font).Some?
    ensures var strikes := font[SbixTag].strikes;
      exists k :: 0 <= k < |strikes| && ChosenSbix(font).value == strikes[k].1
        && (forall j :: 0 <= j < |strikes| ==> strikes[j].1.ppem <= strikes[k].1.ppem)
        && (forall j :: 0 <= j < k ==> strikes[j].1.ppem < strikes[k].1.ppem)
  {
    var strikes := StrikeValues(font[SbixTag].strikes);
    var k := MaxPpemIndex(strikes);
    assert ChosenSbix(font).value == font[SbixTag].strikes[k].1;
  }
}
