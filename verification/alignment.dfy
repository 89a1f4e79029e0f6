/** Paragraph alignment normalisation over the top-level paragraphs
    (ReportGenerationService.java, lines 271-292). */
module Alignment {
  import opened Results
  import opened Documents

  /** `preserveParagraphAlignment`: a paragraph with properties whose
      alignment is unset or justified (`BOTH`) becomes left-aligned. */
  function NormalizeParagraph(p: Paragraph): (r: Paragraph)
    ensures r.content == p.content
    ensures p.pPr.None? ==> r == p
    ensures p.pPr.Some? && (p.pPr.value.jc.None? || p.pPr.value.jc == Some(Both)) ==>
      r.pPr == Some(ParagraphProperties(Some(Left)))
    ensures p.pPr.Some? && p.pPr.value.jc.Some? && p.pPr.value.jc != Some(Both) ==> r == p
  {
    match p.pPr
    case None => p
    case Some(ppr) =>
      if ppr.jc.None? || ppr.jc == Some(Both) then
        Paragraph(Some(ppr.(jc := Some(Left))), p.content)
      else p
  }

  /** `checkTextAlignment`: only blocks that are paragraphs are rewritten;
      tables, and with them every cell paragraph, are left alone. */
  function NormalizeBody(body: seq<Block>): (r: seq<Block>)
    ensures |r| == |body|
    ensures forall i :: 0 <= i < |body| && !body[i].Para? ==> r[i] == body[i]
    ensures forall i :: 0 <= i < |body| && body[i].Para? ==> r[i] == Para(NormalizeParagraph(body[i].p))
  {
    if body == [] then []
    else
      var first := if body[0].Para? then Para(NormalizeParagraph(body[0].p)) else body[0];
      [first] + NormalizeBody(body[1..])
  }

  function NormalizeDocument(doc: Document): (r: Document)
    ensures r.extents == doc.extents
  {
    Document(NormalizeBody(doc.body), doc.extents)
  }

  /** After the pass no top-level paragraph with properties is unset or
      justified. */
  predicate Normalized(body: seq<Block>)
  {
    forall i :: 0 <= i < |body| && body[i].Para? && body[i].p.pPr.Some? ==>
      body[i].p.pPr.value.jc.Some? && body[i].p.pPr.value.jc != Some(Both)
  }

  lemma NormalizeBodyNormalizes(body: seq<Block>)
    ensures Normalized(NormalizeBody(body))
  {
    var r := NormalizeBody(body);
    forall i | 0 <= i < |r| && r[i].Para? && r[i].p.pPr.Some?
      ensures r[i].p.pPr.value.jc.Some? && r[i].p.pPr.value.jc != Some(Both)
    {
      assert body[i].Para?;
    }
  }

  /** A normalised body is left as it is. */
  lemma NormalizedIsFixed(body: seq<Block>)
    requires Normalized(body)
    ensures NormalizeBody(body) == body
  {
    var r := NormalizeBody(body);
    forall i | 0 <= i < |body| ensures r[i] == body[i] {
      if body[i].Para? && body[i].p.pPr.Some? {
        assert body[i].p.pPr.value.jc.Some?;
      }
    }
  }

  /** Applying the pass twice is the same as applying it once. */
  lemma NormalizeIdempotent(doc: Document)
    ensures NormalizeDocument(NormalizeDocument(doc)) == NormalizeDocument(doc)
  {
    NormalizeBodyNormalizes(doc.body);
    NormalizedIsFixed(NormalizeBody(doc.body));
  }
}
