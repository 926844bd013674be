/**
 * Description selection: the paragraph logic of `get_description` in
 * parsing/lex_podcast.py.
 *
 * The page fetch and the HTML queries are inputs here: `content` is the
 * `entry-content` container (None when the page has none), holding the
 * texts of its paragraphs and the text of its first `span` (None when it
 * has none).  The function takes the third paragraph when there are more
 * than two; when that paragraph contains `Please` it cuts it at the first
 * ` Please `, and when `Please` occurs without those surrounding spaces
 * `str.index` raises and the handler returns the span text instead.  With
 * two paragraphs or fewer it falls off the end and returns None.
 */
module Description {
  import opened Wrappers
  import Text

  /** The `entry-content` container of an episode page. */
  datatype Container = Container(paragraphs: seq<string>, span: Option<string>)

  /** What `get_description` does: return a value (possibly None), or raise. */
  datatype Outcome = Returned(text: Option<string>) | Raised

  const Please := "Please"
  const SpacedPlease := " Please "

  /** The `except` branch: the span's text, or a raise when there is no
      container (`text_div` is None) or no span in it. */
  function SpanFallback(content: Option<Container>): Outcome
  {
    match content
    case None => Raised
    case Some(c) => if c.span.Some? then Returned(Some(c.span.value)) else Raised
  }

  /** `get_description` on an already parsed page. */
  function GetDescription(content: Option<Container>): (r: Outcome)
    ensures r.Returned? && r.text.Some? ==>
      content.Some? && (r.text == content.value.span || (|content.value.paragraphs| > 2 &&
        r.text.value <= content.value.paragraphs[2]))
  {
    match content
    case None => SpanFallback(content)  // text_div.find_all raises on None
    case Some(c) =>
      if |c.paragraphs| > 2 then
        var p := c.paragraphs[2];
        if Text.Contains(p, Please) then
          match Text.IndexOf(p, SpacedPlease)
          case Some(k) => Returned(Some(p[..k]))
          case None => SpanFallback(content)  // .index raised ValueError
        else Returned(Some(p))
      else Returned(None)
  }

  /** With two paragraphs or fewer the function returns None. */
  lemma FewParagraphsGiveNone(c: Container)
    requires |c.paragraphs| <= 2
    ensures GetDescription(Some(c)) == Returned(None)
  {
  }

  /** A third paragraph without `Please` is returned unchanged. */
  lemma ThirdParagraphKept(c: Container)
    requires |c.paragraphs| > 2
    requires forall i :: !Text.OccursAt(c.paragraphs[2], Please, i)
    ensures GetDescription(Some(c)) == Returned(Some(c.paragraphs[2]))
  {
    Text.ContainsIff(c.paragraphs[2], Please);
  }

  /** A third paragraph containing ` Please ` is cut just before its first
      occurrence: the result is a prefix of the paragraph, the marker follows
      it, and it does not itself contain the marker. */
  lemma {:induction false} CutAtFirstSpacedPlease(c: Container)
    requires |c.paragraphs| > 2
    requires exists i :: Text.OccursAt(c.paragraphs[2], SpacedPlease, i)
    ensures GetDescription(Some(c)).Returned?
    ensures var p, d := c.paragraphs[2], GetDescription(Some(c)).text;
      && d.Some? && d.value <= p
      && Text.OccursAt(p, SpacedPlease, |d.value|)
      && (forall j :: 0 <= j < |d.value| ==> !Text.OccursAt(p, SpacedPlease, j))
      && (forall j :: !Text.OccursAt(d.value, SpacedPlease, j))
  {
    var p := c.paragraphs[2];
    var i :| Text.OccursAt(p, SpacedPlease, i);
    assert Text.OccursAt(p, Please, i + 1) by {
      assert p[i + 1..i + 7] == p[i..i + 8][1..7];
    }
    Text.ContainsIff(p, Please);
    var k := Text.IndexOf(p, SpacedPlease).value;
    var d := p[..k];
    forall j ensures !Text.OccursAt(d, SpacedPlease, j) {
      Text.OccursInPrefix(p, k, SpacedPlease, j);
    }
  }

  /** `Please` without the surrounding spaces makes `str.index` raise, and
      the result is then the span text (or a raise), never a paragraph. */
  lemma BarePleaseFallsBackToSpan(c: Container)
    requires |c.paragraphs| > 2
    requires exists i :: Text.OccursAt(c.paragraphs[2], Please, i)
    requires forall i :: !Text.OccursAt(c.paragraphs[2], SpacedPlease, i)
    ensures GetDescription(Some(c)) == (if c.span.Some? then Returned(c.span) else Raised)
  {
    Text.ContainsIff(c.paragraphs[2], Please);
    Text.ContainsIff(c.paragraphs[2], SpacedPlease);
  }

  /** A page without the content container makes the function raise. */
  lemma NoContainerRaises()
    ensures GetDescription(None) == Raised
  {
  }
}
