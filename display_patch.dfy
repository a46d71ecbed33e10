/** `update_index_html` (scrape_prices.py:157-173) without the HTML parser:
    the page is a map from element id to the element's text, and absent
    when index.html does not exist. Only the two price anchors may change,
    and each only when the page has it. */
module DisplayPatch {
  import opened Wrappers
  import opened PriceParsing
  import opened BrlFormat

  const ArabicaId: string := "preco-arabica"
  const RobustaId: string := "preco-robusta"

  /** Element id to element text. */
  type Document = map<string, string>

  /** The elements with the two anchors, where present, set to the given
      texts; every other element keeps its text. */
  function SetAnchors(elements: Document, arabicaText: string, robustaText: string): (r: Document)
    ensures r.Keys == elements.Keys
    ensures ArabicaId in elements ==> r[ArabicaId] == arabicaText
    ensures RobustaId in elements ==> r[RobustaId] == robustaText
    ensures forall id :: id in elements && id != ArabicaId && id != RobustaId ==> r[id] == elements[id]
  {
    map id | id in elements ::
      if id == ArabicaId then arabicaText
      else if id == RobustaId then robustaText
      else elements[id]
  }

  /** The page after the patch: an absent page stays absent; otherwise
      every element keeps its text except the two anchors, which read the
      formatted prices. */
  function PatchDisplay(doc: Option<Document>, arabicaPrice: int, conilonPrice: int): (r: Option<Document>)
    ensures r.None? <==> doc.None?
    ensures doc.Some? ==> r.value.Keys == doc.value.Keys
    ensures doc.Some? && ArabicaId in doc.value ==> r.value[ArabicaId] == FormatBrl(arabicaPrice)
    ensures doc.Some? && RobustaId in doc.value ==> r.value[RobustaId] == FormatBrl(conilonPrice)
    ensures doc.Some? ==> forall id :: id in doc.value && id != ArabicaId && id != RobustaId ==> r.value[id] == doc.value[id]
  {
    match doc
    case None => None
    case Some(elements) => Some(SetAnchors(elements, FormatBrl(arabicaPrice), FormatBrl(conilonPrice)))
  }

  /** Setting the anchors to texts they already hold changes nothing. */
  lemma SetAnchorsIdempotent(elements: Document, arabicaText: string, robustaText: string)
    ensures var once := SetAnchors(elements, arabicaText, robustaText);
      SetAnchors(once, arabicaText, robustaText) == once
  {
    var once := SetAnchors(elements, arabicaText, robustaText);
    var twice := SetAnchors(once, arabicaText, robustaText);
    assert forall id :: id in once ==> twice[id] == once[id];
    assert twice == once;
  }

  /** Setting both anchors at once is setting the Arabica anchor when
      present, then the Robusta anchor when present. */
  lemma SetAnchorsStepwise(elements: Document, arabicaText: string, robustaText: string)
    ensures var afterArabica := if ArabicaId in elements then elements[ArabicaId := arabicaText] else elements;
      SetAnchors(elements, arabicaText, robustaText)
        == if RobustaId in afterArabica then afterArabica[RobustaId := robustaText] else afterArabica
  {
    var e1 := if ArabicaId in elements then elements[ArabicaId := arabicaText] else elements;
    var e2 := if RobustaId in e1 then e1[RobustaId := robustaText] else e1;
    var both := SetAnchors(elements, arabicaText, robustaText);
    assert forall id :: id in e2 ==> e2[id] == both[id];
    assert e2 == both;
  }

  /** Patching twice with the same prices is patching once. */
  lemma PatchDisplayIdempotent(doc: Option<Document>, arabicaPrice: int, conilonPrice: int)
    ensures PatchDisplay(PatchDisplay(doc, arabicaPrice, conilonPrice), arabicaPrice, conilonPrice)
         == PatchDisplay(doc, arabicaPrice, conilonPrice)
  {
    if doc.Some? {
      SetAnchorsIdempotent(doc.value, FormatBrl(arabicaPrice), FormatBrl(conilonPrice));
    }
  }

  /** A price shown on the page reads back, through the scraper's own
      normalisation and parse, as the amount that was written. */
  lemma PatchedPricesReadBack(doc: Document, arabicaPrice: int, conilonPrice: int)
    requires ArabicaId in doc && RobustaId in doc
    ensures var page := PatchDisplay(Some(doc), arabicaPrice, conilonPrice).value;
      && ParseCents(Normalize(page[ArabicaId][2..])) == Some(arabicaPrice)
      && ParseCents(Normalize(page[RobustaId][2..])) == Some(conilonPrice)
  {
    FormatThenParse(arabicaPrice);
    FormatThenParse(conilonPrice);
  }

  /** The prices of the `update_prices` docstring example
      (scrape_prices.py:57-69), 2292.66 and 1402.21, make the anchors read
      "R$2.292,66" and "R$1.402,21". */
  lemma DocumentedRunAnchors(doc: Document)
    requires ArabicaId in doc && RobustaId in doc
    ensures var page := PatchDisplay(Some(doc), 229266, 140221).value;
      page[ArabicaId] == "R$2.292,66" && page[RobustaId] == "R$1.402,21"
  {
    FormatBrlArabicaExample();
    FormatBrlConilonExample();
  }

  /** index.html as the page it holds, or None when the file is absent. */
  class IndexPage {
    var document: Option<Document>

    constructor (document: Option<Document>)
      ensures this.document == document
    {
      this.document := document;
    }

    /** `update_index_html`: nothing when the file is absent; otherwise each
        anchor that is found gets its formatted price, a missing one is
        skipped, and the page is written back. */
    method UpdateIndexHtml(arabicaPrice: int, conilonPrice: int)
      modifies this
      ensures document == PatchDisplay(old(document), arabicaPrice, conilonPrice)
    {
      if document.None? {
        return;
      }
      var elements := document.value;
      SetAnchorsStepwise(elements, FormatBrl(arabicaPrice), FormatBrl(conilonPrice));
      if ArabicaId in elements {
        elements := elements[ArabicaId := FormatBrl(arabicaPrice)];
      }
      if RobustaId in elements {
        elements := elements[RobustaId := FormatBrl(conilonPrice)];
      }
      document := Some(elements);
    }
  }
}
