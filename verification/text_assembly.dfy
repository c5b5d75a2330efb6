/**
 * Per-page text assembly: simple text extraction (`simple_convert_to_text`) and
 * text extraction with OCR fallback (`convert_to_text`).  Both build one
 * `--- Page N ---` block per page, numbered from 1, and join the blocks with a
 * newline.  The text a PDF library extracts from a page and the text OCR reads
 * from its rendering are inputs.
 */
module TextAssembly {
  import opened Wrappers
  import opened Strings
  import opened OcrProbe

  /** Native text shorter than this, once stripped, sends the page to OCR. */
  const OcrTriggerLength: nat := 50

  function PageHeader(pageNo: nat): string {
    "--- Page " + NatToString(pageNo) + " ---\n"
  }

  /** `f"--- Page {N} ---\n{text}\n"`. */
  function PageBlock(pageNo: nat, text: string): string {
    PageHeader(pageNo) + text + "\n"
  }

  // ---------------------------------------------------------------------------
  // Simple text extraction
  // ---------------------------------------------------------------------------

  /** One block per page; a page without text (`None`) contributes an empty text. */
  function SimpleBlocks(texts: seq<Option<string>>): seq<string> {
    seq(|texts|, i requires 0 <= i < |texts| => PageBlock(i + 1, texts[i].GetOr("")))
  }

  /** The content of `<stem>_simple_text.txt`. */
  function SimpleConvertToText(texts: seq<Option<string>>): string {
    Join("\n", SimpleBlocks(texts))
  }

  /** A document without pages gives an empty file; otherwise the file opens with page 1's block. */
  lemma SimpleTextOpening(texts: seq<Option<string>>)
    ensures |texts| == 0 ==> SimpleConvertToText(texts) == ""
    ensures |texts| > 0 ==>
      var b := PageBlock(1, texts[0].GetOr(""));
      |SimpleConvertToText(texts)| >= |b| && SimpleConvertToText(texts)[..|b|] == b
  {
    if |texts| > 0 {
      assert SimpleBlocks(texts)[0] == PageBlock(1, texts[0].GetOr(""));
    }
  }

  /**
   * Pages are emitted in order: the text of a document with one more page is
   * the text of the shorter document, a newline, and the new page's block.
   */
  lemma SimpleTextAppendPage(texts: seq<Option<string>>, t: Option<string>)
    requires |texts| > 0
    ensures SimpleConvertToText(texts + [t]) ==
      SimpleConvertToText(texts) + "\n" + PageBlock(|texts| + 1, t.GetOr(""))
  {
    assert SimpleBlocks(texts + [t]) == SimpleBlocks(texts) + [PageBlock(|texts| + 1, t.GetOr(""))];
    JoinSnoc("\n", SimpleBlocks(texts), PageBlock(|texts| + 1, t.GetOr("")));
  }

  /** A page without text and a page with empty text give the same file (`extract_text() or ""`). */
  lemma MissingTextIsEmptyText(texts: seq<Option<string>>, i: nat)
    requires i < |texts| && texts[i] == None
    ensures SimpleConvertToText(texts[i := Some("")]) == SimpleConvertToText(texts)
  {
    assert SimpleBlocks(texts[i := Some("")]) == SimpleBlocks(texts);
  }

  // ---------------------------------------------------------------------------
  // Text with OCR fallback
  // ---------------------------------------------------------------------------

  /** What is known about one page: its native text and what OCR of its 2x rendering gives. */
  datatype PageSource = PageSource(native: string, ocr: OcrOutcome)

  /** OCR is run on a page when it is enabled and the stripped native text is short. */
  predicate OcrAttempted(ocrEnabled: bool, native: string) {
    ocrEnabled && |Strip(native)| < OcrTriggerLength
  }

  /**
   * The text recorded for one page: the OCR text replaces the native text only
   * when OCR was attempted, succeeded, and is strictly longer once both are
   * stripped.  An OCR failure keeps the native text.
   */
  function PageText(ocrEnabled: bool, page: PageSource): (r: string)
    // never shorter than the native text
    ensures |Strip(r)| >= |Strip(page.native)|
    // the native text is replaced exactly under the OCR rule, and only by the OCR text
    ensures r != page.native <==>
      && OcrAttempted(ocrEnabled, page.native)
      && page.ocr.Recognized?
      && |Strip(page.ocr.text)| > |Strip(page.native)|
    ensures r != page.native ==> page.ocr.Recognized? && r == page.ocr.text
  {
    if OcrAttempted(ocrEnabled, page.native) then
      match page.ocr
      case Recognized(text) => if |Strip(text)| > |Strip(page.native)| then text else page.native
      case OcrFailed => page.native
    else page.native
  }

  /** A page with at least `OcrTriggerLength` characters of stripped native text keeps it. */
  lemma LongNativeTextKept(ocrEnabled: bool, page: PageSource)
    requires |Strip(page.native)| >= OcrTriggerLength
    ensures PageText(ocrEnabled, page) == page.native
  {
  }

  /** The text recorded for each page, in page order. */
  function PageTexts(ocrEnabled: bool, pages: seq<PageSource>): seq<string> {
    seq(|pages|, i requires 0 <= i < |pages| => PageText(ocrEnabled, pages[i]))
  }

  /** One block per page, numbered from 1. */
  function Blocks(texts: seq<string>): seq<string> {
    seq(|texts|, i requires 0 <= i < |texts| => PageBlock(i + 1, texts[i]))
  }

  function OcrBlocks(ocrEnabled: bool, pages: seq<PageSource>): seq<string> {
    Blocks(PageTexts(ocrEnabled, pages))
  }

  /** The content of `<stem>_text_ocr.txt`. */
  function ConvertToText(ocrEnabled: bool, pages: seq<PageSource>): string {
    Join("\n", OcrBlocks(ocrEnabled, pages))
  }

  /** The native texts, as simple extraction would see them. */
  function NativeTexts(pages: seq<PageSource>): seq<Option<string>> {
    seq(|pages|, i requires 0 <= i < |pages| => Some(pages[i].native))
  }

  /**
   * With OCR disabled, text extraction with OCR fallback writes exactly what
   * simple extraction writes for the same native texts.
   */
  lemma ConvertWithoutOcrIsSimple(pages: seq<PageSource>)
    ensures ConvertToText(false, pages) == SimpleConvertToText(NativeTexts(pages))
  {
    assert OcrBlocks(false, pages) == SimpleBlocks(NativeTexts(pages));
  }

  lemma PageTextsSnoc(ocrEnabled: bool, pages: seq<PageSource>, p: PageSource)
    ensures PageTexts(ocrEnabled, pages + [p]) == PageTexts(ocrEnabled, pages) + [PageText(ocrEnabled, p)]
  {
    var longer := PageTexts(ocrEnabled, pages + [p]);
    forall i | 0 <= i < |pages|
      ensures longer[i] == PageTexts(ocrEnabled, pages)[i]
    {
      assert (pages + [p])[i] == pages[i];
    }
  }

  lemma BlocksSnoc(texts: seq<string>, t: string)
    ensures Blocks(texts + [t]) == Blocks(texts) + [PageBlock(|texts| + 1, t)]
  {
    var longer := Blocks(texts + [t]);
    forall i | 0 <= i < |texts|
      ensures longer[i] == Blocks(texts)[i]
    {
      assert (texts + [t])[i] == texts[i];
    }
  }

  lemma OcrBlocksSnoc(ocrEnabled: bool, pages: seq<PageSource>, p: PageSource)
    ensures OcrBlocks(ocrEnabled, pages + [p]) ==
      OcrBlocks(ocrEnabled, pages) + [PageBlock(|pages| + 1, PageText(ocrEnabled, p))]
  {
    PageTextsSnoc(ocrEnabled, pages, p);
    BlocksSnoc(PageTexts(ocrEnabled, pages), PageText(ocrEnabled, p));
  }

  /** Pages are emitted in order, one block each, as in simple extraction. */
  lemma ConvertAppendPage(ocrEnabled: bool, pages: seq<PageSource>, p: PageSource)
    requires |pages| > 0
    ensures ConvertToText(ocrEnabled, pages + [p]) ==
      ConvertToText(ocrEnabled, pages) + "\n" + PageBlock(|pages| + 1, PageText(ocrEnabled, p))
  {
    OcrBlocksSnoc(ocrEnabled, pages, p);
    JoinSnoc("\n", OcrBlocks(ocrEnabled, pages), PageBlock(|pages| + 1, PageText(ocrEnabled, p)));
  }
}
