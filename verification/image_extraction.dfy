/**
 * Image extraction with OCR (`extract_and_ocr`) and the per-image filter
 * dispatch (`is_image_worth_processing`).
 *
 * Every embedded image of every page is visited in order.  Each is turned into
 * a pixmap (CMYK converted to RGB), filtered, saved as
 * `page_<N>_img_<M>.png` when saving is enabled, and read by OCR when OCR is
 * enabled.  Pages whose images gave OCR text contribute one block to
 * `<stem>_ocr_results.txt`.  A stop request ends the run at once: images
 * already saved stay, and the results file is not written.
 *
 * The imaging and OCR libraries are not modelled: what they produce for an
 * image is part of the input (`Pixmap`).
 */
module ImageExtraction {
  import opened Wrappers
  import opened Strings
  import opened QualityFilter
  import opened OcrProbe
  import opened TextAssembly

  /** The options that steer extraction. */
  datatype Config = Config(ocrEnabled: bool, saveImages: bool, smartFiltering: bool, minImageSize: int)

  /**
   * An image as the program sees it once its pixmap is built: size, channel
   * count and alpha flag, its grayscale histogram, whether encoding it as PNG
   * and decoding that succeeds, what the quick OCR probe reports, whether
   * saving it succeeds, and what full OCR of the enhanced image gives.
   */
  datatype Pixmap = Pixmap(
    width: nat,
    height: nat,
    channels: nat,
    alpha: nat,
    gray: GrayAnalysis,
    pngOk: bool,
    probe: ProbeData,
    saveOk: bool,
    fullOcr: OcrOutcome)

  /** Four colour channels or more besides alpha: a CMYK pixmap. */
  predicate NeedsRgb(p: Pixmap) {
    p.channels - p.alpha >= 4
  }

  /** Conversion to RGB keeps the alpha channel and leaves three colour channels. */
  function ToRgb(p: Pixmap): (r: Pixmap)
    ensures !NeedsRgb(r)
    // only the colour space changes: size, alpha, content and library outcomes are kept
    ensures r.(channels := p.channels) == p
  {
    p.(channels := 3 + p.alpha)
  }

  /** The pixmap the program filters: CMYK pixmaps are converted, others kept. */
  function Prepared(p: Pixmap): (r: Pixmap)
    ensures !NeedsRgb(r)
    ensures !NeedsRgb(p) ==> r == p
    ensures r.(channels := p.channels) == p
  {
    if NeedsRgb(p) then ToRgb(p) else p
  }

  // ---------------------------------------------------------------------------
  // Filter dispatch
  // ---------------------------------------------------------------------------

  /** What the quality rules see of a pixmap. */
  function Info(p: Pixmap): ImageInfo {
    ImageInfo(p.width, p.height, p.gray)
  }

  /**
   * `is_image_worth_processing`.  Without smart filtering only the size test
   * runs.  With it, the quality rules run with the configured minimum size and
   * the default aspect limit, then, if OCR is enabled, the quick OCR probe with
   * the default threshold.  An image that cannot be encoded for the checks is
   * accepted.
   */
  function IsImageWorthProcessing(cfg: Config, p: Pixmap): bool {
    if !cfg.smartFiltering then
      p.width >= cfg.minImageSize && p.height >= cfg.minImageSize
    else if !p.pngOk then true
    else
      && IsMeaningfulImage(Info(p), cfg.minImageSize, DefaultMaxAspectRatio).accepted
      && (cfg.ocrEnabled ==> QuickOcrTest(p.probe, DefaultConfidenceThreshold).hasText)
  }

  /**
   * The three ways the dispatch decides: by size alone, by failing open, or by
   * the quality rules and then the probe.
   */
  lemma DispatchExact(cfg: Config, p: Pixmap)
    ensures !cfg.smartFiltering ==>
      (IsImageWorthProcessing(cfg, p) <==> p.width >= cfg.minImageSize && p.height >= cfg.minImageSize)
    ensures cfg.smartFiltering && !p.pngOk ==> IsImageWorthProcessing(cfg, p)
    ensures cfg.smartFiltering && p.pngOk ==>
      (IsImageWorthProcessing(cfg, p) <==>
        && SizeOk(Info(p), cfg.minImageSize)
        && AspectOk(Info(p), DefaultMaxAspectRatio)
        && AreaOk(Info(p), cfg.minImageSize)
        && HasSufficientComplexity(p.gray)
        && HasSufficientVariance(p.gray)
        && (cfg.ocrEnabled ==> QuickOcrTest(p.probe, DefaultConfidenceThreshold).hasText))
  {
  }

  /**
   * Smart filtering only removes images: an image it keeps, and that could be
   * encoded for the checks, also passes the plain size test.
   */
  lemma SmartFilteringStricter(cfg: Config, p: Pixmap)
    requires cfg.smartFiltering && p.pngOk
    requires IsImageWorthProcessing(cfg, p)
    ensures IsImageWorthProcessing(cfg.(smartFiltering := false), p)
  {
    var v := IsMeaningfulImage(Info(p), cfg.minImageSize, DefaultMaxAspectRatio);
    assert v.accepted;
  }

  /** Enabling OCR adds the probe to the checks, so it can only remove images. */
  lemma DisablingOcrAdmitsMore(cfg: Config, p: Pixmap)
    requires IsImageWorthProcessing(cfg, p)
    ensures IsImageWorthProcessing(cfg.(ocrEnabled := false), p)
  {
  }

  /** A one-colour image is dropped by smart filtering, whatever the probe would say. */
  lemma SolidImageFiltered(cfg: Config, p: Pixmap, v: nat)
    requires cfg.smartFiltering && p.pngOk
    requires p.gray.Histogram? && OnlyLevel(p.gray.counts, v) && v < |p.gray.counts| && p.gray.counts[v] > 0
    ensures !IsImageWorthProcessing(cfg, p)
  {
    SolidImageFailsStatistics(p.gray.counts, v);
  }

  // ---------------------------------------------------------------------------
  // One image
  // ---------------------------------------------------------------------------

  /** `page_<N>_img_<M>.png`, with 1-based page and image numbers. */
  function ImageFileName(pageNo: nat, imageNo: nat): string {
    "page_" + NatToString(pageNo) + "_img_" + NatToString(imageNo) + ".png"
  }

  /** The page number is readable back from the file name, right after `page_`. */
  lemma ImageFileNamePageField(pageNo: nat, imageNo: nat)
    ensures DigitsAt(ImageFileName(pageNo, imageNo), 5) == NatToString(pageNo)
  {
    var pd, id := NatToString(pageNo), NatToString(imageNo);
    assert ImageFileName(pageNo, imageNo) == "page_" + pd + ("_img_" + id + ".png");
    DigitsAtOf("page_", pd, "_img_" + id + ".png");
  }

  /** The image number is readable back from the file name, right after `_img_`. */
  lemma ImageFileNameImageField(pageNo: nat, imageNo: nat)
    ensures DigitsAt(ImageFileName(pageNo, imageNo), 5 + |NatToString(pageNo)| + 5) == NatToString(imageNo)
  {
    var pd, id := NatToString(pageNo), NatToString(imageNo);
    assert ImageFileName(pageNo, imageNo) == ("page_" + pd + "_img_") + id + ".png";
    DigitsAtOf("page_" + pd + "_img_", id, ".png");
  }

  /** Different page or image numbers give different file names. */
  lemma ImageFileNamesDistinct(p1: nat, i1: nat, p2: nat, i2: nat)
    requires p1 != p2 || i1 != i2
    ensures ImageFileName(p1, i1) != ImageFileName(p2, i2)
  {
    ImageFileNamePageField(p1, i1);
    ImageFileNamePageField(p2, i2);
    if p1 != p2 {
      NatToStringDistinct(p1, p2);
    } else {
      ImageFileNameImageField(p1, i1);
      ImageFileNameImageField(p2, i2);
      NatToStringDistinct(i1, i2);
    }
  }

  /** The line an OCR result adds to its page's block: the stripped text, when there is any. */
  function OcrLine(index: nat, ocr: OcrOutcome): (r: Option<string>)
    ensures r.Some? <==> ocr.Recognized? && |Strip(ocr.text)| > 0
  {
    match ocr
    case Recognized(text) =>
      if |Strip(text)| > 0 then Some("Image " + NatToString(index + 1) + ": " + Strip(text)) else None
    case OcrFailed => None
  }

  /**
   * An OCR line reads back: it starts with "Image ", the digits after that are
   * the image's 1-based number on its page, and it ends with the stripped text
   * after a ": " separator.
   */
  lemma OcrLineFields(index: nat, ocr: OcrOutcome)
    requires OcrLine(index, ocr).Some?
    ensures var line := OcrLine(index, ocr).value;
      && line[..6] == "Image "
      && DigitsAt(line, 6) == NatToString(index + 1)
      && line[|line| - |Strip(ocr.text)|..] == Strip(ocr.text)
      && line == "Image " + DigitsAt(line, 6) + ": " + Strip(ocr.text)
  {
    var d, t := NatToString(index + 1), Strip(ocr.text);
    var line := OcrLine(index, ocr).value;
    assert line == "Image " + d + (": " + t);
    DigitsAtOf("Image ", d, ": " + t);
    assert line[|line| - |t|..] == t;
  }

  /**
   * What happens to one image: it is filtered out, it raises (no pixmap, no
   * PNG, or the save fails) and is skipped, or it is done, possibly saved and
   * possibly with an OCR line.
   */
  datatype ImageOutcome = Filtered | Broken | Done(saved: bool, line: Option<string>)

  /** The body of the per-image loop for image `index` (0-based) of a page. */
  function HandleImage(cfg: Config, image: Option<Pixmap>, index: nat): ImageOutcome {
    match image
    case None => Broken
    case Some(raw) =>
      var p := Prepared(raw);
      if !IsImageWorthProcessing(cfg, p) then Filtered
      else if !p.pngOk then Broken
      else if cfg.saveImages && !p.saveOk then Broken
      else Done(cfg.saveImages, if cfg.ocrEnabled then OcrLine(index, p.fullOcr) else None)
  }

  /** An image is saved exactly when it was kept, encodes, and saving is enabled and succeeds. */
  lemma HandleImageSaves(cfg: Config, image: Option<Pixmap>, index: nat)
    ensures var o := HandleImage(cfg, image, index);
      (o.Done? && o.saved) <==>
        && image.Some?
        && IsImageWorthProcessing(cfg, Prepared(image.value))
        && image.value.pngOk
        && cfg.saveImages && image.value.saveOk
  {
  }

  /** An image gives an OCR line exactly when it was handled, OCR is on and finds text. */
  lemma HandleImageReads(cfg: Config, image: Option<Pixmap>, index: nat)
    ensures var o := HandleImage(cfg, image, index);
      (o.Done? && o.line.Some?) <==>
        && image.Some?
        && IsImageWorthProcessing(cfg, Prepared(image.value))
        && image.value.pngOk
        && (cfg.saveImages ==> image.value.saveOk)
        && cfg.ocrEnabled && image.value.fullOcr.Recognized?
        && |Strip(image.value.fullOcr.text)| > 0
  {
  }

  // ---------------------------------------------------------------------------
  // One page
  // ---------------------------------------------------------------------------

  /** The image was written to disk. */
  predicate Saves(o: ImageOutcome) {
    o.Done? && o.saved
  }

  /** The image gave a line for its page's OCR block. */
  predicate Reads(o: ImageOutcome) {
    o.Done? && o.line.Some?
  }

  /** Which image was saved: page and image position, both 0-based. */
  datatype ImageKey = ImageKey(page: nat, index: nat)

  /** The images saved while handling the first `n` images of page `pageIndex`, in order. */
  function PageKeys(cfg: Config, images: seq<Option<Pixmap>>, pageIndex: nat, n: nat): seq<ImageKey>
    requires n <= |images|
  {
    if n == 0 then []
    else
      var front := PageKeys(cfg, images, pageIndex, n - 1);
      if Saves(HandleImage(cfg, images[n - 1], n - 1)) then front + [ImageKey(pageIndex, n - 1)] else front
  }

  /** The OCR lines gathered while handling the first `n` images of a page, in order. */
  function PageLines(cfg: Config, images: seq<Option<Pixmap>>, n: nat): seq<string>
    requires n <= |images|
  {
    if n == 0 then []
    else
      var front := PageLines(cfg, images, n - 1);
      var o := HandleImage(cfg, images[n - 1], n - 1);
      if Reads(o) then front + [o.line.value] else front
  }

  /** A page's block in the results file, when any of its images gave text. */
  function PageResults(pageIndex: nat, lines: seq<string>): seq<string> {
    if |lines| == 0 then [] else [PageBlock(pageIndex + 1, Join("\n", lines))]
  }

  /** The order in which images are visited. */
  predicate KeyBefore(a: ImageKey, b: ImageKey) {
    a.page < b.page || (a.page == b.page && a.index < b.index)
  }

  /** Every key comes before every later key: listed in visiting order, so without repeats. */
  ghost predicate InVisitOrder(keys: seq<ImageKey>) {
    forall k, l :: 0 <= k < l < |keys| ==> KeyBefore(keys[k], keys[l])
  }

  /**
   * The keys saved from a page name images of that page among the first `n`,
   * each of which was saved, listed in image order, at most one per image.
   */
  lemma {:induction false} PageKeysSound(cfg: Config, images: seq<Option<Pixmap>>, pageIndex: nat, n: nat)
    requires n <= |images|
    ensures var r := PageKeys(cfg, images, pageIndex, n);
      && |r| <= n
      && (forall k :: 0 <= k < |r| ==> r[k].page == pageIndex && r[k].index < n)
      && (forall k :: 0 <= k < |r| ==> Saves(HandleImage(cfg, images[r[k].index], r[k].index)))
      && InVisitOrder(r)
    decreases n
  {
    if n > 0 {
      PageKeysSound(cfg, images, pageIndex, n - 1);
    }
  }

  /** Every image among the first `n` that was saved is listed. */
  lemma {:induction false} PageKeysComplete(cfg: Config, images: seq<Option<Pixmap>>, pageIndex: nat, n: nat, j: nat)
    requires j < n <= |images|
    requires Saves(HandleImage(cfg, images[j], j))
    ensures ImageKey(pageIndex, j) in PageKeys(cfg, images, pageIndex, n)
    decreases n
  {
    if j < n - 1 {
      PageKeysComplete(cfg, images, pageIndex, n - 1, j);
    }
  }

  /** With saving disabled a page saves nothing. */
  lemma {:induction false} PageKeysWithoutSaving(cfg: Config, images: seq<Option<Pixmap>>, pageIndex: nat, n: nat)
    requires !cfg.saveImages && n <= |images|
    ensures PageKeys(cfg, images, pageIndex, n) == []
    decreases n
  {
    if n > 0 {
      PageKeysWithoutSaving(cfg, images, pageIndex, n - 1);
    }
  }

  /** A page gathers OCR lines, and so has a block in the results file, exactly when one of its images gave one. */
  lemma {:induction false} PageLinesEmptyIff(cfg: Config, images: seq<Option<Pixmap>>, pageIndex: nat, n: nat)
    requires n <= |images|
    ensures PageLines(cfg, images, n) == [] <==> forall j :: 0 <= j < n ==> !Reads(HandleImage(cfg, images[j], j))
    ensures PageResults(pageIndex, PageLines(cfg, images, n)) == [] <==> PageLines(cfg, images, n) == []
    decreases n
  {
    if n > 0 {
      PageLinesEmptyIff(cfg, images, pageIndex, n - 1);
    }
  }

  /** With OCR disabled a page gathers no OCR line. */
  lemma {:induction false} PageLinesWithoutOcr(cfg: Config, images: seq<Option<Pixmap>>, n: nat)
    requires !cfg.ocrEnabled && n <= |images|
    ensures PageLines(cfg, images, n) == []
    decreases n
  {
    if n > 0 {
      PageLinesWithoutOcr(cfg, images, n - 1);
    }
  }

  /** `idx` lists, in increasing order, exactly the positions from `from` on where `flags` holds. */
  ghost predicate Selected(flags: seq<bool>, from: nat, idx: seq<int>) {
    && (forall k :: 0 <= k < |idx| ==> from <= idx[k] < |flags| && flags[idx[k]])
    && (forall k, l :: 0 <= k < l < |idx| ==> idx[k] < idx[l])
    && (forall j :: from <= j < |flags| && flags[j] ==> j in idx)
  }

  /** The positions where `flags` holds, built front to back. */
  ghost function TrueIndices(flags: seq<bool>): seq<int> {
    if |flags| == 0 then []
    else TrueIndices(flags[..|flags| - 1]) + (if flags[|flags| - 1] then [|flags| - 1] else [])
  }

  lemma {:induction false} TrueIndicesSelected(flags: seq<bool>)
    ensures Selected(flags, 0, TrueIndices(flags))
  {
    if |flags| > 0 {
      var n := |flags|;
      var init := flags[..n - 1];
      TrueIndicesSelected(init);
      var front := TrueIndices(init);
      var idx := front + (if flags[n - 1] then [n - 1] else []);
      forall k | 0 <= k < |idx|
        ensures 0 <= idx[k] < n && flags[idx[k]]
        ensures k < |front| ==> idx[k] == front[k] < n - 1
      {
        if k < |front| {
          assert init[front[k]] == flags[front[k]];
        }
      }
      forall k, l | 0 <= k < l < |idx|
        ensures idx[k] < idx[l]
      {
        assert k < |front|;
      }
      forall j | 0 <= j < n - 1 && flags[j]
        ensures j in idx
      {
        assert init[j];
        assert j in front;
      }
    }
  }

  /** For each of the first `n` images of a page, whether it gave an OCR line. */
  ghost function ReadFlags(cfg: Config, images: seq<Option<Pixmap>>, n: nat): seq<bool>
    requires n <= |images|
  {
    seq(n, j requires 0 <= j < n => Reads(HandleImage(cfg, images[j], j)))
  }

  /** `lines` holds, in order, the line `Image <j+1>: <stripped text>` of each image `j` in `idx`. */
  ghost predicate LinesAt(images: seq<Option<Pixmap>>, idx: seq<int>, lines: seq<string>) {
    |lines| == |idx| && forall k :: 0 <= k < |idx| ==>
      && 0 <= idx[k] < |images|
      && images[idx[k]].Some?
      && OcrLine(idx[k], images[idx[k]].value.fullOcr) == Some(lines[k])
  }

  lemma {:induction false} LinesAtReadIndices(cfg: Config, images: seq<Option<Pixmap>>, n: nat)
    requires n <= |images|
    ensures LinesAt(images, TrueIndices(ReadFlags(cfg, images, n)), PageLines(cfg, images, n))
    decreases n
  {
    if n > 0 {
      LinesAtReadIndices(cfg, images, n - 1);
      var flags := ReadFlags(cfg, images, n);
      assert flags[..n - 1] == ReadFlags(cfg, images, n - 1);
      var front, lines := TrueIndices(ReadFlags(cfg, images, n - 1)), PageLines(cfg, images, n - 1);
      var o := HandleImage(cfg, images[n - 1], n - 1);
      assert flags[n - 1] == Reads(o);
      if Reads(o) {
        var raw := images[n - 1].value;
        assert Prepared(raw).fullOcr == raw.fullOcr;
        assert OcrLine(n - 1, raw.fullOcr) == Some(o.line.value);
        var idx, all := front + [n - 1], lines + [o.line.value];
        forall k | 0 <= k < |front|
          ensures idx[k] == front[k] && all[k] == lines[k]
        {
        }
      }
    }
  }

  /**
   * A page's OCR lines are the lines `Image <j+1>: <stripped text>` of exactly
   * the images `j` that gave one, each once, in image order.
   */
  lemma PageLinesInOrder(cfg: Config, images: seq<Option<Pixmap>>, n: nat)
    requires n <= |images|
    ensures exists idx :: Selected(ReadFlags(cfg, images, n), 0, idx) && LinesAt(images, idx, PageLines(cfg, images, n))
  {
    TrueIndicesSelected(ReadFlags(cfg, images, n));
    LinesAtReadIndices(cfg, images, n);
  }

  // ---------------------------------------------------------------------------
  // The whole document
  // ---------------------------------------------------------------------------

  /**
   * What a run leaves behind: how many images it started on, which it saved,
   * the page blocks gathered for the results file, and whether it was stopped.
   */
  datatype Extraction = Extraction(processed: nat, saved: seq<ImageKey>, blocks: seq<string>, stopped: bool)

  /** The stop point as seen from the next page, once the `count` images of this page are started. */
  function StopAfter(stop: Option<nat>, count: nat): Option<nat>
    requires !(stop.Some? && stop.value < count)
  {
    if stop.Some? then Some(stop.value - count) else None
  }

  /**
   * The page loop from page index `p` on.  `stop` counts the images still to
   * be started before the stop flag is seen (`None`: never).  When the flag is
   * seen inside a page, that page's block is not gathered; when it is seen
   * after the last image, only the results file is lost.
   */
  function ExtractFrom(cfg: Config, pages: seq<seq<Option<Pixmap>>>, p: nat, stop: Option<nat>): Extraction
    requires p <= |pages|
    decreases |pages| - p
  {
    if p == |pages| then Extraction(0, [], [], stop.Some?)
    else
      var images := pages[p];
      if stop.Some? && stop.value < |images| then
        Extraction(stop.value, PageKeys(cfg, images, p, stop.value), [], true)
      else
        var rest := ExtractFrom(cfg, pages, p + 1, StopAfter(stop, |images|));
        Extraction(
          |images| + rest.processed,
          PageKeys(cfg, images, p, |images|) + rest.saved,
          PageResults(p, PageLines(cfg, images, |images|)) + rest.blocks,
          rest.stopped)
  }

  /** `extract_and_ocr` over a whole document. */
  function ExtractAndOcr(cfg: Config, pages: seq<seq<Option<Pixmap>>>, stop: Option<nat>): Extraction {
    ExtractFrom(cfg, pages, 0, stop)
  }

  /** The content of `<stem>_ocr_results.txt`, or `None` when the file is not written. */
  function OcrResultsFile(e: Extraction): Option<string> {
    if e.stopped || |e.blocks| == 0 then None else Some(Join("\n", e.blocks))
  }

  /** `page_<N>_img_<M>.png` for each saved image. */
  function SavedFileNames(keys: seq<ImageKey>): (r: seq<string>)
    ensures |r| == |keys|
    ensures forall k :: 0 <= k < |r| ==> r[k] == ImageFileName(keys[k].page + 1, keys[k].index + 1)
  {
    seq(|keys|, k requires 0 <= k < |keys| => ImageFileName(keys[k].page + 1, keys[k].index + 1))
  }

  /** Number of images on the pages from index `p` on. */
  function ImagesFrom(pages: seq<seq<Option<Pixmap>>>, p: nat): nat
    requires p <= |pages|
    decreases |pages| - p
  {
    if p == |pages| then 0 else |pages[p]| + ImagesFrom(pages, p + 1)
  }

  /** The image a key names exists, was kept by the filter, encodes, and saving was enabled and succeeded. */
  ghost predicate SavedImage(cfg: Config, pages: seq<seq<Option<Pixmap>>>, key: ImageKey) {
    && key.page < |pages|
    && key.index < |pages[key.page]|
    && var image := pages[key.page][key.index];
    && image.Some?
    && IsImageWorthProcessing(cfg, Prepared(image.value))
    && image.value.pngOk
    && cfg.saveImages && image.value.saveOk
  }

  ghost predicate AllSavedImages(cfg: Config, pages: seq<seq<Option<Pixmap>>>, keys: seq<ImageKey>) {
    forall k :: 0 <= k < |keys| ==> SavedImage(cfg, pages, keys[k])
  }

  /**
   * The run started on every image up to the stop point; it was stopped
   * exactly when a stop was requested; and it saved at most one file per
   * image started.
   */
  lemma {:induction false} ExtractCounts(cfg: Config, pages: seq<seq<Option<Pixmap>>>, p: nat, stop: Option<nat>)
    requires p <= |pages|
    ensures var e := ExtractFrom(cfg, pages, p, stop);
      && e.processed == (if stop.Some? && stop.value < ImagesFrom(pages, p) then stop.value else ImagesFrom(pages, p))
      && (e.stopped <==> stop.Some?)
      && |e.saved| <= e.processed
    decreases |pages| - p
  {
    if p < |pages| {
      var images := pages[p];
      if stop.Some? && stop.value < |images| {
        PageKeysSound(cfg, images, p, stop.value);
      } else {
        PageKeysSound(cfg, images, p, |images|);
        ExtractCounts(cfg, pages, p + 1, StopAfter(stop, |images|));
      }
    }
  }

  /** Keys from page `p` in order, then keys from later pages in order, are in order. */
  lemma SavedConcatOrdered(here: seq<ImageKey>, later: seq<ImageKey>, p: nat)
    requires forall k :: 0 <= k < |here| ==> here[k].page == p
    requires InVisitOrder(here)
    requires forall k :: 0 <= k < |later| ==> later[k].page >= p + 1
    requires InVisitOrder(later)
    ensures InVisitOrder(here + later)
  {
  }

  /** Saved images are listed in visiting order, so each at most once. */
  lemma {:induction false} ExtractSavedOrdered(cfg: Config, pages: seq<seq<Option<Pixmap>>>, p: nat, stop: Option<nat>)
    requires p <= |pages|
    ensures var s := ExtractFrom(cfg, pages, p, stop).saved;
      && (forall k :: 0 <= k < |s| ==> s[k].page >= p)
      && InVisitOrder(s)
    decreases |pages| - p
  {
    if p < |pages| {
      var images := pages[p];
      if stop.Some? && stop.value < |images| {
        PageKeysSound(cfg, images, p, stop.value);
      } else {
        var later := ExtractFrom(cfg, pages, p + 1, StopAfter(stop, |images|)).saved;
        PageKeysSound(cfg, images, p, |images|);
        ExtractSavedOrdered(cfg, pages, p + 1, StopAfter(stop, |images|));
        SavedConcatOrdered(PageKeys(cfg, images, p, |images|), later, p);
      }
    }
  }

  /** The keys of one page name images that were kept, encoded and saved. */
  lemma PageKeysKept(cfg: Config, pages: seq<seq<Option<Pixmap>>>, p: nat, n: nat)
    requires p < |pages| && n <= |pages[p]|
    ensures AllSavedImages(cfg, pages, PageKeys(cfg, pages[p], p, n))
  {
    var here := PageKeys(cfg, pages[p], p, n);
    PageKeysSound(cfg, pages[p], p, n);
    forall k | 0 <= k < |here|
      ensures SavedImage(cfg, pages, here[k])
    {
      HandleImageSaves(cfg, pages[p][here[k].index], here[k].index);
    }
  }

  /** Every saved image was kept by the filter, encoded, and saving was enabled and succeeded. */
  lemma {:induction false} ExtractSavedKept(cfg: Config, pages: seq<seq<Option<Pixmap>>>, p: nat, stop: Option<nat>)
    requires p <= |pages|
    ensures AllSavedImages(cfg, pages, ExtractFrom(cfg, pages, p, stop).saved)
    decreases |pages| - p
  {
    if p < |pages| {
      var images := pages[p];
      if stop.Some? && stop.value < |images| {
        PageKeysKept(cfg, pages, p, stop.value);
      } else {
        PageKeysKept(cfg, pages, p, |images|);
        ExtractSavedKept(cfg, pages, p + 1, StopAfter(stop, |images|));
      }
    }
  }

  /**
   * In a run that is not stopped, every image that was kept, encoded and
   * saved successfully appears among the saved images.
   */
  lemma {:induction false} EveryKeptImageSaved(cfg: Config, pages: seq<seq<Option<Pixmap>>>, p: nat, key: ImageKey)
    requires p <= key.page
    requires SavedImage(cfg, pages, key)
    ensures key in ExtractFrom(cfg, pages, p, None).saved
    decreases |pages| - p
  {
    var images := pages[p];
    if key.page == p {
      HandleImageSaves(cfg, images[key.index], key.index);
      PageKeysComplete(cfg, images, p, |images|, key.index);
    } else {
      EveryKeptImageSaved(cfg, pages, p + 1, key);
    }
  }

  /** The positions from `from` on where `flags` holds, built back to front. */
  ghost function TrueFrom(flags: seq<bool>, from: nat): seq<int>
    decreases |flags| - from
  {
    if from >= |flags| then []
    else (if flags[from] then [from] else []) + TrueFrom(flags, from + 1)
  }

  lemma {:induction false} TrueFromSelected(flags: seq<bool>, from: nat)
    ensures Selected(flags, from, TrueFrom(flags, from))
    decreases |flags| - from
  {
    if from < |flags| {
      TrueFromSelected(flags, from + 1);
      var head := if flags[from] then [from] else [];
      var rest := TrueFrom(flags, from + 1);
      var idx := head + rest;
      forall k | 0 <= k < |idx|
        ensures from <= idx[k] < |flags| && flags[idx[k]]
        ensures k >= |head| ==> idx[k] == rest[k - |head|] > from
      {
      }
      forall k, l | 0 <= k < l < |idx|
        ensures idx[k] < idx[l]
      {
        assert l >= |head|;
      }
      forall j | from < j < |flags| && flags[j]
        ensures j in idx
      {
        assert j in rest;
      }
    }
  }

  /** The OCR lines each page gathers when all its images are handled. */
  ghost function AllPageLines(cfg: Config, pages: seq<seq<Option<Pixmap>>>): seq<seq<string>> {
    seq(|pages|, q requires 0 <= q < |pages| => PageLines(cfg, pages[q], |pages[q]|))
  }

  /** Which entries are non-empty; of the page lines, the pages that gathered a line and so have a block. */
  ghost function NonEmpty(parts: seq<seq<string>>): seq<bool> {
    seq(|parts|, q requires 0 <= q < |parts| => parts[q] != [])
  }

  /** Each page's contribution to the results file: its block, or nothing. */
  ghost function ResultsOf(pageLines: seq<seq<string>>): seq<seq<string>> {
    seq(|pageLines|, q requires 0 <= q < |pageLines| => PageResults(q, pageLines[q]))
  }

  /** `blocks` holds, in order, the block `--- Page <q+1> ---` with the joined lines of each page `q` in `pidx`. */
  ghost predicate BlocksAt(pageLines: seq<seq<string>>, pidx: seq<int>, blocks: seq<string>) {
    |blocks| == |pidx| && forall k :: 0 <= k < |pidx| ==>
      && 0 <= pidx[k] < |pageLines|
      && blocks[k] == PageBlock(pidx[k] + 1, Join("\n", pageLines[pidx[k]]))
  }

  /** The parts from index `from` on, concatenated. */
  function ConcatFrom(parts: seq<seq<string>>, from: nat): seq<string>
    decreases |parts| - from
  {
    if from >= |parts| then [] else parts[from] + ConcatFrom(parts, from + 1)
  }

  /** Concatenating parts of at most one item each keeps the item of each non-empty part, in order. */
  lemma {:induction false} ConcatOfAtMostOne(parts: seq<seq<string>>, from: nat)
    requires forall q :: 0 <= q < |parts| ==> |parts[q]| <= 1
    ensures var idx, c := TrueFrom(NonEmpty(parts), from), ConcatFrom(parts, from);
      |c| == |idx| && forall k :: 0 <= k < |idx| ==> 0 <= idx[k] < |parts| && |parts[idx[k]]| == 1 && c[k] == parts[idx[k]][0]
    decreases |parts| - from
  {
    if from < |parts| {
      ConcatOfAtMostOne(parts, from + 1);
      var flags := NonEmpty(parts);
      var head := if flags[from] then [from] else [];
      var rest, later := TrueFrom(flags, from + 1), ConcatFrom(parts, from + 1);
      assert TrueFrom(flags, from) == head + rest;
      assert |parts[from]| == |head|;
      forall k | 0 <= k < |head| + |rest|
        ensures k < |head| ==> (head + rest)[k] == from && (parts[from] + later)[k] == parts[from][0]
        ensures k >= |head| ==> (head + rest)[k] == rest[k - |head|] && (parts[from] + later)[k] == later[k - |head|]
      {
      }
    }
  }

  /**
   * Whatever each page gathered, the blocks are those of exactly the pages
   * with a line, each once, in page order, each headed by its 1-based page
   * number and holding that page's lines joined by newlines.
   */
  lemma BlocksOfPageLines(pageLines: seq<seq<string>>)
    ensures exists pidx :: Selected(NonEmpty(pageLines), 0, pidx) && BlocksAt(pageLines, pidx, ConcatFrom(ResultsOf(pageLines), 0))
  {
    var parts, flags := ResultsOf(pageLines), NonEmpty(pageLines);
    assert NonEmpty(parts) == flags;
    ConcatOfAtMostOne(parts, 0);
    TrueFromSelected(flags, 0);
    var pidx, c := TrueFrom(flags, 0), ConcatFrom(parts, 0);
    forall k | 0 <= k < |pidx|
      ensures c[k] == PageBlock(pidx[k] + 1, Join("\n", pageLines[pidx[k]]))
    {
    }
    assert BlocksAt(pageLines, pidx, c);
  }

  /** There is some block from page `from` on exactly when some page from there on gathered a line. */
  lemma {:induction false} SomeBlockIff(pageLines: seq<seq<string>>, from: nat)
    ensures ConcatFrom(ResultsOf(pageLines), from) != [] <==> exists q :: from <= q < |pageLines| && pageLines[q] != []
    decreases |pageLines| - from
  {
    if from < |pageLines| {
      SomeBlockIff(pageLines, from + 1);
      assert ResultsOf(pageLines)[from] == PageResults(from, pageLines[from]);
      if exists q :: from <= q < |pageLines| && pageLines[q] != [] {
        var q :| from <= q < |pageLines| && pageLines[q] != [];
        if q > from {
          assert ConcatFrom(ResultsOf(pageLines), from + 1) != [];
        }
      }
    }
  }

  lemma {:induction false} UnstoppedBlocks(cfg: Config, pages: seq<seq<Option<Pixmap>>>, p: nat)
    requires p <= |pages|
    ensures ExtractFrom(cfg, pages, p, None).blocks == ConcatFrom(ResultsOf(AllPageLines(cfg, pages)), p)
    decreases |pages| - p
  {
    if p < |pages| {
      assert StopAfter(None, |pages[p]|) == None;
      UnstoppedBlocks(cfg, pages, p + 1);
    }
  }

  /**
   * In a run that is not stopped, the blocks are those of exactly the pages
   * that gathered an OCR line, in page order, each holding that page's lines;
   * the results file is written exactly when some page gathered a line, and
   * holds the blocks joined by newlines.
   */
  lemma ResultsFileInPageOrder(cfg: Config, pages: seq<seq<Option<Pixmap>>>)
    ensures var e, pageLines := ExtractAndOcr(cfg, pages, None), AllPageLines(cfg, pages);
      exists pidx :: Selected(NonEmpty(pageLines), 0, pidx) && BlocksAt(pageLines, pidx, e.blocks)
    ensures var e, pageLines := ExtractAndOcr(cfg, pages, None), AllPageLines(cfg, pages);
      && (OcrResultsFile(e).Some? <==> exists q :: 0 <= q < |pages| && pageLines[q] != [])
      && (OcrResultsFile(e).Some? ==> OcrResultsFile(e).value == Join("\n", e.blocks))
  {
    UnstoppedBlocks(cfg, pages, 0);
    BlocksOfPageLines(AllPageLines(cfg, pages));
    SomeBlockIff(AllPageLines(cfg, pages), 0);
    ExtractCounts(cfg, pages, 0, None);
  }

  /** Keys listed in visiting order name distinct files. */
  lemma OrderedKeysNameDistinctFiles(keys: seq<ImageKey>)
    requires InVisitOrder(keys)
    ensures var names := SavedFileNames(keys);
      forall k, l :: 0 <= k < l < |names| ==> names[k] != names[l]
  {
    var names := SavedFileNames(keys);
    forall k, l | 0 <= k < l < |names|
      ensures names[k] != names[l]
    {
      assert KeyBefore(keys[k], keys[l]);
      ImageFileNamesDistinct(keys[k].page + 1, keys[k].index + 1, keys[l].page + 1, keys[l].index + 1);
    }
  }

  /** No two saved images share a file name, so none overwrites another. */
  lemma SavedFileNamesDistinct(cfg: Config, pages: seq<seq<Option<Pixmap>>>, stop: Option<nat>)
    ensures var names := SavedFileNames(ExtractAndOcr(cfg, pages, stop).saved);
      forall k, l :: 0 <= k < l < |names| ==> names[k] != names[l]
  {
    ExtractSavedOrdered(cfg, pages, 0, stop);
    OrderedKeysNameDistinctFiles(ExtractFrom(cfg, pages, 0, stop).saved);
  }

  /** With saving disabled no image file is written. */
  lemma {:induction false} NoSavingNoFiles(cfg: Config, pages: seq<seq<Option<Pixmap>>>, p: nat, stop: Option<nat>)
    requires !cfg.saveImages && p <= |pages|
    ensures ExtractFrom(cfg, pages, p, stop).saved == []
    decreases |pages| - p
  {
    if p < |pages| {
      var images := pages[p];
      if stop.Some? && stop.value < |images| {
        PageKeysWithoutSaving(cfg, images, p, stop.value);
      } else {
        PageKeysWithoutSaving(cfg, images, p, |images|);
        NoSavingNoFiles(cfg, pages, p + 1, StopAfter(stop, |images|));
      }
    }
  }

  /** With OCR disabled no page has text, so the results file is never written. */
  lemma {:induction false} NoOcrNoResults(cfg: Config, pages: seq<seq<Option<Pixmap>>>, p: nat, stop: Option<nat>)
    requires !cfg.ocrEnabled && p <= |pages|
    ensures ExtractFrom(cfg, pages, p, stop).blocks == []
    ensures OcrResultsFile(ExtractFrom(cfg, pages, p, stop)) == None
    decreases |pages| - p
  {
    if p < |pages| {
      var images := pages[p];
      if !(stop.Some? && stop.value < |images|) {
        PageLinesWithoutOcr(cfg, images, |images|);
        NoOcrNoResults(cfg, pages, p + 1, StopAfter(stop, |images|));
      }
    }
  }

  /** A stop request, wherever it falls, means no results file. */
  lemma StopMeansNoResults(cfg: Config, pages: seq<seq<Option<Pixmap>>>, stop: Option<nat>)
    requires stop.Some?
    ensures OcrResultsFile(ExtractAndOcr(cfg, pages, stop)) == None
  {
    ExtractCounts(cfg, pages, 0, stop);
  }

  /** With the default options a 50x50 image fails the size rule and is filtered out. */
  lemma SmallImageFilteredOut(small: Pixmap, index: nat)
    requires small.width == 50 && small.height == 50 && small.pngOk
    ensures HandleImage(Config(true, true, true, 150), Some(small), index) == Filtered
  {
    DispatchExact(Config(true, true, true, 150), Prepared(small));
  }

  /**
   * With the default options a 400x300 image whose content passes the
   * statistical rules and whose probe finds text is saved and read.
   */
  lemma TextImageKept(photo: Pixmap, index: nat)
    requires photo.width == 400 && photo.height == 300 && photo.pngOk && photo.saveOk
    requires HasSufficientComplexity(photo.gray) && HasSufficientVariance(photo.gray)
    requires QuickOcrTest(photo.probe, DefaultConfidenceThreshold).hasText
    ensures HandleImage(Config(true, true, true, 150), Some(photo), index) == Done(true, OcrLine(index, photo.fullOcr))
  {
    var p := Prepared(photo);
    assert Info(p) == ImageInfo(400, 300, photo.gray);
    DispatchExact(Config(true, true, true, 150), p);
  }

  /** A one-page document run to the end: that page's saved images and block, nothing else. */
  lemma SinglePageRun(cfg: Config, images: seq<Option<Pixmap>>)
    ensures ExtractFrom(cfg, [images], 0, None) ==
      Extraction(|images|, PageKeys(cfg, images, 0, |images|), PageResults(0, PageLines(cfg, images, |images|)), false)
  {
    assert ExtractFrom(cfg, [images], 1, None) == Extraction(0, [], [], false);
  }

  /** The second image of a page labels its OCR line `Image 2: `. */
  lemma SecondImageLine(ocr: OcrOutcome)
    requires ocr.Recognized? && |Strip(ocr.text)| > 0
    ensures OcrLine(1, ocr) == Some("Image 2: " + Strip(ocr.text))
  {
    assert NatToString(2) == "2";
    assert "Image " + "2" + ": " + Strip(ocr.text) == "Image 2: " + Strip(ocr.text);
  }

  /** The page of the scenario below: only its second image is saved, and only it gives a line. */
  lemma SmallThenTextImagePage(small: Pixmap, photo: Pixmap)
    requires small.width == 50 && small.height == 50 && small.pngOk
    requires photo.width == 400 && photo.height == 300 && photo.pngOk && photo.saveOk
    requires HasSufficientComplexity(photo.gray) && HasSufficientVariance(photo.gray)
    requires QuickOcrTest(photo.probe, DefaultConfidenceThreshold).hasText
    requires photo.fullOcr.Recognized? && |Strip(photo.fullOcr.text)| > 0
    ensures PageKeys(Config(true, true, true, 150), [Some(small), Some(photo)], 0, 2) == [ImageKey(0, 1)]
    ensures PageLines(Config(true, true, true, 150), [Some(small), Some(photo)], 2) == ["Image 2: " + Strip(photo.fullOcr.text)]
  {
    var cfg := Config(true, true, true, 150);
    var images := [Some(small), Some(photo)];
    SmallImageFilteredOut(small, 0);
    TextImageKept(photo, 1);
    SecondImageLine(photo.fullOcr);
    assert PageKeys(cfg, images, 0, 1) == [];
    assert PageLines(cfg, images, 1) == [];
  }

  /**
   * A page holding a 50x50 image and then a 400x300 image with text, run with
   * the program's default options (OCR, saving and smart filtering on, minimum
   * size 150): the small image is filtered out, the large one is saved as
   * `page_1_img_2.png`, and its text is the only block of the results file.
   */
  lemma SmallImageDroppedTextImageKept(small: Pixmap, photo: Pixmap)
    requires small.width == 50 && small.height == 50 && small.pngOk
    requires photo.width == 400 && photo.height == 300 && photo.pngOk && photo.saveOk
    requires HasSufficientComplexity(photo.gray) && HasSufficientVariance(photo.gray)
    requires QuickOcrTest(photo.probe, DefaultConfidenceThreshold).hasText
    requires photo.fullOcr.Recognized? && |Strip(photo.fullOcr.text)| > 0
    ensures var e := ExtractAndOcr(Config(true, true, true, 150), [[Some(small), Some(photo)]], None);
      && e.saved == [ImageKey(0, 1)]
      && OcrResultsFile(e) == Some(PageBlock(1, "Image 2: " + Strip(photo.fullOcr.text)))
  {
    var cfg := Config(true, true, true, 150);
    var images := [Some(small), Some(photo)];
    SmallThenTextImagePage(small, photo);
    SinglePageRun(cfg, images);
  }
}
