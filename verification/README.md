# PDF slicer: a verified model of the processing core

PDF-slicer is a desktop utility that runs one batch operation on one PDF file:
- cut out a page range;
- split the file into parts by size;
- extract text, either plainly or with OCR (optical character recognition) as a fallback;
- extract embedded images and read them with OCR.

This project models the processing core behind those operations in Dafny and proves properties of it.

| module | file | what it models |
|---|---|---|
| `Wrappers` | wrappers.dfy | `Option`, for values Python represents as `None` or a string |
| `Strings` | strings.dfy | Python's `str.strip()` (the full `isspace` set), `sep.join(parts)`, `str(n)` |
| `QualityFilter` | quality_filter.dfy | `ImageQualityFilter.is_meaningful_image` and its complexity and variance helpers |
| `OcrProbe` | ocr_probe.dfy | `ImageQualityFilter.quick_ocr_test` |
| `TextAssembly` | text_assembly.dfy | `simple_convert_to_text` and `convert_to_text` (the OCR fallback) |
| `Slicing` | slicing.dfy | `slice_by_pages` and `slice_by_size` |
| `ImageExtraction` | image_extraction.dfy | `is_image_worth_processing` and `extract_and_ocr` |

**What is an input rather than a computation.** The PDF, imaging and OCR libraries are not modelled. Whatever they would produce becomes a value:
- what a page's text extraction gives;
- the byte size of a serialized part, as a function `size` from a page sequence to a byte count;
- a pixmap's size, channels, and gray-level histogram;
- whether the PNG round trip and the file save succeed;
- the OCR token list or text.

**The filter and variance rules.** The image filter is an ordered chain of rules, and the first rule that fails gives the reason. The variance rule is stated without division or square roots: `N*Q - S*S >= 225*N*N` over the histogram's pixel count N, sum S and sum of squares Q. A lemma proves this equals the library's floating-point formula read over the reals.

**The stop flag.** The user's stop request is modelled as the point where the loop first sees the flag:
- for size slicing, the index of a page;
- for image extraction, the number of images already started.

The greedy size split is specified independently of the loop, by `IsGreedyPartition`. The loop is proved to produce exactly that split, or, if stopped, a prefix of it.

## Model

| member | source | states |
|---|---|---|
| QualityFilter.IsMeaningfulImage | main.py:48-81 | accepted exactly when the size, aspect, area, complexity and variance rules all pass; "too small" is given exactly when the size rule fails; every other rejection reason implies that all earlier rules passed and its own rule failed; the area reason carries w*h |
| QualityFilter.AspectRuleExact | main.py:52-58 | with min size >= 1, an image passing the size rule never takes the error path, and it is rejected for aspect exactly when long side > max_aspect * short side |
| QualityFilter.CheckErrorExact | main.py:56-81 | the caught ZeroDivisionError (rejection) happens exactly when min size <= 0 and a side is 0 |
| QualityFilter.AreaRuleUnreachable | main.py:51-63 | for min size >= 0 the area rule never rejects: the two side checks already imply it |
| QualityFilter.AreaRuleReachableWhenMinNegative | main.py:60-63 | with min size -2, a 1x1 image is rejected for insufficient area (1 pixel) |
| QualityFilter.DistinctLevelsIsLevelCount | main.py:95-100 | the number of colours `getcolors` reports equals the number of gray levels that occur |
| QualityFilter.ComplexityExact | main.py:84-103 | on a 256-level histogram with pixels, the complexity check passes exactly when at least 10 distinct levels occur |
| QualityFilter.VarianceTestExact | main.py:106-123 | the division-free test holds exactly when the population variance (Q - S*S/N)/N is at least 15*15, that is, when the standard deviation is at least 15 |
| QualityFilter.SolidImageFailsStatistics | main.py:84-123 | a one-colour image fails both the complexity check and the variance check |
| QualityFilter.SolidImageRejected | main.py:48-77 | with min size >= 0, a one-colour image that passes the size and aspect rules is rejected for low complexity |
| QualityFilter.AnalysisFailureFailsOpen | main.py:100-123 | when analysis raises, the helpers pass, so the verdict is decided by the three shape rules alone |
| OcrProbe.PositiveConfidences | main.py:137-140 | the confidences kept are all positive; the list is empty exactly when no token has a positive confidence |
| OcrProbe.PositiveConfidencesInOrder | main.py:137 | the kept confidences are those of the tokens at an increasing list of positions that holds every token with a positive confidence and no other: each such confidence once, in token order |
| OcrProbe.ConfidentTexts | main.py:143-144 | empty exactly when no token's confidence exceeds the threshold |
| OcrProbe.ConfidentTextsInOrder | main.py:143-144 | the kept texts are those of the tokens at an increasing list of positions that holds every token whose confidence exceeds the threshold and no other: each such text once, in token order |
| OcrProbe.QuickOcrTest | main.py:126-160 | text is found only with a "detected" reason; no positive confidence means no text; the fallback pass decides by stripped length > 3; a failed fallback means no text |
| OcrProbe.ProbeAcceptExact | main.py:138-151 | on token data, text is found exactly when the real-valued mean of the positive confidences reaches the threshold and the joined confident text, stripped, is longer than 3 |
| OcrProbe.ProbeTextHasConfidentToken | main.py:145-149 | text found from token data implies some token's confidence exceeds the threshold |
| ImageExtraction.ToRgb | main.py:759 | the converted pixmap is not CMYK and differs from the original only in its channel count: size, alpha, histogram and library outcomes are kept |
| ImageExtraction.Prepared | main.py:757-759 | the filtered pixmap is never CMYK; a pixmap that is not CMYK is left unchanged, and a CMYK one changes only its channel count |
| ImageExtraction.DispatchExact | main.py:492-529 | without smart filtering, the size test alone decides; if the PNG encoding fails, the image is accepted; otherwise the five quality rules run, and then the probe if OCR is on |
| ImageExtraction.SmartFilteringStricter | main.py:494-517 | any encodable image that smart filtering keeps also passes the plain size test |
| ImageExtraction.DisablingOcrAdmitsMore | main.py:514-519 | every image kept with OCR on is also kept with OCR off |
| ImageExtraction.SolidImageFiltered | main.py:502-512 | with smart filtering, an encodable one-colour image is filtered out, whatever the probe would say |
| ImageExtraction.ImageFileNamePageField | main.py:772 | the page number is read back as the digits after `page_` |
| ImageExtraction.ImageFileNameImageField | main.py:772 | the image number is read back as the digits after `_img_` |
| ImageExtraction.ImageFileNamesDistinct | main.py:772 | different (page, image) pairs give different file names |
| ImageExtraction.OcrLine | main.py:787-788 | an OCR result adds a line exactly when OCR succeeded and the stripped text is non-empty |
| ImageExtraction.OcrLineFields | main.py:788 | the line starts with "Image ", the digits after it read back as the image's 1-based number, and it ends with ": " and the stripped OCR text |
| ImageExtraction.HandleImageSaves | main.py:747-775 | an image is saved exactly when it exists, is kept by the filter, encodes, and saving is on and succeeds |
| ImageExtraction.HandleImageReads | main.py:779-794 | an image gives an OCR line exactly when it is kept, encodes, any enabled save succeeds, OCR is on, and OCR finds non-blank text |
| ImageExtraction.PageKeysSound | main.py:741-775 | the images saved from a page belong to that page, lie within the images started, were each saved, are in image order, and number at most the images started |
| ImageExtraction.PageKeysComplete | main.py:741-775 | every started image of the page that saves is listed |
| ImageExtraction.PageKeysWithoutSaving | main.py:771-775 | with saving off, a page saves nothing |
| ImageExtraction.PageLinesEmptyIff | main.py:787-804 | a page gathers no OCR line, and so adds no block, exactly when none of its images gave one |
| ImageExtraction.PageLinesWithoutOcr | main.py:779-788 | with OCR off, a page gathers no line |
| ImageExtraction.PageLinesInOrder | main.py:747-797 | a page's lines are `Image <j+1>: <stripped text>` for exactly the images j that gave one, each once, in image order |
| ImageExtraction.BlocksOfPageLines | main.py:802-803 | the blocks are `--- Page <q+1> ---` with the newline-joined lines, for exactly the pages q that gathered a line, each once, in page order |
| ImageExtraction.SomeBlockIff | main.py:802-803 | some block is gathered exactly when some page gathered a line |
| ImageExtraction.ResultsFileInPageOrder | main.py:727-812 | in a run that is not stopped, the blocks are those of exactly the pages with OCR lines, in page order, each holding that page's lines; the results file is written exactly when some page gathered a line, and it holds the blocks joined by newlines |
| ImageExtraction.ExtractCounts | main.py:727-745 | images started = min(stop point, total images); the run is stopped exactly when a stop was requested; saved files <= images started |
| ImageExtraction.ExtractSavedOrdered | main.py:727-775 | saved images are listed in visiting order (page, then image), so none repeats |
| ImageExtraction.ExtractSavedKept | main.py:747-775 | every saved image exists, was kept by the filter, encodes, and saving was on and succeeded |
| ImageExtraction.EveryKeptImageSaved | main.py:727-775 | in a run that is not stopped, every image that is kept, encodes and saves successfully is among the saved |
| ImageExtraction.SavedFileNamesDistinct | main.py:772-774 | no two saved images get the same file name, so no file overwrites another |
| ImageExtraction.NoSavingNoFiles | main.py:771-775 | with saving off, no image file is written |
| ImageExtraction.NoOcrNoResults | main.py:779-812 | with OCR off, no page block is gathered and no results file is written |
| ImageExtraction.StopMeansNoResults | main.py:727-812 | a stop request, wherever it falls, means no results file |
| ImageExtraction.SinglePageRun | main.py:727-812 | a one-page run to the end starts all its images and yields exactly that page's saved images and block |
| ImageExtraction.SmallImageFilteredOut | main.py:494-517 | with the default options (minimum size 150), a 50x50 image that encodes as PNG is filtered out |
| ImageExtraction.TextImageKept | main.py:747-788 | with the default options, a 400x300 image that encodes as PNG, saves successfully, and passes the statistics and the probe is saved and read by OCR |
| ImageExtraction.SmallThenTextImagePage | main.py:741-804 | a page with a 50x50 image and then a text-bearing 400x300 image saves only the second and gathers only its line |
| ImageExtraction.SmallImageDroppedTextImageKept | main.py:708-812 | on that one-page document only `page_1_img_2.png` is saved, and the results file is that page's block holding `Image 2: <text>` |
| TextAssembly.SimpleTextOpening | main.py:537-555 | a document with no pages gives an empty file; otherwise the file starts with page 1's block |
| TextAssembly.SimpleTextAppendPage | main.py:541-555 | adding a page appends a newline and that page's block, numbered one more |
| TextAssembly.MissingTextIsEmptyText | main.py:545 | a page without text and a page with empty text give the same file |
| TextAssembly.PageText | main.py:670-689 | stripped, the recorded text is never shorter than the native text; the native text is replaced exactly when OCR is on, the stripped native text is shorter than 50, OCR succeeds, and the stripped OCR text is strictly longer; the replacement is the OCR text |
| TextAssembly.LongNativeTextKept | main.py:673 | a page with at least 50 stripped native characters keeps its text |
| TextAssembly.ConvertWithoutOcrIsSimple | main.py:660-699 | with OCR off, the OCR-fallback file equals the simple-extraction file for the same native texts |
| TextAssembly.ConvertAppendPage | main.py:660-699 | adding a page appends a newline and that page's block |
| Slicing.SliceByPages | main.py:567-580 | first page = max(1, start) and last page = min(count, end), for every start and end; the output holds last - first + 1 pages, or none when that is not positive; output page k is input page first + k |
| Slicing.SliceValidRange | main.py:567-574 | for 1 <= a <= b <= count, the output is exactly pages a..b |
| Slicing.SliceWholeDocument | main.py:567-574 | slicing 1..count gives back the whole document |
| Slicing.SliceAdjacentRanges | main.py:567-574 | slicing a..b and then b+1..c gives, together, the slice a..c |
| Slicing.PagesFileNameDeterminesRange | main.py:579-580 | equal `_pages_<first>-<last>.pdf` names imply equal ranges |
| Slicing.CutFrom | main.py:616-626 | a part closes at the first page count whose size reaches the limit, or at the last page |
| Slicing.PartsAreGreedy | main.py:608-641 | the greedy parts cover the document in order; none is empty; each reaches the limit only at its last page; every part but the last reaches it |
| Slicing.GreedyPartitionUnique | main.py:608-641 | any split meeting that description is the greedy split |
| Slicing.SizeRunIsGreedy | main.py:608-641 | the page loop, from any reachable state, writes a prefix of the greedy split: all of it when no stop comes, otherwise the parts closed before the stop page |
| Slicing.SizeRunFromStart | main.py:608-641 | from the start of the document, the loop's outcome is completed exactly when no stop falls inside the document; completed gives the greedy split |
| Slicing.PageLoop | main.py:608-641 | the loop with its running part produces the reference run's parts and its completion flag, numbered from 1 |
| Slicing.SliceBySize | main.py:590-646 | parts are numbered 1, 2, … with their measured size; a completed run writes the greedy split; a stopped run writes the greedy parts that close before the stop page, and no others |
| Slicing.PartFileNamesDistinct | main.py:628-631 | different part numbers give different `_part_<n>.pdf` names |
| Strings.StripMeetsDefinition | main.py:787-788 | `Strip` removes exactly the leading and trailing `isspace` characters |
| Strings.StripEmptyIff | main.py:787 | the stripped text is empty exactly when the text is all whitespace |
| Strings.StripUnique | main.py:787-788 | the stripped form of a string is unique |
| Strings.StripIdempotent | main.py:787-788 | stripping twice equals stripping once |
| Strings.JoinSnoc | main.py:555 | joining one more part appends the separator and that part |
| Strings.NatToStringInjective | main.py:772 | `str(n)` is injective on natural numbers |

## Left out

- The Tk user interface, the log and status callbacks, threading and the message texts are not modelled. Only the accept/reject decisions and the reason kinds are.
- File input and output are not modelled: opening the PDF, writing files, creating directories. The model returns what each operation would write.
- An error raised by the PDF library (opening, reading a page, listing its images) is not modelled. Such an error makes the operation log it and write nothing further; parts of `slice_by_size` and images of `extract_and_ocr` already written stay on disk.
- The thumbnailing before analysis (to 500x500, or 800x800 for the probe) is not modelled. The histogram and the OCR data are those of the copy actually analysed.
- `enhance_image_for_ocr` and all OCR engine behaviour are not modelled. Their results are inputs.
- The CMYK-to-RGB conversion raising is not modelled. Only the channel count is changed.
- Float rounding is not modelled. The aspect ratio, the mean confidence and the standard deviation are compared exactly: over integers, or over the reals in the lemmas that connect the two.
- Slicing.SliceBySize: the float megabyte limit `max_size_mb * 1024 * 1024` is taken as an integer byte threshold `maxBytes`. Against integer sizes, `size >= x` for a real x is the same test as `size >= ceil(x)`.
- Slicing.SliceBySize: the stop flag is assumed to be seen at the same page by both of its polls (before the page, and before writing the part). Either way the part that page would close is not written, and no later part is written.
- Stopping `slice_by_pages`, `simple_convert_to_text` or `convert_to_text` is not modelled. All three write nothing when stopped.
- Slicing.SliceByPages: an empty range (start >= end) yields an empty document named with the clamped numbers, for example `_pages_5-3.pdf`. That is what the code does. The alternative of rejecting such a range as invalid configuration is not what the code does, so it is not modelled.
- OcrProbe.QuickOcrTest: an `int(conf)` that raises moves the probe to the fallback pass. This is modelled only by letting the input be the fallback's outcome (`DataFailed`).
