# pdf-create-express: grayscale conversion and image extraction, modelled in Dafny

This project models the logic that sits between the library calls in the two scripts of
pdf-create-express:

- `scripts/convert_with_ghostscript.py` turns a PDF into an 8-bit grayscale PDF.
  - It locates a Ghostscript executable.
  - It rasterises every page to a `page_%04d.png` file.
  - It lists and sorts the PNG files.
  - It builds one A4 page with a 15% gray backdrop per PNG.
  - It replaces every near-white pixel (240..255) with gray 217.
  - It resizes page *i* to image *i* at the requested resolution and inserts the image.
  - It saves the processed images as `page_{i:04d}.png`.
  - Every fatal condition returns 1.
- `scripts/extract_pdf_images.py` walks every page of a PDF and extracts each embedded
  image.
  - It skips images smaller than 50 pixels on either side.
  - A document-wide counter numbers the kept images.
  - It normalises each kept image to RGB and re-encodes it as JPEG. When that fails it
    falls back to the original bytes.
  - It reports the images as records carrying base64 data, wrapped with `count`.

Ghostscript, PyMuPDF, PIL and the file system are oracle parameters
(`GrayscaleConversion.Environment`, `ImageExtraction.PdfDocument`,
`ImageExtraction.ImageLibrary`). `None` or an error constructor stands for an exception.
The state the scripts update in place is modelled imperatively:

- the pixel array is an `array` rewritten by a loop;
- the output document is a class whose `pages` field the page methods update;
- the Ghostscript search is a loop with an early return;
- the extraction is two nested loops that append to a list and bump a counter.

Each method is proved against a specification function, and the properties the scripts
rely on are lemmas about those functions.

Modules:

- `Wrappers`: `Option`, `Result`.
- `DecimalText`: `str(n)` and `%04d`.
- `NameOrder`: Python string order, a length-first order, and `sorted()`.
- `PageFiles`: page file names and the sorted listing.
- `Pixels`: the substitution.
- `PdfPages`: the output document.
- `Ghostscript`: `check_ghostscript`.
- `GrayscaleConversion`: the conversion and its command.
- `Base64`: RFC 4648 section 4 encoding and decoding.
- `ImageExtraction`: the extraction and its command.

The PNG files are sorted by an `order` parameter. The script as written sorts with
`NameOrder.Lexical` (`GrayscaleConversion.ScriptOrder`), which stops giving page order at
10000 pages (see "## Findings"). `NameOrder.LengthThenLexical` is the corrected order.

## Model

| member | source | states |
|---|---|---|
| Pixels.Substituted | scripts/convert_with_ghostscript.py:270-274 | Same length. Every pixel >= 240 becomes 217. Every pixel < 240 is unchanged. |
| Pixels.SubstitutedHasNoWhite | scripts/convert_with_ghostscript.py:272-274 | After substitution no pixel is >= 240. |
| Pixels.SubstitutedIdempotent | scripts/convert_with_ghostscript.py:264-277 | Substituting twice changes nothing more than substituting once. |
| Pixels.WithGrayBackgroundFacts | scripts/convert_with_ghostscript.py:264-277 | The processed image keeps width and height, has no near-white pixel, and is a fixed point of the processing. |
| Pixels.ReplaceWhiteBackground | scripts/convert_with_ghostscript.py:273-274 | The in-place masked assignment on the pixel array leaves exactly `Substituted` of the old contents. |
| PdfPages.Document.constructor | scripts/convert_with_ghostscript.py:220 | `fitz.open()` gives a document with no pages. |
| PdfPages.Document.NewPage | scripts/convert_with_ghostscript.py:229-236 | Appends one page of the given size. Its backdrop covers the whole page in gray 0.85, and nothing else is drawn. The other pages are unchanged. |
| PdfPages.Document.SetMediabox | scripts/convert_with_ghostscript.py:307 | A non-empty rectangle changes only page i's media box. An empty one is refused and nothing changes (PyMuPDF raises). |
| PdfPages.Document.InsertImage | scripts/convert_with_ghostscript.py:310 | Only page i changes, gaining one placement of the image over its current media box (`page.rect`). |
| PdfPages.PointsFromPixels | scripts/convert_with_ghostscript.py:303-304 | `points * dpi == pixels * 72` for every non-zero dpi. The length is positive iff dpi > 0 and there is at least one pixel. |
| PdfPages.PointsAt72Dpi | scripts/convert_with_ghostscript.py:303-304 | At 72 dpi the page size in points equals the pixel size. |
| PdfPages.ImageBox | scripts/convert_with_ghostscript.py:303-307 | The box starts at (0, 0); width x dpi = pixel width x 72 and height x dpi = pixel height x 72. It is empty iff dpi <= 0 or the image has no columns or no rows. |
| Ghostscript.FirstAnsweringIsFirstMatch | scripts/convert_with_ghostscript.py:28-45 | Found iff some candidate exits 0 with only skipped ones before it, and it is that first one. Not found iff every candidate is skipped (missing executable, timeout, non-zero exit). An escaping exception is exactly a raising probe after only skipped ones. |
| Ghostscript.CheckGhostscript | scripts/convert_with_ghostscript.py:26-45 | The search loop returns the reference result for ['gswin64c','gswin32c','gs']; a found command is one of them and its probe exited 0. |
| DecimalText.DecimalValue | scripts/extract_pdf_images.py:67 | The decimal text of n denotes n and has no leading zero. |
| DecimalText.DecimalInjective | scripts/extract_pdf_images.py:67 | Different numbers have different decimal texts. |
| DecimalText.DecimalLength | scripts/convert_with_ghostscript.py:155 | n < 10000 iff its decimal text has at most four digits. |
| DecimalText.Padded4Facts | scripts/convert_with_ghostscript.py:330 | `%04d` text is digits, denotes n, and is 4 characters long unless n needs more. |
| NameOrder.LexTotal | scripts/convert_with_ghostscript.py:194 | Python's string `<` is total on distinct strings (with LexIrreflexive, LexAsymmetric, LexTransitive: a strict total order). |
| NameOrder.Sort | scripts/convert_with_ghostscript.py:194 | The result of `sorted()` is a permutation of its input. |
| NameOrder.SortSorted | scripts/convert_with_ghostscript.py:194-198 | The result of `sorted()` is sorted. |
| NameOrder.SortedUnique | scripts/convert_with_ghostscript.py:194-198 | Two sorted permutations of one list are equal, so the sorted list does not depend on the listing order. |
| NameOrder.SortOfPermutation | scripts/convert_with_ghostscript.py:194-198 | Sorting any permutation of a sorted list yields that list. |
| PageFiles.PageFileName | scripts/convert_with_ghostscript.py:155 | The name `page_%04d.png` ends in `.png`. |
| PageFiles.PngOnly | scripts/convert_with_ghostscript.py:194-198 | Keeps every listed name that ends in `.png`, as many times as it is listed, and nothing else. |
| PageFiles.PngOnlyKeepsAll | scripts/convert_with_ghostscript.py:194-198 | A listing of PNG names passes the filter unchanged. |
| PageFiles.PageFileNameInjective | scripts/convert_with_ghostscript.py:155 | Distinct pages get distinct file names, for any page count. |
| PageFiles.PageFileNamesOrdered | scripts/convert_with_ghostscript.py:155 | For 1 <= i < j the name of page i sorts before that of page j, lexically while j <= 9999 and length-first always. |
| PageFiles.PageNamesSorted | scripts/convert_with_ghostscript.py:194-198 | The names of pages 1..n in page order are sorted (lexically for n <= 9999). |
| PageFiles.ListingSortsIntoPageOrder | scripts/convert_with_ghostscript.py:194-198 | Whatever order the directory lists Ghostscript's n files in, the sorted PNG list is page 1..n (lexically for n <= 9999; length-first always). |
| PageFiles.Page10000SortsBeforePage9999 | scripts/convert_with_ghostscript.py:155 | "page_10000.png" < "page_9999.png" as Python strings. |
| PageFiles.PageNamesNotLexicallySorted | scripts/convert_with_ghostscript.py:155 | From 10000 pages on, the page names in page order are not lexically sorted. |
| PageFiles.LexicalSortMisordersLongDocuments | scripts/convert_with_ghostscript.py:194-198 | From 10000 pages on, the lexical sort never yields page order, whatever the listing. |
| PageFiles.Page10000BetweenPages1000And1001 | scripts/convert_with_ghostscript.py:155 | "page_1000.png" < "page_10000.png" < "page_1001.png" as Python strings. |
| PageFiles.LexicalOrder10000Sorted | scripts/convert_with_ghostscript.py:155 | Pages 1..1000, then 10000, then 1001..9999 are lexically sorted names. |
| PageFiles.LexicalSortOf10000Pages | scripts/convert_with_ghostscript.py:194-198 | For a 10000-page document, in any listing order, `sorted()` yields pages 1..1000, then page 10000, then pages 1001..9999. |
| GrayscaleConversion.ExitStatus | scripts/convert_with_ghostscript.py:113-114 | The status is 0 exactly for a converted outcome and 1 otherwise. |
| GrayscaleConversion.DpiAccepted | scripts/convert_with_ghostscript.py:468-470 | A DPI is accepted iff 72 <= dpi <= 2400. |
| GrayscaleConversion.AddBlankPages | scripts/convert_with_ghostscript.py:227-238 | Appends exactly n blank A4 pages with the gray backdrop. |
| GrayscaleConversion.ProcessImages | scripts/convert_with_ghostscript.py:248-282 | Succeeds iff every PNG decodes. It then yields one image per file, in file order, each the file's image with the white background replaced. |
| GrayscaleConversion.PlaceImages | scripts/convert_with_ghostscript.py:290-312 | Succeeds iff every image can be placed, that is dpi > 0 and no image has zero width or height. Then page k is page k resized to image k's box with image k over it, with no reordering. Otherwise the first unplaceable image stops it: ZeroDivisionError, or `set_mediabox` refusing the empty box. The pages before it are placed and the rest are untouched. |
| GrayscaleConversion.NameSideImages | scripts/convert_with_ghostscript.py:329-334 | Side image k is image k named `page_{k+1:04d}.png`. |
| GrayscaleConversion.ConvertPdfToGrayscale | scripts/convert_with_ghostscript.py:124-446 | `ConversionOutcome`: it fails with a distinct reason for each case: a missing input, no Ghostscript, a raising probe, a rasteriser timeout, a non-zero rasteriser exit, and no PNG output after exit 0. Otherwise it converts iff every PNG decodes, every image can be placed, `save` succeeds, and the input file is not empty. Any other failure is the caught exception. On success there is one page per PNG in `order`, page i carries processed image i sized at `dpi`, and side image i is named `page_{i+1:04d}.png`. |
| GrayscaleConversion.AssembleDocument | scripts/convert_with_ghostscript.py:220-350 | For a non-empty sorted PNG list it converts iff every file decodes, every image can be placed, `save` succeeds, and the input size is non-zero (line 350 divides by it). It then gives exactly the assembled pages and side images. Any other case is the caught-exception failure. |
| GrayscaleConversion.ConversionCommand | scripts/convert_with_ghostscript.py:467-484 | A DPI outside [72, 2400] fails before anything else. A missing Ghostscript or a raising probe fails next. Otherwise the outcome is exactly the conversion's (`ConversionOutcome`): a missing input, a rasteriser timeout and a non-zero rasteriser exit fail with their own reasons, and a run that exits 0 converts as `ConversionSucceeds` describes. The exit status is 0 exactly when it converted. |
| GrayscaleConversion.AssembledPageFacts | scripts/convert_with_ghostscript.py:227-312 | In the output every page has `width x dpi == pixels x 72` both ways and carries exactly one image filling its media box. No placed pixel is near-white. No two side images share a name. |
| GrayscaleConversion.PlacedPageFacts | scripts/convert_with_ghostscript.py:290-310 | The page made for one image has the image's size at `dpi`; its only placement is the processed image over its media box. |
| GrayscaleConversion.ConversionFollowsPageOrder | scripts/convert_with_ghostscript.py:194-292 | For any listing order of Ghostscript's n files, conversion succeeds iff n > 0 and decoding, placing, saving and the size step succeed. It then has n pages, and page i carries the image of `page_{i+1:04d}.png`. This holds for the script's lexical sort when n <= 9999 and for the length-first sort for every n. n == 0 fails with no output. |
| GrayscaleConversion.ConversionMisordersPage10000 | scripts/convert_with_ghostscript.py:194-292 | With the script's lexical sort, a converted 10000-page document is out of order. Output page 1000 carries page 1000's image, page 1001 carries page 10000's, page 1002 carries page 1001's, and the last page carries page 9999's. |
| GrayscaleConversion.PagesCarryFileImages | scripts/convert_with_ghostscript.py:248-292 | Page i of the output carries the processed image decoded from the i-th sorted file. |
| GrayscaleConversion.PagesCarryPageImages | scripts/convert_with_ghostscript.py:248-292 | When assembled from the files of pages 1..n in page order, page i carries the image of `page_{i+1:04d}.png`. |
| Base64.SextetCharInverse | scripts/extract_pdf_images.py:93 | Every alphabet character decodes back to its 6-bit value. |
| Base64.EncodedLength | scripts/extract_pdf_images.py:93 | `b64encode` of n bytes is 4 x ceil(n / 3) characters long. |
| Base64.EncodedAlphabet | scripts/extract_pdf_images.py:93 | The encoded text uses only the 64-character alphabet and `=`. |
| Base64.TripleRoundTrip | scripts/extract_pdf_images.py:93 | A full group of three bytes decodes back from its four characters. |
| Base64.PairRoundTrip | scripts/extract_pdf_images.py:93 | A final group of two bytes decodes back from its padded quad. |
| Base64.SingleRoundTrip | scripts/extract_pdf_images.py:93 | A final single byte decodes back from its padded quad. |
| Base64.DecodeEncode | scripts/extract_pdf_images.py:93 | Decoding the encoding gives back exactly the bytes encoded. |
| Base64.DecodedLength | scripts/extract_pdf_images.py:89-93 | The base64 text decodes to exactly as many bytes as were encoded. |
| ImageExtraction.KeptOnPage | scripts/extract_pdf_images.py:43-63 | No more images than xrefs; each kept image is on the given page and is at least 50 x 50. |
| ImageExtraction.KeptAll | scripts/extract_pdf_images.py:36-63 | Every kept image has a 1-based page number within the document and is at least 50 x 50. Page numbers never decrease along the list. |
| ImageExtraction.KeptOnPageConcat | scripts/extract_pdf_images.py:43 | Keeping distributes over concatenation of xref lists. |
| ImageExtraction.OneImageAtATime | scripts/extract_pdf_images.py:50-63 | An image that is not kept (None, exception, missing key, too small) is dropped alone and consumes no counter. A kept one sits between its neighbours. |
| ImageExtraction.NothingKeptOnPage | scripts/extract_pdf_images.py:43-63 | A page without qualifying images contributes nothing. |
| ImageExtraction.NothingKept | scripts/extract_pdf_images.py:32-63 | A document without qualifying images yields an empty list. |
| ImageExtraction.StepFor | scripts/extract_pdf_images.py:75-83 | RGBA, LA and P are composited on white. RGB alone is left as is. Every other mode is converted. |
| ImageExtraction.Normalized | scripts/extract_pdf_images.py:74-83 | Any successful normalisation is RGB of the original size, and an RGB image is returned untouched. |
| ImageExtraction.Records | scripts/extract_pdf_images.py:106-116 | One record per kept image. |
| ImageExtraction.RecordsFacts | scripts/extract_pdf_images.py:57-67 | Every record is >= 50 x 50, has a 1-based page, is named `image_p{page}_{k}.jpg` for the k-th record overall, and says jpg / image/jpeg. Pages never decrease along the list. |
| ImageExtraction.ImageFileNameInjective | scripts/extract_pdf_images.py:67 | The filename determines both the page and the counter. |
| ImageExtraction.FileNamesDistinct | scripts/extract_pdf_images.py:65-67 | No two records share a filename. |
| ImageExtraction.RecordPayload | scripts/extract_pdf_images.py:85-113 | The base64 field decodes to exactly `size` bytes. These are the JPEG when re-encoding worked and the original bytes when it failed. Format and MIME type still say JPEG. |
| ImageExtraction.RecordsAppend | scripts/extract_pdf_images.py:65-67 | A newly kept image is appended with the next counter value. |
| ImageExtraction.KeptAllStep | scripts/extract_pdf_images.py:36-40 | One more listed page adds exactly the images kept from it. |
| ImageExtraction.ExtractOne | scripts/extract_pdf_images.py:44-121 | One iteration yields a record iff the image qualifies, and that record carries the next counter value. |
| ImageExtraction.ExtractPage | scripts/extract_pdf_images.py:43-121 | The inner loop appends the records of the page's kept images, in listing order, with consecutive counter values continuing the document-wide count. |
| ImageExtraction.ExtractImagesFromPdf | scripts/extract_pdf_images.py:16-128 | An open failure fails with "Failed to extract images from PDF: " + message. Success holds iff every page's image list could be read, and the list is then exactly the records of all kept images in page then in-page order. A listing failure fails with the first failing page's message. |
| ImageExtraction.ExtractCommand | scripts/extract_pdf_images.py:130-169 | Fewer than two arguments give the usage error. A missing path gives "PDF file not found: " + path. Success holds iff the extraction succeeds, and then `count == len(images)`. The exit status is 0 exactly on success. |

## Left out

- Subprocesses: the Ghostscript command line, its 5 s / 300 s timeouts, and captured stdout/stderr are not modelled. The model keeps only the probe outcome, the rasteriser's exit code or timeout, and the output directory's listing.
- The listing holds bare file names. The script joins each name to the temp directory before sorting; the common prefix does not change the order.
- PyMuPDF and PIL internals are uninterpreted oracles. This covers PNG/JPEG decoding and encoding, JPEG quality 85, DPI metadata, alpha compositing and `convert` colour arithmetic. It also covers whether `empty_pdf_doc.save` succeeds (`GrayscaleConversion.Environment.save`) and the JPEG `save` of the extraction (`ImageExtraction.ImageLibrary`).
- PdfPages.Document.SetMediabox: raising for an empty rectangle is PyMuPDF's own rule, taken as PyMuPDF documents it; the script does not state it.
- PdfPages.Document.InsertImage: `insert_image` is taken to succeed. It is reached only after the media box was accepted as non-empty.
- Pixel data that PIL produces is taken from the decoder oracle as an 8-bit 'L' raster. The `img.convert('L')` branch is part of that oracle.
- `add_gray_background` is never called and consists only of library calls.
- The inkcov verification pass only prints warnings.
- Temp-directory creation and cleanup, `os.makedirs`, printing, JSON formatting and the Windows stdout re-wrapping are not modelled.
- Saving the side images to disk (and the warning when that fails) is not modelled: the model names them but does not write them.
- File sizes in MB/KB and `size_reduction` are floating-point reporting only. The model keeps one fact from them: an empty input file makes line 350 divide by zero and the conversion fail.
- PdfPages.PointsFromPixels: works in exact `real` arithmetic, not IEEE double, so rounding of `(width / dpi) * 72` is not modelled.
- GrayscaleConversion.ConversionCommand: the probe is one deterministic oracle, so the two `check_ghostscript` calls (command and conversion) always give the same answer.
- ImageExtraction.BaseImage: `colorspace` is taken as the text `str(colorspace)` produces. Width and height are taken to be integers.
- Standard-error warnings for skipped images and failed conversions are not modelled; they have no effect on the result.
- `pdf_document.close()` is not modelled.

## Findings

| source | as written | input that shows it | evidently intended | confidence | as-written member | corrected member |
|---|---|---|---|---|---|---|
| scripts/convert_with_ghostscript.py:194-198 | `sorted()` orders the `page_%04d.png` names lexically, and page i is assembled from the i-th name | a 10000-page document: "page_10000.png" sorts between "page_1000.png" and "page_1001.png", so output page 1001 carries input page 10000 | page i of the output is page i of the input for every page count, as lines 208-210 (the i-th file reported as "Page {i}") and 291 (the corresponding page) assume | not executed | GrayscaleConversion.ConversionMisordersPage10000 | GrayscaleConversion.ConversionFollowsPageOrder |

The script assumes the i-th sorted file is page i. Lines 208-210 print it as
"Page {i}", and line 291 places it on "the corresponding page" of the new document.
`GrayscaleConversion.ConvertPdfToGrayscale` sorts by its `order` argument, and the
script's own order is `GrayscaleConversion.ScriptOrder`, the lexical one.

With that order, `PageFiles.LexicalSortMisordersLongDocuments` shows that the sorted list
is not page order for any n >= 10000. `GrayscaleConversion.ConversionMisordersPage10000`
shows where page 10000 lands in a converted document.

The corrected order sorts by length first, then lexically.
`PageFiles.ListingSortsIntoPageOrder` and `GrayscaleConversion.ConversionFollowsPageOrder`
prove that it gives page order for every page count, and that the lexical order agrees
with it up to 9999 pages.
