/**
 * `extract_images_from_pdf` and the command around it: walk every page of a PDF, pull
 * out each embedded image, drop the ones smaller than 50 pixels on a side, re-encode the
 * rest as RGB JPEG (falling back to the original bytes when that fails) and report them
 * as an ordered list of records carrying the data in base64.
 *
 * PyMuPDF and PIL are oracles: `PdfDocument` says what `get_images` and `extract_image`
 * answer, `ImageLibrary` what `Image.open`, `convert`, `paste` and `save` produce, with
 * `None` standing for an exception.
 */
module ImageExtraction {
  import opened Wrappers
  import Base64
  import DecimalText

  type Bytes = seq<Base64.Byte>

  /** Images narrower or lower than this are taken for icons or artifacts and skipped. */
  const MinSide: int := 50

  const FailurePrefix: string := "Failed to extract images from PDF: "
  const UsageMessage: string := "Usage: python extract_pdf_images.py <pdf_path> <output_dir>"
  const NotFoundPrefix: string := "PDF file not found: "

  /**
   * The dictionary `extract_image` returns; a missing key is `None`. `colorspace` is
   * kept as the text `str(colorspace)` gives.
   */
  datatype BaseImage = BaseImage(
    image: Option<Bytes>,
    ext: Option<string>,
    width: Option<int>,
    height: Option<int>,
    colorspace: Option<string>)

  /** What `extract_image(xref)` does: a dictionary, `None`, or an exception. */
  datatype Extraction = Extracted(info: BaseImage) | NoImage | ExtractRaises

  /** What `page.get_images(full=True)` does: the image xrefs, or an exception. */
  datatype PageImages = Listed(xrefs: seq<int>) | ListingRaises(message: string)

  datatype PdfDocument = PdfDocument(pages: seq<PageImages>, extract: int -> Extraction)

  /** What `fitz.open(pdf_path)` does. */
  datatype Opening = Opened(doc: PdfDocument) | OpenRaises(message: string)

  /** A PIL image: its mode, its size and its samples. */
  datatype Picture = Picture(mode: string, width: nat, height: nat, samples: seq<int>)

  datatype ImageLibrary = ImageLibrary(
    open: Bytes -> Option<Picture>,                 // Image.open(io.BytesIO(bytes))
    convert: (Picture, string) -> Option<seq<int>>, // the samples of image.convert(mode)
    paste: (Picture, Picture) -> Option<seq<int>>,  // the canvas after canvas.paste(image, mask=alpha)
    saveJpeg: Picture -> Option<Bytes>)             // image.save(buffer, 'JPEG', ...)

  /** One entry of the returned list. */
  datatype ImageRecord = ImageRecord(
    filename: string,
    base64: string,
    page: nat,
    width: int,
    height: int,
    format: string,
    mimeType: string,
    colorspace: string,
    size: nat)

  /** The JSON object the command prints. */
  datatype Reply = Succeeded(images: seq<ImageRecord>, count: nat) | Errored(error: string)

  // ---------------------------------------------------------------------------
  // Which images are kept

  /**
   * An image is kept when extraction gives a dictionary with both `image` and `ext`
   * (a missing one raises and skips the image) and both sides are at least `MinSide`;
   * an absent `width` or `height` reads as 0.
   */
  predicate Qualifies(e: Extraction) {
    e.Extracted? && e.info.image.Some? && e.info.ext.Some? &&
    e.info.width.GetOr(0) >= MinSide && e.info.height.GetOr(0) >= MinSide
  }

  /** A kept image with the 1-based number of the page it was found on. */
  datatype Kept = Kept(page: nat, bytes: Bytes, width: int, height: int, colorspace: string)

  function KeptImage(e: Extraction, page: nat): Kept
    requires Qualifies(e)
  {
    Kept(page, e.info.image.value, e.info.width.GetOr(0), e.info.height.GetOr(0),
         e.info.colorspace.GetOr("unknown"))
  }

  /** The images kept from the xrefs of one page, in listing order. */
  function KeptOnPage(extract: int -> Extraction, page: nat, xrefs: seq<int>): (r: seq<Kept>)
    ensures |r| <= |xrefs|
    ensures forall k :: 0 <= k < |r| ==>
      r[k].page == page && r[k].width >= MinSide && r[k].height >= MinSide
    decreases |xrefs|
  {
    if xrefs == [] then []
    else
      var e := extract(xrefs[|xrefs| - 1]);
      KeptOnPage(extract, page, xrefs[..|xrefs| - 1]) + (if Qualifies(e) then [KeptImage(e, page)] else [])
  }

  /** The images kept from the listed pages, page by page; page `i` (0-based) is page `i + 1`. */
  function KeptAll(extract: int -> Extraction, pages: seq<PageImages>): (r: seq<Kept>)
    ensures forall k :: 0 <= k < |r| ==>
      1 <= r[k].page <= |pages| && r[k].width >= MinSide && r[k].height >= MinSide
    ensures forall i, j :: 0 <= i < j < |r| ==> r[i].page <= r[j].page
    decreases |pages|
  {
    if pages == [] then []
    else
      var before := KeptAll(extract, pages[..|pages| - 1]);
      var here := match pages[|pages| - 1]
        case Listed(xrefs) => KeptOnPage(extract, |pages|, xrefs)
        case ListingRaises(_) => [];
      before + here
  }

  predicate AllListed(pages: seq<PageImages>) {
    forall i :: 0 <= i < |pages| ==> pages[i].Listed?
  }

  /** Page `i` is the first whose listing raised. */
  predicate FirstUnlisted(pages: seq<PageImages>, i: int) {
    0 <= i < |pages| && pages[i].ListingRaises? && AllListed(pages[..i])
  }

  // ---------------------------------------------------------------------------
  // Re-encoding

  datatype ModeStep = CompositeOnWhite | ConvertToRgb | LeaveAsIs

  /** The three ways a mode is brought to RGB. */
  function StepFor(mode: string): (s: ModeStep)
    ensures s == LeaveAsIs <==> mode == "RGB"
    ensures s == CompositeOnWhite <==> mode == "RGBA" || mode == "LA" || mode == "P"
  {
    if mode == "RGBA" || mode == "LA" || mode == "P" then CompositeOnWhite
    else if mode != "RGB" then ConvertToRgb
    else LeaveAsIs
  }

  /** `Image.new('RGB', (w, h), (255, 255, 255))`. */
  function WhiteCanvas(w: nat, h: nat): Picture {
    Picture("RGB", w, h, seq(3 * w * h, _ => 255))
  }

  /** `image.convert(mode)`: same size, the new mode, the samples PIL computes. */
  function ConvertTo(lib: ImageLibrary, p: Picture, mode: string): Option<Picture> {
    match lib.convert(p, mode)
    case None => None
    case Some(samples) => Some(Picture(mode, p.width, p.height, samples))
  }

  /** The image pasted, through its alpha mask, on a white canvas of its own size. */
  function OnWhite(lib: ImageLibrary, p: Picture): Option<Picture> {
    match lib.paste(WhiteCanvas(p.width, p.height), p)
    case None => None
    case Some(samples) => Some(Picture("RGB", p.width, p.height, samples))
  }

  /**
   * The mode normalisation before the JPEG save. `None` means one of the library calls
   * raised. Whatever succeeds is an RGB image of the original size, and an RGB image is
   * passed through untouched.
   */
  function Normalized(lib: ImageLibrary, p: Picture): (r: Option<Picture>)
    ensures r.Some? ==> r.value.mode == "RGB" && r.value.width == p.width && r.value.height == p.height
    ensures p.mode == "RGB" ==> r == Some(p)
  {
    match StepFor(p.mode)
    case CompositeOnWhite =>
      if p.mode == "P" then
        match ConvertTo(lib, p, "RGBA")
        case None => None
        case Some(q) => OnWhite(lib, q)
      else OnWhite(lib, p)
    case ConvertToRgb => ConvertTo(lib, p, "RGB")
    case LeaveAsIs => Some(p)
  }

  /** The JPEG bytes of the image, or `None` when opening, converting or saving raised. */
  function JpegBytes(lib: ImageLibrary, raw: Bytes): Option<Bytes> {
    match lib.open(raw)
    case None => None
    case Some(p) =>
      match Normalized(lib, p)
      case None => None
      case Some(q) => lib.saveJpeg(q)
  }

  /** The bytes that are encoded into the record: the JPEG, or else the original bytes. */
  function Payload(lib: ImageLibrary, raw: Bytes): Bytes {
    match JpegBytes(lib, raw)
    case Some(jpeg) => jpeg
    case None => raw
  }

  // ---------------------------------------------------------------------------
  // Records

  /** `f"image_p{page}_{counter}.jpg"`. */
  function ImageFileName(page: nat, counter: nat): string {
    "image_p" + DecimalText.Decimal(page) + "_" + DecimalText.Decimal(counter) + ".jpg"
  }

  /** The record of a kept image that received `counter`. */
  function RecordFor(lib: ImageLibrary, k: Kept, counter: nat): ImageRecord {
    var data := Payload(lib, k.bytes);
    ImageRecord(ImageFileName(k.page, counter), Base64.Encode(data), k.page, k.width, k.height,
                "jpg", "image/jpeg", k.colorspace, |data|)
  }

  /** The records of the kept images; the counter runs 1, 2, ... over the whole document. */
  function Records(lib: ImageLibrary, kept: seq<Kept>): (r: seq<ImageRecord>)
    ensures |r| == |kept|
  {
    seq(|kept|, k requires 0 <= k < |kept| => RecordFor(lib, kept[k], k + 1))
  }

  // ---------------------------------------------------------------------------
  // Properties

  /** Keeping distributes over concatenation of xref lists. */
  lemma {:induction false} KeptOnPageConcat(extract: int -> Extraction, page: nat, xs: seq<int>, ys: seq<int>)
    ensures KeptOnPage(extract, page, xs + ys) == KeptOnPage(extract, page, xs) + KeptOnPage(extract, page, ys)
    decreases |ys|
  {
    if ys != [] {
      var init, last := ys[..|ys| - 1], ys[|ys| - 1];
      assert (xs + ys)[..|xs + ys| - 1] == xs + init;
      assert (xs + ys)[|xs + ys| - 1] == last;
      KeptOnPageConcat(extract, page, xs, init);
    } else {
      assert xs + ys == xs;
    }
  }

  /**
   * An image that is not kept, whatever the reason (no dictionary, an exception, a
   * missing key, too small), is dropped on its own: the images around it are kept as if
   * it were not there. An image that is kept sits between them.
   */
  lemma OneImageAtATime(extract: int -> Extraction, page: nat, xs: seq<int>, x: int, ys: seq<int>)
    ensures !Qualifies(extract(x)) ==>
      KeptOnPage(extract, page, xs + [x] + ys) == KeptOnPage(extract, page, xs) + KeptOnPage(extract, page, ys)
    ensures Qualifies(extract(x)) ==>
      KeptOnPage(extract, page, xs + [x] + ys) ==
        KeptOnPage(extract, page, xs) + [KeptImage(extract(x), page)] + KeptOnPage(extract, page, ys)
  {
    KeptOnPageConcat(extract, page, xs + [x], ys);
    KeptOnPageSnoc(extract, page, xs, x);
  }

  /** One more xref adds its image when and only when that image is kept. */
  lemma KeptOnPageSnoc(extract: int -> Extraction, page: nat, xs: seq<int>, x: int)
    ensures KeptOnPage(extract, page, xs + [x]) ==
      KeptOnPage(extract, page, xs) + (if Qualifies(extract(x)) then [KeptImage(extract(x), page)] else [])
  {
    assert (xs + [x])[..|xs|] == xs;
  }

  /** A page none of whose images is kept contributes nothing. */
  lemma {:induction false} NothingKeptOnPage(extract: int -> Extraction, page: nat, xrefs: seq<int>)
    requires forall k :: 0 <= k < |xrefs| ==> !Qualifies(extract(xrefs[k]))
    ensures KeptOnPage(extract, page, xrefs) == []
    decreases |xrefs|
  {
    if xrefs != [] {
      NothingKeptOnPage(extract, page, xrefs[..|xrefs| - 1]);
    }
  }

  /** A document without qualifying images gives an empty list (and, on success, count 0). */
  lemma {:induction false} NothingKept(extract: int -> Extraction, pages: seq<PageImages>)
    requires forall i, k :: 0 <= i < |pages| && pages[i].Listed? && 0 <= k < |pages[i].xrefs| ==>
      !Qualifies(extract(pages[i].xrefs[k]))
    ensures KeptAll(extract, pages) == []
    decreases |pages|
  {
    if pages != [] {
      var last := pages[|pages| - 1];
      if last.Listed? {
        NothingKeptOnPage(extract, |pages|, last.xrefs);
      }
      NothingKept(extract, pages[..|pages| - 1]);
    }
  }

  /** The records: their fields, their sizes, their page order and their counters. */
  lemma RecordsFacts(lib: ImageLibrary, extract: int -> Extraction, pages: seq<PageImages>)
    ensures var kept := KeptAll(extract, pages);
      var rs := Records(lib, kept);
      |rs| == |kept| &&
      (forall k :: 0 <= k < |rs| ==>
        rs[k].width >= MinSide && rs[k].height >= MinSide &&
        1 <= rs[k].page <= |pages| && rs[k].page == kept[k].page &&
        rs[k].filename == ImageFileName(rs[k].page, k + 1) &&
        rs[k].format == "jpg" && rs[k].mimeType == "image/jpeg") &&
      (forall i, j :: 0 <= i < j < |rs| ==> rs[i].page <= rs[j].page)
  {
    var kept := KeptAll(extract, pages);
    var rs := Records(lib, kept);
    forall k | 0 <= k < |rs|
      ensures rs[k] == RecordFor(lib, kept[k], k + 1)
      ensures rs[k].page == kept[k].page && rs[k].width == kept[k].width && rs[k].height == kept[k].height
    {
    }
  }

  /** No two records share a filename. */
  lemma FileNamesDistinct(lib: ImageLibrary, kept: seq<Kept>, i: int, j: int)
    requires 0 <= i < |kept| && 0 <= j < |kept| && i != j
    ensures Records(lib, kept)[i].filename != Records(lib, kept)[j].filename
  {
    ImageFileNameInjective(kept[i].page, i + 1, kept[j].page, j + 1);
  }

  /** The filename determines both the page and the counter. */
  lemma ImageFileNameInjective(p1: nat, c1: nat, p2: nat, c2: nat)
    ensures ImageFileName(p1, c1) == ImageFileName(p2, c2) ==> p1 == p2 && c1 == c2
  {
    var s1, s2 := ImageFileName(p1, c1), ImageFileName(p2, c2);
    if s1 == s2 {
      var a, x := DecimalText.Decimal(p1), DecimalText.Decimal(c1);
      var b, y := DecimalText.Decimal(p2), DecimalText.Decimal(c2);
      assert s1 == "image_p" + (a + "_" + x) + ".jpg";
      assert s2 == "image_p" + (b + "_" + y) + ".jpg";
      CancelAffixes("image_p", a + "_" + x, b + "_" + y, ".jpg");
      SplitAtSeparator(a, x, b, y);
      DecimalText.DecimalInjective(p1, p2);
      DecimalText.DecimalInjective(c1, c2);
    }
  }

  lemma CancelAffixes(pre: string, a: string, b: string, post: string)
    requires pre + a + post == pre + b + post
    ensures a == b
  {
    var s, t := pre + a + post, pre + b + post;
    assert |a| == |b|;
    assert a == s[|pre|..|s| - |post|];
    assert b == t[|pre|..|t| - |post|];
  }

  /** Two digit strings joined by `_` can be taken apart again. */
  lemma SplitAtSeparator(a: string, x: string, b: string, y: string)
    requires DecimalText.IsDigits(a) && DecimalText.IsDigits(b)
    requires a + "_" + x == b + "_" + y
    ensures a == b && x == y
  {
    var k := if |a| <= |b| then |a| else |b|;
    assert (a + "_" + x)[k] == (b + "_" + y)[k];
    assert |a| == |b|;
    assert a == (a + "_" + x)[..|a|];
    assert b == (b + "_" + y)[..|b|];
    assert x == (a + "_" + x)[|a| + 1..];
    assert y == (b + "_" + y)[|b| + 1..];
  }

  /**
   * The base64 text of a record decodes to exactly `size` bytes: the JPEG when
   * re-encoding worked, the original image bytes when it did not. The format and MIME
   * type say JPEG in both cases.
   */
  lemma RecordPayload(lib: ImageLibrary, k: Kept, counter: nat)
    ensures var r := RecordFor(lib, k, counter);
      var data := Payload(lib, k.bytes);
      Base64.Decode(r.base64) == Some(data) && r.size == |data| &&
      (JpegBytes(lib, k.bytes).None? ==> data == k.bytes) &&
      (JpegBytes(lib, k.bytes).Some? ==> data == JpegBytes(lib, k.bytes).value) &&
      r.format == "jpg" && r.mimeType == "image/jpeg"
  {
    Base64.DecodeEncode(Payload(lib, k.bytes));
  }

  /** Appending a kept image appends its record, with the next counter. */
  lemma RecordsAppend(lib: ImageLibrary, kept: seq<Kept>, k: Kept)
    ensures Records(lib, kept + [k]) == Records(lib, kept) + [RecordFor(lib, k, |kept| + 1)]
  {
    var lhs, rhs := Records(lib, kept + [k]), Records(lib, kept) + [RecordFor(lib, k, |kept| + 1)];
    assert |lhs| == |rhs|;
    forall i | 0 <= i < |lhs| ensures lhs[i] == rhs[i] {
      if i < |kept| {
        assert (kept + [k])[i] == kept[i];
      }
    }
  }

  // ---------------------------------------------------------------------------
  // The loop

  /**
   * `extract_images_from_pdf`. An exception from opening the file or from listing a
   * page's images ends the whole extraction with a prefixed message; an exception on a
   * single image only skips that image.
   */
  method ExtractImagesFromPdf(open: string -> Opening, lib: ImageLibrary, path: string)
    returns (r: Result<seq<ImageRecord>, string>)
    ensures open(path).OpenRaises? ==> r == Failure(FailurePrefix + open(path).message)
    ensures open(path).Opened? ==>
      var doc := open(path).doc;
      (r.Success? <==> AllListed(doc.pages)) &&
      (r.Success? ==> r.value == Records(lib, KeptAll(doc.extract, doc.pages))) &&
      (r.Failure? ==> exists i :: FirstUnlisted(doc.pages, i) && r.error == FailurePrefix + doc.pages[i].message)
  {
    match open(path)
    case OpenRaises(message) =>
      return Failure(FailurePrefix + message);
    case Opened(doc) =>
      var images: seq<ImageRecord> := [];
      var counter: nat := 0;
      var p := 0;
      while p < |doc.pages|
        invariant 0 <= p <= |doc.pages|
        invariant AllListed(doc.pages[..p])
        invariant images == Records(lib, KeptAll(doc.extract, doc.pages[..p]))
        invariant counter == |images|
      {
        KeptAllStep(doc.extract, doc.pages, p);
        match doc.pages[p]
        case ListingRaises(message) =>
          assert FirstUnlisted(doc.pages, p);
          return Failure(FailurePrefix + message);
        case Listed(xrefs) =>
          images, counter := ExtractPage(doc.extract, lib, p + 1, xrefs, images, counter,
                                         KeptAll(doc.extract, doc.pages[..p]));
          p := p + 1;
      }
      assert doc.pages[..p] == doc.pages;
      return Success(images);
  }

  /**
   * The inner loop of `extract_images_from_pdf` over the images of page `page`
   * (1-based): each kept image takes the next value of the document-wide counter.
   */
  method ExtractPage(extract: int -> Extraction, lib: ImageLibrary, page: nat, xrefs: seq<int>,
                     images: seq<ImageRecord>, counter: nat, ghost before: seq<Kept>)
    returns (images': seq<ImageRecord>, counter': nat)
    requires images == Records(lib, before) && counter == |images|
    ensures images' == Records(lib, before + KeptOnPage(extract, page, xrefs))
    ensures counter' == |images'|
  {
    images', counter' := images, counter;
    ghost var kept := before;
    var i := 0;
    while i < |xrefs|
      invariant 0 <= i <= |xrefs|
      invariant kept == before + KeptOnPage(extract, page, xrefs[..i])
      invariant images' == Records(lib, kept)
      invariant counter' == |kept|
    {
      var x := xrefs[i];
      assert xrefs[..i + 1] == xrefs[..i] + [x];
      KeptOnPageSnoc(extract, page, xrefs[..i], x);
      var record := ExtractOne(extract(x), lib, page, counter');
      if record.Some? {
        RecordsAppend(lib, kept, KeptImage(extract(x), page));
        kept := kept + [KeptImage(extract(x), page)];
        counter' := counter' + 1;
        images' := images' + [record.value];
      }
      i := i + 1;
    }
    assert xrefs[..i] == xrefs;
  }

  /**
   * The body of the inner loop for one image: skip it, or build its record with the
   * next counter value, re-encoding its bytes as JPEG and keeping the original bytes
   * when that fails.
   */
  method ExtractOne(e: Extraction, lib: ImageLibrary, page: nat, counter: nat) returns (record: Option<ImageRecord>)
    ensures record.Some? <==> Qualifies(e)
    ensures record.Some? ==> record.value == RecordFor(lib, KeptImage(e, page), counter + 1)
  {
    if e.NoImage? || e.ExtractRaises? {
      return None;
    }
    var info := e.info;
    if info.image.None? || info.ext.None? {
      return None;
    }
    var width, height := info.width.GetOr(0), info.height.GetOr(0);
    if width < MinSide || height < MinSide {
      return None;
    }
    var filename := ImageFileName(page, counter + 1);
    var data := info.image.value;
    var jpeg := JpegBytes(lib, data);
    if jpeg.Some? {
      data := jpeg.value;
    }
    assert data == Payload(lib, info.image.value);
    return Some(ImageRecord(filename, Base64.Encode(data), page, width, height,
                            "jpg", "image/jpeg", info.colorspace.GetOr("unknown"), |data|));
  }

  /** One more page adds the images kept from it, if its listing worked. */
  lemma KeptAllStep(extract: int -> Extraction, pages: seq<PageImages>, p: nat)
    requires p < |pages|
    ensures AllListed(pages[..p]) && pages[p].Listed? ==> AllListed(pages[..p + 1])
    ensures pages[p].Listed? ==>
      KeptAll(extract, pages[..p + 1]) == KeptAll(extract, pages[..p]) + KeptOnPage(extract, p + 1, pages[p].xrefs)
  {
    assert pages[..p + 1][..p] == pages[..p];
  }

  /**
   * `main`: fewer than two arguments or a path that does not exist give the fixed error
   * replies; otherwise the extraction's list, with its length as `count`, or its error.
   * The exit status is 0 exactly for a successful reply.
   */
  method ExtractCommand(argv: seq<string>, fileExists: string -> bool, open: string -> Opening, lib: ImageLibrary)
    returns (reply: Reply, exitCode: int)
    ensures exitCode == (if reply.Succeeded? then 0 else 1)
    ensures |argv| < 3 ==> reply == Errored(UsageMessage)
    ensures |argv| >= 3 && !fileExists(argv[1]) ==> reply == Errored(NotFoundPrefix + argv[1])
    ensures |argv| >= 3 && fileExists(argv[1]) && open(argv[1]).OpenRaises? ==>
      reply == Errored(FailurePrefix + open(argv[1]).message)
    ensures reply.Succeeded? <==>
      |argv| >= 3 && fileExists(argv[1]) && open(argv[1]).Opened? && AllListed(open(argv[1]).doc.pages)
    ensures reply.Succeeded? ==>
      reply.count == |reply.images| &&
      reply.images == Records(lib, KeptAll(open(argv[1]).doc.extract, open(argv[1]).doc.pages))
  {
    if |argv| < 3 {
      return Errored(UsageMessage), 1;
    }
    var path := argv[1];
    if !fileExists(path) {
      return Errored(NotFoundPrefix + path), 1;
    }
    var r := ExtractImagesFromPdf(open, lib, path);
    match r
    case Success(images) =>
      return Succeeded(images, |images|), 0;
    case Failure(error) =>
      return Errored(error), 1;
  }
}
