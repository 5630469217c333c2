/**
 * `convert_pdf_to_grayscale` and the command-line entry of
 * scripts/convert_with_ghostscript.py: locate Ghostscript, rasterise every page to an
 * 8-bit gray PNG, build one gray-backed page per PNG, replace the white background of
 * each image with gray, place image i on page i sized to its pixels at the requested
 * resolution, save the document, and name the side copies `page_0001.png`, ...
 *
 * The file system, Ghostscript, the image decoder and the PDF writer are parameters
 * (`Environment`); what the script does with their answers is the model. The order in
 * which the PNG files are sorted is a parameter too: the script sorts `Lexical`ly (its
 * `sorted()`), and `LengthThenLexical` is the order that keeps page order for any size.
 */
module GrayscaleConversion {
  import opened Wrappers
  import opened Pixels
  import opened PdfPages
  import opened Ghostscript
  import opened NameOrder
  import opened PageFiles

  const MinDpi: int := 72
  const MaxDpi: int := 2400

  /** The order `sorted()` gives the raster files in the script as written. */
  const ScriptOrder: Ordering := Lexical

  /** What the rasterising Ghostscript run reports: its exit status and the files in its output directory. */
  datatype Rasterisation = Finished(exitCode: int, listing: seq<string>) | RasteriserTimedOut

  datatype Environment = Environment(
    fileExists: string -> bool,                          // os.path.exists
    fileSize: string -> nat,                             // os.path.getsize
    probe: string -> ProbeOutcome,                      // <name> -version
    rasterise: (string, string, int) -> Rasterisation,  // gs -sDEVICE=pnggray -r<dpi> ... <input>
    load: string -> Option<GrayImage>,                  // Image.open(f), converted to 'L'; None when it raises
    save: (string, seq<Page>) -> bool)                  // empty_pdf_doc.save(output_pdf, ...); false when it raises

  datatype Failure =
    | InvalidDpi
    | InputMissing
    | GhostscriptMissing
    | GhostscriptProbeRaised
    | RasterisationFailed(exitCode: int)
    | RasterisationTimedOut
    | NoPngOutput
    | UnexpectedError

  /** A processed image and the file name it is saved under in `converted_images`. */
  datatype SideImage = SideImage(name: string, image: GrayImage)

  datatype Outcome = Failed(reason: Failure) | Converted(pages: seq<Page>, sideImages: seq<SideImage>)

  /** Every failure returns (or exits with) 1, success with 0. */
  function ExitStatus(o: Outcome): (code: int)
    ensures code == 0 <==> o.Converted?
    ensures code == 0 || code == 1
  {
    if o.Converted? then 0 else 1
  }

  /** The DPI check of the command line: `args.dpi < 72 or args.dpi > 2400` is rejected. */
  predicate DpiAccepted(dpi: int): (ok: bool)
    ensures ok <==> 72 <= dpi <= 2400
  {
    !(dpi < MinDpi || dpi > MaxDpi)
  }

  /** The rasterised pages in the order they are assembled. */
  function RasterFiles(order: Ordering, listing: seq<string>): seq<string> {
    PngFiles(order, listing)
  }

  predicate AllLoad(load: string -> Option<GrayImage>, files: seq<string>) {
    forall k :: 0 <= k < |files| ==> load(files[k]).Some?
  }

  function Loaded(load: string -> Option<GrayImage>, files: seq<string>): (images: seq<GrayImage>)
    requires AllLoad(load, files)
  {
    seq(|files|, k requires 0 <= k < |files| => load(files[k]).value)
  }

  /**
   * Step 4 can place the image: `width / dpi` does not divide by zero and the page
   * size it gives is not empty, which `set_mediabox` would reject.
   */
  predicate Placeable(img: GrayImage, dpi: int) {
    dpi > 0 && img.width > 0 && img.height > 0
  }

  predicate AllPlaceable(images: seq<GrayImage>, dpi: int) {
    forall k :: 0 <= k < |images| ==> Placeable(images[k], dpi)
  }

  /** Page `i` after step 4: resized to image `img` at `dpi`, with the image drawn over it. */
  function PlacedOn(page: Page, img: GrayImage, dpi: int): Page
    requires dpi != 0
  {
    var box := ImageBox(img, dpi);
    page.(mediabox := box, placements := page.placements + [Placement(box, img)])
  }

  /** The pages of the document as it is saved, for the decoded PNGs `sources`. */
  function AssembledPages(sources: seq<GrayImage>, dpi: int): (pages: seq<Page>)
    requires dpi != 0
    ensures |pages| == |sources|
  {
    seq(|sources|, i requires 0 <= i < |sources| =>
      PlacedOn(BlankPage(A4Width, A4Height), WithGrayBackground(sources[i]), dpi))
  }

  /**
   * What a successful conversion of `sources` (the decoded PNGs, in order) produces:
   * one page per image, page i carrying exactly image i after substitution and sized to
   * it, and side image i named for page i + 1.
   */
  predicate AssembledFrom(pages: seq<Page>, side: seq<SideImage>, sources: seq<GrayImage>, dpi: int) {
    && dpi != 0
    && pages == AssembledPages(sources, dpi)
    && |side| == |sources|
    && forall i :: 0 <= i < |sources| ==> side[i] == SideImage(PageFileName(i + 1), WithGrayBackground(sources[i]))
  }

  /**
   * Steps 3 to 5 and the size report all go through for the sorted files: every file
   * decodes, every image can be placed, the document is saved to `output`, and the
   * input's size is not zero (`size_reduction` divides by it).
   */
  predicate ConversionSucceeds(env: Environment, input: string, output: string, files: seq<string>, dpi: int) {
    && AllLoad(env.load, files)
    && AllPlaceable(Loaded(env.load, files), dpi)
    && (files != [] ==> dpi > 0 && env.save(output, AssembledPages(Loaded(env.load, files), dpi)))
    && env.fileSize(input) > 0
  }

  /** What the conversion does once Ghostscript has finished with status 0. */
  predicate FromListing(o: Outcome, env: Environment, input: string, output: string, listing: seq<string>, dpi: int, order: Ordering) {
    var files := RasterFiles(order, listing);
    && (files == [] ==> o == Failed(NoPngOutput))
    && (files != [] ==> (o.Converted? <==> ConversionSucceeds(env, input, output, files, dpi)))
    && (files != [] && o.Failed? ==> o == Failed(UnexpectedError))
    && (o.Converted? ==> AllLoad(env.load, files) && AssembledFrom(o.pages, o.sideImages, Loaded(env.load, files), dpi))
  }

  /**
   * In an assembled document every page is sized so that width x dpi = pixels x 72 (in
   * both directions), carries exactly one image filling its media box, no placed pixel is
   * near-white, and no two side images share a file name.
   */
  lemma AssembledPageFacts(pages: seq<Page>, side: seq<SideImage>, sources: seq<GrayImage>, dpi: int)
    requires AssembledFrom(pages, side, sources, dpi)
    ensures forall i :: 0 <= i < |pages| ==>
      && pages[i].mediabox.Width() * (dpi as real) == (sources[i].width as real) * PointsPerInch
      && pages[i].mediabox.Height() * (dpi as real) == (sources[i].height as real) * PointsPerInch
    ensures forall i :: 0 <= i < |pages| ==>
      pages[i].placements == [Placement(pages[i].mediabox, WithGrayBackground(sources[i]))]
    ensures forall i, k :: 0 <= i < |pages| && 0 <= k < |pages[i].placements[0].image.pixels| ==>
      pages[i].placements[0].image.pixels[k] < WhiteThreshold
    ensures forall i, j :: 0 <= i < j < |side| ==> side[i].name != side[j].name
  {
    forall i | 0 <= i < |pages|
      ensures pages[i].mediabox.Width() * (dpi as real) == (sources[i].width as real) * PointsPerInch
      ensures pages[i].mediabox.Height() * (dpi as real) == (sources[i].height as real) * PointsPerInch
      ensures pages[i].placements == [Placement(pages[i].mediabox, WithGrayBackground(sources[i]))]
      ensures forall k :: 0 <= k < |pages[i].placements[0].image.pixels| ==> pages[i].placements[0].image.pixels[k] < WhiteThreshold
    {
      PlacedPageFacts(sources[i], dpi);
    }
    forall i, j | 0 <= i < j < |side| ensures side[i].name != side[j].name {
      PageFileNameInjective(i + 1, j + 1);
    }
  }

  /** The page made for one source image. */
  lemma PlacedPageFacts(src: GrayImage, dpi: int)
    requires dpi != 0
    ensures var img := WithGrayBackground(src);
      var page := PlacedOn(BlankPage(A4Width, A4Height), img, dpi);
      && page.mediabox.Width() * (dpi as real) == (src.width as real) * PointsPerInch
      && page.mediabox.Height() * (dpi as real) == (src.height as real) * PointsPerInch
      && page.placements == [Placement(page.mediabox, img)]
      && forall k :: 0 <= k < |img.pixels| ==> img.pixels[k] < WhiteThreshold
  {
    WithGrayBackgroundFacts(src);
  }

  /**
   * Whatever order the directory is listed in, when Ghostscript wrote the `n` page files
   * of an n-page document the conversion succeeds exactly when n > 0 and steps 3 to 5 go
   * through, and page i then carries the image of page i + 1. For the script's lexical
   * sort this needs n <= 9999; for the length-first sort it holds for every n.
   */
  lemma ConversionFollowsPageOrder(o: Outcome, env: Environment, input: string, output: string,
                                   listing: seq<string>, n: nat, dpi: int, order: Ordering)
    requires FromListing(o, env, input, output, listing, dpi, order)
    requires multiset(listing) == multiset(PageNames(n))
    requires order.Lexical? ==> n <= 9999
    ensures n == 0 ==> o == Failed(NoPngOutput)
    ensures o.Converted? <==> n > 0 && ConversionSucceeds(env, input, output, PageNames(n), dpi)
    ensures o.Converted? ==> |o.pages| == n
    ensures o.Converted? ==> forall i :: 0 <= i < n ==> CarriesImageOf(o.pages[i], env.load, PageFileName(i + 1))
  {
    ListingSortsIntoPageOrder(order, listing, n);
    assert RasterFiles(order, listing) == PageNames(n);
    if o.Converted? {
      PagesCarryPageImages(o, env.load, n, dpi);
    }
  }

  /** A document assembled from the files of pages 1..n carries page i + 1's image on page i. */
  lemma PagesCarryPageImages(o: Outcome, load: string -> Option<GrayImage>, n: nat, dpi: int)
    requires o.Converted? && AllLoad(load, PageNames(n))
    requires AssembledFrom(o.pages, o.sideImages, Loaded(load, PageNames(n)), dpi)
    ensures |o.pages| == n
    ensures forall i :: 0 <= i < n ==> CarriesImageOf(o.pages[i], load, PageFileName(i + 1))
  {
    var files := PageNames(n);
    PagesCarryFileImages(o, load, files, dpi);
    forall i | 0 <= i < n ensures CarriesImageOf(o.pages[i], load, PageFileName(i + 1)) {
      assert files[i] == PageFileName(i + 1);
    }
  }

  /**
   * The script as written, on a 10000-page document: `sorted()` puts `page_10000.png`
   * after `page_1000.png`, so output page 1001 carries the image of page 10000, page 1002
   * that of page 1001, and the last page that of page 9999.
   */
  lemma ConversionMisordersPage10000(o: Outcome, env: Environment, input: string, output: string,
                                     listing: seq<string>, dpi: int)
    requires FromListing(o, env, input, output, listing, dpi, ScriptOrder)
    requires multiset(listing) == multiset(PageNames(10000))
    requires o.Converted?
    ensures |o.pages| == 10000
    ensures CarriesImageOf(o.pages[999], env.load, PageFileName(1000))
    ensures CarriesImageOf(o.pages[1000], env.load, PageFileName(10000))
    ensures CarriesImageOf(o.pages[1001], env.load, PageFileName(1001))
    ensures CarriesImageOf(o.pages[9999], env.load, PageFileName(9999))
  {
    LexicalSortOf10000Pages(listing);
    PagesCarryFileImages(o, env.load, RasterFiles(ScriptOrder, listing), dpi);
  }

  /** Page `page` carries exactly the processed image of file `name`, filling its media box. */
  predicate CarriesImageOf(page: Page, load: string -> Option<GrayImage>, name: string) {
    load(name).Some? && page.placements == [Placement(page.mediabox, WithGrayBackground(load(name).value))]
  }

  /** Page i of a converted document carries the processed image of the i-th sorted file. */
  lemma PagesCarryFileImages(o: Outcome, load: string -> Option<GrayImage>, files: seq<string>, dpi: int)
    requires o.Converted? && AllLoad(load, files)
    requires AssembledFrom(o.pages, o.sideImages, Loaded(load, files), dpi)
    ensures |o.pages| == |files|
    ensures forall i :: 0 <= i < |files| ==> CarriesImageOf(o.pages[i], load, files[i])
  {
    var sources := Loaded(load, files);
    AssembledPageFacts(o.pages, o.sideImages, sources, dpi);
    forall i | 0 <= i < |files|
      ensures CarriesImageOf(o.pages[i], load, files[i])
    {
      assert sources[i] == load(files[i]).value;
      assert o.pages[i].placements == [Placement(o.pages[i].mediabox, WithGrayBackground(sources[i]))];
    }
  }

  /** Step 2: one A4 page with the gray backdrop per PNG file. */
  method AddBlankPages(doc: Document, n: nat)
    modifies doc
    ensures doc.pages == old(doc.pages) + seq(n, _ => BlankPage(A4Width, A4Height))
  {
    var i := 0;
    while i < n
      invariant 0 <= i <= n
      invariant doc.pages == old(doc.pages) + seq(i, _ => BlankPage(A4Width, A4Height))
    {
      doc.NewPage(A4Width, A4Height);
      i := i + 1;
      assert seq(i, _ => BlankPage(A4Width, A4Height)) == seq(i - 1, _ => BlankPage(A4Width, A4Height)) + [BlankPage(A4Width, A4Height)];
    }
  }

  /** Step 3: decode each PNG and substitute its background, in file order. */
  method ProcessImages(load: string -> Option<GrayImage>, files: seq<string>) returns (images: Option<seq<GrayImage>>)
    ensures images.Some? <==> AllLoad(load, files)
    ensures images.Some? ==> |images.value| == |files|
    ensures images.Some? ==> forall k :: 0 <= k < |files| ==> images.value[k] == WithGrayBackground(load(files[k]).value)
  {
    var done: seq<GrayImage> := [];
    var i := 0;
    while i < |files|
      invariant 0 <= i <= |files|
      invariant |done| == i
      invariant forall k :: 0 <= k < i ==> load(files[k]).Some? && done[k] == WithGrayBackground(load(files[k]).value)
    {
      var loaded := load(files[i]);
      if loaded.None? {
        return None;
      }
      var img := loaded.value;
      var a := new Pixel[|img.pixels|](k requires 0 <= k < |img.pixels| => img.pixels[k]);
      assert a[..] == img.pixels;
      ReplaceWhiteBackground(a);
      done := done + [Raster(img.width, img.height, a[..])];
      i := i + 1;
    }
    return Some(done);
  }

  /**
   * Step 4: pages are resized to their images and the images inserted, in order. The
   * first image that cannot be placed (`width / dpi` divides by zero, or `set_mediabox`
   * rejects the empty page size) raises: the pages before it are done, the rest untouched.
   */
  method PlaceImages(doc: Document, images: seq<GrayImage>, dpi: int) returns (ok: bool)
    requires |doc.pages| == |images|
    modifies doc
    ensures ok <==> AllPlaceable(images, dpi)
    ensures |doc.pages| == |images|
    ensures ok ==> forall k :: 0 <= k < |images| ==> doc.pages[k] == PlacedOn(old(doc.pages)[k], images[k], dpi)
    ensures !ok ==> exists i ::
      && 0 <= i < |images|
      && !Placeable(images[i], dpi)
      && AllPlaceable(images[..i], dpi)
      && (forall k :: 0 <= k < i ==> doc.pages[k] == PlacedOn(old(doc.pages)[k], images[k], dpi))
      && (forall k :: i <= k < |images| ==> doc.pages[k] == old(doc.pages)[k])
  {
    var i := 0;
    while i < |images|
      invariant 0 <= i <= |images|
      invariant |doc.pages| == |images|
      invariant AllPlaceable(images[..i], dpi)
      invariant forall k :: 0 <= k < i ==> Placeable(images[k], dpi) && doc.pages[k] == PlacedOn(old(doc.pages)[k], images[k], dpi)
      invariant forall k :: i <= k < |images| ==> doc.pages[k] == old(doc.pages)[k]
    {
      if dpi == 0 {
        // `width / dpi` raises ZeroDivisionError before page i is touched
        assert !Placeable(images[i], dpi);
        return false;
      }
      var resized := doc.SetMediabox(i, ImageBox(images[i], dpi));
      if !resized {
        assert !Placeable(images[i], dpi);
        return false;
      }
      doc.InsertImage(i, images[i]);
      assert images[..i + 1] == images[..i] + [images[i]];
      i := i + 1;
    }
    assert images[..i] == images;
    return true;
  }

  /** The processed images can be placed exactly when the decoded ones can: they have the same size. */
  lemma ProcessedPlaceable(images: seq<GrayImage>, sources: seq<GrayImage>, dpi: int)
    requires |images| == |sources|
    requires forall k :: 0 <= k < |images| ==> images[k] == WithGrayBackground(sources[k])
    ensures AllPlaceable(images, dpi) <==> AllPlaceable(sources, dpi)
  {
    forall k | 0 <= k < |images| ensures Placeable(images[k], dpi) <==> Placeable(sources[k], dpi) {
      WithGrayBackgroundFacts(sources[k]);
    }
  }

  /** Blank pages with the processed images placed on them are the pages `AssembledPages` describes. */
  lemma PlacedPagesAssembled(blank: seq<Page>, pages: seq<Page>, images: seq<GrayImage>, sources: seq<GrayImage>, dpi: int)
    requires dpi != 0
    requires blank == [] + seq(|sources|, _ => BlankPage(A4Width, A4Height))
    requires |pages| == |images| == |sources|
    requires forall k :: 0 <= k < |images| ==> images[k] == WithGrayBackground(sources[k])
    requires forall k :: 0 <= k < |images| ==> pages[k] == PlacedOn(blank[k], images[k], dpi)
    ensures pages == AssembledPages(sources, dpi)
  {
  }

  /** Step 5: the side images are named `page_{i:04d}.png`, counting from 1. */
  method NameSideImages(images: seq<GrayImage>) returns (side: seq<SideImage>)
    ensures |side| == |images|
    ensures forall k :: 0 <= k < |images| ==> side[k] == SideImage(PageFileName(k + 1), images[k])
  {
    side := [];
    var i := 0;
    while i < |images|
      invariant 0 <= i <= |images|
      invariant |side| == i
      invariant forall k :: 0 <= k < i ==> side[k] == SideImage(PageFileName(k + 1), images[k])
    {
      side := side + [SideImage(PageFileName(i + 1), images[i])];
      i := i + 1;
    }
  }

  /**
   * What `convert_pdf_to_grayscale` returns: a missing input, no Ghostscript, a raising
   * probe, a rasteriser timeout and a non-zero rasteriser exit each fail with their own
   * reason, and a rasteriser run that exits 0 is decided by the listing it leaves.
   */
  predicate ConversionOutcome(o: Outcome, env: Environment, input: string, output: string, dpi: int, order: Ordering) {
    && (!env.fileExists(input) ==> o == Failed(InputMissing))
    && (env.fileExists(input) && FirstAnswering(Candidates, env.probe).NotFound? ==> o == Failed(GhostscriptMissing))
    && (env.fileExists(input) && FirstAnswering(Candidates, env.probe).ProbeRaised? ==> o == Failed(GhostscriptProbeRaised))
    && (env.fileExists(input) && FirstAnswering(Candidates, env.probe).Found? ==>
          var run := env.rasterise(FirstAnswering(Candidates, env.probe).command, input, dpi);
          && (run.RasteriserTimedOut? ==> o == Failed(RasterisationTimedOut))
          && (run.Finished? && run.exitCode != 0 ==> o == Failed(RasterisationFailed(run.exitCode)))
          && (run.Finished? && run.exitCode == 0 ==> FromListing(o, env, input, output, run.listing, dpi, order)))
  }

  /** `convert_pdf_to_grayscale(input_pdf, output_pdf, dpi)`, sorting the PNG files by `order`. */
  method ConvertPdfToGrayscale(env: Environment, input: string, output: string, dpi: int, order: Ordering) returns (o: Outcome)
    ensures ConversionOutcome(o, env, input, output, dpi, order)
  {
    if !env.fileExists(input) {
      return Failed(InputMissing);
    }
    var gs := CheckGhostscript(env.probe);
    if gs.ProbeRaised? {
      return Failed(GhostscriptProbeRaised);
    }
    if gs.NotFound? {
      return Failed(GhostscriptMissing);
    }
    var run := env.rasterise(gs.command, input, dpi);
    if run.RasteriserTimedOut? {
      return Failed(RasterisationTimedOut);
    }
    if run.exitCode != 0 {
      return Failed(RasterisationFailed(run.exitCode));
    }
    var files := RasterFiles(order, run.listing);
    if files == [] {
      return Failed(NoPngOutput);
    }
    o := AssembleDocument(env, input, output, files, dpi);
  }

  /** Steps 2 to 5 and the size report, once the sorted PNG list `files` is not empty. */
  method AssembleDocument(env: Environment, input: string, output: string, files: seq<string>, dpi: int) returns (o: Outcome)
    requires files != []
    ensures o.Converted? <==> ConversionSucceeds(env, input, output, files, dpi)
    ensures o.Failed? ==> o == Failed(UnexpectedError)
    ensures o.Converted? ==> AllLoad(env.load, files) && AssembledFrom(o.pages, o.sideImages, Loaded(env.load, files), dpi)
  {
    var doc := new Document();
    AddBlankPages(doc, |files|);
    var images := ProcessImages(env.load, files);
    if images.None? {
      return Failed(UnexpectedError);
    }
    ghost var sources := Loaded(env.load, files);
    ghost var blank := doc.pages;
    var placed := PlaceImages(doc, images.value, dpi);
    ProcessedPlaceable(images.value, sources, dpi);
    if !placed {
      return Failed(UnexpectedError);
    }
    assert Placeable(images.value[0], dpi);
    PlacedPagesAssembled(blank, doc.pages, images.value, sources, dpi);
    var saved := env.save(output, doc.pages);
    if !saved {
      return Failed(UnexpectedError);
    }
    var side := NameSideImages(images.value);
    if env.fileSize(input) == 0 {
      // `size_reduction` divides by `input_size_mb`, which is 0.0
      return Failed(UnexpectedError);
    }
    o := Converted(doc.pages, side);
  }

  /** The script run as a command: DPI check, Ghostscript check, then the conversion. */
  method ConversionCommand(env: Environment, input: string, output: string, dpi: int, order: Ordering) returns (exitCode: int, o: Outcome)
    ensures exitCode == ExitStatus(o)
    ensures !DpiAccepted(dpi) ==> o == Failed(InvalidDpi)
    ensures DpiAccepted(dpi) && FirstAnswering(Candidates, env.probe).NotFound? ==> o == Failed(GhostscriptMissing)
    ensures DpiAccepted(dpi) && FirstAnswering(Candidates, env.probe).ProbeRaised? ==> o == Failed(GhostscriptProbeRaised)
    ensures DpiAccepted(dpi) && FirstAnswering(Candidates, env.probe).Found? && !env.fileExists(input) ==> o == Failed(InputMissing)
    ensures DpiAccepted(dpi) && FirstAnswering(Candidates, env.probe).Found? ==> ConversionOutcome(o, env, input, output, dpi, order)
    ensures o.Converted? ==> DpiAccepted(dpi) && env.fileExists(input) && FirstAnswering(Candidates, env.probe).Found?
    ensures o.Converted? ==>
      var run := env.rasterise(FirstAnswering(Candidates, env.probe).command, input, dpi);
      run.Finished? && run.exitCode == 0 && FromListing(o, env, input, output, run.listing, dpi, order)
  {
    if dpi < MinDpi || dpi > MaxDpi {
      return 1, Failed(InvalidDpi);
    }
    var gs := CheckGhostscript(env.probe);
    if gs.ProbeRaised? {
      return 1, Failed(GhostscriptProbeRaised);
    }
    if gs.NotFound? {
      return 1, Failed(GhostscriptMissing);
    }
    o := ConvertPdfToGrayscale(env, input, output, dpi, order);
    exitCode := ExitStatus(o);
  }
}
