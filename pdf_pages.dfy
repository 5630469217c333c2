/**
 * The output document the grayscale conversion assembles with PyMuPDF: a list of pages,
 * each with a media box, the gray backdrop drawn when the page was created, and the
 * images placed on it. Only the state the script touches is modelled.
 */
module PdfPages {
  import opened Pixels

  /** A rectangle in PDF points, `fitz.Rect(x0, y0, x1, y1)`. */
  datatype Rect = Rect(x0: real, y0: real, x1: real, y1: real) {
    function Width(): real { x1 - x0 }
    function Height(): real { y1 - y0 }

    /** PyMuPDF's `Rect.is_empty`: no area, or corners in the wrong order. */
    predicate IsEmpty() { x1 <= x0 || y1 <= y0 }
  }

  /** `new_page(width=595, height=842)`: A4 in points. */
  const A4Width: real := 595.0
  const A4Height: real := 842.0
  const PointsPerInch: real := 72.0

  /** The fill of the backdrop: 0.85 on each of R, G and B, i.e. 15% gray. */
  const BackdropGray: real := 0.85

  /** An image drawn on a page, `insert_image(rect, stream=...)`. */
  datatype Placement = Placement(rect: Rect, image: GrayImage)

  /** A filled rectangle drawn beneath all content (`commit(overlay=False)`). */
  datatype Backdrop = Backdrop(rect: Rect, gray: real)

  /** `placements` lists the images drawn over the backdrop, in drawing order. */
  datatype Page = Page(mediabox: Rect, backdrop: Backdrop, placements: seq<Placement>)

  /** A page as `NewPage` leaves it: backdrop over the whole page, nothing drawn yet. */
  function BlankPage(width: real, height: real): Page {
    Page(Rect(0.0, 0.0, width, height), Backdrop(Rect(0.0, 0.0, width, height), BackdropGray), [])
  }

  /** `fitz.open()` with no file: a document whose pages the script adds and edits. */
  class Document {
    var pages: seq<Page>

    constructor ()
      ensures pages == []
    {
      pages := [];
    }

    /** `new_page(width, height)` followed by drawing the gray backdrop over `page.rect`. */
    method NewPage(width: real, height: real)
      modifies this
      ensures pages == old(pages) + [BlankPage(width, height)]
      ensures pages[|pages| - 1].backdrop == Backdrop(pages[|pages| - 1].mediabox, BackdropGray)
      ensures pages[|pages| - 1].placements == []
    {
      pages := pages + [BlankPage(width, height)];
    }

    /**
     * `page.set_mediabox(r)` on page `i`. PyMuPDF raises `ValueError` for an empty
     * rectangle and leaves the page alone; `ok` is false then.
     */
    method SetMediabox(i: nat, r: Rect) returns (ok: bool)
      requires i < |pages|
      modifies this
      ensures ok <==> !r.IsEmpty()
      ensures ok ==> pages == old(pages)[i := old(pages)[i].(mediabox := r)]
      ensures !ok ==> pages == old(pages)
    {
      if r.IsEmpty() {
        return false;
      }
      pages := pages[i := pages[i].(mediabox := r)];
      return true;
    }

    /** `page.insert_image(page.rect, ...)` on page `i`: the image fills the media box. */
    method InsertImage(i: nat, img: GrayImage)
      requires i < |pages|
      modifies this
      ensures pages == old(pages)[i := old(pages)[i].(placements := old(pages)[i].placements + [Placement(old(pages)[i].mediabox, img)])]
    {
      var page := pages[i];
      pages := pages[i := page.(placements := page.placements + [Placement(page.mediabox, img)])];
    }
  }

  /** `(pixels / dpi) * 72`: the length in points of `pixels` pixels printed at `dpi`. */
  function PointsFromPixels(pixels: nat, dpi: int): (points: real)
    requires dpi != 0
    ensures points * (dpi as real) == (pixels as real) * PointsPerInch
    ensures points > 0.0 <==> dpi > 0 && pixels > 0
  {
    var d := dpi as real;
    var p := pixels as real;
    assert (p / d) * d == p;
    assert d < 0.0 ==> p / d == -(p / -d);
    (p / d) * PointsPerInch
  }

  /** At 72 dpi one pixel is one point. */
  lemma PointsAt72Dpi(pixels: nat)
    ensures PointsFromPixels(pixels, 72) == pixels as real
  {
  }

  /** The media box a page gets for an image: the image's physical size at `dpi`. */
  function ImageBox(img: GrayImage, dpi: int): (r: Rect)
    requires dpi != 0
    ensures r.x0 == 0.0 && r.y0 == 0.0
    ensures r.Width() * (dpi as real) == (img.width as real) * PointsPerInch
    ensures r.Height() * (dpi as real) == (img.height as real) * PointsPerInch
    ensures r.IsEmpty() <==> !(dpi > 0 && img.width > 0 && img.height > 0)
  {
    Rect(0.0, 0.0, PointsFromPixels(img.width, dpi), PointsFromPixels(img.height, dpi))
  }
}
