/**
 * `imagesToOriginalSizePdf`: a jsPDF document in pixel units receives one
 * page per image, sized to the image, with the image drawn over the whole
 * page.  The document is modelled by the list of its pages.
 */
module ImagePdf {

  /** An `HTMLImageElement`: its natural size and the URL it was loaded from. */
  datatype Image = Image(width: nat, height: nat, src: string)

  datatype Orientation = Portrait | Landscape

  /** The page format: jsPDF's default (A4) or an explicit `[width, height]`. */
  datatype Format = A4 | Size(width: nat, height: nat)

  /** `'FAST'` or `'NONE'` */
  datatype Compression = Fast | NoCompression

  /** One `addImage` call: the image and the rectangle it is drawn into. */
  datatype Placement = Placement(image: Image, x: int, y: int, width: nat, height: nat, compression: Compression)

  datatype Page = Page(format: Format, orientation: Orientation, placements: seq<Placement>)

  /** The options object; its default is `{ unit: 'px', compress: true }`. */
  datatype Options = Options(unit: string, compress: bool)

  const DefaultOptions := Options("px", true)

  /**
   * Which of the two jsPDF calls inside the `try` throws for an image:
   * none, `addPage` (nothing is added) or `addImage` (the page was already
   * added and stays blank).
   */
  datatype Fault = NoFault | PageFault | ImageFault

  /** The page `new jsPDF({ unit: "px" })` starts with. */
  const InitialPage := Page(A4, Portrait, [])

  /** `img.width > img.height ? 'landscape' : 'portrait'` */
  function OrientationOf(width: nat, height: nat): (o: Orientation)
    ensures o == Landscape <==> width > height
  {
    if width > height then Landscape else Portrait
  }

  function CompressionOf(options: Options): (c: Compression)
    ensures c == Fast <==> options.compress
  {
    if options.compress then Fast else NoCompression
  }

  /** The page `addPage` creates for an image, before anything is drawn on it. */
  function BlankPage(img: Image): (p: Page)
    ensures p.format == Size(img.width, img.height)
    ensures p.placements == []
  {
    Page(Size(img.width, img.height), OrientationOf(img.width, img.height), [])
  }

  /** The page for an image once `addImage` has drawn it at (0, 0) at its own size. */
  function FullPage(img: Image, options: Options): (p: Page)
    ensures p.format == Size(img.width, img.height)
    ensures p.orientation == Landscape <==> img.width > img.height
    ensures p.placements == [Placement(img, 0, 0, img.width, img.height, CompressionOf(options))]
  {
    var blank := BlankPage(img);
    blank.(placements := [Placement(img, 0, 0, img.width, img.height, CompressionOf(options))])
  }

  /** What one pass of the loop adds for an image. */
  function PagesOf(img: Image, options: Options, fault: Image -> Fault): (r: seq<Page>)
    ensures fault(img) == PageFault <==> r == []
    ensures |r| <= 1
  {
    match fault(img)
    case NoFault => [FullPage(img, options)]
    case ImageFault => [BlankPage(img)]
    case PageFault => []
  }

  /** The pages the loop appends after the initial page, image by image. */
  function ImagePages(images: seq<Image>, options: Options, fault: Image -> Fault): seq<Page> {
    if |images| == 0 then []
    else ImagePages(images[..|images| - 1], options, fault) + PagesOf(images[|images| - 1], options, fault)
  }

  class PdfDocument {
    var pages: seq<Page>

    /** `new jsPDF({ unit: "px" })` */
    constructor ()
      ensures pages == [InitialPage]
    {
      pages := [InitialPage];
    }

    /** `doc.addPage([width, height], orientation)`: a new, current, blank page. */
    method AddPage(format: Format, orientation: Orientation)
      modifies this
      ensures pages == old(pages) + [Page(format, orientation, [])]
    {
      pages := pages + [Page(format, orientation, [])];
    }

    /** `doc.addImage(...)`: draws on the current (last) page. */
    method AddImage(placement: Placement)
      requires |pages| > 0
      modifies this
      ensures |pages| == |old(pages)|
      ensures pages[..|pages| - 1] == old(pages)[..|pages| - 1]
      ensures var last := old(pages)[|pages| - 1];
        pages[|pages| - 1] == last.(placements := last.placements + [placement])
    {
      var last := pages[|pages| - 1];
      pages := pages[..|pages| - 1] + [last.(placements := last.placements + [placement])];
    }
  }

  /**
   * The document `imagesToOriginalSizePdf` returns: the initial page and
   * then, for each image in order, the page the loop produced for it.
   */
  method ImagesToOriginalSizePdf(images: seq<Image>, options: Options, fault: Image -> Fault)
    returns (blob: seq<Page>)
    ensures blob == [InitialPage] + ImagePages(images, options, fault)
  {
    var doc := new PdfDocument();
    for i := 0 to |images|
      invariant doc.pages == [InitialPage] + ImagePages(images[..i], options, fault)
    {
      var img := images[i];
      assert images[..i + 1][..i] == images[..i];
      ghost var next := [InitialPage] + ImagePages(images[..i + 1], options, fault);
      assert next == doc.pages + PagesOf(img, options, fault);
      var width := img.width;
      var height := img.height;
      if fault(img) == PageFault {
        continue;
      }
      doc.AddPage(Size(width, height), OrientationOf(width, height));
      if fault(img) == ImageFault {
        continue;
      }
      doc.AddImage(Placement(img, 0, 0, width, height, CompressionOf(options)));
      assert doc.pages == doc.pages[..|doc.pages| - 1] + [doc.pages[|doc.pages| - 1]];
      assert doc.pages[|doc.pages| - 1] == FullPage(img, options);
    }
    assert images[..|images|] == images;
    blob := doc.pages;
  }

  /** Pages of a concatenation are the pages of each part: one image's failure never affects another's. */
  lemma {:induction false} PagesAppend(a: seq<Image>, b: seq<Image>, options: Options, fault: Image -> Fault)
    ensures ImagePages(a + b, options, fault) == ImagePages(a, options, fault) + ImagePages(b, options, fault)
    decreases |b|
  {
    if |b| > 0 {
      var b' := b[..|b| - 1];
      assert (a + b)[..|a + b| - 1] == a + b';
      assert (a + b)[|a + b| - 1] == b[|b| - 1];
      PagesAppend(a, b', options, fault);
    } else {
      assert a + b == a;
    }
  }

  /** The pages of a single image. */
  lemma SinglePages(img: Image, options: Options, fault: Image -> Fault)
    ensures fault(img) == NoFault ==> ImagePages([img], options, fault) == [FullPage(img, options)]
    ensures fault(img) == ImageFault ==> ImagePages([img], options, fault) == [BlankPage(img)]
    ensures fault(img) == PageFault ==> ImagePages([img], options, fault) == []
  {
    assert [img][..0] == [];
  }

  /** An image whose `addPage` throws is skipped, and only that image. */
  lemma SkipFailedImage(before: seq<Image>, img: Image, after: seq<Image>, options: Options, fault: Image -> Fault)
    requires fault(img) == PageFault
    ensures ImagePages(before + [img] + after, options, fault) == ImagePages(before + after, options, fault)
  {
    PagesAppend(before + [img], after, options, fault);
    PagesAppend(before, [img], options, fault);
    PagesAppend(before, after, options, fault);
    SinglePages(img, options, fault);
  }

  /** Without failures there is one page per image, in order, each the image's full page. */
  lemma {:induction false} OnePagePerImage(images: seq<Image>, options: Options, fault: Image -> Fault)
    requires forall k :: 0 <= k < |images| ==> fault(images[k]) == NoFault
    ensures |ImagePages(images, options, fault)| == |images|
    ensures forall k :: 0 <= k < |images| ==> ImagePages(images, options, fault)[k] == FullPage(images[k], options)
  {
    if |images| > 0 {
      var prefix := images[..|images| - 1];
      assert forall k :: 0 <= k < |prefix| ==> prefix[k] == images[k];
      OnePagePerImage(prefix, options, fault);
    }
  }

  /** Under the default options every image is drawn with `'FAST'` compression. */
  lemma DefaultIsFast(img: Image)
    ensures FullPage(img, DefaultOptions).placements[0].compression == Fast
  {
  }

  /** A 100x200 image and then a 300x150 image: a portrait page and then a landscape page after the initial page. */
  lemma TwoImages(tall: Image, wide: Image, fault: Image -> Fault)
    requires tall.width == 100 && tall.height == 200 && wide.width == 300 && wide.height == 150
    requires fault(tall) == NoFault && fault(wide) == NoFault
    ensures var doc := [InitialPage] + ImagePages([tall, wide], DefaultOptions, fault);
      && |doc| == 3
      && doc[1].format == Size(100, 200) && doc[1].orientation == Portrait
      && doc[2].format == Size(300, 150) && doc[2].orientation == Landscape
  {
    OnePagePerImage([tall, wide], DefaultOptions, fault);
  }
}
