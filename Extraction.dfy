/** Document-to-text extraction (app.py:41-87): native PDF text, OCR of an
    uploaded image, and the policy that falls back from native PDF text to
    OCR of the rasterised pages. The PDF, raster and OCR libraries are
    parameters: each either returns its value or raises an exception whose
    message is all the model keeps of it. */
module Extraction {
  import opened Text

  type Bytes = seq<bv8>

  /** A decoded raster image (a rendered PDF page or an uploaded picture). */
  datatype Image = Image(pixels: Bytes)

  /** What a library call does: returns a value or raises with str(e). */
  datatype Outcome<T> = Done(value: T) | Raised(message: string)

  /** The foreign libraries, as functions of the document bytes. */
  datatype Libraries = Libraries(
    /** PyMuPDF: open the PDF and get_text() of every page, in page order. */
    pdfPageTexts: Bytes -> Outcome<seq<string>>,
    /** pdf2image.convert_from_bytes: one image per page, in page order. */
    rasterize: Bytes -> Outcome<seq<Image>>,
    /** pytesseract.image_to_string. */
    ocr: Image -> Outcome<string>,
    /** PIL.Image.open on the uploaded bytes. */
    openImage: Bytes -> Outcome<Image>)

  const PdfFailurePrefix := "Error extracting text from PDF: "
  const ImageFailurePrefix := "Error extracting text from image: "
  const OcrFailurePrefix := "Error processing PDF with OCR: "
  /** The prefix process_pdf_with_ocr takes to mean "extraction failed". */
  const FailureMarker := "Error"
  /** Native text whose stripped length is below this is deemed a scan. */
  const OcrThreshold := 100

  /** The page strings joined in order, as `text += page` builds them. */
  function Concat(pages: seq<string>): string {
    if pages == [] then "" else Concat(pages[..|pages| - 1]) + pages[|pages| - 1]
  }

  lemma {:induction false} ConcatAppend(a: seq<string>, b: seq<string>)
    ensures Concat(a + b) == Concat(a) + Concat(b)
    decreases |b|
  {
    if b == [] {
      assert a + b == a;
    } else {
      var c := b[..|b| - 1];
      assert (a + b)[..|a + b| - 1] == a + c;
      ConcatAppend(a, c);
    }
  }

  /** Page `k` appears whole in the joined text, right after the pages before
      it: joining loses nothing and keeps page order. */
  lemma PageInConcat(pages: seq<string>, k: nat)
    requires k < |pages|
    ensures var at := |Concat(pages[..k])|;
      at + |pages[k]| <= |Concat(pages)| && Concat(pages)[at..at + |pages[k]|] == pages[k]
  {
    assert pages == pages[..k] + [pages[k]] + pages[k + 1..];
    ConcatAppend(pages[..k] + [pages[k]], pages[k + 1..]);
    ConcatAppend(pages[..k], [pages[k]]);
    assert Concat([pages[k]]) == Concat([]) + pages[k];
  }

  /** The string extract_text_from_pdf returns for what PyMuPDF did. */
  function NativeText(read: Outcome<seq<string>>): string {
    match read
    case Done(pages) => Concat(pages)
    case Raised(m) => PdfFailurePrefix + m
  }

  /** extract_text_from_pdf (app.py:41-56): the page texts appended one by
      one; any exception becomes a string with the PDF failure prefix. */
  method ExtractTextFromPdf(libs: Libraries, pdf: Bytes) returns (text: string)
    ensures text == NativeText(libs.pdfPageTexts(pdf))
    ensures libs.pdfPageTexts(pdf).Raised? ==> StartsWith(text, PdfFailurePrefix)
  {
    match libs.pdfPageTexts(pdf)
    case Raised(m) =>
      text := PdfFailurePrefix + m;
      assert text[..|PdfFailurePrefix|] == PdfFailurePrefix;
    case Done(pages) =>
      text := "";
      var i := 0;
      while i < |pages|
        invariant 0 <= i <= |pages|
        invariant text == Concat(pages[..i])
      {
        assert pages[..i + 1][..i] == pages[..i];
        text := text + pages[i];
        i := i + 1;
      }
      assert pages[..i] == pages;
  }

  /** extract_text_from_image (app.py:58-65): the OCR text of the decoded
      image, or the image failure prefix and the message of whichever of
      decoding or OCR raised first. */
  function ImageText(libs: Libraries, upload: Bytes): (r: string)
    ensures libs.openImage(upload).Raised? ==>
      r == ImageFailurePrefix + libs.openImage(upload).message
    ensures libs.openImage(upload).Done? ==>
      var read := libs.ocr(libs.openImage(upload).value);
      r == if read.Done? then read.value else ImageFailurePrefix + read.message
  {
    match libs.openImage(upload)
    case Raised(m) => ImageFailurePrefix + m
    case Done(image) =>
      match libs.ocr(image)
      case Done(t) => t
      case Raised(m) => ImageFailurePrefix + m
  }

  /** The test at app.py:73: OCR is tried when the stripped native text is
      short and the text does not begin with "Error". */
  predicate NeedsOcr(native: string) {
    |Strip(native)| < OcrThreshold && !StartsWith(native, FailureMarker)
  }

  /** The OCR loop at app.py:79-81 over the page images: their texts joined
      in order, or the message of the first page whose OCR raised. */
  function OcrPages(libs: Libraries, images: seq<Image>): Outcome<string> {
    if images == [] then Done("")
    else
      match OcrPages(libs, images[..|images| - 1])
      case Raised(m) => Raised(m)
      case Done(t) =>
        match libs.ocr(images[|images| - 1])
        case Done(u) => Done(t + u)
        case Raised(m) => Raised(m)
  }

  /** The texts OCR gives for each page, when no page raises. */
  function PageTexts(libs: Libraries, images: seq<Image>): (texts: seq<string>)
    requires forall i :: 0 <= i < |images| ==> libs.ocr(images[i]).Done?
    ensures |texts| == |images|
  {
    seq(|images|, i requires 0 <= i < |images| => libs.ocr(images[i]).value)
  }

  /** When every page's OCR succeeds, the OCR text is the page texts joined
      in page order. */
  lemma {:induction false} OcrPagesAllDone(libs: Libraries, images: seq<Image>)
    requires forall i :: 0 <= i < |images| ==> libs.ocr(images[i]).Done?
    ensures OcrPages(libs, images) == Done(Concat(PageTexts(libs, images)))
    decreases |images|
  {
    if images != [] {
      var front := images[..|images| - 1];
      OcrPagesAllDone(libs, front);
      assert PageTexts(libs, images)[..|images| - 1] == PageTexts(libs, front);
    }
  }

  /** When page `k` is the first whose OCR raises, the loop stops there with
      that page's message. */
  lemma {:induction false} OcrPagesFirstFailure(libs: Libraries, images: seq<Image>, k: nat)
    requires k < |images| && libs.ocr(images[k]).Raised?
    requires forall i :: 0 <= i < k ==> libs.ocr(images[i]).Done?
    ensures OcrPages(libs, images) == Raised(libs.ocr(images[k]).message)
    decreases |images|
  {
    var front := images[..|images| - 1];
    if k == |images| - 1 {
      OcrPagesAllDone(libs, front);
    } else {
      assert front[k] == images[k];
      OcrPagesFirstFailure(libs, front, k);
    }
  }

  /** Once the pages up to `n` have raised, the later pages change nothing. */
  lemma {:induction false} OcrPagesPrefixRaised(libs: Libraries, images: seq<Image>, n: nat)
    requires n <= |images| && OcrPages(libs, images[..n]).Raised?
    ensures OcrPages(libs, images) == OcrPages(libs, images[..n])
    decreases |images| - n
  {
    if n < |images| {
      assert images[..n + 1][..n] == images[..n];
      OcrPagesPrefixRaised(libs, images, n + 1);
    } else {
      assert images[..n] == images;
    }
  }

  /** process_pdf_with_ocr (app.py:67-87) as a whole. */
  function PdfPolicy(libs: Libraries, pdf: Bytes): string {
    var native := NativeText(libs.pdfPageTexts(pdf));
    if !NeedsOcr(native) then native
    else
      match libs.rasterize(pdf)
      case Raised(m) => OcrFailurePrefix + m
      case Done(images) =>
        match OcrPages(libs, images)
        case Raised(m) => OcrFailurePrefix + m
        case Done(o) => if Strip(o) != [] then o else native
  }

  /** process_pdf_with_ocr (app.py:67-87): native text first; rasterisation
      and per-page OCR only when NeedsOcr holds of it. `ocrInvoked` tells
      whether the raster and OCR libraries were called at all. */
  method ProcessPdfWithOcr(libs: Libraries, pdf: Bytes) returns (text: string, ocrInvoked: bool)
    ensures text == PdfPolicy(libs, pdf)
    ensures ocrInvoked == NeedsOcr(NativeText(libs.pdfPageTexts(pdf)))
  {
    var native := ExtractTextFromPdf(libs, pdf);
    text, ocrInvoked := native, false;
    if |Strip(native)| < OcrThreshold && !StartsWith(native, FailureMarker) {
      ocrInvoked := true;
      match libs.rasterize(pdf)
      case Raised(m) =>
        text := OcrFailurePrefix + m;
      case Done(images) =>
        var ocrText := "";
        var i := 0;
        while i < |images|
          invariant 0 <= i <= |images|
          invariant OcrPages(libs, images[..i]) == Done(ocrText)
        {
          assert images[..i + 1][..i] == images[..i];
          match libs.ocr(images[i])
          case Raised(m) =>
            OcrPagesPrefixRaised(libs, images, i + 1);
            return OcrFailurePrefix + m, ocrInvoked;
          case Done(t) =>
            ocrText := ocrText + t;
          i := i + 1;
        }
        assert images[..i] == images;
        text := if Strip(ocrText) != [] then ocrText else native;
    }
  }

  /** A native text that begins with "Error", or whose stripped length is at
      least the threshold, is returned unchanged, and what the raster and OCR
      libraries would do has no bearing on the result. */
  lemma NativeTextKept(libs: Libraries, other: Libraries, pdf: Bytes)
    requires other.pdfPageTexts(pdf) == libs.pdfPageTexts(pdf)
    requires var native := NativeText(libs.pdfPageTexts(pdf));
      StartsWith(native, FailureMarker) || |Strip(native)| >= OcrThreshold
    ensures PdfPolicy(libs, pdf) == NativeText(libs.pdfPageTexts(pdf))
    ensures PdfPolicy(other, pdf) == PdfPolicy(libs, pdf)
  {
  }

  /** A PDF the PDF library cannot read yields the PDF failure string, and
      no OCR is tried on it. */
  lemma UnreadablePdf(libs: Libraries, pdf: Bytes)
    requires libs.pdfPageTexts(pdf).Raised?
    ensures PdfPolicy(libs, pdf) == PdfFailurePrefix + libs.pdfPageTexts(pdf).message
    ensures !NeedsOcr(NativeText(libs.pdfPageTexts(pdf)))
  {
    var text := NativeText(libs.pdfPageTexts(pdf));
    assert text[..|FailureMarker|] == FailureMarker;
  }

  /** When rasterising the pages raises after short native text, the
      result is the OCR failure prefix and that message. */
  lemma RasterFailureSurfaced(libs: Libraries, pdf: Bytes)
    requires NeedsOcr(NativeText(libs.pdfPageTexts(pdf)))
    requires libs.rasterize(pdf).Raised?
    ensures PdfPolicy(libs, pdf) == OcrFailurePrefix + libs.rasterize(pdf).message
  {
  }

  /** Short, non-"Error" native text with every page OCRed: the pages' OCR
      texts joined in order if that is not blank, else the native text. */
  lemma ShortTextUsesOcr(libs: Libraries, pdf: Bytes)
    requires NeedsOcr(NativeText(libs.pdfPageTexts(pdf)))
    requires libs.rasterize(pdf).Done?
    requires var images := libs.rasterize(pdf).value;
      forall i :: 0 <= i < |images| ==> libs.ocr(images[i]).Done?
    ensures var ocrText := Concat(PageTexts(libs, libs.rasterize(pdf).value));
      PdfPolicy(libs, pdf) ==
        if Strip(ocrText) != [] then ocrText else NativeText(libs.pdfPageTexts(pdf))
  {
    OcrPagesAllDone(libs, libs.rasterize(pdf).value);
  }

  /** A raster or OCR failure after short native text surfaces as the OCR
      failure prefix and that failure's message. */
  lemma OcrFailureSurfaced(libs: Libraries, pdf: Bytes, k: nat)
    requires NeedsOcr(NativeText(libs.pdfPageTexts(pdf)))
    requires libs.rasterize(pdf).Done?
    requires var images := libs.rasterize(pdf).value;
      k < |images| && libs.ocr(images[k]).Raised? &&
      forall i :: 0 <= i < k ==> libs.ocr(images[i]).Done?
    ensures PdfPolicy(libs, pdf) ==
      OcrFailurePrefix + libs.ocr(libs.rasterize(pdf).value[k]).message
  {
    OcrPagesFirstFailure(libs, libs.rasterize(pdf).value, k);
  }
}
