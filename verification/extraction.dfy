/** `extract_pdf_content` (app.py): one page record per page of the document,
    numbered from 1, holding the page's text and the Base64 text of each of its
    embedded images in the order the PDF library lists them.

    The PDF library itself (opening the byte stream, `get_text`, `get_images`,
    `extract_image`) is not modelled: its answer for a document is the input
    sequence of RawPage values. */
module Extraction {
  import opened Results
  import opened Base64

  /** An embedded image as the library extracts it: the stored bytes and the
      file extension the library reports. Extraction uses only the bytes. */
  datatype RawImage = RawImage(data: seq<byte>, ext: string)

  /** A page as the library reports it: its plain text and its images in
      discovery order. */
  datatype RawPage = RawPage(text: string, images: seq<RawImage>)

  /** One entry of the `pages` list: `{"page_number", "text", "images"}`. */
  datatype PageRecord = PageRecord(pageNumber: nat, text: string, images: seq<string>)

  /** The `{"pages": [...]}` record handed to both renderers. */
  datatype Document = Document(pages: seq<PageRecord>)

  /** The inner loop: each image's bytes Base64-encoded, in order. */
  function EncodeImages(images: seq<RawImage>): (r: seq<string>)
    ensures |r| == |images|
    ensures forall k :: 0 <= k < |images| ==> r[k] == Encode(images[k].data)
  {
    if |images| == 0 then [] else [Encode(images[0].data)] + EncodeImages(images[1..])
  }

  /** The outer loop from the page numbered `first` on. */
  function ExtractPages(pages: seq<RawPage>, first: nat): (r: seq<PageRecord>)
    ensures |r| == |pages|
    ensures forall i :: 0 <= i < |pages| ==>
      r[i].pageNumber == first + i && r[i].text == pages[i].text && r[i].images == EncodeImages(pages[i].images)
  {
    if |pages| == 0 then []
    else [PageRecord(first, pages[0].text, EncodeImages(pages[0].images))] + ExtractPages(pages[1..], first + 1)
  }

  /** The pages of a document are numbered 1, 2, ... in order, with no gaps. */
  predicate NumberedFromOne(doc: Document) {
    forall i :: 0 <= i < |doc.pages| ==> doc.pages[i].pageNumber == i + 1
  }

  /** Every image of every page is a well-formed Base64 text. */
  predicate ImagesAreBase64(doc: Document) {
    forall i, k :: 0 <= i < |doc.pages| && 0 <= k < |doc.pages[i].images| ==>
      Decode(doc.pages[i].images[k]).Some?
  }

  /** `extract_pdf_content(pdf_bytes)` for a document whose pages the library
      reports as `pages`. */
  function ExtractPdfContent(pages: seq<RawPage>): (doc: Document)
    ensures |doc.pages| == |pages|
    ensures NumberedFromOne(doc)
    ensures forall i :: 0 <= i < |pages| ==>
      && doc.pages[i].text == pages[i].text
      && |doc.pages[i].images| == |pages[i].images|
      && (forall k :: 0 <= k < |pages[i].images| ==> doc.pages[i].images[k] == Encode(pages[i].images[k].data))
  {
    Document(ExtractPages(pages, 1))
  }

  /** The content of a page that survives extraction: the text and the image
      bytes (the reported extension is dropped). */
  datatype PageContent = PageContent(text: string, imageData: seq<seq<byte>>)

  function DataOf(images: seq<RawImage>): (ds: seq<seq<byte>>)
    ensures |ds| == |images|
    ensures forall k :: 0 <= k < |images| ==> ds[k] == images[k].data
  {
    if |images| == 0 then [] else [images[0].data] + DataOf(images[1..])
  }

  function ContentOf(p: RawPage): PageContent {
    PageContent(p.text, DataOf(p.images))
  }

  function Contents(pages: seq<RawPage>): (cs: seq<PageContent>)
    ensures |cs| == |pages|
    ensures forall i :: 0 <= i < |pages| ==> cs[i] == ContentOf(pages[i])
  {
    if |pages| == 0 then [] else [ContentOf(pages[0])] + Contents(pages[1..])
  }

  function DecodeImages(images: seq<string>): Option<seq<seq<byte>>> {
    if |images| == 0 then Some([])
    else match (Decode(images[0]), DecodeImages(images[1..]))
      case (Some(d), Some(ds)) => Some([d] + ds)
      case _ => None
  }

  /** Reads a document back into page contents, failing if an image is not
      well-formed Base64. */
  function Recover(doc: Document): Option<seq<PageContent>>
    decreases |doc.pages|
  {
    if |doc.pages| == 0 then Some([])
    else
      var p := doc.pages[0];
      match (DecodeImages(p.images), Recover(Document(doc.pages[1..])))
      case (Some(ds), Some(rest)) => Some([PageContent(p.text, ds)] + rest)
      case _ => None
  }

  lemma {:induction false} DecodeEncodeImages(images: seq<RawImage>)
    ensures DecodeImages(EncodeImages(images)) == Some(DataOf(images))
    decreases |images|
  {
    if |images| > 0 {
      var e := EncodeImages(images);
      DecodeEncode(images[0].data);
      DecodeEncodeImages(images[1..]);
      assert e[1..] == EncodeImages(images[1..]);
    }
  }

  lemma {:induction false} RecoverPages(pages: seq<RawPage>, first: nat)
    ensures Recover(Document(ExtractPages(pages, first))) == Some(Contents(pages))
    decreases |pages|
  {
    if |pages| > 0 {
      var r := ExtractPages(pages, first);
      DecodeEncodeImages(pages[0].images);
      RecoverPages(pages[1..], first + 1);
      assert r[1..] == ExtractPages(pages[1..], first + 1);
    }
  }

  /** Nothing the library reported is lost: reading the extracted document
      back yields every page's text and every image's exact bytes, in order. */
  lemma RecoverExtract(pages: seq<RawPage>)
    ensures Recover(ExtractPdfContent(pages)) == Some(Contents(pages))
  {
    RecoverPages(pages, 1);
  }

  /** Library images carrying the given bytes (the extension is immaterial). */
  function ImagesOf(ds: seq<seq<byte>>): (images: seq<RawImage>)
    ensures DataOf(images) == ds
  {
    if |ds| == 0 then [] else [RawImage(ds[0], "")] + ImagesOf(ds[1..])
  }

  /** Library pages carrying the given contents. */
  function PagesOf(cs: seq<PageContent>): (pages: seq<RawPage>)
    ensures Contents(pages) == cs
  {
    if |cs| == 0 then [] else [RawPage(cs[0].text, ImagesOf(cs[0].imageData))] + PagesOf(cs[1..])
  }

  lemma {:induction false} EncodeDecodeImages(images: seq<string>)
    requires DecodeImages(images).Some?
    ensures EncodeImages(ImagesOf(DecodeImages(images).value)) == images
    decreases |images|
  {
    if |images| > 0 {
      EncodeDecode(images[0]);
      EncodeDecodeImages(images[1..]);
    }
  }

  lemma {:induction false} ExtractRecoverFrom(doc: Document, first: nat)
    requires forall i :: 0 <= i < |doc.pages| ==> doc.pages[i].pageNumber == first + i
    requires Recover(doc).Some?
    ensures ExtractPages(PagesOf(Recover(doc).value), first) == doc.pages
    decreases |doc.pages|
  {
    if |doc.pages| > 0 {
      var p, tail := doc.pages[0], Document(doc.pages[1..]);
      var ds, cs' := DecodeImages(p.images).value, Recover(tail).value;
      EncodeDecodeImages(p.images);
      ExtractRecoverFrom(tail, first + 1);
      assert Recover(doc).value == [PageContent(p.text, ds)] + cs';
      var raw := PagesOf([PageContent(p.text, ds)] + cs');
      assert raw == [RawPage(p.text, ImagesOf(ds))] + PagesOf(cs');
      ExtractPagesCons(RawPage(p.text, ImagesOf(ds)), PagesOf(cs'), first);
      assert doc.pages == [p] + tail.pages;
    }
  }

  lemma ExtractPagesCons(page: RawPage, pages: seq<RawPage>, first: nat)
    ensures ExtractPages([page] + pages, first)
      == [PageRecord(first, page.text, EncodeImages(page.images))] + ExtractPages(pages, first + 1)
  {
    assert ([page] + pages)[1..] == pages;
  }

  /** Conversely, every document numbered from 1 whose images are all
      well-formed Base64 is the extraction of the pages it records: extraction
      reaches exactly such documents. */
  lemma ExtractRecover(doc: Document)
    requires NumberedFromOne(doc) && Recover(doc).Some?
    ensures ExtractPdfContent(PagesOf(Recover(doc).value)) == doc
  {
    ExtractRecoverFrom(doc, 1);
  }

  /** Every image text in an extracted document is canonical Base64 of the
      length and padding RFC 4648 prescribes for its bytes. */
  lemma ExtractedImagesPadded(pages: seq<RawPage>)
    ensures var doc := ExtractPdfContent(pages);
      forall i, k :: 0 <= i < |pages| && 0 <= k < |pages[i].images| ==>
        PaddedFor(doc.pages[i].images[k], |pages[i].images[k].data|)
  {
    forall i, k | 0 <= i < |pages| && 0 <= k < |pages[i].images|
      ensures PaddedFor(Encode(pages[i].images[k].data), |pages[i].images[k].data|)
    {
      EncodePadded(pages[i].images[k].data);
    }
  }

  /** Extraction depends on an image's bytes only, not on the format the
      library reports for it. */
  lemma ExtractIgnoresFormat(a: seq<RawPage>, b: seq<RawPage>)
    requires Contents(a) == Contents(b)
    ensures ExtractPdfContent(a) == ExtractPdfContent(b)
  {
    var da, db := ExtractPdfContent(a), ExtractPdfContent(b);
    forall i | 0 <= i < |a| ensures da.pages[i] == db.pages[i] {
      assert ContentOf(a[i]) == ContentOf(b[i]);
      assert EncodeImages(a[i].images) == EncodeImages(b[i].images);
    }
  }
}
