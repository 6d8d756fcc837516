/** `generate_markdown` (app.py): for each page in order, a level-2 heading
    with the page number, the page text, and one inline image per embedded
    image, numbered from 1 within the page, as a `data:` URI whose media type
    is always `image/png`, whatever the stored format of the image. */
module Markdown {
  import opened Base64
  import opened Decimal
  import opened Extraction
  import opened Strings

  /** The data-URI prefix of every image reference: the media type is fixed. */
  const DataUriPrefix: string := "data:image/png;base64,"

  /** `f"## Page {page_number}\n\n"`. */
  function Heading(n: nat): string {
    "## Page " + NatToString(n) + "\n\n"
  }

  /** `f"![Image {idx}](data:image/png;base64,{img_base64})\n\n"`. */
  function ImageLine(idx: nat, b64: string): string {
    "![Image " + NatToString(idx) + "](" + DataUriPrefix + b64 + ")\n\n"
  }

  /** The image lines of one page, numbered from `first`. */
  function ImageLines(images: seq<string>, first: nat): string {
    ConcatNumbered(ImageLine, images, first)
  }

  /** Everything one iteration of the outer loop appends for a page. */
  function PageBlock(p: PageRecord): string {
    Heading(p.pageNumber) + p.text + "\n\n" + ImageLines(p.images, 1)
  }

  /** The page blocks of `pages`, in order. */
  function Render(pages: seq<PageRecord>): string {
    ConcatMap(PageBlock, pages)
  }

  /** A heading is the marker `## Page `, the page number in decimal, which
      reads back as that number, and a blank line. */
  lemma HeadingNumber(n: nat)
    ensures var h := Heading(n);
      && |h| >= 11
      && h[..8] == "## Page " && h[|h| - 2..] == "\n\n"
      && IsCanonicalNumeral(h[8..|h| - 2]) && ParseDecimal(h[8..|h| - 2]) == n
  {
    var d := NatToString(n);
    ParseNatToString(n);
    var h := "## Page " + d + "\n\n";
    assert h[8..|h| - 2] == d;
  }

  /** The fixed text between an image's index and its Base64 payload. */
  lemma UriText()
    ensures "](" + DataUriPrefix == "](data:image/png;base64,"
  {
  }

  /** An image line is `![Image `, the index in decimal, which reads back as
      that index, then a data URI whose media type is always `image/png` and
      whose payload is the Base64 text unchanged, and a blank line. */
  lemma ImageLineParts(idx: nat, b64: string)
    ensures var l := ImageLine(idx, b64);
      && |l| >= 36 + |b64|
      && l[..8] == "![Image "
      && IsCanonicalNumeral(l[8..|l| - 27 - |b64|]) && ParseDecimal(l[8..|l| - 27 - |b64|]) == idx
      && l[|l| - 27 - |b64|..|l| - 3 - |b64|] == "](data:image/png;base64,"
      && l[|l| - 3 - |b64|..|l| - 3] == b64
      && l[|l| - 3..] == ")\n\n"
  {
    var d := NatToString(idx);
    ParseNatToString(idx);
    UriText();
    SixParts("![Image ", d, "](", DataUriPrefix, b64, ")\n\n");
  }

  /** A non-empty run of image lines ends, as each line does, with a blank line. */
  lemma ImageLinesEnd(images: seq<string>, first: nat)
    requires |images| > 0
    ensures var t := ImageLines(images, first); |t| >= 2 && t[|t| - 2..] == "\n\n"
  {
    var last := |images| - 1;
    ConcatNumberedSnoc(ImageLine, images[..last], images[last], first);
    assert images == images[..last] + [images[last]];
    var idx, b64 := first + last, images[last];
    var l := ImageLine(idx, b64);
    SuffixOfAppend("![Image " + NatToString(idx) + "](" + DataUriPrefix + b64, ")\n\n", 2);
    assert l[|l| - 2..] == "\n\n";
    SuffixOfAppend(ImageLines(images[..last], first), l, 2);
  }

  /** A page's block opens with the page's heading, carries the page text
      right after it, and ends with a blank line, which separates it from the
      next page's heading. */
  lemma PageBlockShape(p: PageRecord)
    ensures var b, h := PageBlock(p), Heading(p.pageNumber);
      && |b| >= |h| + |p.text| + 2
      && b[..|h|] == h
      && b[|h|..|h| + |p.text|] == p.text
      && b[|b| - 2..] == "\n\n"
  {
    var h := Heading(p.pageNumber);
    var lines := ImageLines(p.images, 1);
    var b := PageBlock(p);
    AppendAssoc(h + p.text, "\n\n", lines);
    ThreeParts(h, p.text, "\n\n" + lines);
    if |p.images| > 0 {
      ImageLinesEnd(p.images, 1);
      SuffixOfAppend(h + p.text + "\n\n", lines, 2);
    } else {
      assert lines == "";
      assert b == h + p.text + "\n\n";
      SuffixOfAppend(h + p.text, "\n\n", 2);
    }
  }

  /** The Markdown is empty exactly when there are no pages; otherwise it
      opens with a page heading and ends with a blank line. */
  lemma RenderShape(pages: seq<PageRecord>)
    ensures var md := Render(pages);
      && (md == "" <==> |pages| == 0)
      && (|pages| > 0 ==> |md| >= 11 && md[..8] == "## Page " && md[|md| - 2..] == "\n\n")
  {
    if |pages| > 0 {
      var last := |pages| - 1;
      var first, b := PageBlock(pages[0]), PageBlock(pages[last]);
      PageBlockShape(pages[0]);
      PageBlockShape(pages[last]);
      HeadingNumber(pages[0].pageNumber);
      ConcatMapSnoc(PageBlock, pages[..last], pages[last]);
      assert pages[..last] + [pages[last]] == pages;
      var md := Render(pages);
      assert md == first + ConcatMap(PageBlock, pages[1..]);
      PrefixOfAppend(first, ConcatMap(PageBlock, pages[1..]), 8);
      assert first[..8] == first[..|Heading(pages[0].pageNumber)|][..8];
      SuffixOfAppend(ConcatMap(PageBlock, pages[..last]), b, 2);
    }
  }

  /** Rendering one more page appends its block. */
  lemma RenderSnoc(pages: seq<PageRecord>, p: PageRecord)
    ensures Render(pages + [p]) == Render(pages) + PageBlock(p)
  {
    ConcatMapSnoc(PageBlock, pages, p);
  }

  /** The source's loop: the Markdown text is built by appending, page by page
      and image by image, to an initially empty string. */
  method GenerateMarkdown(doc: Document) returns (md: string)
    ensures md == Render(doc.pages)
  {
    md := "";
    for i := 0 to |doc.pages|
      invariant md == Render(doc.pages[..i])
    {
      var page := doc.pages[i];
      var block := Heading(page.pageNumber);
      block := block + page.text + "\n\n";
      block := AppendImageLines(block, page.images);
      assert block == PageBlock(page);
      md := md + block;
      RenderSnoc(doc.pages[..i], page);
      assert doc.pages[..i + 1] == doc.pages[..i] + [page];
    }
    assert doc.pages[..|doc.pages|] == doc.pages;
  }

  /** The inner loop: one numbered image line per image, appended in order. */
  method AppendImageLines(prefix: string, images: seq<string>) returns (md: string)
    ensures md == prefix + ImageLines(images, 1)
  {
    md := prefix;
    for k := 0 to |images|
      invariant md == prefix + ImageLines(images[..k], 1)
    {
      var line := ImageLine(k + 1, images[k]);
      ConcatNumberedSnoc(ImageLine, images[..k], images[k], 1);
      assert images[..k + 1] == images[..k] + [images[k]];
      AppendAssoc(prefix, ImageLines(images[..k], 1), line);
      md := md + line;
    }
    assert images[..|images|] == images;
  }

  /** Rendering distributes over splitting the page list. */
  lemma RenderAppend(a: seq<PageRecord>, b: seq<PageRecord>)
    ensures Render(a + b) == Render(a) + Render(b)
  {
    ConcatMapAppend(PageBlock, a, b);
  }

  /** Image lines keep counting across a split of the image list. */
  lemma ImageLinesAppend(a: seq<string>, b: seq<string>, first: nat)
    ensures ImageLines(a + b, first) == ImageLines(a, first) + ImageLines(b, first + |a|)
  {
    ConcatNumberedAppend(ImageLine, a, b, first);
  }

  /** The k-th image of a page (from 0) is referenced as `Image k+1`, right
      after the lines of the images before it and right before those of the
      images after it: image lines are numbered from 1, in image order. */
  lemma ImageLineAt(images: seq<string>, k: nat)
    requires k < |images|
    ensures ImageLines(images, 1)
      == ImageLines(images[..k], 1) + ImageLine(k + 1, images[k]) + ImageLines(images[k + 1..], k + 2)
  {
    assert images == images[..k] + ([images[k]] + images[k + 1..]);
    ImageLinesAppend(images[..k], [images[k]] + images[k + 1..], 1);
    ImageLinesAppend([images[k]], images[k + 1..], k + 1);
    ConcatNumberedSingle(ImageLine, images[k], k + 1);
  }

  /** The i-th page's block sits between the blocks of the pages before it and
      those of the pages after it: blocks appear in page order. */
  lemma PageBlockAt(pages: seq<PageRecord>, i: nat)
    requires i < |pages|
    ensures Render(pages) == Render(pages[..i]) + PageBlock(pages[i]) + Render(pages[i + 1..])
  {
    assert pages == pages[..i] + ([pages[i]] + pages[i + 1..]);
    RenderAppend(pages[..i], [pages[i]] + pages[i + 1..]);
    RenderAppend([pages[i]], pages[i + 1..]);
    ConcatMapSingle(PageBlock, pages[i]);
  }

  /** In the Markdown of an extracted document, page i (from 0) appears as
      the heading `## Page i+1`, the page's text, and a line for each of its
      images' Base64 texts, numbered from 1, between the blocks of the pages
      before and after it. */
  lemma ExtractedPageMarkdown(raw: seq<RawPage>, i: nat)
    requires i < |raw|
    ensures var pages := ExtractPdfContent(raw).pages;
      Render(pages) == Render(pages[..i])
        + (Heading(i + 1) + raw[i].text + "\n\n" + ImageLines(EncodeImages(raw[i].images), 1))
        + Render(pages[i + 1..])
  {
    var pages := ExtractPdfContent(raw).pages;
    assert pages[i] == PageRecord(i + 1, raw[i].text, EncodeImages(raw[i].images));
    PageBlockAt(pages, i);
  }

  /** Every image reference begins with `!`, the one character that no
      heading, numeral, URI prefix or Base64 text contains. */
  const Bang: char := '!'

  predicate BangFree(s: string) {
    forall i :: 0 <= i < |s| ==> s[i] != Bang
  }

  function TotalImages(pages: seq<PageRecord>): nat {
    if |pages| == 0 then 0 else |pages[0].images| + TotalImages(pages[1..])
  }

  function TextBangs(pages: seq<PageRecord>): nat {
    if |pages| == 0 then 0 else Count(Bang, pages[0].text) + TextBangs(pages[1..])
  }

  predicate ImagesBangFree(pages: seq<PageRecord>) {
    forall i, k :: 0 <= i < |pages| && 0 <= k < |pages[i].images| ==> BangFree(pages[i].images[k])
  }

  lemma ImageLineBangs(idx: nat, b64: string)
    requires BangFree(b64)
    ensures Count(Bang, ImageLine(idx, b64)) == 1
  {
    var rest := "[Image " + NatToString(idx) + "](" + DataUriPrefix + b64 + ")\n\n";
    assert ImageLine(idx, b64) == [Bang] + rest;
    CountAbsent(Bang, rest);
    CountLeading(Bang, rest);
  }

  lemma {:induction false} ImageLinesBangs(images: seq<string>, first: nat)
    requires forall k :: 0 <= k < |images| ==> BangFree(images[k])
    ensures Count(Bang, ImageLines(images, first)) == |images|
    decreases |images|
  {
    if |images| > 0 {
      ImageLineBangs(first, images[0]);
      ImageLinesBangs(images[1..], first + 1);
      CountAppend(Bang, ImageLine(first, images[0]), ImageLines(images[1..], first + 1));
    }
  }

  lemma PageBlockBangs(p: PageRecord)
    requires forall k :: 0 <= k < |p.images| ==> BangFree(p.images[k])
    ensures Count(Bang, PageBlock(p)) == Count(Bang, p.text) + |p.images|
  {
    var h := Heading(p.pageNumber);
    CountAbsent(Bang, h);
    CountAbsent(Bang, "\n\n");
    CountAppend(Bang, h + p.text + "\n\n", ImageLines(p.images, 1));
    CountAppend(Bang, h + p.text, "\n\n");
    CountAppend(Bang, h, p.text);
    ImageLinesBangs(p.images, 1);
  }

  /** Counting image references: when no image text contains `!`, the
      Markdown holds one `!` per image plus those of the page texts, so with
      `!`-free texts the number of image references is the image count. */
  lemma {:induction false} RenderBangs(pages: seq<PageRecord>)
    requires ImagesBangFree(pages)
    ensures Count(Bang, Render(pages)) == TotalImages(pages) + TextBangs(pages)
    decreases |pages|
  {
    if |pages| > 0 {
      PageBlockBangs(pages[0]);
      RenderBangs(pages[1..]);
      CountAppend(Bang, PageBlock(pages[0]), Render(pages[1..]));
    }
  }

  /** Base64 text never contains `!`. */
  lemma ExtractedImagesBangFree(raw: seq<RawPage>)
    ensures ImagesBangFree(ExtractPdfContent(raw).pages)
  {
    ExtractedImagesPadded(raw);
  }

  /** In the Markdown of an extracted document, the `!` characters are one per
      embedded image plus those of the page texts. */
  lemma ExtractedImageReferences(raw: seq<RawPage>)
    ensures var pages := ExtractPdfContent(raw).pages;
      Count(Bang, Render(pages)) == TotalImages(pages) + TextBangs(pages)
  {
    ExtractedImagesBangFree(raw);
    RenderBangs(ExtractPdfContent(raw).pages);
  }

  /** The media type of the data URIs is fixed: two documents whose pages have
      the same texts and image bytes render identically, whatever formats the
      library reports for their images. */
  lemma MarkdownIgnoresFormat(a: seq<RawPage>, b: seq<RawPage>)
    requires Contents(a) == Contents(b)
    ensures Render(ExtractPdfContent(a).pages) == Render(ExtractPdfContent(b).pages)
  {
    ExtractIgnoresFormat(a, b);
  }

  /** No pages render to nothing; a page with no text and no images renders
      to its heading followed by two empty lines. */
  lemma EmptyRenderings(n: nat)
    ensures Render([]) == ""
    ensures Render([PageRecord(n, "", [])]) == "## Page " + NatToString(n) + "\n\n\n\n"
  {
    assert [PageRecord(n, "", [])][1..] == [];
  }

  lemma HeadingExample()
    ensures Heading(1) == "## Page 1\n\n"
  {
    assert NatToString(1) == "1";
  }

  lemma ImageLineExample()
    ensures ImageLine(1, "iVBORw==") == "![Image 1](data:image/png;base64,iVBORw==)\n\n"
  {
    assert NatToString(1) == "1";
    assert "![Image " + "1" + "](" == "![Image 1](";
    assert "![Image 1](" + DataUriPrefix == "![Image 1](data:image/png;base64,";
    assert "![Image 1](data:image/png;base64," + "iVBORw==" + ")\n\n"
      == "![Image 1](data:image/png;base64,iVBORw==)\n\n";
  }

  lemma FirstBlockExample()
    ensures PageBlock(PageRecord(1, "Hello", ["iVBORw=="]))
      == "## Page 1\n\n" + "Hello\n\n" + "![Image 1](data:image/png;base64,iVBORw==)\n\n"
  {
    HeadingExample();
    ImageLineExample();
    var imgs := ["iVBORw=="];
    assert imgs[1..] == [];
    assert ImageLines(imgs, 1) == ImageLine(1, "iVBORw==");
    assert "Hello" + "\n\n" == "Hello\n\n";
  }

  lemma ExtractionExample()
    ensures ExtractPdfContent([RawPage("Hello", [RawImage([0x89, 0x50, 0x4E, 0x47], "png")]), RawPage("", [])]).pages
      == [PageRecord(1, "Hello", ["iVBORw=="]), PageRecord(2, "", [])]
  {
    EncodeExample();
    var raw := [RawPage("Hello", [RawImage([0x89, 0x50, 0x4E, 0x47], "png")]), RawPage("", [])];
    var pages := ExtractPdfContent(raw).pages;
    assert pages[0].images == ["iVBORw=="];
  }

  lemma SecondBlockExample()
    ensures PageBlock(PageRecord(2, "", [])) == "## Page 2\n\n" + "\n\n"
  {
    assert NatToString(2) == "2";
    EmptyRenderings(2);
    ConcatMapSingle(PageBlock, PageRecord(2, "", []));
  }

  /** A two-page document: the first page has the text `Hello` and one image
      whose bytes start a PNG signature, the second page is empty. */
  lemma TwoPageExample()
    ensures var raw := [RawPage("Hello", [RawImage([0x89, 0x50, 0x4E, 0x47], "png")]), RawPage("", [])];
      Render(ExtractPdfContent(raw).pages)
      == "## Page 1\n\n" + "Hello\n\n" + "![Image 1](data:image/png;base64,iVBORw==)\n\n"
       + "## Page 2\n\n" + "\n\n"
  {
    var p0, p1 := PageRecord(1, "Hello", ["iVBORw=="]), PageRecord(2, "", []);
    ExtractionExample();
    ConcatMapSnoc(PageBlock, [p0], p1);
    ConcatMapSingle(PageBlock, p0);
    assert [p0] + [p1] == [p0, p1];
    FirstBlockExample();
    SecondBlockExample();
  }
}
