# PDF to JSON/Markdown converter: a Dafny model

This project models the core of a small Streamlit application that converts
uploaded PDF files into a JSON record and a Markdown text, with embedded
images inlined as Base64 data URIs. Three pieces of `app.py` are modelled:

- `extract_pdf_content` turns a document into a `{"pages": [...]}` record.
  Each page record holds the page number (counted from 1), the page text and
  the Base64 text of each embedded image, in the order the PDF library lists
  them.
- `generate_markdown` renders that record. Each page gets a `## Page n`
  heading, its text, and one `![Image k](data:image/png;base64,...)` line per
  image, numbered from 1 within the page.
- The "Process Files" loop converts every upload in turn. An upload whose
  conversion raises is reported with an error line and skipped. The uploads
  after it are still converted.

Modules:

- `Results`: the `Option` and `Result` types.
- `Base64`: the standard encoding of section 4 of RFC 4648 (Table 1 alphabet,
  `=` padding). A canonical decoder is its partner.
- `Decimal`: how Python's `str` writes a non-negative integer, with a parser
  as its partner.
- `Strings`: generic concatenation over sequences, and character counting.
- `Extraction`: page-record assembly. The PDF library's view of a document is
  the input: a sequence of pages, each with a text and images given as bytes
  plus a reported format.
- `Markdown`: a functional definition of the rendering (`Render`). A method
  (`GenerateMarkdown`) builds the same text by appending, as the source's
  loop does.
- `Batch`: the per-file `try`/`except` loop.

What the library makes of an upload is an input `Result`. It is either the
pages the library reports, or the message of any exception raised inside the
per-file `try`.

## Model

| member | source | states |
|---|---|---|
| Base64.Encode | app.py:23 | the encoding of n bytes is 4·⌈n/3⌉ characters long |
| Base64.DecodeIffEncode | app.py:23 | a string decodes to some bytes exactly when it is the encoding of those bytes, so no information is lost by encoding the image bytes |
| Base64.DecodeEncode | app.py:23 | decoding the encoding of any byte string gives those bytes back |
| Base64.EncodeDecode | app.py:23 | every string the canonical decoder accepts is the encoding of what it returns |
| Base64.EncodeInjective | app.py:23 | distinct byte strings have distinct encodings |
| Base64.EncodePadded | app.py:23 | the encoding of n bytes has length 4·⌈n/3⌉. It ends in (3 − n mod 3) mod 3 pad characters and uses only alphabet characters before them |
| Base64.EncodeUsesBase64Chars | app.py:23 | every character of an encoding is from the RFC 4648 alphabet or is `=` |
| Decimal.NatToString | app.py:42 | a number is written as at least one decimal digit. The text starts with `0` only for zero, and is a single digit exactly for numbers below 10 |
| Decimal.ParseNatToString | app.py:42 | reading back the numeral of n gives n |
| Decimal.NatToStringInjective | app.py:42 | distinct page numbers or image indices get distinct numerals |
| Decimal.NatToStringParse | app.py:42 | every numeral without a leading zero is the numeral of the number it denotes |
| Extraction.EncodeImages | app.py:18-24 | one Base64 text per image of the page, in the library's order; entry k is the encoding of image k's bytes |
| Extraction.ExtractPages | app.py:13-30 | one record per page, in order, with the page number advancing by one per page, the page's own text and its images' encodings |
| Extraction.ExtractPdfContent | app.py:8-32 | as many page records as pages, numbered 1, 2, … with no gaps. Each record keeps its page's text and image count, and image k is the encoding of the bytes of the page's image k |
| Extraction.RecoverExtract | app.py:8-32 | reading an extracted record back yields every page's text and every image's exact bytes, in order |
| Extraction.ExtractRecover | app.py:8-32 | every record numbered from 1 whose images are all valid Base64 is the extraction of the pages it records |
| Extraction.ExtractedImagesPadded | app.py:19-24 | every image text of an extracted record is padded Base64 of the length RFC 4648 prescribes for the image's bytes |
| Extraction.ExtractIgnoresFormat | app.py:19-23 | extraction depends only on the image bytes, not on the format the library reports |
| Markdown.HeadingNumber | app.py:42 | `Heading(n)` is `"## Page " + str(n) + "\n\n"`: the marker `## Page `, then a canonical decimal numeral that reads back as n, then a blank line |
| Markdown.ImageLineParts | app.py:46 | `ImageLine(idx, b64)` is `"![Image " + str(idx) + "](data:image/png;base64," + b64 + ")\n\n"`: the alt text's numeral reads back as idx, the data-URI media type is always `image/png`, and the payload is the Base64 text unchanged |
| Markdown.ImageLinesEnd | app.py:45-46 | a non-empty run of image lines ends with a blank line, as each image line does |
| Markdown.PageBlockShape | app.py:41-46 | `PageBlock(p)` is one pass of the outer loop: the page's heading, the page text right after it, then `\n\n` and the image lines. The block ends with a blank line, which separates it from the next heading |
| Markdown.RenderShape | app.py:38-48 | `Render(pages)` is the page blocks concatenated in page order. It is empty exactly when there are no pages; otherwise it opens with `## Page ` and ends with a blank line |
| Markdown.RenderSnoc | app.py:41-46 | rendering one more page appends that page's block at the end |
| Markdown.GenerateMarkdown | app.py:38-48 | the loop's text is the rendering of the page list: the page blocks, in page order |
| Markdown.AppendImageLines | app.py:45-46 | the inner loop appends, in image order, one line per image, numbered from 1 |
| Markdown.RenderAppend | app.py:41-46 | the rendering of two page lists one after the other is the two renderings concatenated |
| Markdown.ImageLinesAppend | app.py:45-46 | image numbering continues across a split of a page's image list |
| Markdown.ImageLineAt | app.py:45-46 | image k (counting from 0) is referenced as `Image k+1`. Its line comes after the lines of the images before it and before the lines of the images after it |
| Markdown.PageBlockAt | app.py:41-46 | a page's block, made of heading, text and image lines, comes after the blocks of the pages before it and before the blocks of the pages after it |
| Markdown.ExtractedPageMarkdown | app.py:13-46 | in the Markdown of an extracted document, page i (counting from 0) appears in page order as `## Page i+1`, the page's own text, and one numbered line per image carrying the Base64 text of that image's bytes |
| Markdown.RenderBangs | app.py:42-46 | when no image text contains `!`, the number of `!` in the Markdown is the total image count plus the number of `!` in the page texts |
| Markdown.ExtractedImagesBangFree | app.py:23 | no Base64 image text of an extracted record contains `!` |
| Markdown.ExtractedImageReferences | app.py:38-48 | the Markdown of an extracted record has one image-reference `!` per embedded image, besides those of the page texts |
| Markdown.MarkdownIgnoresFormat | app.py:19-46 | two documents whose pages have the same texts and image bytes render to the same Markdown, whatever formats the library reports for their images |
| Markdown.EmptyRenderings | app.py:38-48 | an empty page list renders to the empty text; a page with no text and no images renders to its heading followed by `\n\n` |
| Base64.EncodeExample | app.py:23 | the bytes 89 50 4E 47 encode to `iVBORw==` |
| Markdown.ImageLineExample | app.py:46 | the first image with Base64 text `iVBORw==` is rendered as `![Image 1](data:image/png;base64,iVBORw==)` followed by `\n\n` |
| Markdown.ExtractionExample | app.py:8-32 | a two-page document (text `Hello` with one image, then an empty page) extracts to page records 1 and 2 |
| Markdown.TwoPageExample | app.py:38-48 | that two-page document renders to its two headings, `Hello`, the single image line and the empty second page, in that order |
| Batch.Convert | app.py:66-72 | a converted file keeps the upload's name. Its record is numbered from 1 and holds every page's text and image bytes, and its Markdown is the rendering of that same record. With `ExtractRecover`, this fixes the record completely |
| Batch.ConvertFile | app.py:65-72 | the `try` body extracts the record once and renders its Markdown from it, giving exactly `Convert` |
| Batch.ErrorMessageParts | app.py:74 | `ErrorMessage(name, e)` is `"Error processing " + name + ": " + str(e)`: the file name follows `Error processing ` and the exception's message follows `: ` unchanged |
| Batch.Collect | app.py:62-72 | the `results` list, for any per-file conversion, has exactly one entry per readable upload. `ResultPosition` and `ResultsFromSuccesses` fix the entries and their order |
| Batch.Errors | app.py:73-74 | the `except` branch shows exactly one error line per upload the library cannot read. `FailureSkipped` places each line in upload order |
| Batch.CollectStep | app.py:63-74 | one more upload appends either its result or its error line, never both |
| Batch.ProcessFiles | app.py:60-79 | with no upload, only a warning is given. Otherwise the results are the conversions of the readable uploads, in upload order, and the error lines name the other uploads, in upload order |
| Batch.CollectAppend | app.py:62-74 | files are processed independently: the results of a batch split in two are the results of each part, one after the other |
| Batch.ErrorsAppend | app.py:73-74 | error lines of a batch split in two are those of each part, one after the other |
| Batch.ResultPosition | app.py:62-74 | a readable upload's result sits right after the results of the uploads before it |
| Batch.FailureSkipped | app.py:63-74 | a failing upload adds nothing to the results and does not stop later uploads. Its error line comes after those of the uploads before it |
| Batch.ResultsFromSuccesses | app.py:62-74 | every result is the conversion of some readable upload |
| Batch.MiddleFailureExample | app.py:62-74 | of three uploads where the second is unreadable, the results are those of the first and third, and the single error line names the second. This holds for any per-file conversion, `Convert` included |

## Left out

- The Streamlit interface (app.py:50-58 and 76-100) is not modelled: the title, the uploader widget, the button, `session_state`, the success and warning messages and the download buttons. `ProcessFiles` returns the outcome those widgets would show.
- The PDF library (`fitz.open`, `get_text`, `get_images`, `extract_image`) is not modelled. Its answer for an upload is an input: either the pages with their texts and image bytes, or the message of the exception it raises.
- `generate_json` (app.py:34-36) is left out, because `json.dumps` is a foreign serialiser. `Converted.output` carries the record that `json.dumps` would receive.
- `uploaded_file.read()` is left out because it is I/O. The library's answer already stands for what it makes of the bytes.
- The download naming with `os.path.splitext` (app.py:84-99) is left out because it is part of the interface.
- Batch.ProcessFiles: does not model where an exception is raised inside the `try`. A failure is decided per file by the library's answer, so a failure after a partial extraction looks the same as one at `fitz.open`.
- Base64.IsAlphabetChar: the RFC 4648 alphabet is given as its four character ranges (`A`–`Z`, `a`–`z`, `0`–`9`, then `+` and `/`), not as a 64-character table.
- The `!` count in `RenderBangs` equals the image count only when page texts contain no `!`. A page text can itself contain something that looks like an image reference, so the Markdown alone does not determine the image count.
