/** The "Process Files" action (app.py): every uploaded file is converted in
    upload order; a file whose conversion raises is reported and skipped, and
    the files after it are still converted. The results are the successful
    conversions, in upload order.

    Reading the upload and the PDF library are not modelled: what the library
    makes of a file is given as a Result, either the pages it reports or the
    message of the exception it raises. */
module Batch {
  import opened Results
  import opened Extraction
  import opened Markdown
  import opened Strings

  /** An uploaded file: its name and the library's verdict on its bytes. */
  datatype Upload = Upload(name: string, library: Result<seq<RawPage>, string>)

  /** One entry of `results`: the file name, the record that `generate_json`
      serialises, and the Markdown text. */
  datatype Converted = Converted(filename: string, output: Document, markdown: string)

  /** With no upload the action only warns; otherwise it stores the results
      and shows an error line per failed file. */
  datatype BatchOutcome =
    | NothingUploaded
    | Processed(results: seq<Converted>, errors: seq<string>)

  predicate Succeeds(f: Upload) {
    f.library.Success?
  }

  /** The body of the `try` for a file the library can read: both renderings
      are made from the same extracted record, which is numbered from 1 and
      holds every page's text and image bytes (with `ExtractRecover`, these
      determine the record completely). */
  function Convert(name: string, pages: seq<RawPage>): (c: Converted)
    ensures c.filename == name
    ensures NumberedFromOne(c.output)
    ensures Recover(c.output) == Some(Contents(pages))
    ensures c.markdown == Render(c.output.pages)
  {
    RecoverExtract(pages);
    var doc := ExtractPdfContent(pages);
    Converted(name, doc, Render(doc.pages))
  }

  /** `f"Error processing {uploaded_file.name}: {str(e)}"`. */
  function ErrorMessage(name: string, message: string): string {
    "Error processing " + name + ": " + message
  }

  /** An error line names the file after `Error processing ` and carries the
      exception's message unchanged after `: `. */
  lemma ErrorMessageParts(name: string, message: string)
    ensures var m := ErrorMessage(name, message);
      && |m| == 19 + |name| + |message|
      && m[..17] == "Error processing "
      && m[17..17 + |name|] == name && m[17 + |name|..19 + |name|] == ": "
      && m[19 + |name|..] == message
  {
    var m := ErrorMessage(name, message);
    ThreeParts("Error processing ", name, ": " + message);
    assert m == "Error processing " + name + (": " + message);
    assert (": " + message)[..2] == ": " && (": " + message)[2..] == message;
  }

  /** The results the loop collects, in upload order, for a given per-file
      conversion (the properties below hold whatever that conversion does):
      one per readable file. */
  function Collect<R>(convert: (string, seq<RawPage>) -> R, files: seq<Upload>): (rs: seq<R>)
    ensures |rs| == SuccessCount(files)
  {
    if |files| == 0 then []
    else
      match files[0].library
      case Success(pages) => [convert(files[0].name, pages)] + Collect(convert, files[1..])
      case Failure(_) => Collect(convert, files[1..])
  }

  /** The error lines the loop shows, in upload order: one `Error processing`
      line per file the library cannot read. */
  function Errors(files: seq<Upload>): (es: seq<string>)
    ensures |es| == |files| - SuccessCount(files)
  {
    if |files| == 0 then []
    else
      match files[0].library
      case Success(_) => Errors(files[1..])
      case Failure(e) => [ErrorMessage(files[0].name, e)] + Errors(files[1..])
  }

  /** Number of uploads the library can read. */
  function SuccessCount(files: seq<Upload>): nat {
    if |files| == 0 then 0 else (if Succeeds(files[0]) then 1 else 0) + SuccessCount(files[1..])
  }

  /** Lines 66-72: extract once, then render the record. */
  method ConvertFile(name: string, pages: seq<RawPage>) returns (c: Converted)
    ensures c == Convert(name, pages)
  {
    var extracted := ExtractPdfContent(pages);
    var md := GenerateMarkdown(extracted);
    c := Converted(name, extracted, md);
  }

  /** Lines 60-79: convert each file in turn, catching per-file failures. */
  method ProcessFiles(files: seq<Upload>) returns (outcome: BatchOutcome)
    ensures |files| == 0 <==> outcome == NothingUploaded
    ensures |files| > 0 ==> outcome == Processed(Collect(Convert, files), Errors(files))
  {
    if |files| == 0 {
      outcome := NothingUploaded;
    } else {
      var results: seq<Converted> := [];
      var errors: seq<string> := [];
      for i := 0 to |files|
        invariant results == Collect(Convert, files[..i])
        invariant errors == Errors(files[..i])
      {
        var f := files[i];
        CollectStep(Convert, files, i);
        match f.library {
          case Success(pages) =>
            var c := ConvertFile(f.name, pages);
            results := results + [c];
          case Failure(e) =>
            errors := errors + [ErrorMessage(f.name, e)];
        }
      }
      assert files[..|files|] == files;
      outcome := Processed(results, errors);
    }
  }

  /** One more upload adds its result, or its error line, at the end. */
  lemma CollectStep<R>(convert: (string, seq<RawPage>) -> R, files: seq<Upload>, i: nat)
    requires i < |files|
    ensures var f := files[i];
      && Collect(convert, files[..i + 1])
        == Collect(convert, files[..i]) + (if f.library.Success? then [convert(f.name, f.library.value)] else [])
      && Errors(files[..i + 1])
        == Errors(files[..i]) + (if f.library.Success? then [] else [ErrorMessage(f.name, f.library.error)])
  {
    var f := files[i];
    CollectAppend(convert, files[..i], [f]);
    ErrorsAppend(files[..i], [f]);
    assert files[..i + 1] == files[..i] + [f];
    assert [f][1..] == [];
  }

  /** Files are processed independently: the results of a concatenation of
      batches are the results of each batch, one after the other. A failing
      file therefore never stops the files after it. */
  lemma {:induction false} CollectAppend<R>(convert: (string, seq<RawPage>) -> R, a: seq<Upload>, b: seq<Upload>)
    ensures Collect(convert, a + b) == Collect(convert, a) + Collect(convert, b)
    decreases |a|
  {
    if |a| == 0 {
      assert a + b == b;
    } else {
      CollectAppend(convert, a[1..], b);
      assert (a + b)[0] == a[0] && (a + b)[1..] == a[1..] + b;
      var rest := Collect(convert, a[1..]);
      match a[0].library
      case Success(pages) =>
        var r := convert(a[0].name, pages);
        assert Collect(convert, a) == [r] + rest;
        assert Collect(convert, a + b) == [r] + (rest + Collect(convert, b));
      case Failure(_) =>
        assert Collect(convert, a) == rest;
    }
  }

  lemma {:induction false} ErrorsAppend(a: seq<Upload>, b: seq<Upload>)
    ensures Errors(a + b) == Errors(a) + Errors(b)
    decreases |a|
  {
    if |a| == 0 {
      assert a + b == b;
    } else {
      ErrorsAppend(a[1..], b);
      assert (a + b)[1..] == a[1..] + b;
    }
  }

  /** The result of the i-th upload, when it is readable, sits right after the
      results of the uploads before it: results keep upload order. */
  lemma ResultPosition<R>(convert: (string, seq<RawPage>) -> R, files: seq<Upload>, i: nat)
    requires i < |files| && Succeeds(files[i])
    ensures SuccessCount(files[..i]) < |Collect(convert, files)|
    ensures Collect(convert, files)[SuccessCount(files[..i])] == convert(files[i].name, files[i].library.value)
  {
    assert files == files[..i] + [files[i]] + files[i + 1..];
    CollectAppend(convert, files[..i] + [files[i]], files[i + 1..]);
    CollectAppend(convert, files[..i], [files[i]]);
  }

  /** A failing upload contributes nothing to the results: removing it leaves
      them unchanged, and its error line sits after those of the uploads
      before it. */
  lemma FailureSkipped<R>(convert: (string, seq<RawPage>) -> R, before: seq<Upload>, f: Upload, after: seq<Upload>)
    requires !Succeeds(f)
    ensures Collect(convert, before + [f] + after) == Collect(convert, before + after)
    ensures Errors(before + [f] + after)
      == Errors(before) + [ErrorMessage(f.name, f.library.error)] + Errors(after)
  {
    assert [f][1..] == [];
    var single := Collect(convert, [f]);
    assert single == [];
    CollectAppend(convert, before + [f], after);
    CollectAppend(convert, before, [f]);
    assert Collect(convert, before + [f]) == Collect(convert, before);
    CollectAppend(convert, before, after);
    var line := ErrorMessage(f.name, f.library.error);
    assert Errors([f]) == [line];
    ErrorsAppend(before + [f], after);
    ErrorsAppend(before, [f]);
  }

  /** Every result comes from a readable upload. */
  lemma {:induction false} ResultsFromSuccesses<R>(convert: (string, seq<RawPage>) -> R, files: seq<Upload>, j: nat)
    requires j < |Collect(convert, files)|
    ensures exists i :: (0 <= i < |files| && Succeeds(files[i])
      && Collect(convert, files)[j] == convert(files[i].name, files[i].library.value))
    decreases |files|
  {
    var rest := Collect(convert, files[1..]);
    if files[0].library.Success? && j == 0 {
      assert Succeeds(files[0]);
    } else {
      var j' := if files[0].library.Success? then j - 1 else j;
      assert Collect(convert, files)[j] == rest[j'];
      ResultsFromSuccesses(convert, files[1..], j');
      var i :| 0 <= i < |files[1..]| && Succeeds(files[1..][i])
        && rest[j'] == convert(files[1..][i].name, files[1..][i].library.value);
      assert files[i + 1] == files[1..][i];
    }
  }

  /** Three uploads of which the second is unreadable: two results, for the
      first and third files, and one error line naming the second, whatever
      the per-file conversion (in particular for `Convert`). */
  lemma MiddleFailureExample<R>(convert: (string, seq<RawPage>) -> R, p1: seq<RawPage>, p3: seq<RawPage>, e: string)
    ensures var files := [Upload("a.pdf", Success(p1)), Upload("b.pdf", Failure(e)), Upload("c.pdf", Success(p3))];
      && Collect(convert, files) == [convert("a.pdf", p1), convert("c.pdf", p3)]
      && Errors(files) == [ErrorMessage("b.pdf", e)]
  {
    var f1, f2, f3 := Upload("a.pdf", Success(p1)), Upload("b.pdf", Failure(e)), Upload("c.pdf", Success(p3));
    var files := [f1, f2, f3];
    assert files[1..] == [f2, f3] && [f2, f3][1..] == [f3] && [f3][1..] == [];
    assert Collect(convert, [f3]) == [convert("c.pdf", p3)];
    assert Errors([f3]) == [];
  }
}
