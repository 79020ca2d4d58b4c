/** The Merge PDFs tool once its button is pressed (app.py:38-62): at
    least two uploads, within the total size limit, each a valid PDF,
    merged in upload order. */
module MergeTool {
  import opened Wrappers
  import opened Text
  import opened PdfUtils
  import opened Validators
  import opened Events

  const TooFewMessage: string := "Please upload at least two PDF files."
  const MergedMessage: string := "PDFs merged successfully!"
  const MergeFailedPrefix: string := "Error during merge: "

  /** What `PdfReader` makes of each upload, in upload order. */
  function Readers<Page>(files: seq<Upload<Page>>): (readers: seq<ReadResult<Page>>)
    ensures |readers| == |files|
    ensures forall i :: 0 <= i < |files| ==> readers[i] == files[i].reader
  {
    seq(|files|, i requires 0 <= i < |files| => files[i].reader)
  }

  /** Whether validate_pdf accepts an upload under the 100 MB limit. */
  predicate Valid<Page>(u: Upload<Page>) {
    ValidatePdf(u, MaxPdfMb).Pass?
  }

  /** Whether validate_pdf accepts every upload (AllValidAt, and
      AllValidFromEach for the converse). */
  predicate AllValid<Page>(files: seq<Upload<Page>>)
    decreases |files|
  {
    files == [] || (AllValid(files[..|files| - 1]) && Valid(files[|files| - 1]))
  }

  /** Every upload of an all-valid list is valid. */
  lemma {:induction false} AllValidAt<Page>(files: seq<Upload<Page>>, i: nat)
    requires AllValid(files) && i < |files|
    ensures Valid(files[i])
    decreases |files|
  {
    if i < |files| - 1 {
      var init := files[..|files| - 1];
      assert init[i] == files[i];
      AllValidAt(init, i);
    }
  }

  /** A list whose every upload is valid is all-valid. */
  lemma {:induction false} AllValidFromEach<Page>(files: seq<Upload<Page>>)
    requires forall i :: 0 <= i < |files| ==> Valid(files[i])
    ensures AllValid(files)
    decreases |files|
  {
    if files != [] {
      var init := files[..|files| - 1];
      forall i | 0 <= i < |init| ensures Valid(init[i]) {
        assert init[i] == files[i];
      }
      AllValidFromEach(init);
    }
  }

  /** The error banner of one refused upload: its name, then
      validate_pdf's message. */
  function FileError<Page>(u: Upload<Page>, e: PdfError): Event<Page> {
    ShowError(u.name + ": " + PdfMessage(e))
  }

  /** The banner one upload adds to the validation loop: its error if
      validate_pdf refuses it, nothing otherwise. */
  function FileCheck<Page>(u: Upload<Page>): (banner: seq<Event<Page>>)
    ensures |banner| <= 1
    ensures banner != [] ==> banner[0].ShowError?
  {
    match ValidatePdf(u, MaxPdfMb)
    case Fail(e) => [FileError(u, e)]
    case Pass => []
  }

  /** An upload adds no banner exactly when it is valid. */
  lemma {:induction false} FileCheckEmpty<Page>(u: Upload<Page>)
    ensures FileCheck(u) == [] <==> Valid(u)
  {
  }

  /** The validation loop (app.py:50-54): every upload is checked, and
      each refused one adds its banner, in upload order. The loop does
      not stop at the first refusal. */
  function FileErrors<Page>(files: seq<Upload<Page>>): (errors: seq<Event<Page>>)
    ensures |errors| <= |files|
  {
    if files == [] then []
    else FileErrors(files[..|files| - 1]) + FileCheck(files[|files| - 1])
  }

  /** Every banner of the validation loop is an error banner. */
  lemma {:induction false} FileErrorsAreBanners<Page>(files: seq<Upload<Page>>)
    ensures forall k :: 0 <= k < |FileErrors(files)| ==> FileErrors(files)[k].ShowError?
    decreases |files|
  {
    if files != [] {
      var init := files[..|files| - 1];
      var prefix, tail := FileErrors(init), FileCheck(files[|files| - 1]);
      var errors: seq<Event<Page>> := prefix + tail;
      FileErrorsAreBanners(init);
      assert FileErrors(files) == errors;
      forall k | 0 <= k < |errors| ensures errors[k].ShowError? {
        if k < |prefix| {
          assert errors[k] == prefix[k];
        } else {
          assert errors[k] == tail[0];
        }
      }
    }
  }

  /** No banner is shown exactly when every upload is valid. */
  lemma {:induction false} FileErrorsEmpty<Page>(files: seq<Upload<Page>>)
    ensures FileErrors(files) == [] <==> AllValid(files)
    decreases |files|
  {
    if files != [] {
      var init := files[..|files| - 1];
      var last := files[|files| - 1];
      FileErrorsEmpty(init);
      FileCheckEmpty(last);
      assert FileErrors(files) == FileErrors(init) + FileCheck(last);
    }
  }

  /** The merge of app.py:55-62 once every check has passed: when every
      file is read, the success banner and the download of the merged
      document; otherwise a single error banner carrying the exception of
      the first file that cannot be read. */
  function MergeOutcome<Page>(readers: seq<ReadResult<Page>>): (events: seq<Event<Page>>)
    ensures |events| >= 1
    ensures events[0] == ShowSuccess(MergedMessage) <==> AllReadable(readers)
    ensures AllReadable(readers) ==>
              && |events| == 2 && events[1].Download?
              && events[1].fileName == "merged.pdf"
              && events[1].artifact == Pdf(MergePdfs(readers).value)
    ensures !AllReadable(readers) ==>
              && |events| == 1 && events[0].ShowError?
              && StartsWith(events[0].message, MergeFailedPrefix)
              && FirstFailure(readers, events[0].message[|MergeFailedPrefix|..])
  {
    match MergePdfs(readers)
    case Ok(pages) =>
      [ShowSuccess(MergedMessage), Download("Download Merged PDF", "merged.pdf", Pdf(pages))]
    case Err(reason) =>
      var message := MergeFailedPrefix + reason;
      assert message[|MergeFailedPrefix|..] == reason;
      [ShowError(message)]
  }

  /** The Merge PDFs button (app.py:41-62), once the rate limit lets it
      through: too few uploads, too large a total, or any refused upload
      ends in error banners; otherwise the merge and its download. */
  function MergeButton<Page>(files: seq<Upload<Page>>): (events: seq<Event<Page>>)
    ensures |files| < 2 ==> events == [ShowError(TooFewMessage)]
    ensures |files| >= 2 && TotalSize(files) > MaxTotalMb * MiB ==>
              events == [ShowError(TotalMessage(TotalSize(files), MaxTotalMb))]
    ensures |files| >= 2 && TotalSize(files) <= MaxTotalMb * MiB && !AllValid(files) ==>
              events == FileErrors(files)
    ensures |files| >= 2 && TotalSize(files) <= MaxTotalMb * MiB && AllValid(files) ==>
              events == MergeOutcome(Readers(files))
  {
    if |files| < 2 then [ShowError(TooFewMessage)]
    else
      match ValidateTotalSize(files, MaxTotalMb)
      case Fail(msg) => [ShowError(msg)]
      case Pass =>
        var errors := FileErrors(files);
        FileErrorsEmpty(files);
        if errors != [] then errors else MergeOutcome(Readers(files))
  }

  // ---------------------------------------------------------------------
  // Properties of the tool
  // ---------------------------------------------------------------------

  /** Whether the merge succeeded and its document is offered. */
  predicate Merged<Page>(events: seq<Event<Page>>) {
    |events| == 2 && events[0] == ShowSuccess(MergedMessage) && events[1].Download?
  }

  /** Every upload validate_pdf accepts was read with at least one page,
      so, with merge_pdfs reading each file as validate_pdf did, no read
      failure reaches the merge. */
  lemma {:induction false} ValidMergeReads<Page>(files: seq<Upload<Page>>)
    requires AllValid(files)
    ensures MergePdfs(Readers(files)).Ok?
  {
    var readers := Readers(files);
    forall i | 0 <= i < |readers| ensures readers[i].Readable? {
      AllValidAt(files, i);
    }
  }

  /** The merge succeeds exactly when there are at least two uploads,
      their total is within 500 MB, and every one is a valid PDF. */
  lemma {:induction false} MergeSucceedsIff<Page>(files: seq<Upload<Page>>)
    ensures Merged(MergeButton(files)) <==>
              |files| >= 2 && TotalSize(files) <= MaxTotalMb * MiB && AllValid(files)
  {
    if |files| >= 2 && TotalSize(files) <= MaxTotalMb * MiB {
      if AllValid(files) {
        ValidMergeReads(files);
      } else {
        FileErrorsEmpty(files);
        FileErrorsAreBanners(files);
        assert FileErrors(files)[0].ShowError?;
      }
    }
  }

  /** On success the merged document of the uploads is offered. */
  lemma {:induction false} MergedEvents<Page>(files: seq<Upload<Page>>)
    requires |files| >= 2 && TotalSize(files) <= MaxTotalMb * MiB && AllValid(files)
    ensures MergePdfs(Readers(files)).Ok?
    ensures MergeButton(files) ==
              [ ShowSuccess(MergedMessage),
                Download("Download Merged PDF", "merged.pdf", Pdf(MergePdfs(Readers(files)).value)) ]
  {
    ValidMergeReads(files);
  }

  /** The merged document keeps upload order: each upload's pages appear
      as one run, unchanged, at the upload's offset. (Once every upload
      is valid the merge succeeds: ValidMergeReads.) */
  lemma {:induction false} MergedLayout<Page>(files: seq<Upload<Page>>, i: nat)
    requires MergePdfs(Readers(files)).Ok? && i < |files|
    ensures files[i].reader.Readable?
    ensures Offset(Readers(files), i) + |files[i].reader.pages| <= |MergePdfs(Readers(files)).value|
    ensures MergePdfs(Readers(files)).value[Offset(Readers(files), i)..Offset(Readers(files), i) + |files[i].reader.pages|]
              == files[i].reader.pages
  {
    var readers := Readers(files);
    assert readers[i] == files[i].reader;
    MergeLayout(readers, i);
  }

  /** The banners of the uploads split anywhere are the banners of each
      part, one after the other: the banners follow upload order. */
  lemma {:induction false} FileErrorsAppend<Page>(a: seq<Upload<Page>>, b: seq<Upload<Page>>)
    ensures FileErrors(a + b) == FileErrors(a) + FileErrors(b)
    decreases |b|
  {
    if b == [] {
      assert a + b == a;
    } else {
      var init := b[..|b| - 1];
      assert (a + b)[..|a + b| - 1] == a + init;
      assert (a + b)[|a + b| - 1] == b[|b| - 1];
      FileErrorsAppend(a, init);
    }
  }

  /** An upload's banner is in the list exactly when validate_pdf refuses
      it: for a single upload, the list is its banner or nothing. */
  lemma {:induction false} FileErrorsOne<Page>(u: Upload<Page>)
    ensures ValidatePdf(u, MaxPdfMb).Pass? ==> FileErrors([u]) == []
    ensures ValidatePdf(u, MaxPdfMb).Fail? ==>
              FileErrors([u]) == [ShowError(u.name + ": " + PdfMessage(ValidatePdf(u, MaxPdfMb).error))]
  {
    assert [u][..0] == [];
  }
}
