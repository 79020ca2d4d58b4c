/** The page-sequence semantics of pdfutils.py. A document is its list of
    pages; the bytes PyPDF2 reads and writes are not modelled, and `Page`
    stands for whatever a page holds. */
module PdfUtils {
  import opened Wrappers
  import opened PageSets

  /** What `PdfReader` makes of an upload: its pages, or the text of the
      exception it raised. */
  datatype ReadResult<Page> = Unreadable(reason: string) | Readable(pages: seq<Page>)

  /** The text of the `IndexError` PyPDF2's page list raises for an index
      outside the document. */
  const IndexErrorMessage: string := "sequence index out of range"

  // ---------------------------------------------------------------------
  // merge_pdfs (pdfutils.py:6-15)
  // ---------------------------------------------------------------------

  /** The pages a read contributes to a merge; an unreadable file stops
      the merge before it contributes anything. */
  function PageCount<Page>(f: ReadResult<Page>): nat {
    if f.Readable? then |f.pages| else 0
  }

  /** The number of pages in all the files together. */
  function PageTotal<Page>(files: seq<ReadResult<Page>>): nat {
    if files == [] then 0 else PageTotal(files[..|files| - 1]) + PageCount(files[|files| - 1])
  }

  /** Where the pages of file `i` start in the merged document. */
  function Offset<Page>(files: seq<ReadResult<Page>>, i: nat): nat
    requires i <= |files|
  {
    PageTotal(files[..i])
  }

  /** Whether every file was read. */
  predicate AllReadable<Page>(files: seq<ReadResult<Page>>) {
    forall i :: 0 <= i < |files| ==> files[i].Readable?
  }

  /** Whether `err` is the reason of the first file that could not be
      read. */
  predicate FirstFailure<Page>(files: seq<ReadResult<Page>>, err: string) {
    exists i :: 0 <= i < |files| && files[i].Unreadable? && files[i].reason == err && AllReadable(files[..i])
  }

  /** `merge_pdfs(files)`: every page of every file, file after file, in
      input order. The first file `PdfReader` cannot read ends the merge
      with its exception. */
  function MergePdfs<Page>(files: seq<ReadResult<Page>>): (r: Result<seq<Page>, string>)
    ensures r.Ok? <==> AllReadable(files)
    ensures r.Ok? ==> |r.value| == PageTotal(files)
    ensures r.Err? ==> FirstFailure(files, r.error)
  {
    if files == [] then Ok([])
    else
      var init := files[..|files| - 1];
      var last := files[|files| - 1];
      var prefix := MergePdfs(init);
      assert AllReadable(files) <==> AllReadable(init) && last.Readable? by {
        if AllReadable(init) && last.Readable? {
          forall i | 0 <= i < |files| ensures files[i].Readable? {
            if i < |init| {
              assert files[i] == init[i];
            }
          }
        }
        if AllReadable(files) {
          forall i | 0 <= i < |init| ensures init[i].Readable? {
            assert init[i] == files[i];
          }
        }
      }
      match prefix
      case Err(e) =>
        assert FirstFailure(files, e) by {
          var i :| 0 <= i < |init| && init[i].Unreadable? && init[i].reason == e && AllReadable(init[..i]);
          assert files[..i] == init[..i];
          assert files[i] == init[i];
        }
        Err(e)
      case Ok(pages) =>
        if last.Unreadable? then
          assert files[..|init|] == init;
          Err(last.reason)
        else Ok(pages + last.pages)
  }

  /** Each file's pages appear in the merge as one run, at the file's
      offset, unchanged: the merge is the concatenation of the files in
      input order. */
  lemma {:induction false} MergeLayout<Page>(files: seq<ReadResult<Page>>, i: nat)
    requires MergePdfs(files).Ok? && i < |files|
    ensures Offset(files, i) + |files[i].pages| <= |MergePdfs(files).value|
    ensures MergePdfs(files).value[Offset(files, i)..Offset(files, i) + |files[i].pages|] == files[i].pages
    decreases |files|
  {
    var init := files[..|files| - 1];
    var merged := MergePdfs(files).value;
    var prefix := MergePdfs(init).value;
    assert merged == prefix + files[|files| - 1].pages;
    if i == |files| - 1 {
      assert files[..i] == init;
    } else {
      assert init[..i] == files[..i];
      assert init[i] == files[i];
      MergeLayout(init, i);
    }
  }

  /** Merging two lists of files merges the results of merging each. */
  lemma {:induction false} MergeAppend<Page>(a: seq<ReadResult<Page>>, b: seq<ReadResult<Page>>)
    requires MergePdfs(a).Ok? && MergePdfs(b).Ok?
    ensures MergePdfs(a + b) == Ok(MergePdfs(a).value + MergePdfs(b).value)
    decreases |b|
  {
    if b == [] {
      assert a + b == a;
      assert MergePdfs(a).value + [] == MergePdfs(a).value;
    } else {
      var init := b[..|b| - 1];
      assert AllReadable(init) by {
        forall i | 0 <= i < |init| ensures init[i].Readable? {
          assert init[i] == b[i];
        }
      }
      assert (a + b)[..|a + b| - 1] == a + init;
      assert (a + b)[|a + b| - 1] == b[|b| - 1];
      MergeAppend(a, init);
      var pa := MergePdfs(a).value;
      var pi := MergePdfs(init).value;
      var last := b[|b| - 1].pages;
      assert MergePdfs(b) == Ok(pi + last);
      assert MergePdfs(a + b) == Ok((pa + pi) + last);
      assert (pa + pi) + last == pa + (pi + last);
    }
  }

  /** The loop of pdfutils.py:8-12 as written: each file is read, then
      its pages are added one by one. */
  method MergeLoop<Page>(files: seq<ReadResult<Page>>) returns (r: Result<seq<Page>, string>)
    ensures r == MergePdfs(files)
  {
    var written: seq<Page> := [];
    for i := 0 to |files|
      invariant MergePdfs(files[..i]) == Ok(written)
    {
      assert files[..i + 1][..i] == files[..i];
      match files[i]
      case Unreadable(reason) =>
        assert files[..i + 1][i] == files[i];
        PrefixFailure(files, i + 1);
        return Err(reason);
      case Readable(pages) =>
        ghost var before := written;
        for k := 0 to |pages|
          invariant written == before + pages[..k]
        {
          assert pages[..k + 1] == pages[..k] + [pages[k]];
          written := written + [pages[k]];
        }
        assert pages[..|pages|] == pages;
        assert files[..i + 1][i] == files[i];
    }
    assert files[..|files|] == files;
    return Ok(written);
  }

  /** A merge that fails on a prefix of the files fails the same way on
      all of them. */
  lemma {:induction false} PrefixFailure<Page>(files: seq<ReadResult<Page>>, n: nat)
    requires n <= |files| && MergePdfs(files[..n]).Err?
    ensures MergePdfs(files) == MergePdfs(files[..n])
    decreases |files| - n
  {
    if n < |files| {
      assert files[..n + 1][..n] == files[..n];
      PrefixFailure(files, n + 1);
    } else {
      assert files[..n] == files;
    }
  }

  // ---------------------------------------------------------------------
  // split_pdf (pdfutils.py:17-25)
  // ---------------------------------------------------------------------

  /** Whether `reader.pages[k]` exists: Python indexing, where a negative
      index counts back from the last page. */
  predicate ValidIndex(count: nat, k: int) {
    -(count as int) <= k < count
  }

  /** The position `reader.pages[k]` refers to. */
  function Position(count: nat, k: int): (pos: nat)
    requires ValidIndex(count, k)
    ensures pos < count
  {
    if k < 0 then count + k else k
  }

  /** `reader.pages[k]`, or `None` where PyPDF2 raises `IndexError`. */
  function PageAt<Page>(doc: seq<Page>, k: int): (r: Option<Page>)
    ensures r.Some? <==> ValidIndex(|doc|, k)
  {
    if ValidIndex(|doc|, k) then Some(doc[Position(|doc|, k)]) else None
  }

  /** The pages numbered `numbers`, 1-based, in the order given,
      repetitions kept. */
  function SelectPages<Page>(doc: seq<Page>, numbers: seq<int>): (r: seq<Page>)
    requires forall i :: 0 <= i < |numbers| ==> 1 <= numbers[i] <= |doc|
    ensures |r| == |numbers|
    ensures forall i :: 0 <= i < |numbers| ==> r[i] == doc[numbers[i] - 1]
  {
    seq(|numbers|, i requires 0 <= i < |numbers| => doc[numbers[i] - 1])
  }

  /** Whether every number names a page PyPDF2 will hand out for it,
      counting `0` as the last page and `-m` as the page `m + 1` from the
      end, as Python indexing of `n - 1` does. */
  predicate AllIndexable(count: nat, numbers: seq<int>) {
    forall i :: 0 <= i < |numbers| ==> ValidIndex(count, numbers[i] - 1)
  }

  /** The page selection of split_pdf over the pages that were read. The
      first number outside the document raises `IndexError`. */
  function Pick<Page>(doc: seq<Page>, numbers: seq<int>): (r: Result<seq<Page>, string>)
    ensures r.Ok? <==> AllIndexable(|doc|, numbers)
    ensures r.Ok? ==> |r.value| == |numbers|
    ensures r.Ok? ==> forall i :: 0 <= i < |numbers| ==>
              r.value[i] == doc[Position(|doc|, numbers[i] - 1)]
    ensures r.Err? ==> r.error == IndexErrorMessage
  {
    if numbers == [] then Ok([])
    else
      var init := numbers[..|numbers| - 1];
      var n := numbers[|numbers| - 1];
      assert forall i :: 0 <= i < |init| ==> init[i] == numbers[i];
      match Pick(doc, init)
      case Err(e) => Err(e)
      case Ok(pages) =>
        match PageAt(doc, n - 1)
        case None => Err(IndexErrorMessage)
        case Some(p) => Ok(pages + [p])
  }

  /** `split_pdf(uploaded_file, page_numbers)`: the document is read, then
      the pages are picked; either step may raise. */
  function SplitPdf<Page>(file: ReadResult<Page>, numbers: seq<int>): (r: Result<seq<Page>, string>)
    ensures r.Ok? <==> file.Readable? && AllIndexable(|file.pages|, numbers)
    ensures r.Ok? ==> |r.value| == |numbers|
    ensures r.Ok? ==> forall i :: 0 <= i < |numbers| ==>
              r.value[i] == file.pages[Position(|file.pages|, numbers[i] - 1)]
    ensures r.Err? ==> r.error == if file.Unreadable? then file.reason else IndexErrorMessage
  {
    match file
    case Unreadable(reason) => Err(reason)
    case Readable(doc) => Pick(doc, numbers)
  }

  /** For page numbers within the document, split_pdf hands back exactly
      those pages, 1-based, in the order given, repetitions kept and
      nothing sorted. */
  lemma {:induction false} SplitPdfSelects<Page>(doc: seq<Page>, numbers: seq<int>)
    requires forall i :: 0 <= i < |numbers| ==> 1 <= numbers[i] <= |doc|
    ensures SplitPdf(Readable(doc), numbers) == Ok(SelectPages(doc, numbers))
  {
    assert AllIndexable(|doc|, numbers);
    var r := Pick(doc, numbers).value;
    assert forall i :: 0 <= i < |numbers| ==> r[i] == SelectPages(doc, numbers)[i];
    assert r == SelectPages(doc, numbers);
  }

  /** Page number 0 is not refused: it names the last page. */
  lemma {:induction false} SplitPdfZeroIsLast<Page>(doc: seq<Page>)
    requires doc != []
    ensures SplitPdf(Readable(doc), [0]) == Ok([doc[|doc| - 1]])
  {
    var r := SplitPdf(Readable(doc), [0]);
    assert AllIndexable(|doc|, [0]);
    assert r.value[0] == doc[|doc| - 1];
    assert r.value == [doc[|doc| - 1]];
  }

  /** A page number past the end fails the whole split. */
  lemma {:induction false} SplitPdfPastEnd<Page>(doc: seq<Page>, numbers: seq<int>, i: nat)
    requires i < |numbers| && numbers[i] > |doc|
    ensures SplitPdf(Readable(doc), numbers) == Err(IndexErrorMessage)
  {
    assert !ValidIndex(|doc|, numbers[i] - 1);
  }

  /** Asking for the pages `1..count` in order gives the document back. */
  lemma {:induction false} SplitPdfAll<Page>(doc: seq<Page>)
    ensures SplitPdf(Readable(doc), Interval(1, |doc|)) == Ok(doc)
  {
    PickInOrder(doc, Interval(1, |doc|));
  }

  lemma {:induction false} PickInOrder<Page>(doc: seq<Page>, numbers: seq<int>)
    requires |numbers| == |doc|
    requires forall i :: 0 <= i < |numbers| ==> numbers[i] == i + 1
    ensures Pick(doc, numbers) == Ok(doc)
  {
    assert AllIndexable(|doc|, numbers);
    var picked := Pick(doc, numbers).value;
    assert forall i :: 0 <= i < |doc| ==> picked[i] == doc[i];
    assert picked == doc;
  }

  /** Splitting by two lists of page numbers in turn and joining the
      results is splitting by the joined list. */
  lemma {:induction false} PickAppend<Page>(doc: seq<Page>, a: seq<int>, b: seq<int>)
    requires Pick(doc, a).Ok? && Pick(doc, b).Ok?
    ensures Pick(doc, a + b) == Ok(Pick(doc, a).value + Pick(doc, b).value)
  {
    var ab := a + b;
    assert AllIndexable(|doc|, ab) by {
      forall i | 0 <= i < |ab| ensures ValidIndex(|doc|, ab[i] - 1) {
        if i < |a| {
          assert ab[i] == a[i];
        } else {
          assert ab[i] == b[i - |a|];
        }
      }
    }
    var r := Pick(doc, ab).value;
    var s := Pick(doc, a).value + Pick(doc, b).value;
    forall i | 0 <= i < |ab| ensures r[i] == s[i] {
      if i < |a| {
        assert ab[i] == a[i];
      } else {
        assert ab[i] == b[i - |a|];
      }
    }
    assert r == s;
  }

  /** The loop of pdfutils.py:21-22 as written. */
  method SplitLoop<Page>(file: ReadResult<Page>, numbers: seq<int>) returns (r: Result<seq<Page>, string>)
    ensures r == SplitPdf(file, numbers)
  {
    if file.Unreadable? {
      return Err(file.reason);
    }
    var doc := file.pages;
    var written: seq<Page> := [];
    for i := 0 to |numbers|
      invariant Pick(doc, numbers[..i]) == Ok(written)
    {
      assert numbers[..i + 1][..i] == numbers[..i];
      var k := numbers[i] - 1;
      if !ValidIndex(|doc|, k) {
        PickPrefixFailure(doc, numbers, i + 1);
        return Err(IndexErrorMessage);
      }
      written := written + [doc[Position(|doc|, k)]];
    }
    assert numbers[..|numbers|] == numbers;
    return Ok(written);
  }

  /** A selection that fails on a prefix of the numbers fails on all of
      them. */
  lemma {:induction false} PickPrefixFailure<Page>(doc: seq<Page>, numbers: seq<int>, n: nat)
    requires n <= |numbers| && Pick(doc, numbers[..n]).Err?
    ensures Pick(doc, numbers) == Err(IndexErrorMessage)
  {
    var k :| 0 <= k < n && !ValidIndex(|doc|, numbers[..n][k] - 1);
    assert numbers[k] == numbers[..n][k];
  }
}
