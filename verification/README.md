# ezpdfkit in Dafny

ezpdfkit is a small Streamlit application with two tools, Merge PDFs and
Split PDF. This project models the logic behind its buttons and proves
properties of it.

- **Upload validators** (`validators.py`), module `Validators`:
  - `validate_pdf` makes its four checks in a fixed order: extension, size,
    `%PDF-` header, then page count. The first failure decides the message.
  - `validate_total_size` checks the uploads' combined size.
  - `validate_image` checks the extension, then the size, then `imghdr`'s
    verdict.
- **Page semantics of the PDF helpers** (`pdfutils.py`), module `PdfUtils`:
  - A document is a sequence of abstract `Page`s.
  - `merge_pdfs` concatenates the documents in upload order; the first
    unreadable file raises.
  - `split_pdf` picks 1-based page numbers with Python's list indexing, so
    `0` is the last page and a number past the end raises `IndexError`.
- **The page-range parser of the split tool** (`app.py:92-126`), modules
  `RangeParser`, `PageSets` and `Text`:
  - The input has its spaces removed, is split on commas, and each piece is
    stripped. Empty pieces are dropped.
  - Each token is judged as a single page or as an `a-b` range, split at its
    first `-`.
  - The accepted pages become `sorted(set(...))`. The rejected tokens are
    kept in input order.
  - `Text` holds the parts of Python's `str.strip`, `split`, `join`,
    `replace`, `lower`, `str(int)` and `int(str)` that the parser and the
    messages rely on.
- **The two tools once their button is pressed** (`app.py:38-62` and
  `app.py:81-169`), modules `MergeTool` and `SplitTool`:
  - Each button becomes the list of events the user sees: error and success
    banners, and downloads (module `Events`).
  - A single page number splits the document in two at that page, into a
    zip of two PDFs. The extraction of the accepted pages follows in every
    case, because `app.py:154` is not an `else` of `app.py:129`.

Everything PyPDF2, zipfile and `imghdr` compute is an input:
- what `PdfReader` makes of an upload is a `ReadResult`, either its pages
  or the text of its exception;
- `imghdr`'s verdict is a flag;
- written PDFs and zips are their page sequences and entry lists, not
  bytes.

Sizes in MB are compared exactly. The divisor `1024 ** 2` is a power of
two, so the float quotient is the exact one while the size is below 2^53
bytes.

The events of the split tool are built by `SplitAtEvents` (the split of
app.py:129-151), `ExtractEvents` (the extraction of app.py:153-167),
`FlowEvents` (the two in turn), `TokenEvents` (the "No pages" case of
app.py:93-94 first) and `SplitEvents` (the tokens read from the input).
`SegmentName` names the two parts (app.py:144-147); `MbText` renders a
size (validators.py:20); `HasPdfExtension` is the extension test
(validators.py:15-16); `TotalSize` sums the uploads (validators.py:42);
`Join` is `', '.join`. The lemmas below state what each of them does.

## Model

| member | source | states |
|---|---|---|
| Text.Strip | app.py:92 | `tok.strip()` is the run of the token from its first to its last non-whitespace character; everything cut off is whitespace, and the result neither starts nor ends with whitespace |
| Text.StripPadded | app.py:92 | stripping undoes padding: any text without whitespace at its ends, padded with any whitespace, strips back to itself |
| Text.StripChars | app.py:92 | stripping introduces no character, so a space- and comma-free piece strips to a space- and comma-free token |
| Text.Remove | app.py:92 | `replace(' ', '')` keeps exactly the characters other than the removed one and never lengthens the text |
| Text.RemoveAppend | app.py:92 | removing a character distributes over concatenation |
| Text.Split | app.py:92 | `split(',')` yields at least one piece, no piece holds a comma or a character absent from the input, and the pieces joined with `,` give the input back |
| Text.SplitJoin | app.py:92 | splitting the comma-`Join` of comma-free pieces recovers exactly those pieces |
| Text.SplitAppend | app.py:92 | `split(',')` of two texts joined by a comma is the pieces of the first followed by those of the second |
| Text.IndexOf | app.py:101 | `tok.split('-', 1)` cuts at an occurrence of `-` with none before it |
| Text.IndexOfFirst | app.py:101 | that cut is the unique first occurrence |
| Text.LastIndexOf | validators.py:56 | `rsplit('.', 1)` cuts at an occurrence of `.` with none after it |
| Text.Lower | validators.py:15 | lower-casing keeps the length and maps each character on its own |
| Text.NatToString | app.py:144-147 | `str(n)` is a non-empty digit string that denotes `n`; it starts with `0` only when it is `"0"`, so it has no leading zero |
| Text.IntToString | app.py:144-147 | `str(i)` is non-empty and starts with `-` exactly when `i` is negative |
| Text.IntToStringRoundTrip | app.py:144-147 | `int(str(i)) == i` for every integer: the numbers the messages print read back as themselves |
| Text.ParseInt | app.py:103 | `int()` accepts only strings made of digits, `_`, signs and the whitespace `int()` skips, which leaves out U+001C to U+001F although `str.strip()` removes them |
| Text.ParseIntParts | app.py:103 | every string `int()` accepts is whitespace, an optional sign, a digit body with single `_` between digits, and whitespace, and its value is the body's under the sign |
| Text.ParseBody | app.py:103 | conversely, every such string is accepted with that value, so the two lemmas give exactly the strings `int()` accepts |
| Text.SignComesFirst | app.py:101-103 | a `+` or `-` in an accepted string has only whitespace before it, so the `2-3` left by splitting `1-2-3` at its first `-` is refused |
| Text.MinusMeansNonPositive | app.py:101-104 | a `-` anywhere in a string `int()` accepts is its sign, so the value read is at most 0 |
| Text.UnderscoreGrouping | app.py:119 | `int("1_0")` is 10: underscores between digits are accepted and ignored |
| Text.ParseDigits | app.py:119 | a digit string with `int()` whitespace around it parses to the number it denotes |
| Text.ParseSignedDigits | app.py:103 | a signed digit string with `int()` whitespace around it parses to the signed number |
| Text.ParseIntRoundTrip | app.py:119 | `int(str(n)) == n`, also with `int()` whitespace around the numeral |
| Text.ParseSignedRoundTrip | app.py:103 | `int('-' + str(n)) == -n` and `int('+' + str(n)) == n`, also with `int()` whitespace around them |
| PageSets.Interval | app.py:111 | `range(lo, hi + 1)` has `hi - lo + 1` elements (none when `lo > hi`), the k-th being `lo + k` |
| PageSets.IntervalMembers | app.py:111 | a page is in `range(lo, hi + 1)` exactly when it lies between the bounds |
| PageSets.IntervalSplit | app.py:134-138 | the runs `lo..mid` and `mid+1..hi` concatenate to `lo..hi`, so the two halves of a split cover the document |
| PageSets.SortedSet | app.py:126 | `sorted(set(xs))` is strictly ascending and holds exactly the elements of `xs` |
| PageSets.AscendingUnique | app.py:126 | two strictly ascending lists with the same elements are equal, so any ascending, duplicate-free arrangement is `sorted(set(...))` |
| PageSets.SortedSetOfAscending | app.py:126 | an ascending list is its own `sorted(set(...))` |
| RangeParser.Tokenize | app.py:92 | every raw token is non-empty, free of spaces and commas, and has no whitespace at either end |
| RangeParser.TokenizeAppend | app.py:92 | the text on each side of a comma is tokenized on its own: the tokens of `a,b` are those of `a` followed by those of `b` |
| RangeParser.TokenizePiece | app.py:92 | a comma-free piece gives its stripped, space-free text as its one token, or no token when that is empty; with TokenizeAppend this fixes the tokens of every input |
| RangeParser.KeepStripped | app.py:92 | empty stripped pieces are dropped, so no token is empty and there are no more tokens than pieces |
| RangeParser.KeepStrippedAppend | app.py:92 | the pieces of two runs are kept independently, in order |
| RangeParser.KeepStrippedOne | app.py:92 | one piece is kept, stripped, exactly when it does not strip to nothing |
| RangeParser.TokenizeJoin | app.py:92 | tokens written out with `,` or `, ` between them tokenize back exactly; no tokens write out as the empty input |
| RangeParser.Parse | app.py:92-94 | the "No pages or ranges specified." case (`None`) arises exactly when no token survives |
| RangeParser.ClassifySingle | app.py:116-125 | a plain token is accepted exactly when `int()` reads a page `1 <= p <= total` from it, and it then contributes `[p]` |
| RangeParser.ClassifyRange | app.py:100-115 | a range is accepted exactly when both ends parse, both are at least 1, and it meets `1..total`; it then contributes exactly the document's pages between its ends, ascending |
| RangeParser.Classify | app.py:99-125 | whatever one token contributes is a non-empty, strictly ascending run of pages of the document |
| RangeParser.RangeSplitsAtFirstDash | app.py:100-101 | a token `a-b`, where `a` has no `-`, is judged as the range from `a` to `b`; `b` may hold more dashes |
| RangeParser.NumeralRange | app.py:104-113 | a range of two numerals `s-e` is refused unless `1 <= s <= e` and `s <= total`; otherwise it selects `s..min(e, total)` |
| RangeParser.ClampExample | app.py:104-111 | with 10 pages, `8-15` is clamped to `[8, 9, 10]`, not refused |
| RangeParser.ReversedExample | app.py:104-113 | with 10 pages, the reversed `10-8` and `99-5` are refused |
| RangeParser.SecondDashRefused | app.py:100-115 | every token with a second `-` is split at its first `-` and refused, whatever the document: `int()` of the part after it raises (`2-3` of `1-2-3`), or that second `-` is the sign of an end below 1 (`1--3`) |
| RangeParser.SingleIsDegenerateRange | app.py:99-125 | a plain token `p` is judged exactly as the range `p-p` |
| RangeParser.GatheredMembers | app.py:96-125 | a page is in `valid_pages` before sorting exactly when some token contributes it |
| RangeParser.RejectedTokensMembers | app.py:97-125 | a token is in `invalid_tokens` exactly when some occurrence of it was judged rejected |
| RangeParser.Collect | app.py:96-126 | for any judgement of the tokens, the pages are strictly ascending and are the union of the tokens' contributions, and the rejected tokens are exactly those judged `Rejected` |
| RangeParser.CollectPermutation | app.py:126 | any rearrangement of the tokens selects the same page list |
| RangeParser.CollectRejectionsAppend | app.py:97-125 | rejections of two runs of tokens are those of the first run followed by those of the second |
| RangeParser.ParseTokens | app.py:96-126 | the final page list is strictly ascending, lies within `1..total`, and is the union of the tokens' contributions; the rejected tokens are exactly the refused ones |
| RangeParser.RejectionsAppend | app.py:97-125 | rejected tokens are reported in input order |
| RangeParser.ParsePermutation | app.py:126 | permuting the tokens does not change the page list |
| RangeParser.ParseLoop | app.py:96-126 | the loop as written, with `extend`, `append` and a final `sorted(set(...))`, computes `ParseTokens` |
| RangeParser.OneToken | app.py:99-126 | a lone accepted token is the whole selection with nothing rejected; a lone refused token selects nothing and is the one rejection |
| PdfUtils.MergePdfs | pdfutils.py:6-15 | the merge succeeds exactly when every file is readable; its page count is the sum of the files' page counts; a failure carries the exception of the first unreadable file |
| PdfUtils.MergeLayout | pdfutils.py:9-12 | each file's pages appear unchanged, as one run, at the file's offset: the merge is the concatenation in input order |
| PdfUtils.MergeAppend | pdfutils.py:9-12 | merging two lists of files gives the concatenation of their two merges |
| PdfUtils.MergeLoop | pdfutils.py:8-12 | the nested loop as written, adding pages one by one, computes `MergePdfs` |
| PdfUtils.PrefixFailure | pdfutils.py:9-10 | once a file cannot be read, the files after it do not change the failure |
| PdfUtils.PageAt | pdfutils.py:22 | `reader.pages[k]` exists exactly for `-count <= k < count` |
| PdfUtils.SelectPages | pdfutils.py:21-22 | selecting 1-based numbers gives one page per number, the i-th being page `numbers[i]` |
| PdfUtils.Pick | pdfutils.py:21-22 | the selection succeeds exactly when every `n - 1` is a valid Python index; its i-th page is the page that index names; otherwise it raises `IndexError` |
| PdfUtils.SplitPdf | pdfutils.py:17-25 | the split succeeds exactly when the file is readable and every `n - 1` is a valid Python index into its pages; then the i-th page written is the page that index names; otherwise it raises the reader's exception, or `IndexError` for a readable file |
| PdfUtils.SplitPdfSelects | pdfutils.py:21-22 | for numbers within `1..count`, split_pdf returns exactly those pages in the given order, repetitions kept, nothing sorted |
| PdfUtils.SplitPdfZeroIsLast | pdfutils.py:22 | page number 0 is not refused: it selects the last page |
| PdfUtils.SplitPdfPastEnd | pdfutils.py:22 | any number past the last page fails the whole split |
| PdfUtils.SplitPdfAll | pdfutils.py:21-22 | selecting `1..count` in order gives the document back |
| PdfUtils.PickAppend | pdfutils.py:21-22 | selecting by two lists in turn and concatenating is selecting by the joined list |
| PdfUtils.SplitLoop | pdfutils.py:19-22 | the loop as written computes `SplitPdf` |
| Validators.ExceedsMbExact | validators.py:18-19 | the integer test `size > max_mb * 1024**2` is the comparison of the exact quotient `size / 1024**2` with `max_mb` |
| Validators.Tenths | validators.py:20 | the `:.1f` rendering is within half a tenth of the exact MB value, with ties going to the even tenth |
| Validators.MbTextNear | validators.py:20 | `MbText` of a size within a twentieth of a whole `mb` is shown as `mb.0` |
| Validators.MbTextJustOver | validators.py:20 | through `MbText`, a file one byte over the limit is reported with the limit itself as its size |
| Validators.PdfExtensionCases | validators.py:15-16 | the extension check `HasPdfExtension` passes exactly for names ending in `.pdf`, with each letter in either case |
| Validators.Header | validators.py:22 | `read(5)` is a prefix of the file: its first five bytes, or the whole of a shorter file |
| Validators.HeaderIsMagic | validators.py:22-25 | the header check passes exactly when the file begins with `%PDF-`, so a file under five bytes fails |
| Validators.ValidatePdf | validators.py:4-35 | each refusal happens exactly when every earlier check passed and its own fails, in the order extension, size, header, page count; unreadable gives "corrupted", no pages gives "PDF has no pages"; it passes exactly when all four pass |
| Validators.SizeBoundary | validators.py:18-20 | a file of exactly `max_mb` MB passes the size check, and one more byte fails it |
| Validators.ValidateTotalSize | validators.py:37-45 | the total check passes exactly when the summed sizes are at most `max_total_mb * 1024**2`; on failure the message names the total |
| Validators.TotalSizeAppend | validators.py:42 | the total `TotalSize` is additive over the list of uploads |
| Validators.TotalSizePermutation | validators.py:42 | the total does not depend on the order of the uploads |
| Validators.ValidateTotalSizePermutation | validators.py:42-45 | nor does the total check |
| Validators.ImageExtension | validators.py:56 | the extension is the text after the last `.` of the lower-cased name, or the whole name when there is no `.` |
| Validators.ImageExtensionIgnoresCase | validators.py:56 | the extension does not depend on the case of the name |
| Validators.ValidateImage | validators.py:47-68 | the extension is checked first, then the size, then `imghdr`; each refusal happens exactly when the earlier checks pass and its own fails, and it passes exactly when all three pass |
| SplitTool.SplitSegments | app.py:133-138 | the two halves of a split at `p` concatenate to the document; the first has `p` pages; the second is empty exactly when `p` is the last page |
| SplitTool.SelectInterval | app.py:133-138 | the pages the writer loops add for numbers `lo..hi` are the document's run between those pages |
| SplitTool.SplitButton | app.py:81-91 | with no upload, or one validate_pdf refuses, there is exactly one error banner; otherwise the upload holds at least one page and the input is processed against them |
| SplitTool.NoTokens | app.py:92-94 | through `SplitEvents` and `TokenEvents`, the outcome is the lone "No pages or ranges specified." banner exactly when no token survives |
| SplitTool.FlowEndsInExtraction | app.py:153-167 | in `FlowEvents`, once there are tokens, extraction always has the last word: the last event is "No valid pages…" when nothing is selected, and otherwise the download of the selected pages as `split.pdf` |
| SplitTool.FlowSplitsAt | app.py:129-167 | one plain page `p`: a split into `split_1-p.pdf` and `split_(p+1)-total.pdf`, then the extraction of page `p` alone |
| SplitTool.SplitAtOnePage | app.py:129-151 | `SplitAtEvents` for one plain page `p`: the banner naming `p` and the zip whose entries are named by `SegmentName` and hold pages `1..p` and `p+1..total` |
| SplitTool.ExtractOnePage | app.py:161-167 | in `ExtractEvents`, extracting a lone page reports "Extracted 1 page(s)." and offers that page |
| SplitTool.SingleSelection | app.py:117-126 | a lone plain page number within the document selects it and rejects nothing |
| SplitTool.SingleRejection | app.py:117-126 | a lone plain token naming no page selects nothing and is rejected |
| SplitTool.SplitAtPage | app.py:129-167 | input that is one plain page `p` gives the split banner, the zip of pages `1..p` and `p+1..total`, and then the extraction of page `p`; the ignored-tokens warning cannot appear |
| SplitTool.SplitOnlyThen | app.py:129-148 | in `SplitEvents`, a zip is offered exactly when the input is one token without `-` that parses to a page of the document |
| SplitTool.FlowWithSplit | app.py:129-148 | a split request makes `SplitAtEvents`, and so `FlowEvents`, offer a zip |
| SplitTool.FlowWithoutSplit | app.py:129-131 | without a split request no zip is offered |
| SplitTool.NothingValid | app.py:154-155 | `ExtractEvents` alone speaks: with no page accepted, the lone message is "No valid pages to extract…" |
| SplitTool.ExtractIsSplitPdf | app.py:158-167 | in `ExtractEvents`, the extracted PDF is what split_pdf makes of the accepted pages, and the count reported is their number |
| MergeTool.FileErrors | app.py:49-54 | the loop checks every upload, adding at most one banner per upload |
| MergeTool.FileErrorsEmpty | app.py:49-55 | no banner is shown exactly when every upload is valid, which is when `all_valid` stays true |
| MergeTool.FileErrorsAreBanners | app.py:52-53 | every banner the loop adds is an error banner |
| MergeTool.AllValidAt | app.py:49-55 | when `all_valid` stays true, each upload passed validate_pdf |
| MergeTool.AllValidFromEach | app.py:49-55 | when each upload passes validate_pdf, `all_valid` stays true |
| MergeTool.FileErrorsAppend | app.py:50-54 | the banners follow upload order: those of a split list are those of each part, one after the other |
| MergeTool.FileErrorsOne | app.py:50-54 | one upload yields its name-prefixed banner exactly when validate_pdf refuses it |
| MergeTool.MergeOutcome | app.py:55-62 | the success banner comes first exactly when every file is read, and then `merged.pdf` offers the merged pages; otherwise there is one error banner, "Error during merge: " followed by the exception of the first file that cannot be read |
| MergeTool.MergeButton | app.py:42-62 | fewer than two uploads, too large a total, or any refused upload end in those error banners, checked in that order; otherwise the merge runs |
| MergeTool.ValidMergeReads | app.py:55-58 | once every upload is valid, every file `merge_pdfs` reads is readable, so no read failure reaches the merge |
| MergeTool.MergeSucceedsIff | app.py:42-62 | the merge succeeds exactly when there are at least two uploads, their total is within 500 MB, and every one is a valid PDF |
| MergeTool.MergedEvents | app.py:55-60 | on success the uploads' merged document is offered as `merged.pdf` |
| MergeTool.MergedLayout | app.py:58 | in the merged document each upload's pages appear unchanged, as one run at its offset, in upload order |

## Left out

- The Streamlit interface is not modelled: page setup, styling, the tool selector, the uploaders, and the text input with its `max_chars=100` limit (app.py:9-37, 64-80). Nor is the look of the banners and buttons (uicomponents.py). A button press is a call of `MergeButton` or `SplitButton`, and the result is the list of events shown.
- MergeTool.MergeButton: does not model the 30-second rate limiter (app.py:39-41, 56). It reads the wall clock, so the model describes a press the limiter lets through.
- The bytes PyPDF2 and zipfile read and write are not modelled: documents are page sequences and a zip is its list of named entries. Stream `seek` calls and what they leave behind are not modelled either.
- The messages of exceptions raised inside PyPDF2 are inputs: `Unreadable(reason)` carries them. `IndexErrorMessage` stands for the text of the `IndexError` a page index out of range raises.
- SplitTool.SplitButton: the "Error during split" handler (app.py:168-169) is not modelled. Once validate_pdf has read the upload, nothing in lines 90-167 can raise in the model: every page index is in range, and `int()` failures are caught.
- MergeTool.MergeButton: treats the reader `merge_pdfs` builds for each file (pdfutils.py:10) as the one validate_pdf built (validators.py:28), so the same file always reads the same way.
- MergeTool.MergeButton: failures of `writer.add_page` and `writer.write` inside `merge_pdfs` (pdfutils.py:12-14) are not modelled. The "Error during merge" handler (app.py:61-62) would catch them, so the model only shows that no read failure reaches it.
- SplitTool.SplitButton: treats the second `PdfReader(split_file)` (app.py:90), and the one inside `split_pdf` (pdfutils.py:19), as the reader validate_pdf built (validators.py:28), so the upload always reads as the same pages.
- Text.ParseInt: models `int()` in base 10 over ASCII digits, with signs, single underscores between digits and surrounding whitespace. Its whitespace is CPython's: ASCII tab to carriage return, the space, and every non-ASCII whitespace character, but not U+001C to U+001F. Unicode decimal digits and CPython's limit on the number of digits are left out.
- Text.Lower: lower-cases ASCII letters only. Outside ASCII, Python's `lower()` can yield ASCII letters: `'\u0130'.lower()` is `i` followed by U+0307, and the Kelvin sign lower-cases to `k`. Lower-casing maps each character on its own, and no extension contains U+0307 or a `k`, so every accept/refuse decision is the same. Only the echoed `.{ext}` of the unsupported-image message can differ.
- RangeParser.Tokenize: its own contract gives only the shape of the tokens. Which tokens an input yields is stated by TokenizeAppend and TokenizePiece together.
- RangeParser.KeepStripped: its own contract gives only that no token is empty. Which pieces are kept is stated by KeepStrippedAppend and KeepStrippedOne together.
- Validators.Tenths: rounds the exact quotient. Python's `:.1f` rounds the float quotient, which is the same value while the size is below 2^53 bytes.
- `validate_image` is modelled, but nothing in app.py calls it. The image conversion imports of pdfutils.py (`convert_from_bytes`, `PIL`) are not used by the two functions modelled.
