/** The upload checks of validators.py. Each returns on the first check
    that fails; the file's name, its bytes and what `PdfReader` makes of
    it are inputs, and `imghdr`'s verdict on an image is a flag. */
module Validators {
  import opened Wrappers
  import opened Text
  import opened PdfUtils

  type byte = b: int | 0 <= b < 0x100

  /** `1024 ** 2`, the bytes in one of the program's MB. */
  const MiB: nat := 0x10_0000

  /** `b'%PDF-'`. */
  const PdfMagic: seq<byte> := [0x25, 0x50, 0x44, 0x46, 0x2D]

  /** The limits the program passes (app.py:45, 51, 85), which are also
      the validators' defaults. */
  const MaxPdfMb: int := 100
  const MaxTotalMb: int := 500
  const MaxImageMb: int := 20

  /** An uploaded file: its name, its bytes, and the outcome of reading
      it with `PdfReader`. Its `size` is the number of its bytes. */
  datatype Upload<Page> = Upload(name: string, content: seq<byte>, reader: ReadResult<Page>)

  // ---------------------------------------------------------------------
  // Sizes and their rendering
  // ---------------------------------------------------------------------

  /** `size / (1024 ** 2) > max_mb` without floating point: the divisor
      is a power of two, so the quotient is exact and the comparison is
      one between integers. */
  predicate ExceedsMb(size: nat, maxMb: int) {
    size > maxMb * MiB
  }

  /** The integer comparison is the comparison of the exact quotient. */
  lemma {:induction false} ExceedsMbExact(size: nat, maxMb: int)
    ensures ExceedsMb(size, maxMb) <==> (size as real) / (MiB as real) > maxMb as real
  {
    var q := (size as real) / (MiB as real);
    assert q * (MiB as real) == size as real;
    assert (maxMb * MiB) as real == (maxMb as real) * (MiB as real);
  }

  /** `size / (1024 ** 2)` in tenths of an MB, rounded to the nearest
      tenth with ties to the even one, as Python's `:.1f` rounds the exact
      quotient. */
  function Tenths(size: nat): (t: nat)
    ensures -(MiB as int) <= 2 * (10 * size - t * MiB) <= MiB
    ensures 2 * (10 * size - t * MiB) == MiB ==> t % 2 == 0
    ensures 2 * (10 * size - t * MiB) == -(MiB as int) ==> t % 2 == 0
  {
    var q := (10 * size) / MiB;
    var rem := (10 * size) % MiB;
    assert 10 * size == q * MiB + rem;
    if 2 * rem < MiB || (2 * rem == MiB && q % 2 == 0) then q else q + 1
  }

  /** `f'{size / (1024 ** 2):.1f}'`: the size in MB to one decimal. */
  function MbText(size: nat): string {
    var t := Tenths(size);
    NatToString(t / 10) + "." + [DigitChar(t % 10)]
  }

  /** A size within a twentieth of an MB of a whole `mb` is shown as
      `mb` with a zero decimal. */
  lemma {:induction false} MbTextNear(size: nat, mb: nat)
    requires 20 * size < (20 * mb + 1) * MiB
    requires (20 * mb - 1) * MiB < 20 * size
    ensures MbText(size) == NatToString(mb) + ".0"
  {
    var t := Tenths(size);
    assert t == 10 * mb;
    assert t / 10 == mb && t % 10 == 0;
  }

  /** A file one byte over a whole number of MB is shown at that number:
      the "too large" message then names the limit it exceeds as its
      size. */
  lemma {:induction false} MbTextJustOver(mb: nat)
    ensures MbText(mb * MiB) == NatToString(mb) + ".0"
    ensures MbText(mb * MiB + 1) == NatToString(mb) + ".0"
  {
    var m := mb * MiB;
    assert (20 * mb + 1) * MiB == 20 * m + MiB;
    assert (20 * mb - 1) * MiB == 20 * m - MiB;
    MbTextNear(m, mb);
    MbTextNear(m + 1, mb);
  }

  // ---------------------------------------------------------------------
  // validate_pdf (validators.py:4-35)
  // ---------------------------------------------------------------------

  /** `name.lower().endswith('.pdf')`. */
  predicate HasPdfExtension(name: string) {
    EndsWith(Lower(name), ".pdf")
  }

  /** The extension check ignores case and nothing else: the name ends
      in `.pdf` with each letter in either case. */
  lemma {:induction false} PdfExtensionCases(name: string)
    ensures HasPdfExtension(name) <==>
      && |name| >= 4
      && name[|name| - 4] == '.'
      && (name[|name| - 3] == 'p' || name[|name| - 3] == 'P')
      && (name[|name| - 2] == 'd' || name[|name| - 2] == 'D')
      && (name[|name| - 1] == 'f' || name[|name| - 1] == 'F')
  {
    var low := Lower(name);
    if |name| >= 4 {
      var n := |name|;
      assert low[n - 4..] == [low[n - 4], low[n - 3], low[n - 2], low[n - 1]];
    }
  }

  /** `uploaded_file.read(5)`: the first five bytes, or all of them for a
      shorter file. */
  function Header(content: seq<byte>): (h: seq<byte>)
    ensures |h| <= 5 && |h| <= |content| && h == content[..|h|]
    ensures |content| >= 5 ==> |h| == 5
    ensures |content| < 5 ==> h == content
  {
    if |content| < 5 then content else content[..5]
  }

  /** The header check passes exactly when the file begins with `%PDF-`;
      a file shorter than five bytes always fails it. */
  lemma {:induction false} HeaderIsMagic(content: seq<byte>)
    ensures Header(content) == PdfMagic <==> |content| >= 5 && content[..5] == PdfMagic
  {
  }

  /** Why validate_pdf refuses a file. */
  datatype PdfError =
    | BadExtension
    | TooLarge(size: nat, maxMb: int)
    | BadHeader
    | NoPages
    | Corrupted

  /** The message validate_pdf returns for each refusal. */
  function PdfMessage(e: PdfError): string {
    match e
    case BadExtension => "Invalid file extension; expected .pdf"
    case TooLarge(size, maxMb) =>
      "File too large (" + MbText(size) + " MB); max " + IntToString(maxMb) + " MB"
    case BadHeader => "File is not a valid PDF (bad header)"
    case NoPages => "PDF has no pages"
    case Corrupted => "Unable to read PDF; file may be corrupted"
  }

  /** The four checks of validate_pdf, in the order it makes them; the
      first that fails decides the message. */
  function ValidatePdf<Page>(u: Upload<Page>, maxMb: int): (r: Outcome<PdfError>)
    ensures r == Fail(BadExtension) <==> !HasPdfExtension(u.name)
    ensures r.Fail? && r.error.TooLarge? <==>
              HasPdfExtension(u.name) && ExceedsMb(|u.content|, maxMb)
    ensures r.Fail? && r.error.TooLarge? ==> r.error == TooLarge(|u.content|, maxMb)
    ensures r == Fail(BadHeader) <==>
              HasPdfExtension(u.name) && !ExceedsMb(|u.content|, maxMb)
              && Header(u.content) != PdfMagic
    ensures r == Fail(NoPages) <==>
              HasPdfExtension(u.name) && !ExceedsMb(|u.content|, maxMb)
              && Header(u.content) == PdfMagic && u.reader == Readable([])
    ensures r == Fail(Corrupted) <==>
              HasPdfExtension(u.name) && !ExceedsMb(|u.content|, maxMb)
              && Header(u.content) == PdfMagic && u.reader.Unreadable?
    ensures r.Pass? <==>
              HasPdfExtension(u.name) && !ExceedsMb(|u.content|, maxMb)
              && Header(u.content) == PdfMagic && u.reader.Readable? && u.reader.pages != []
  {
    if !HasPdfExtension(u.name) then Fail(BadExtension)
    else if ExceedsMb(|u.content|, maxMb) then Fail(TooLarge(|u.content|, maxMb))
    else if Header(u.content) != PdfMagic then Fail(BadHeader)
    else
      match u.reader
      case Unreadable(_) => Fail(Corrupted)
      case Readable(pages) => if |pages| == 0 then Fail(NoPages) else Pass
  }

  /** The size limit is inclusive: a file of exactly `maxMb` MB passes
      the size check and one more byte fails it. */
  lemma {:induction false} SizeBoundary<Page>(name: string, content: seq<byte>, reader: ReadResult<Page>, maxMb: nat)
    requires HasPdfExtension(name)
    ensures |content| == maxMb * MiB ==>
              !(ValidatePdf(Upload(name, content, reader), maxMb).Fail?
                && ValidatePdf(Upload(name, content, reader), maxMb).error.TooLarge?)
    ensures |content| == maxMb * MiB + 1 ==>
              ValidatePdf(Upload(name, content, reader), maxMb) == Fail(TooLarge(maxMb * MiB + 1, maxMb))
  {
  }

  // ---------------------------------------------------------------------
  // validate_total_size (validators.py:37-45)
  // ---------------------------------------------------------------------

  /** `sum(f.size for f in files)`. */
  function TotalSize<Page>(files: seq<Upload<Page>>): nat {
    if files == [] then 0 else TotalSize(files[..|files| - 1]) + |files[|files| - 1].content|
  }

  /** The message of a refused total. */
  function TotalMessage(total: nat, maxTotalMb: int): string {
    "Total upload size too large (" + MbText(total) + " MB); max " + IntToString(maxTotalMb) + " MB"
  }

  /** validate_total_size: the uploads together may not exceed
      `maxTotalMb` MB. */
  function ValidateTotalSize<Page>(files: seq<Upload<Page>>, maxTotalMb: int): (r: Outcome<string>)
    ensures r.Pass? <==> TotalSize(files) <= maxTotalMb * MiB
    ensures r.Fail? ==> r.error == TotalMessage(TotalSize(files), maxTotalMb)
  {
    var total := TotalSize(files);
    if ExceedsMb(total, maxTotalMb) then Fail(TotalMessage(total, maxTotalMb)) else Pass
  }

  /** The total is additive over the list of uploads. */
  lemma {:induction false} TotalSizeAppend<Page>(a: seq<Upload<Page>>, b: seq<Upload<Page>>)
    ensures TotalSize(a + b) == TotalSize(a) + TotalSize(b)
    decreases |b|
  {
    if b == [] {
      assert a + b == a;
    } else {
      assert (a + b)[..|a + b| - 1] == a + b[..|b| - 1];
      TotalSizeAppend(a, b[..|b| - 1]);
    }
  }

  /** Removing the upload at `i` takes its size off the total. */
  lemma {:induction false} TotalSizeRemove<Page>(files: seq<Upload<Page>>, i: nat)
    requires i < |files|
    ensures TotalSize(files) == TotalSize(files[..i] + files[i + 1..]) + |files[i].content|
  {
    assert files == files[..i] + [files[i]] + files[i + 1..];
    TotalSizeAppend(files[..i] + [files[i]], files[i + 1..]);
    TotalSizeAppend(files[..i], [files[i]]);
    TotalSizeAppend(files[..i], files[i + 1..]);
    assert [files[i]][..0] == [];
  }

  /** The order in which the files were uploaded does not matter to the
      total. */
  lemma {:induction false} TotalSizePermutation<Page>(a: seq<Upload<Page>>, b: seq<Upload<Page>>)
    requires multiset(a) == multiset(b)
    ensures TotalSize(a) == TotalSize(b)
    decreases |a|
  {
    if a == [] {
      assert |b| == |multiset(b)| == 0;
    } else {
      var last := a[|a| - 1];
      var init := a[..|a| - 1];
      assert a == init + [last];
      assert multiset(a) == multiset(init) + multiset{last};
      assert last in multiset(b);
      var j :| 0 <= j < |b| && b[j] == last;
      var rest := b[..j] + b[j + 1..];
      MultisetRemove(b, j);
      assert multiset(rest) == multiset(b) - multiset{last};
      assert multiset(init) == multiset(a) - multiset{last};
      TotalSizePermutation(init, rest);
      TotalSizeRemove(b, j);
    }
  }

  lemma {:induction false} MultisetRemove<T>(xs: seq<T>, j: nat)
    requires j < |xs|
    ensures multiset(xs) == multiset(xs[..j] + xs[j + 1..]) + multiset{xs[j]}
  {
    assert xs == xs[..j] + [xs[j]] + xs[j + 1..];
  }

  /** Hence validate_total_size gives the same answer for any order of
      the same files. */
  lemma {:induction false} ValidateTotalSizePermutation<Page>(a: seq<Upload<Page>>, b: seq<Upload<Page>>, maxTotalMb: int)
    requires multiset(a) == multiset(b)
    ensures ValidateTotalSize(a, maxTotalMb) == ValidateTotalSize(b, maxTotalMb)
  {
    TotalSizePermutation(a, b);
  }

  // ---------------------------------------------------------------------
  // validate_image (validators.py:47-68)
  // ---------------------------------------------------------------------

  /** The extensions validate_image accepts. */
  const ImageTypes: seq<string> := ["jpg", "jpeg", "png", "bmp", "tiff", "gif"]

  /** `name.lower().rsplit('.', 1)[-1]`: what follows the last `.` of the
      lower-cased name, or the whole of it when it has no `.`. */
  function ImageExtension(name: string): (ext: string)
    ensures '.' !in ext
    ensures EndsWith(Lower(name), ext)
    ensures ext == Lower(name) || Lower(name)[|name| - |ext| - 1] == '.'
  {
    var low := Lower(name);
    if '.' in low then
      var i := LastIndexOf(low, '.');
      low[i + 1..]
    else low
  }

  /** Why validate_image refuses a file. */
  datatype ImageError =
    | UnsupportedType(ext: string)
    | ImageTooLarge(size: nat, maxMb: int)
    | NotAnImage

  function ImageMessage(e: ImageError): string {
    match e
    case UnsupportedType(ext) => "Unsupported image type; ." + ext + " not allowed"
    case ImageTooLarge(size, maxMb) =>
      "Image too large (" + MbText(size) + " MB); max " + IntToString(maxMb) + " MB"
    case NotAnImage => "Invalid or corrupted image file"
  }

  /** validate_image: extension, then size, then `imghdr`'s verdict
      `recognised`. */
  function ValidateImage(name: string, size: nat, recognised: bool, maxMb: int): (r: Outcome<ImageError>)
    ensures r.Fail? && r.error.UnsupportedType? <==> ImageExtension(name) !in ImageTypes
    ensures r.Fail? && r.error.UnsupportedType? ==> r.error.ext == ImageExtension(name)
    ensures r == Fail(ImageTooLarge(size, maxMb)) <==>
              ImageExtension(name) in ImageTypes && ExceedsMb(size, maxMb)
    ensures r == Fail(NotAnImage) <==>
              ImageExtension(name) in ImageTypes && !ExceedsMb(size, maxMb) && !recognised
    ensures r.Pass? <==> ImageExtension(name) in ImageTypes && !ExceedsMb(size, maxMb) && recognised
  {
    var ext := ImageExtension(name);
    if ext !in ImageTypes then Fail(UnsupportedType(ext))
    else if ExceedsMb(size, maxMb) then Fail(ImageTooLarge(size, maxMb))
    else if !recognised then Fail(NotAnImage)
    else Pass
  }

  /** Lower-casing a lower-cased name changes nothing. */
  lemma {:induction false} LowerIdempotent(s: string)
    ensures Lower(Lower(s)) == Lower(s)
  {
    assert forall i :: 0 <= i < |s| ==> LowerChar(LowerChar(s[i])) == LowerChar(s[i]);
  }

  /** The image check ignores the case of the name. */
  lemma {:induction false} ImageExtensionIgnoresCase(name: string)
    ensures ImageExtension(Lower(name)) == ImageExtension(name)
  {
    LowerIdempotent(name);
  }
}
