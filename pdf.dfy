/**
 * PDF attachment checks of the form (src/frontend/scripts/validation.js):
 * the metadata check run before any upload, and the file-header check
 * (the "%PDF" marker that opens every PDF file, ISO 32000-1 section 7.5.2).
 */
module Pdf {

  newtype byte = b: int | 0 <= b < 256

  /** Largest accepted declared size, in bytes (50 MB). */
  const MaxFileSize: nat := 52428800
  /** Longest accepted file name, in characters. */
  const MaxFileName: nat := 255
  const PdfMimeType: string := "application/pdf"
  const PdfExtension: string := ".pdf"
  /** The bytes of "%PDF". */
  const PdfMagic: seq<byte> := [0x25, 0x50, 0x44, 0x46]

  /**
   * A file picked by the user: its name, declared MIME type and size, its
   * contents, and whether the browser can read them at all.
   */
  datatype PdfFile = PdfFile(name: string, mime: string, size: nat, bytes: seq<byte>, readable: bool)

  /** The reasons the metadata check gives, one per check. */
  datatype PdfError = PdfOnly | PdfTooLarge | PdfNameTooLong | PdfInvalidExtension

  datatype Verdict = Accepted | Rejected(error: PdfError)

  datatype HeaderVerdict = HeaderOk | HeaderInvalid | HeaderUnreadable

  /** The four checks, in the order they run. */
  const CheckOrder: seq<PdfError> := [PdfOnly, PdfTooLarge, PdfNameTooLong, PdfInvalidExtension]

  function LowerAscii(c: char): (l: char)
    ensures 'A' <= c <= 'Z' ==> 'a' <= l <= 'z' && l as int - c as int == 32
    ensures !('A' <= c <= 'Z') ==> l == c
  {
    if 'A' <= c <= 'Z' then (c as int + 32) as char else c
  }

  function ToLower(s: string): (r: string)
    ensures |r| == |s|
    ensures forall i :: 0 <= i < |s| ==> r[i] == LowerAscii(s[i])
  {
    seq(|s|, i requires 0 <= i < |s| => LowerAscii(s[i]))
  }

  predicate EndsWith(s: string, suffix: string) {
    |suffix| <= |s| && s[|s| - |suffix|..] == suffix
  }

  predicate HasPdfExtension(name: string) {
    EndsWith(ToLower(name), PdfExtension)
  }

  /** Whether `f` passes the check that reports `e`. */
  predicate Passes(f: PdfFile, e: PdfError) {
    match e
    case PdfOnly => f.mime == PdfMimeType
    case PdfTooLarge => f.size <= MaxFileSize
    case PdfNameTooLong => |f.name| <= MaxFileName
    case PdfInvalidExtension => HasPdfExtension(f.name)
  }

  /**
   * validatePDF: the file is accepted exactly when every check passes, and a
   * rejection names a check that failed.
   */
  function ValidatePdf(f: PdfFile): (v: Verdict)
    ensures v.Accepted? <==> forall e :: Passes(f, e)
    ensures v.Rejected? ==> !Passes(f, v.error)
  {
    if f.mime != PdfMimeType then assert !Passes(f, PdfOnly); Rejected(PdfOnly)
    else if f.size > MaxFileSize then assert !Passes(f, PdfTooLarge); Rejected(PdfTooLarge)
    else if |f.name| > MaxFileName then assert !Passes(f, PdfNameTooLong); Rejected(PdfNameTooLong)
    else if !HasPdfExtension(f.name) then assert !Passes(f, PdfInvalidExtension); Rejected(PdfInvalidExtension)
    else Accepted
  }

  /** The rejection reported is the FIRST failing check in CheckOrder. */
  lemma FirstFailureReported(f: PdfFile, k: nat)
    requires k < |CheckOrder|
    ensures ValidatePdf(f) == Rejected(CheckOrder[k])
        <==> !Passes(f, CheckOrder[k]) && forall j :: 0 <= j < k ==> Passes(f, CheckOrder[j])
  {
    if k == 0 {
    } else if k == 1 {
      assert CheckOrder[0] == PdfOnly;
    } else if k == 2 {
      assert CheckOrder[0] == PdfOnly && CheckOrder[1] == PdfTooLarge;
    } else {
      assert CheckOrder[0] == PdfOnly && CheckOrder[1] == PdfTooLarge && CheckOrder[2] == PdfNameTooLong;
    }
  }

  /** Both limits are inclusive, and the extension is compared without case. */
  lemma BoundaryFiles()
    ensures ValidatePdf(PdfFile(seq(251, i => 'a') + ".PDF", PdfMimeType, MaxFileSize, [], true)) == Accepted
    ensures ValidatePdf(PdfFile("a.pdf", PdfMimeType, MaxFileSize + 1, [], true)) == Rejected(PdfTooLarge)
    ensures ValidatePdf(PdfFile(seq(252, i => 'a') + ".pdf", PdfMimeType, 0, [], true)) == Rejected(PdfNameTooLong)
    ensures ValidatePdf(PdfFile("x.pdfx", PdfMimeType, 0, [], true)) == Rejected(PdfInvalidExtension)
    ensures ValidatePdf(PdfFile("x.pdf", "text/plain", MaxFileSize + 1, [], true)) == Rejected(PdfOnly)
  {
    var upper := seq(251, i => 'a') + ".PDF";
    assert ToLower(upper)[|upper| - 4..] == ".pdf";
    var odd := "x.pdfx";
    assert ToLower(odd)[|odd| - 4..] != ".pdf" by {
      assert ToLower(odd)[5] == 'x';
    }
  }

  /**
   * validatePDFHeader: reads the first four bytes; accepts exactly when they
   * are "%PDF". A shorter file or a read error is never accepted.
   */
  function ValidatePdfHeader(f: PdfFile): (h: HeaderVerdict)
    ensures h == HeaderOk <==> f.readable && |f.bytes| >= 4 && f.bytes[..4] == PdfMagic
    ensures h == HeaderUnreadable <==> !f.readable
  {
    if !f.readable then HeaderUnreadable
    else if (if |f.bytes| < 4 then f.bytes else f.bytes[..4]) == PdfMagic then HeaderOk
    else HeaderInvalid
  }

  /** The header check depends on nothing but the first four bytes. */
  lemma HeaderIgnoresTail(f: PdfFile, tail: seq<byte>)
    requires |f.bytes| >= 4
    ensures ValidatePdfHeader(f.(bytes := f.bytes + tail)) == ValidatePdfHeader(f)
  {
    assert (f.bytes + tail)[..4] == f.bytes[..4];
  }

}
