/**
 * The check both React pages run on the file the user picks from the
 * file input (`handleFileChange` in src/pages/LandingPage.jsx and
 * src/pages/ArticlePage.jsx): format first, then size.
 */
module FileCheck {

  /** The parts of a browser `File` that the pages look at. */
  datatype ImageFile = ImageFile(name: string, mimeType: string, size: nat)

  /** The MIME types the pages accept. */
  const ValidFormats: seq<string> := ["image/jpeg", "image/jpg", "image/png"]

  /** The size ceiling in bytes: 10 MB, inclusive. */
  const MaxSize: nat := 10 * 1024 * 1024

  const FormatError: string := "Invalid file format. Please upload a JPG, JPEG, or PNG file."
  const SizeError: string := "File size exceeds 10 MB. Please upload a smaller file."

  /** What the check makes of a picked file. */
  datatype Verdict = Accepted | RejectedFormat | RejectedSize

  /** Format is checked before size, so a file of the wrong type is
      rejected for its format whatever its size. */
  function Validate(f: ImageFile): (v: Verdict)
    ensures v == RejectedFormat <==> f.mimeType !in ValidFormats
    ensures v == RejectedSize <==> f.mimeType in ValidFormats && f.size > MaxSize
    ensures v == Accepted <==> f.mimeType in ValidFormats && f.size <= MaxSize
  {
    if f.mimeType !in ValidFormats then RejectedFormat
    else if f.size > MaxSize then RejectedSize
    else Accepted
  }

  /** The message the page shows for a verdict ("" clears it). */
  function ErrorText(v: Verdict): (msg: string)
    ensures msg == "" <==> v == Accepted
  {
    match v
    case Accepted => ""
    case RejectedFormat => FormatError
    case RejectedSize => SizeError
  }

  /** The three verdicts show three different messages, so the message
      alone tells the user which check failed. */
  lemma ErrorTextDistinguishes(v: Verdict, w: Verdict)
    requires ErrorText(v) == ErrorText(w)
    ensures v == w
  {
    assert |FormatError| != |SizeError|;
  }

  /** The ceiling is exactly 10485760 bytes and is inclusive. */
  lemma CeilingIsInclusive(name: string, mimeType: string)
    requires mimeType in ValidFormats
    ensures Validate(ImageFile(name, mimeType, 10485760)) == Accepted
    ensures Validate(ImageFile(name, mimeType, 10485761)) == RejectedSize
  {
  }
}
