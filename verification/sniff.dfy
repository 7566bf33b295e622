/** The MIME-type sniffer `contentType` (fitz.go:323-335): a decision over the first
    bytes of a buffer, independent of any open document. */
module Sniff {
  import opened Bytes

  const Pdf: string := "application/pdf"
  const Epub: string := "application/epub+zip"

  /** The PDF file-header signature of section 7.5.2 of ISO 32000-1, as the source spells it */
  const PdfMagic: seq<byte> := [0x25, 0x50, 0x44, 0x46]

  /** The ZIP local-file-header signature of section 4.3.7 of the PKWARE APPNOTE */
  const ZipMagic: seq<byte> := [0x50, 0x4B, 0x03, 0x04]

  /** Where the file name of the first local file header begins */
  const NameOffset: nat := 30

  /** The name `mimetype` followed by the stored content `application/epub+zip`
      (section 3.3 of EPUB OCF 3.0.1), as the source spells it byte by byte */
  const MimetypeName: seq<byte> := [0x6D, 0x69, 0x6D, 0x65, 0x74, 0x79, 0x70, 0x65]
  const EpubMediaType: seq<byte> :=
    [0x61, 0x70, 0x70, 0x6C, 0x69, 0x63, 0x61, 0x74, 0x69, 0x6F, 0x6E, 0x2F,
     0x65, 0x70, 0x75, 0x62, 0x2B, 0x7A, 0x69, 0x70]

  /** The signatures in the words of the standards */
  predicate StartsPdf(b: seq<byte>) {
    HasAt(b, 0, Ascii("%PDF"))
  }

  predicate StartsEpub(b: seq<byte>) {
    && HasAt(b, 0, Ascii("PK") + [0x03, 0x04])
    && HasAt(b, NameOffset, Ascii("mimetype") + Ascii("application/epub+zip"))
  }

  /** The hex constants the sniffer compares against spell the signatures above */
  lemma MagicSpelled()
    ensures PdfMagic == Ascii("%PDF")
    ensures ZipMagic == Ascii("PK") + [0x03, 0x04]
  {
  }

  lemma MimetypeNameSpelled()
    ensures MimetypeName == Ascii("mimetype")
  {
  }

  lemma EpubMediaTypeSpelled()
    ensures EpubMediaType == Ascii("application/epub+zip")
  {
  }

  /** The document MIME type of `b`: PDF is checked first, then EPUB, else the empty string */
  function ContentType(b: seq<byte>): (mtype: string)
    ensures mtype == Pdf <==> StartsPdf(b)
    ensures mtype == Epub <==> !StartsPdf(b) && StartsEpub(b)
    ensures mtype == "" <==> !StartsPdf(b) && !StartsEpub(b)
    ensures |b| < 4 ==> mtype == ""
  {
    MagicSpelled();
    MimetypeNameSpelled();
    EpubMediaTypeSpelled();
    assert NameOffset + |MimetypeName + EpubMediaType| == 58;
    if |b| > 3 && b[..4] == PdfMagic then
      Pdf
    else if |b| > 57 && b[..4] == ZipMagic && b[NameOffset..58] == MimetypeName + EpubMediaType then
      Epub
    else
      ""
  }
}
