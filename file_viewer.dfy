/**
 * The file viewer's pure decisions: which address a stored file uri is
 * fetched from, and whether the file is shown as a PDF, an image, or
 * neither. The API base address from `config.ts` is the one constant involved.
 */
module FileViewer {
  import opened Optional
  import opened Strings

  const ApiBaseUrl: string := "https://api.flahyhealth.com"

  predicate IsAbsolute(uri: string) {
    "http://" <= uri || "https://" <= uri
  }

  /**
   * `getFullUrl(uri)`: empty stays empty, an absolute address is kept, and a
   * relative path is appended to the base address, with a `/` inserted only
   * when the path does not start with one.
   */
  function GetFullUrl(uri: string): (r: string)
    ensures r == "" <==> uri == ""
    ensures IsAbsolute(uri) ==> r == uri
    ensures r != "" ==> IsAbsolute(r)
    ensures uri != "" && !IsAbsolute(uri) ==>
      r == ApiBaseUrl + "/" + (if uri[0] == '/' then uri[1..] else uri)
  {
    if uri == "" then ""
    else if IsAbsolute(uri) then uri
    else
      assert "https://" <= ApiBaseUrl;
      ApiBaseUrl + (if "/" <= uri then "" else "/") + uri
  }

  /** Resolving an already resolved address changes nothing. */
  lemma GetFullUrlIdempotent(uri: string)
    ensures GetFullUrl(GetFullUrl(uri)) == GetFullUrl(uri)
  {
  }

  /** What the viewer reads of a file record; `None` is a missing field. */
  datatype FileRef = FileRef(name: Option<string>, mimeType: Option<string>, uri: string)

  /** `name?.split('.').pop()?.toLowerCase()` */
  function FileExt(name: Option<string>): Option<string> {
    match name
    case None => None
    case Some(n) => Some(Lower(LastSegment(n, '.')))
  }

  /** `type?.toLowerCase().includes(word)` is true. */
  predicate TypeMentions(mimeType: Option<string>, word: string) {
    mimeType.Some? && Contains(Lower(mimeType.value), word)
  }

  const ImageExtensions: seq<string> := ["jpg", "jpeg", "png", "gif", "webp"]

  predicate IsPdf(f: FileRef) {
    TypeMentions(f.mimeType, "pdf") || FileExt(f.name) == Some("pdf")
  }

  predicate IsImage(f: FileRef) {
    !IsPdf(f) && (TypeMentions(f.mimeType, "image") || (FileExt(f.name).Some? && FileExt(f.name).value in ImageExtensions))
  }

  /** The PDF test wins: no file is treated as both. */
  lemma NeverPdfAndImage(f: FileRef)
    ensures !(IsPdf(f) && IsImage(f))
  {
  }

  /** The extension is the lowercased text after the last `.`. */
  lemma ExtensionAfterLastDot(stem: string, ext: string)
    requires '.' !in ext
    ensures FileExt(Some(stem + "." + ext)) == Some(Lower(ext))
  {
    LastSegmentAfterSeparator(stem, ext, '.');
  }

  /** A name without a `.` is its own extension. */
  lemma ExtensionOfDotlessName(name: string)
    requires '.' !in name
    ensures FileExt(Some(name)) == Some(Lower(name))
  {
    LastSegmentWithoutSeparator(name, '.');
  }

  /** An upper-case extension still marks a PDF when the type is missing. */
  lemma UpperCasePdfName()
    ensures IsPdf(FileRef(Some("Lab.Results.PDF"), None, ""))
  {
    ExtensionAfterLastDot("Lab.Results", "PDF");
    assert "Lab.Results" + "." + "PDF" == "Lab.Results.PDF";
    assert Lower("PDF") == "pdf";
  }

  /** A type that names `pdf` makes a PDF whatever the name says, and so never an image. */
  lemma PdfTypeBeatsName(f: FileRef, pre: string, post: string)
    requires f.mimeType == Some(pre + "pdf" + post)
    ensures IsPdf(f) && !IsImage(f)
  {
    var t := pre + "pdf" + post;
    var l := Lower(t);
    assert t[|pre|] == 'p' && t[|pre| + 1] == 'd' && t[|pre| + 2] == 'f';
    assert l[|pre|..|pre| + 3] == "pdf";
    assert OccursAt(l, "pdf", |pre|);
    ContainsAt(l, "pdf");
  }

  /** With no type, a `.jpeg` name makes an image. */
  lemma JpegNameIsImage()
    ensures IsImage(FileRef(Some("xray.jpeg"), None, ""))
  {
    ExtensionAfterLastDot("xray", "jpeg");
    assert "xray" + "." + "jpeg" == "xray.jpeg";
    assert Lower("jpeg") == "jpeg";
  }
}
