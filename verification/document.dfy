/** The document handle of fitz.go: how `New`, `NewFromMemory` and `NewFromReader`
    resolve their errors (fitz.go:65-152), and the argument guards and error dispatch
    of `Text`, `ImageBytes` and `Image` (fitz.go:164-236). Every MuPDF call is an
    oracle: a boolean or a function supplied by the caller. */
module Handle {
  import opened Errors
  import opened Bytes

  /** What a handle holds: whether its context pointer and document pointer are
      non-nil, and the page and object counts. `Zero` is the fresh `&Document{}`. */
  datatype Document = Document(context: bool, pdf: bool, pageTotal: int, objTotal: int)

  const Zero := Document(false, false, 0, 0)

  /** Where a document is opened from */
  datatype Source = Path(name: string) | Memory(data: seq<byte>)

  /** The answers of the native library to one open attempt: whether the context is
      allocated, whether a memory stream over given bytes opens, and, per source,
      whether the document opens, whether it needs a password, and its counts. */
  datatype Native = Native(
    contextOk: bool,
    streamOk: seq<byte> -> bool,
    opens: Source -> bool,
    needsPassword: Source -> bool,
    pageCount: Source -> int,
    objectCount: Source -> int)

  /** What `filepath.Abs` yields: the absolute path, or the message of the error it
      returns. That error comes from `os.Getwd`, never from this package. */
  datatype Resolved = Resolved(path: string) | AbsFailed(message: string)

  /** The file system as `New` uses it: `filepath.Abs` and whether `os.Stat` succeeds */
  datatype Files = Files(absolute: string -> Resolved, present: string -> bool)

  /** The common tail of both open functions once a context exists: a failed open
      records OpenDocument and carries on, a password requirement then overwrites it,
      and the counts are read either way. */
  function Opened(native: Native, src: Source): (r: Returned<Document>)
    ensures r.value == Document(true, native.opens(src), native.pageCount(src), native.objectCount(src))
    ensures r.err.Some? <==> native.needsPassword(src) || !native.opens(src)
    ensures native.needsPassword(src) ==> r.err == Some(NeedsPassword)
    ensures !native.needsPassword(src) && !native.opens(src) ==> r.err == Some(OpenDocument)
  {
    var err := if !native.opens(src) then Some(OpenDocument) else None;
    var err := if native.needsPassword(src) then Some(NeedsPassword) else err;
    Returned(Document(true, native.opens(src), native.pageCount(src), native.objectCount(src)), err)
  }

  /** `New(filename)` */
  function New(files: Files, native: Native, filename: string): (r: Returned<Document>)
    ensures files.absolute(filename).AbsFailed? ==>
      r == Returned(Zero, Some(Foreign(files.absolute(filename).message)))
    ensures r.err == Some(NoSuchFile) <==>
      files.absolute(filename).Resolved? && !files.present(files.absolute(filename).path)
    ensures r.err == Some(CreateContext) <==>
      && files.absolute(filename).Resolved? && files.present(files.absolute(filename).path)
      && !native.contextOk
    ensures (r.err.Some? && r.err.value.Foreign?) <==> files.absolute(filename).AbsFailed?
    ensures r.value.context <==>
      files.absolute(filename).Resolved? && files.present(files.absolute(filename).path) && native.contextOk
    ensures !r.value.context ==> r.value == Zero && r.err.Some?
    ensures r.value.context ==>
      && r.value.pageTotal == native.pageCount(Path(files.absolute(filename).path))
      && r.value.objTotal == native.objectCount(Path(files.absolute(filename).path))
  {
    match files.absolute(filename)
    case AbsFailed(message) => Returned(Zero, Some(Foreign(message)))
    case Resolved(path) =>
      if !files.present(path) then
        Returned(Zero, Some(NoSuchFile))
      else if !native.contextOk then
        Returned(Zero, Some(CreateContext))
      else
        Opened(native, Path(path))
  }

  /** `NewFromMemory(b)` */
  function NewFromMemory(native: Native, b: seq<byte>): (r: Returned<Document>)
    ensures !native.contextOk <==> r == Returned(Zero, Some(CreateContext))
    ensures native.contextOk && !native.streamOk(b) <==> r == Returned(Document(true, false, 0, 0), Some(OpenMemory))
    ensures r.value.context <==> native.contextOk
    ensures r.value.context && native.streamOk(b) ==>
      r.value.pageTotal == native.pageCount(Memory(b)) && r.value.objTotal == native.objectCount(Memory(b))
  {
    if !native.contextOk then
      Returned(Zero, Some(CreateContext))
    else if !native.streamOk(b) then
      Returned(Document(true, false, 0, 0), Some(OpenMemory))
    else
      Opened(native, Memory(b))
  }

  /** `NewFromReader(r)`, given what `ioutil.ReadAll` returned; on a read error the
      handle is nil */
  function NewFromReader(native: Native, read: Returned<seq<byte>>): (r: Returned<Option<Document>>)
    ensures read.err.Some? ==> r == Returned(None, read.err)
    ensures read.err.None? ==>
      && r.value == Some(NewFromMemory(native, read.value).value)
      && r.err == NewFromMemory(native, read.value).err
  {
    if read.err.Some? then
      Returned(None, read.err)
    else
      var m := NewFromMemory(native, read.value);
      Returned(Some(m.value), m.err)
  }

  // The precedence of the open errors, stated as a list of the checks in the order of
  // their precedence: the reported error is the first check that fails.

  /** The error of the first failing check, or none */
  function FirstFailure(checks: seq<Option<Error>>): Option<Error> {
    if checks == [] then None
    else if checks[0].Some? then checks[0]
    else FirstFailure(checks[1..])
  }

  lemma FirstFailureCons(c: Option<Error>, rest: seq<Option<Error>>)
    ensures FirstFailure([c] + rest) == if c.Some? then c else FirstFailure(rest)
  {
  }

  function Fails(failed: bool, e: Error): Option<Error> {
    if failed then Some(e) else None
  }

  /** The checks of an open once the context exists, in order of precedence */
  function DocumentChecks(native: Native, src: Source): seq<Option<Error>> {
    [Fails(native.needsPassword(src), NeedsPassword), Fails(!native.opens(src), OpenDocument)]
  }

  /** A failed `filepath.Abs` is reported first; past it, the first failing check in
      the order Stat, context, password, open. */
  lemma NewPrecedence(files: Files, native: Native, filename: string)
    ensures match files.absolute(filename)
      case AbsFailed(message) => New(files, native, filename).err == Some(Foreign(message))
      case Resolved(path) =>
        New(files, native, filename).err == FirstFailure(
          [Fails(!files.present(path), NoSuchFile),
           Fails(!native.contextOk, CreateContext)]
          + DocumentChecks(native, Path(path)))
  {
    match files.absolute(filename)
    case AbsFailed(_) =>
    case Resolved(path) =>
      var c1 := Fails(!files.present(path), NoSuchFile);
      var c2 := Fails(!native.contextOk, CreateContext);
      var doc := DocumentChecks(native, Path(path));
      FirstFailureCons(doc[1], []);
      FirstFailureCons(doc[0], [doc[1]]);
      assert doc == [doc[0]] + [doc[1]];
      FirstFailureCons(c2, doc);
      FirstFailureCons(c1, [c2] + doc);
      assert [c1, c2] + doc == [c1] + ([c2] + doc);
      assert FirstFailure(doc) == Opened(native, Path(path)).err;
  }

  lemma NewFromMemoryPrecedence(native: Native, b: seq<byte>)
    ensures NewFromMemory(native, b).err == FirstFailure(
      [Fails(!native.contextOk, CreateContext),
       Fails(!native.streamOk(b), OpenMemory)]
      + DocumentChecks(native, Memory(b)))
  {
    var c1 := Fails(!native.contextOk, CreateContext);
    var c2 := Fails(!native.streamOk(b), OpenMemory);
    var doc := DocumentChecks(native, Memory(b));
    FirstFailureCons(doc[1], []);
    FirstFailureCons(doc[0], [doc[1]]);
    assert doc == [doc[0]] + [doc[1]];
    FirstFailureCons(c2, doc);
    FirstFailureCons(c1, [c2] + doc);
    assert [c1, c2] + doc == [c1] + ([c2] + doc);
  }

  /** A missing file is reported before any context is created: the native answers
      cannot change the result. */
  lemma EarlyReturnsIgnoreNative(files: Files, n1: Native, n2: Native, filename: string)
    requires files.absolute(filename).Resolved? && !files.present(files.absolute(filename).path)
    ensures New(files, n1, filename) == New(files, n2, filename) == Returned(Zero, Some(NoSuchFile))
  {
  }

  /** A failed context is reported before any stream or document is opened: the
      answers about streams and documents cannot change the result. */
  lemma NilContextIgnoresNative(n1: Native, n2: Native, b: seq<byte>)
    requires !n1.contextOk && !n2.contextOk
    ensures NewFromMemory(n1, b) == NewFromMemory(n2, b) == Returned(Zero, Some(CreateContext))
  {
  }

  // Page and object access on an open handle.

  /** `Text(pageNumber)`, with the text the structured-text device yields for each
      page as an oracle */
  function Text(doc: Document, pageText: int -> string, pageNumber: int): (r: Returned<string>)
    ensures r.err == Some(PageMissing) <==> pageNumber < 0 || doc.pageTotal <= pageNumber
    ensures r.err.None? <==> 0 <= pageNumber < doc.pageTotal
    ensures r.err.Some? ==> r.value == ""
    ensures r.err.None? ==> r.value == pageText(pageNumber)
  {
    if pageNumber < 0 || doc.pageTotal <= pageNumber then
      Returned("", Some(PageMissing))
    else
      Returned(pageText(pageNumber), None)
  }

  /** `isImage`: the object's `Subtype` entry is the name `Image`. `subtype` is the
      name the dictionary holds, None when the entry (or the dictionary) is absent. */
  predicate IsImage(subtype: Option<string>) {
    subtype == Some("Image")
  }

  /** `ImageBytes(objNumber)`, with each object's `Subtype` name and the PNG
      encoding of its image as oracles. A nil slice is None. */
  function ImageBytes(doc: Document, subtype: int -> Option<string>, png: int -> seq<byte>, objNumber: int)
    : (r: Returned<Option<seq<byte>>>)
    ensures r.err.Some? <==> r.value.None?
    ensures r.err == Some(ObjMissing) <==> objNumber <= 0 || doc.objTotal <= objNumber
    ensures 0 < objNumber < doc.objTotal ==>
      (r.err.None? <==> IsImage(subtype(objNumber))) &&
      (r.err.Some? ==> r.err == Some(NotImage))
    ensures r.value.Some? ==> r.value.value == png(objNumber)
  {
    if objNumber <= 0 || doc.objTotal <= objNumber then
      Returned(None, Some(ObjMissing))
    else if IsImage(subtype(objNumber)) then
      Returned(Some(png(objNumber)), None)
    else
      Returned(None, Some(NotImage))
  }

  /** What `image.Decode` yields on a byte buffer: an image, or the message of the
      error it returns. It never returns both, and never one of the package's errors. */
  datatype Decoded<Img> = Decoded(image: Img) | DecodeFailed(message: string)

  /** `Image(objNumber)`: ImageBytes, then `image.Decode` (an oracle) on its bytes */
  function Image<Img>(doc: Document, subtype: int -> Option<string>, png: int -> seq<byte>,
                      decode: seq<byte> -> Decoded<Img>, objNumber: int)
    : (r: Returned<Option<Img>>)
    ensures r.err.Some? <==> r.value.None?
    ensures ImageBytes(doc, subtype, png, objNumber).err.Some? ==>
      r == Returned(None, ImageBytes(doc, subtype, png, objNumber).err)
    ensures r.err == Some(ObjMissing) <==> objNumber <= 0 || doc.objTotal <= objNumber
    ensures r.err == Some(NotImage) <==> 0 < objNumber < doc.objTotal && !IsImage(subtype(objNumber))
    ensures 0 < objNumber < doc.objTotal && IsImage(subtype(objNumber)) ==>
      match decode(png(objNumber))
      case Decoded(img) => r == Returned(Some(img), None)
      case DecodeFailed(msg) => r == Returned(None, Some(Foreign(msg)))
  {
    var b := ImageBytes(doc, subtype, png, objNumber);
    if b.err.Some? then
      Returned(None, b.err)
    else
      match decode(b.value.value)
      case Decoded(img) => Returned(Some(img), None)
      case DecodeFailed(msg) => Returned(None, Some(Foreign(msg)))
  }

  /** True when object `n` is an image whose PNG bytes decode */
  predicate Decodes<Img>(subtype: int -> Option<string>, png: int -> seq<byte>,
                         decode: seq<byte> -> Decoded<Img>, n: int) {
    IsImage(subtype(n)) && decode(png(n)).Decoded?
  }

  /** The callers' scan over object numbers 1 .. NumObj()-1 with `Image`: a NotImage
      error is skipped silently, any other error is reported (`failed`) and skipped
      too, and every other object is an image that was extracted (`images`). */
  method ScanImages<Img>(doc: Document, subtype: int -> Option<string>, png: int -> seq<byte>,
                         decode: seq<byte> -> Decoded<Img>)
    returns (images: seq<int>, failed: seq<int>)
    ensures forall n :: n in images <==> 0 < n < doc.objTotal && Decodes(subtype, png, decode, n)
    ensures forall n :: n in failed <==>
      0 < n < doc.objTotal && IsImage(subtype(n)) && !Decodes(subtype, png, decode, n)
    ensures forall i, j :: 0 <= i < j < |images| ==> images[i] < images[j]
    ensures forall i, j :: 0 <= i < j < |failed| ==> failed[i] < failed[j]
    ensures forall n :: 0 < n < doc.objTotal && n !in images && n !in failed ==>
      Image(doc, subtype, png, decode, n).err == Some(NotImage)
    ensures forall n :: n in failed ==>
      var e := Image(doc, subtype, png, decode, n).err; e.Some? && e.value.Foreign?
  {
    images := [];
    failed := [];
    var n := 1;
    while n < doc.objTotal
      invariant 1 <= n
      invariant forall m :: m in images <==> 0 < m < n && m < doc.objTotal && Decodes(subtype, png, decode, m)
      invariant forall m :: m in failed <==>
        0 < m < n && m < doc.objTotal && IsImage(subtype(m)) && !Decodes(subtype, png, decode, m)
      invariant forall i, j :: 0 <= i < j < |images| ==> images[i] < images[j]
      invariant forall i :: 0 <= i < |images| ==> images[i] < n
      invariant forall i, j :: 0 <= i < j < |failed| ==> failed[i] < failed[j]
      invariant forall i :: 0 <= i < |failed| ==> failed[i] < n
    {
      var r := Image(doc, subtype, png, decode, n);
      if r.err.None? {
        images := images + [n];
      } else if r.err != Some(NotImage) {
        failed := failed + [n];
      }
      n := n + 1;
    }
  }
}
