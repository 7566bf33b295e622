# go-fitz: the decision logic of the MuPDF wrapper, in Dafny

go-fitz opens PDF and EPUB documents through MuPDF (the "fitz" library) and extracts
page text, embedded images, the outline (table of contents) and a fixed set of metadata
fields. Almost all of `fitz.go` is calls into MuPDF. This project models the Go logic
between those calls. Each MuPDF call is an oracle: a boolean or a function that the
caller of the model supplies.

- `bytes.dfy` (module `Bytes`): Go's `byte`, ASCII literals as bytes, and "signature at offset".
- `errors.dfy` (module `Errors`): the package's sentinel errors and Go's `(value, error)` return pair (`Returned`).
- `sniff.dfy` (module `Sniff`): `contentType`, the magic-byte sniffer for PDF and EPUB.
- `toc.dfy` (module `Toc`): `ToC`. The native `fz_outline` is a finite first-child/next-sibling tree (`Tree`). The walk appears twice: as a recursive function (`Walk`) and as the Go closure's loop plus recursion (`WalkInto`). Two partners go with it. One is an independent forest-of-headings pre-order (`Preorder`). The other is an inverse (`Rebuild`) that recovers the tree from the levels.
- `metadata.dfy` (module `Meta`): `Metadata`. It covers the ten-row key table, the 256-byte lookup buffer and `bytes.TrimRight(buf, "\x00")`.
- `document.dfy` (module `Handle`): how `New`, `NewFromMemory` and `NewFromReader` pick their errors; the range guards of `Text` and `ImageBytes`; the `Subtype` dispatch of `ImageBytes`; how `Image` passes errors through and wraps decoder errors; and the callers' scan over object numbers with `Image`.

A Go `(value, error)` result is modelled as `Returned(value, err)`, with a nil slice or
pointer as `None`. Because both halves are always present, "never both a value and an
error" is a real contract and not a property of the type.

Where the documentation and the code disagree, the model follows the code:
- `Image`/`ImageBytes` are documented as taking object numbers "1 ~ NumObj()". The guard `objTotal <= objNumber` (fitz.go:221) rejects `NumObj()` itself, so the model accepts exactly `[1, NumObj())`.
- A document whose outline is present but empty cannot produce an empty list. `ToC` fails with `ErrLoadOutline` whenever MuPDF returns a nil root (fitz.go:258-261), and a non-nil root always contributes at least one entry. So `ToC` never returns an empty list with a nil error (`Toc.ToC`).
- When the document fails to open, `New` and `NewFromMemory` do not return. They go on to ask for the password and counts of a nil document (fitz.go:89-100, 126-138), so `ErrNeedsPassword` can replace `ErrOpenDocument`. The model keeps this order.

## Model

| member | source | states |
|---|---|---|
| Sniff.ContentType | fitz.go:324-335 | The result is `application/pdf` exactly when the input starts with the ASCII text `%PDF`. It is `application/epub+zip` exactly when the input does not start with `%PDF`, starts with `PK` 03 04, and bytes 30..57 spell `mimetype` followed by `application/epub+zip`. Otherwise it is the empty string, which includes every input shorter than 4 bytes. |
| Sniff.MimetypeNameSpelled | fitz.go:328-329 | The bytes compared at offsets 30..37 are the ASCII name `mimetype`. |
| Sniff.EpubMediaTypeSpelled | fitz.go:329-331 | The bytes compared at offsets 38..57 are the ASCII media type `application/epub+zip`. |
| Sniff.MagicSpelled | fitz.go:326-328 | The four leading bytes compared are `%PDF` for PDF and `PK` 03 04 for ZIP. |
| Toc.Walk | fitz.go:266-281 | The flattening has exactly one entry per node of the outline tree. |
| Toc.WalkLeveled | fitz.go:266-283 | The first entry is at the starting level, no entry is above it, and each entry is at most one level deeper than the entry before it. |
| Toc.WalkInto | fitz.go:266-281 | The loop over the sibling chain, recursing into `down` and appending to the shared slice, extends that slice by exactly the flattening of the tree. |
| Toc.ToC | fitz.go:255-285 | It fails with `ErrLoadOutline` and a nil slice exactly when the root is nil. Otherwise it returns no error and the walk from level 1: one entry per node, at least one entry, the first at level 1, every level at least 1, and each level at most one more than the previous level. |
| Toc.WalkIsPreorder | fitz.go:266-281 | Read the tree as a forest of headings with child lists. The walk is then that forest's depth-first pre-order: each heading is followed by its children one level deeper, and each entry copies its node's title, URI, page and offset. |
| Toc.RebuildWalk | fitz.go:266-281 | Round trip: the flat list with its levels rebuilds the original tree, so the flattening loses nothing. |
| Toc.WalkInjective | fitz.go:264-284 | Two different outlines never produce the same table of contents. |
| Meta.TrimNul | fitz.go:298 | The result is a prefix of the buffer and does not end in NUL. Every byte after it is NUL. |
| Meta.TrimNulUnique | fitz.go:298 | The NUL trim is the only way to split a buffer into a part without a trailing NUL followed by a run of NULs. |
| Meta.Lookup | fitz.go:291-300 | The value is at most 256 bytes and does not end in NUL. The 256-byte buffer is exactly the value padded with NULs. |
| Meta.Assign | fitz.go:302-311 | After the sequential map assignments, the key set is the set of output keys assigned. |
| Meta.AssignValues | fitz.go:302-311 | If no output key is assigned twice, each output key holds the lookup of its own native key. |
| Meta.FieldsDistinct | fitz.go:302-311 | The ten output keys are pairwise distinct. |
| Meta.FieldKeys | fitz.go:302-311 | The output keys of the table are exactly `format, encryption, title, author, subject, keywords, creator, producer, creationDate, modDate`. |
| Meta.Metadata | fitz.go:288-314 | Each output key holds the trimmed lookup of its fixed native key, for example `title` from `info:Title` and `modDate` from `info:modDate`. The map has no other keys. |
| Meta.MetadataKeys | fitz.go:289-311 | The map always has exactly the ten keys, never fewer or more. |
| Handle.Opened | fitz.go:89-102 | A failed open records `ErrOpenDocument` without returning, and a password requirement then overwrites it with `ErrNeedsPassword`. The page and object counts are assigned on both paths. |
| Handle.New | fitz.go:66-103 | A failed `filepath.Abs` returns its own error, never a package sentinel, on a zero handle, and no other path returns a non-package error. `ErrNoSuchFile` is returned exactly when the path resolved and the file is missing. `ErrCreateContext` is returned exactly when the file exists and no context can be allocated. In those cases the handle stays zero (no context, counts 0). Otherwise the context exists and the counts are those of the opened absolute path. |
| Handle.NewPrecedence | fitz.go:68-100 | A failed path resolution is reported before anything else. Past it, the error `New` reports is the first failing check in this order: file exists, context allocated, password needed, document opened. |
| Handle.EarlyReturnsIgnoreNative | fitz.go:73-76 | A missing file gives `ErrNoSuchFile` on a zero handle, whatever the native library would have answered. |
| Handle.NilContextIgnoresNative | fitz.go:109-113 | A nil context makes `NewFromMemory` return `ErrCreateContext` on a zero handle, whatever the native library would have answered about streams and documents. |
| Handle.NewFromMemory | fitz.go:106-141 | A nil context gives `ErrCreateContext` on a zero handle, and nothing else does. A nil memory stream gives `ErrOpenMemory` with a context but no document and zero counts, and nothing else does. Past both checks, the counts are those of the in-memory source. |
| Handle.NewFromMemoryPrecedence | fitz.go:109-135 | The error `NewFromMemory` reports is the first failing check in this order: context allocated, stream opened, password needed, document opened. |
| Handle.NewFromReader | fitz.go:144-152 | A read error is returned unchanged with a nil handle. Otherwise the result is `NewFromMemory` of the bytes read. |
| Handle.Text | fitz.go:165-203 | It fails with `ErrPageMissing` and `""` exactly when `pageNumber < 0` or `pageTotal <= pageNumber`. On every other index it returns no error and that page's text. |
| Handle.IsImage | fitz.go:233-236 | The object is an image exactly when its `Subtype` entry is the name `Image`. A missing entry or dictionary is not an image. |
| Handle.ImageBytes | fitz.go:217-236 | It fails with `ErrObjMissing` exactly when `objNumber <= 0` or `objTotal <= objNumber`. In range, it returns no error exactly when the object's `Subtype` is `Image`, and otherwise `(nil, ErrNotImage)`. It never returns both bytes and an error, and it always returns one of the two. |
| Handle.Image | fitz.go:206-213 | An error from `ImageBytes` is returned unchanged with a nil image. The result fails with `ErrObjMissing` exactly when the object number is outside `[1, objTotal)`, and with `ErrNotImage` exactly when it is in range and the object is not an image. For an image object, a PNG that decodes gives the image with no error, and a decode failure gives that error with a nil image. It never returns both an image and an error. |
| Handle.ScanImages | fitz_test.go:107-114 | A scan over `1 .. NumObj()-1` calls `Image` on each object. It extracts exactly the image objects whose PNG decodes, once each and in increasing order. It reports (logs) exactly the image objects whose PNG fails to decode, once each and in increasing order, each with a non-package error. Every other object it skips failed with `ErrNotImage`. |

## Left out

- MuPDF itself (context allocation, document and stream opening, page loading, the structured-text device, `pdf_run_page`, image loading and PNG encoding, `pdf_lookup_metadata`, `pdf_count_pages`/`pdf_count_objects`, `pdf_load_outline`): all foreign code, modelled only as oracle parameters.
- `image.Decode` in `Image`: a Go library call. It is an oracle that yields either an image or an error message, never both and never one of the package's errors. The model only passes its result and errors through.
- `filepath.Abs`, `os.Stat` and `ioutil.ReadAll`: file-system and stream I/O, reduced to the oracle results they return. `Files` holds the resolved path or the message of the `Abs` error, and whether the file is present. The read is a `Returned` whose error can be any value, because a caller-supplied reader can fail with any error.
- The `sync.Mutex` in `Text` and `ImageBytes`: it only matters under concurrency, which a sequential model cannot show. `ToC` and `Metadata` take no lock in the source, and the model claims none.
- `Close` and native resource lifetimes, including the `C.CBytes` buffer that `NewFromMemory` never frees: manual memory management with no guard in the source. The model has no "closed" state because the code has none.
- `NumPage`/`NumObj`: plain field reads, available as `pageTotal`/`objTotal` of `Handle.Document`.
- `Outline.Top` is a float. It is carried as an opaque `real` that is copied and never computed on. No numeric claim is made.
- `ErrCreatePixmap` and `ErrPixmapSamples` are declared but never returned by the source. They appear in the error type and nowhere else.
- Integer width: Go `int` and C `int` are modelled as unbounded integers. The guards run before any `C.int` conversion, and the counts come from C `int`s, so no wrap-around is reachable on the modelled paths.
- Go strings in `Outline` (`C.GoString` of the native title and URI) and the page text `Text` returns (`C.GoString` of the structured-text buffer) are byte strings in Go; here they come from their oracles as Dafny strings, with no encoding modelled. Metadata values stay byte sequences, because the NUL trim works on bytes.
