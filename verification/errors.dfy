/** The error surface of the package and the shape of Go's `(value, error)` returns. */
module Errors {

  /** A Go pointer or slice that may be nil (`None`). */
  datatype Option<+T> = None | Some(value: T)

  /** The package's sentinel errors (fitz.go:28-40), plus `Foreign`: an error the
      package passes through from elsewhere. `filepath.Abs` and `image.Decode` fail
      with errors of their own, never a sentinel, and are modelled by their message.
      `ioutil.ReadAll` hands back whatever error the caller's reader produced, which
      can be any error value. CreatePixmap and PixmapSamples are declared by the
      package but never returned. */
  datatype Error =
    | NoSuchFile
    | CreateContext
    | OpenDocument
    | OpenMemory
    | PageMissing
    | ObjMissing
    | NotImage
    | CreatePixmap
    | PixmapSamples
    | NeedsPassword
    | LoadOutline
    | Foreign(message: string)

  /** A Go function result `(value T, err error)`: both halves are always present,
      and nothing in the type forbids a value next to a non-nil error. */
  datatype Returned<+T> = Returned(value: T, err: Option<Error>) {

    /** True when the error half is nil */
    predicate Ok() {
      err.None?
    }
  }
}
