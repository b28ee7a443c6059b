/** Values shared by every part of the file-source model. */
module Base {

  /** A byte as `char` is used by the source's streams and staging vectors. */
  newtype byte = b: int | 0 <= b < 256

  datatype Option<+T> = None | Some(value: T)

  /** The errors the file source raises. Every one of them is thrown as
      `InvalidConfigParameter`, except `CannotOpenTestFile`, which is a
      `TestException`. */
  datatype Error =
    | CannotResolvePath(path: string)               // `realpath`/`ifstream` failed in `open`
    | ContextCreationFailed                         // `ZSTD_createDCtx` returned null
    | UnsupportedCompression(compression: string)   // compression other than zstd, none or empty
    | DecompressionFailed(codecMessage: string)     // `ZSTD_isError` on a decompression step
    | FilePathAlreadySet                            // a test-data adaptor found `file_path` set
    | CannotOpenTestFile(path: string)              // the inline-data file could not be created

  datatype Result<+T> = Success(value: T) | Failure(error: Error)

  function Min(a: int, b: int): int
  {
    if a <= b then a else b
  }
}
