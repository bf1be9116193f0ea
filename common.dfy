/** Types shared by every part of the media store model. */
module Common {

  type byte = b: int | 0 <= b < 256

  /** The range of C#'s uint. */
  type uint32 = n: int | 0 <= n < 0x1_0000_0000

  /** The content of a file or of an upload stream. */
  type Bytes = seq<byte>

  /** A location below the storage root, as its directory segments; the root is []. */
  type Path = seq<string>

  datatype Option<+T> = None | Some(value: T)

  /** The exceptions the store raises. The three argument errors all surface as
      ArgumentException in the source; IOError stands for every filesystem failure. */
  datatype Error =
    | InvalidPath(path: string)
    | InvalidName(name: string)
    | InvalidFileType(extension: string)
    | IOError(at: Path)

  datatype Result<+T> = Ok(value: T) | Err(error: Error)

  /** The parent directory of a non-root location. */
  function Parent(p: Path): Path
    requires p != []
  {
    p[..|p| - 1]
  }
}
