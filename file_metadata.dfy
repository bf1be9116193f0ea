/** The FileMetadata record returned by saving and listing. */
module Dto {

  /** A point in time as ticks; the source reads these from the filesystem. */
  type Timestamp = int

  /** DateTime.MinValue, the timestamp of the oversize sentinel. */
  const MinValue: Timestamp := 0

  datatype FileMetadata = FileMetadata(
    name: string,
    length: int,
    folder: bool,
    created: Timestamp,
    modified: Timestamp)

  /** The soft rejection SaveFileAsync returns for an oversize upload. */
  function Oversize(fileName: string): FileMetadata
  {
    FileMetadata(fileName, -1, false, MinValue, MinValue)
  }
}
