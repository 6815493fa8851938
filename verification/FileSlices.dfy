/** Slices of a file: the value handed from the file to the copy loop, and the
    two ways `AsyncFileExtension` makes one. */
module FileSlices {
  import opened Machine

  datatype AsyncFileSlice = AsyncFileSlice(fd: int, position: U64, len: U64)

  datatype SliceResult = Accepted(slice: AsyncFileSlice) | UnexpectedEof

  function RawSlice(fd: int, position: U64, len: U64): AsyncFileSlice {
    AsyncFileSlice(fd, position, len)
  }

  /** `len` is the length the file's metadata reports. */
  function AsSlice(fd: int, len: U64, position: U64, desired: Option<U64>): SliceResult {
    if position >= len then UnexpectedEof
    else match desired
      case Some(wanted) =>
        if WrapAdd(position, wanted) >= len then UnexpectedEof else Accepted(RawSlice(fd, position, wanted))
      case None => Accepted(RawSlice(fd, position, len - position))
  }
}
