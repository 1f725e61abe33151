/** How writing a file can end. */
module FileWrites {

  /** Without error; in an error before the file is touched, half way, or after the last byte. */
  datatype WriteEnd = Written | NotOpened | CutShort | FailedAtEnd

  predicate ReachesDisk(w: WriteEnd) {
    w == Written || w == FailedAtEnd
  }
}
