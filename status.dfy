/** Status codes returned by the buffer manager and by the file layer it calls. */
module Errors {

  datatype Status =
    | OK
    | UnixErr          // an I/O error in the file layer (UNIXERR)
    | BadPageNo        // the file layer was given a page number it does not hold (BADPAGENO)
    | BufferExceeded   // the clock found no frame to replace (BUFFEREXCEEDED)
    | HashNotFound     // the page is not resident (HASHNOTFOUND)
    | HashTblError     // the hash index refused an insertion (HASHTBLERROR)
    | PageNotPinned    // unpin of a page whose pin count is already 0 (PAGENOTPINNED)
    | PagePinned       // flush met a pinned page of the file (PAGEPINNED)
    | BadBuffer        // flush met an invalid frame still tagged with the file (BADBUFFER)

  /** The statuses a file operation can fail with. */
  predicate IsFileError(s: Status) {
    s == UnixErr || s == BadPageNo
  }
}
