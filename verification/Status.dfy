/** The status codes of error.h that the modelled operations return. */
module Statuses {
  datatype Status =
    | OK
    | UNIXERR
    | BADPAGENO
    | HASHTBLERROR
    | HASHNOTFOUND
    | BUFFEREXCEEDED
    | PAGENOTPINNED
    | BADBUFFER
    | PAGEPINNED
    | NOSPACE
    | NORECORDS
    | ENDOFPAGE
    | INVALIDSLOTNO
    | INVALIDRECLEN
    | BADSCANPARM
    | FILEEOF
    | BADSORTPARM
    | INSUFMEM
    | ATTRTYPEMISMATCH
}
