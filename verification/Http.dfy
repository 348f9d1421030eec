/** Constants that the parts of httplib share (include/httplib.h). */
module Http {
  const CRLF: string := "\r\n"
  const HEADER_MAX_LENGTH: nat := 8192
}
