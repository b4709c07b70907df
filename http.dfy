/** What the endpoints receive and send: request headers that may be absent,
    input streams, and a status with a body. */
module Http {
  import opened Wrappers

  const OK: int := 200
  const BAD_REQUEST: int := 400
  const UNAUTHORIZED: int := 401
  const NOT_FOUND: int := 404
  const INTERNAL_SERVER_ERROR: int := 500

  /** The five identifying headers; `None` is a header the request did not carry. */
  datatype Headers = Headers(
    documentId: Option<string>,    // X-Doc-Id
    fileName: Option<string>,      // X-File-Name
    documentType: Option<string>,  // X-Doc-Type
    applicationId: Option<string>, // p_app_id
    sessionId: Option<string>)     // p_session_id

  /** An input stream: the chunks successive `read` calls return, and whether
      the read after the last chunk throws an `IOException` instead of
      reporting the end of the stream. */
  datatype Stream<T> = Stream(chunks: seq<seq<T>>, failsAtEnd: bool)

  datatype Response = Response(status: int, body: string)
}
