/** The upload endpoint (`POST /SaveDocumentV2`): checks the request, validates
    the session, resolves the storage directory of the document type and writes
    the body stream to `{base}/{documentId}_{sanitized}`. */
module SaveDocument {
  import opened Wrappers
  import opened Text
  import opened Json
  import opened FileSystem
  import opened Http
  import opened Session

  const KEY_ORDS_VALIDATION: string := "ORDS_VALIDATE_SESSION"

  const MSG_MISSING_HEADERS: string := "Missing required headers"
  const MSG_INVALID_SESSION: string := "Invalid or expired APEX session"
  const MSG_INVALID_DOC_TYPE: string := "Invalid document type"
  const MSG_SUCCESS: string := "OK"
  const MSG_READ_FAILED: string := "read failed"

  // ---------------------------------------------------------------------------
  // Header check, path lookup, sanitiser

  /** The body stream and all five headers are given; their text is not
      looked at, so empty headers pass. */
  predicate HeadersGiven(stream: Option<Stream<byte>>, h: Headers) {
    stream.Some? && h.documentId.Some? && h.fileName.Some? && h.documentType.Some? &&
    h.applicationId.Some? && h.sessionId.Some?
  }

  /** `validateHeaders`: a 400 response when something is missing, none when
      the request may go on. */
  function ValidateHeaders(stream: Option<Stream<byte>>, h: Headers): (r: Option<Response>)
    ensures r.None? <==> HeadersGiven(stream, h)
    ensures r.Some? ==> r.value.status == BAD_REQUEST
  {
    if HeadersGiven(stream, h) then None else Some(ErrorResponse(BAD_REQUEST, MSG_MISSING_HEADERS))
  }

  /** `resolveBasePath`: the configured directory of the document type, if any. */
  function ResolveBasePath(config: map<string, string>, documentType: string): Option<Path> {
    Get(config, documentType)
  }

  /** The characters `replaceAll("[\\/:*?\"<>|]", "_")` replaces. */
  predicate IsDenied(c: char) {
    c == '/' || c == ':' || c == '*' || c == '?' || c == '"' || c == '<' || c == '>' || c == '|'
  }

  /** The upload sanitiser: each denied character becomes `_`, every other
      character stays where it was. */
  function SanitizeFileName(fileName: string): (r: string)
    ensures |r| == |fileName|
    ensures forall i :: 0 <= i < |r| ==> !IsDenied(r[i])
    ensures '/' !in r
    ensures forall i :: 0 <= i < |r| ==> r[i] == if IsDenied(fileName[i]) then '_' else fileName[i]
  {
    seq(|fileName|, i requires 0 <= i < |fileName| => if IsDenied(fileName[i]) then '_' else fileName[i])
  }

  /** Sanitising twice is sanitising once. */
  lemma SanitizeIdempotent(fileName: string)
    ensures SanitizeFileName(SanitizeFileName(fileName)) == SanitizeFileName(fileName)
  {
  }

  /** A name without denied characters is kept; in particular backslashes and
      dots pass through. */
  lemma SanitizeKeepsOthers(fileName: string)
    requires forall i :: 0 <= i < |fileName| ==> !IsDenied(fileName[i])
    ensures SanitizeFileName(fileName) == fileName
  {
  }

  lemma SanitizeExamples()
    ensures SanitizeFileName("..") == ".."
    ensures SanitizeFileName("a\\b") == "a\\b"
    ensures SanitizeFileName("../x") == ".._x"
  {
    SanitizeKeepsOthers("..");
    SanitizeKeepsOthers("a\\b");
    assert SanitizeFileName("../x")[2] == '_';
  }

  // ---------------------------------------------------------------------------
  // Writing the file

  /** The file `saveFileToDisk` writes: `new File(basePath, documentId + "_" + sanitized)`. */
  function SaveTarget(basePath: Path, documentId: string, fileName: string): Path {
    Join(basePath, documentId + "_" + SanitizeFileName(fileName))
  }

  /** The result of `saveFileToDisk` and the filesystem it leaves. */
  datatype Saved = Saved(result: Result<Path>, entries: Entries)

  /** `saveFileToDisk`: make sure the base directory exists, open the target
      (creating or truncating it), then write every chunk of the stream. A read
      failure leaves what was written so far. */
  function SaveOutcome(e: Entries, denied: set<Path>, basePath: Path, documentId: string, fileName: string,
                       data: Stream<byte>, now: int): Saved
  {
    var target := SaveTarget(basePath, documentId, fileName);
    if basePath !in e && basePath in denied then
      Saved(Failure("Failed to create directory: " + basePath), e)
    else
      var e1 := WithDirectory(e, basePath);
      if !CanCreateFile(e1, denied, target) then
        Saved(Failure(target), e1)
      else
        var e2 := e1[target := File(Concat(data.chunks), now)];
        if data.failsAtEnd then Saved(Failure(MSG_READ_FAILED), e2) else Saved(Success(target), e2)
  }

  /** What saving does to the filesystem: on success the target holds exactly
      the bytes of the stream, whatever was there before; at most the base
      directory and the target are new; every other entry is as it was; a
      base directory that cannot be created leaves everything unchanged, and
      an existing one is reused. */
  lemma SaveOutcomeFacts(e: Entries, denied: set<Path>, basePath: Path, documentId: string, fileName: string,
                         data: Stream<byte>, now: int)
    ensures var o := SaveOutcome(e, denied, basePath, documentId, fileName, data, now);
      var target := SaveTarget(basePath, documentId, fileName);
      && (o.result.Success? ==>
            && o.result.value == target
            && o.entries.Keys == e.Keys + {basePath, target}
            && o.entries[target] == File(Concat(data.chunks), now))
      && (forall p :: p in e && p != target ==> p in o.entries && o.entries[p] == e[p])
      && (forall p :: p in o.entries && p !in e && p != target ==> p == basePath && o.entries[p] == Directory)
      && (basePath !in e && basePath in denied ==> o.result.Failure? && o.entries == e)
      && (o.result.Success? <==>
            !(basePath !in e && basePath in denied) && CanCreateFile(WithDirectory(e, basePath), denied, target) &&
            !data.failsAtEnd)
  {
  }

  /** `saveFileToDisk`, with the file's modification time as a parameter; the
      loop copies one chunk per `read` and keeps the running byte total. */
  method SaveFileToDisk(fs: Disk, stream: Stream<byte>, documentId: string, fileName: string, basePath: Path, now: int)
      returns (r: Result<Path>, totalBytes: nat)
    modifies fs
    ensures var o := SaveOutcome(old(fs.entries), fs.denied, basePath, documentId, fileName, stream, now);
      r == o.result && fs.entries == o.entries
    ensures r.Success? ==> totalBytes == |Concat(stream.chunks)|
  {
    var sanitizedFileName := SanitizeFileName(fileName);

    if basePath !in fs.entries {
      var made := fs.Mkdirs(basePath);
      if !made {
        return Failure("Failed to create directory: " + basePath), 0;
      }
    }
    ghost var e1 := fs.entries;

    var targetFile := Join(basePath, documentId + "_" + sanitizedFileName);
    var created := fs.OpenForWrite(targetFile, now);
    if !created {
      return Failure(targetFile), 0;
    }

    totalBytes := 0;
    var i := 0;
    while i < |stream.chunks|
      invariant 0 <= i <= |stream.chunks|
      invariant fs.entries == e1[targetFile := File(Concat(stream.chunks[..i]), now)]
      invariant totalBytes == |Concat(stream.chunks[..i])|
    {
      var chunk := stream.chunks[i];
      fs.Append(targetFile, chunk, now);
      ConcatLengthStep(stream.chunks, i);
      totalBytes := totalBytes + |chunk|;
      i := i + 1;
    }
    assert stream.chunks[..i] == stream.chunks;

    if stream.failsAtEnd {
      return Failure(MSG_READ_FAILED), totalBytes;
    }
    return Success(targetFile), totalBytes;
  }

  // ---------------------------------------------------------------------------
  // Responses

  /** `buildSuccessResponse`: `{"status":"OK","file":N}`, the name unescaped. */
  function SuccessBody(fileName: string): string {
    "{" + (MemberText("status", MSG_SUCCESS) + ("," + (MemberText("file", fileName) + "}")))
  }

  /** `buildErrorResponse`: the status with `{"error":"<message>"}`; the message
      is not escaped. */
  function ErrorResponse(status: int, message: string): (r: Response)
    ensures r.status == status
  {
    Response(status, "{" + MemberText("error", message) + "}")
  }

  /** A client reads the message back from an error body when the message
      holds no character JSON would need escaped. */
  lemma ErrorResponseReadsBack(status: int, message: string)
    requires forall i :: 0 <= i < |message| ==> !IsEscaped(message[i])
    ensures ParseObject(ErrorResponse(status, message).body) == Some([("error", message)])
  {
    PlainRoundTrip(message, "}");
    MemberRead("error", message, message, "}");
    MembersLast(MemberText("error", message) + "}", ("error", message));
    assert ErrorResponse(status, message).body[1..] == MemberText("error", message) + "}";
  }

  /** A client reads the file name back from the success body when the name
      holds no character JSON would need escaped. */
  lemma SuccessBodyReadsBack(fileName: string)
    requires forall i :: 0 <= i < |fileName| ==> !IsEscaped(fileName[i])
    ensures ParseObject(SuccessBody(fileName)) == Some([("status", "OK"), ("file", fileName)])
  {
    var m2 := MemberText("file", fileName) + "}";
    PlainRoundTrip(fileName, "}");
    MemberRead("file", fileName, fileName, "}");
    MembersLast(m2, ("file", fileName));
    PlainRoundTrip("OK", "," + m2);
    MemberRead("status", "OK", "OK", "," + m2);
    MembersThen(MemberText("status", "OK") + ("," + m2), ("status", "OK"), m2);
    assert SuccessBody(fileName)[1..] == MemberText("status", "OK") + ("," + m2);
    assert [("status", "OK")] + [("file", fileName)] == [("status", "OK"), ("file", fileName)];
  }

  /** The sanitiser keeps backslashes and the body does not escape them, so a
      stored `D_a\b` is read back by a client as `D_a` followed by a backspace. */
  lemma BackslashNameMisread()
    ensures SanitizeFileName("a\\b") == "a\\b"
    ensures ParseObject(SuccessBody("D_a\\b")) == Some([("status", "OK"), ("file", "D_a" + [BACKSPACE])])
  {
    SanitizeKeepsOthers("a\\b");
    var m2 := MemberText("file", "D_a\\b") + "}";
    var r0 := "\"}";
    assert ParseString(r0) == Some(([], "}"));
    var r1 := ['\\', 'b'] + r0;
    ParseEscapeCons('b', r0);
    assert Unescape('b') == Some(BACKSPACE);
    assert [BACKSPACE] + [] == [BACKSPACE];
    assert ParseString(r1) == Some(([BACKSPACE], "}"));
    var r2 := ['a'] + r1;
    ParsePlainCons('a', r1);
    assert ['a'] + [BACKSPACE] == ['a', BACKSPACE];
    assert ParseString(r2) == Some((['a', BACKSPACE], "}"));
    var r3 := ['_'] + r2;
    ParsePlainCons('_', r2);
    assert ['_'] + ['a', BACKSPACE] == ['_', 'a', BACKSPACE];
    assert ParseString(r3) == Some((['_', 'a', BACKSPACE], "}"));
    var r4 := ['D'] + r3;
    ParsePlainCons('D', r3);
    assert ['D'] + ['_', 'a', BACKSPACE] == ['D', '_', 'a', BACKSPACE];
    assert ParseString(r4) == Some((['D', '_', 'a', BACKSPACE], "}"));
    assert "D_a\\b" + "\"" + "}" == r4;
    assert "D_a" + [BACKSPACE] == ['D', '_', 'a', BACKSPACE];
    MemberRead("file", "D_a\\b", "D_a" + [BACKSPACE], "}");
    MembersLast(m2, ("file", "D_a" + [BACKSPACE]));
    PlainRoundTrip("OK", "," + m2);
    MemberRead("status", "OK", "OK", "," + m2);
    MembersThen(MemberText("status", "OK") + ("," + m2), ("status", "OK"), m2);
    assert SuccessBody("D_a\\b")[1..] == MemberText("status", "OK") + ("," + m2);
    assert [("status", "OK")] + [("file", "D_a" + [BACKSPACE])] == [("status", "OK"), ("file", "D_a" + [BACKSPACE])];
  }

  /** The reported name is `documentId_sanitized` whenever the document id
      holds no separator. */
  lemma ReportedNameOfTarget(basePath: Path, documentId: string, fileName: string)
    requires '/' !in documentId
    ensures Name(SaveTarget(basePath, documentId, fileName)) == documentId + "_" + SanitizeFileName(fileName)
    ensures ChildOf(SaveTarget(basePath, documentId, fileName), basePath)
  {
    JoinSeparated(basePath, documentId, SanitizeFileName(fileName));
  }

  /** A document id with a separator moves the file into a subdirectory and
      the reported name is only the last segment. */
  lemma SeparatorInDocumentId()
    ensures SaveTarget("/data", "x/y", "f") == "/data/x/y_f"
    ensures Name(SaveTarget("/data", "x/y", "f")) == "y_f"
  {
    SanitizeKeepsOthers("f");
    assert SaveTarget("/data", "x/y", "f") == Join("/data/x", "y_f");
    JoinChild("/data/x", "y_f");
  }

  // ---------------------------------------------------------------------------
  // The request as a whole

  /** The response of one upload and the filesystem it leaves. */
  datatype Uploaded = Uploaded(response: Response, entries: Entries)

  /** The upload after the session check: resolve the base path, then save. */
  function StoreOutcome(config: map<string, string>, documentId: string, fileName: string, documentType: string,
                        data: Stream<byte>, e: Entries, denied: set<Path>, now: int): (o: Uploaded)
    ensures o.response.status in {OK, BAD_REQUEST, INTERNAL_SERVER_ERROR}
    ensures o.response.status == BAD_REQUEST ==> o.entries == e && documentType !in config
    ensures documentType !in config ==> o.response == ErrorResponse(BAD_REQUEST, MSG_INVALID_DOC_TYPE) && o.entries == e
    ensures documentType in config ==>
      var saved := SaveOutcome(e, denied, config[documentType], documentId, fileName, data, now);
      saved.result.Failure? ==>
        o.response == ErrorResponse(INTERNAL_SERVER_ERROR, saved.result.message) && o.entries == saved.entries
  {
    match ResolveBasePath(config, documentType)
    case None => Uploaded(ErrorResponse(BAD_REQUEST, MSG_INVALID_DOC_TYPE), e)
    case Some(basePath) =>
      var saved := SaveOutcome(e, denied, basePath, documentId, fileName, data, now);
      match saved.result
      case Failure(message) => Uploaded(ErrorResponse(INTERNAL_SERVER_ERROR, message), saved.entries)
      case Success(target) => Uploaded(Response(OK, SuccessBody(Name(target))), saved.entries)
  }

  /** One `saveDocument` call. The checks run in order (stream and headers,
      session, document type) and nothing on disk changes until all pass. */
  function UploadOutcome(config: map<string, string>, answer: Request -> Exchange, stream: Option<Stream<byte>>,
                         h: Headers, e: Entries, denied: set<Path>, now: int): (o: Uploaded)
    ensures o.response.status in {OK, BAD_REQUEST, UNAUTHORIZED, INTERNAL_SERVER_ERROR}
    ensures o.response.status == BAD_REQUEST || o.response.status == UNAUTHORIZED ==> o.entries == e
    ensures o.response.status == UNAUTHORIZED <==>
      HeadersGiven(stream, h) && !SessionAccepted(Get(config, KEY_ORDS_VALIDATION), answer, h.applicationId.value, h.sessionId.value)
    ensures !HeadersGiven(stream, h) ==> o.response == ErrorResponse(BAD_REQUEST, MSG_MISSING_HEADERS) && o.entries == e
    ensures o.response.status == UNAUTHORIZED ==> o.response == ErrorResponse(UNAUTHORIZED, MSG_INVALID_SESSION)
  {
    match ValidateHeaders(stream, h)
    case Some(refusal) => Uploaded(refusal, e)
    case None =>
      if !SessionAccepted(Get(config, KEY_ORDS_VALIDATION), answer, h.applicationId.value, h.sessionId.value) then
        Uploaded(ErrorResponse(UNAUTHORIZED, MSG_INVALID_SESSION), e)
      else
        StoreOutcome(config, h.documentId.value, h.fileName.value, h.documentType.value, stream.value, e, denied, now)
  }

  /** Past the session check, an upload succeeds exactly when the document
      type is configured and the save completes; the target then holds the
      stream's bytes and the body reports the target's name. */
  lemma StoredIff(config: map<string, string>, documentId: string, fileName: string, documentType: string,
                  data: Stream<byte>, e: Entries, denied: set<Path>, now: int)
    ensures var o := StoreOutcome(config, documentId, fileName, documentType, data, e, denied, now);
      o.response.status == OK <==>
        documentType in config &&
        SaveOutcome(e, denied, config[documentType], documentId, fileName, data, now).result.Success?
    ensures var o := StoreOutcome(config, documentId, fileName, documentType, data, e, denied, now);
      o.response.status == OK ==>
        var target := SaveTarget(config[documentType], documentId, fileName);
        && target in o.entries && o.entries[target] == File(Concat(data.chunks), now)
        && o.response.body == SuccessBody(Name(target))
  {
    if documentType in config {
      SaveOutcomeFacts(e, denied, config[documentType], documentId, fileName, data, now);
    }
  }

  /** An upload succeeds exactly when the stream and headers are given, the
      session is accepted, and storing succeeds. */
  lemma UploadedIff(config: map<string, string>, answer: Request -> Exchange, stream: Option<Stream<byte>>,
                    h: Headers, e: Entries, denied: set<Path>, now: int)
    ensures var o := UploadOutcome(config, answer, stream, h, e, denied, now);
      o.response.status == OK <==>
        && HeadersGiven(stream, h)
        && SessionAccepted(Get(config, KEY_ORDS_VALIDATION), answer, h.applicationId.value, h.sessionId.value)
        && var s := StoreOutcome(config, h.documentId.value, h.fileName.value, h.documentType.value, stream.value, e, denied, now);
           s.response.status == OK && o == s
  {
  }

  /** `isApexSessionValid`: the validation URL is looked up in the
      configuration on every call. */
  method IsApexSessionValid(config: map<string, string>, applicationId: string, sessionId: string, svc: ValidationService)
      returns (valid: bool)
    modifies svc
    ensures valid == SessionAccepted(Get(config, KEY_ORDS_VALIDATION), svc.answer, applicationId, sessionId)
    ensures svc.log == old(svc.log) + SessionCalls(Get(config, KEY_ORDS_VALIDATION), applicationId, sessionId)
  {
    var validationUrl := Get(config, KEY_ORDS_VALIDATION);
    valid := ValidateSession(validationUrl, applicationId, sessionId, svc);
  }

  /** `saveDocument`, with the modification time as a parameter. */
  method SaveDocument(config: map<string, string>, stream: Option<Stream<byte>>, h: Headers,
                      fs: Disk, svc: ValidationService, now: int) returns (resp: Response)
    modifies fs, svc
    ensures var o := UploadOutcome(config, svc.answer, stream, h, old(fs.entries), fs.denied, now);
      resp == o.response && fs.entries == o.entries
    ensures svc.log == old(svc.log) +
      (if HeadersGiven(stream, h) then SessionCalls(Get(config, KEY_ORDS_VALIDATION), h.applicationId.value, h.sessionId.value) else [])
  {
    var validationResponse := ValidateHeaders(stream, h);
    if validationResponse.Some? {
      return validationResponse.value;
    }

    var valid := IsApexSessionValid(config, h.applicationId.value, h.sessionId.value, svc);
    if !valid {
      return ErrorResponse(UNAUTHORIZED, MSG_INVALID_SESSION);
    }

    resp := StoreDocument(config, h.documentId.value, h.fileName.value, h.documentType.value, stream.value, fs, now);
  }

  /** Storing a name that needs neither sanitising nor JSON escaping, for a
      document id without separator, into an existing directory: the file
      `{base}/{documentId}_{fileName}` holds the stream's bytes and the client
      reads back `{"status":"OK","file":"{documentId}_{fileName}"}`. */
  lemma StorePlainName(config: map<string, string>, documentId: string, fileName: string, documentType: string,
                       data: Stream<byte>, e: Entries, denied: set<Path>, now: int)
    requires documentType in config && IsDirectory(e, config[documentType]) && !data.failsAtEnd
    requires forall i :: 0 <= i < |fileName| ==> !IsDenied(fileName[i]) && !IsEscaped(fileName[i])
    requires forall i :: 0 <= i < |documentId| ==> documentId[i] != '/' && !IsEscaped(documentId[i])
    requires var target := Join(config[documentType], documentId + "_" + fileName);
      target !in denied && !IsDirectory(e, target)
    ensures var o := StoreOutcome(config, documentId, fileName, documentType, data, e, denied, now);
      var target := Join(config[documentType], documentId + "_" + fileName);
      && o.response.status == OK
      && ParseObject(o.response.body) == Some([("status", "OK"), ("file", documentId + "_" + fileName)])
      && target in o.entries && o.entries[target] == File(Concat(data.chunks), now)
  {
    var base := config[documentType];
    var name := documentId + "_" + fileName;
    SanitizeKeepsOthers(fileName);
    assert '/' !in documentId by {
      assert forall i :: 0 <= i < |documentId| ==> documentId[i] != '/';
    }
    ReportedNameOfTarget(base, documentId, fileName);
    JoinChild(base, name);
    assert WithDirectory(e, base) == e;
    assert CanCreateFile(e, denied, Join(base, name));
    assert forall i :: 0 <= i < |name| ==> !IsEscaped(name[i]) by {
      forall i | 0 <= i < |name|
        ensures !IsEscaped(name[i])
      {
        if i < |documentId| {
          assert name[i] == documentId[i];
        } else if i > |documentId| {
          assert name[i] == fileName[i - |documentId| - 1];
        }
      }
    }
    StoredIff(config, documentId, fileName, documentType, data, e, denied, now);
    SuccessBodyReadsBack(name);
  }

  /** `saveDocument` after the session check. */
  method StoreDocument(config: map<string, string>, documentId: string, fileName: string, documentType: string,
                       stream: Stream<byte>, fs: Disk, now: int) returns (resp: Response)
    modifies fs
    ensures var o := StoreOutcome(config, documentId, fileName, documentType, stream, old(fs.entries), fs.denied, now);
      resp == o.response && fs.entries == o.entries
  {
    var basePath := ResolveBasePath(config, documentType);
    if basePath.None? {
      return ErrorResponse(BAD_REQUEST, MSG_INVALID_DOC_TYPE);
    }

    var savedFile, _ := SaveFileToDisk(fs, stream, documentId, fileName, basePath.value, now);
    if savedFile.Failure? {
      return ErrorResponse(INTERNAL_SERVER_ERROR, savedFile.message);
    }

    return Response(OK, SuccessBody(Name(savedFile.value)));
  }
}
