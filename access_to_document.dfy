/** The temporary-access endpoint (`POST /AccessToDocumentV2`): checks the
    request, validates the session, locates the source document, copies it to
    a token-named file in the shared temp directory and schedules a sweep that
    deletes expired copies. */
module AccessToDocument {
  import opened Wrappers
  import opened Text
  import opened JavaLong
  import opened Json
  import opened FileSystem
  import opened Http
  import opened Session

  const KEY_TEMP_BASE_PATH: string := "TEMP_BASE_PATH"
  const KEY_TEMP_EXPIRATION: string := "TEMP_FILE_EXPIRATION_MS"
  const KEY_ORDS_VALIDATION: string := "ORDS_VALIDATE_SESSION"
  const DEFAULT_TEMP_BASE_DIR: string := "/tmp/document-access"
  const DEFAULT_TEMP_EXPIRATION: string := "3600000"

  const MSG_MISSING_HEADERS: string := "Missing required headers"
  const MSG_INVALID_SESSION: string := "Invalid or expired APEX session"
  const MSG_INVALID_DOC_TYPE: string := "Invalid document type"
  const MSG_FILE_NOT_FOUND: string := "File not found"
  const MSG_SUCCESS: string := "OK"

  // ---------------------------------------------------------------------------
  // Configuration

  /** The settings `loadConfiguration` writes once into static fields. */
  datatype Settings = Settings(tempBaseDir: Path, expirationMs: int, validateUrl: Option<string>)

  /** `loadConfiguration` over the loaded properties: the temp directory and
      expiration window with their defaults, then the validation URL. When the
      expiration does not parse, `Long.parseLong` throws before the URL is
      read, so the window stays 0 and the URL null. */
  function LoadConfiguration(config: map<string, string>): (s: Settings)
    ensures s.tempBaseDir == Get(config, KEY_TEMP_BASE_PATH).GetOr(DEFAULT_TEMP_BASE_DIR)
    ensures var parsed := ParseLong(Get(config, KEY_TEMP_EXPIRATION).GetOr(DEFAULT_TEMP_EXPIRATION));
      && (parsed.Some? ==> s.expirationMs == parsed.value && s.validateUrl == Get(config, KEY_ORDS_VALIDATION))
      && (parsed.None? ==> s.expirationMs == 0 && s.validateUrl == None)
  {
    var tempBaseDir := Get(config, KEY_TEMP_BASE_PATH).GetOr(DEFAULT_TEMP_BASE_DIR);
    match ParseLong(Get(config, KEY_TEMP_EXPIRATION).GetOr(DEFAULT_TEMP_EXPIRATION))
    case Some(ms) => Settings(tempBaseDir, ms, Get(config, KEY_ORDS_VALIDATION))
    case None => Settings(tempBaseDir, 0, None)
  }

  /** With none of the three keys configured: `/tmp/document-access`, one
      hour, and no validation URL. */
  lemma DefaultSettings(config: map<string, string>)
    requires KEY_TEMP_BASE_PATH !in config && KEY_TEMP_EXPIRATION !in config && KEY_ORDS_VALIDATION !in config
    ensures LoadConfiguration(config) == Settings("/tmp/document-access", 3600000, None)
  {
    assert DecimalText(3600000) == DEFAULT_TEMP_EXPIRATION by {
      assert DecimalText(3) == "3";
      assert DecimalText(36) == "36";
      assert DecimalText(360) == "360";
      assert DecimalText(3600) == "3600";
      assert DecimalText(36000) == "36000";
      assert DecimalText(360000) == "360000";
    }
    ParseDecimal(3600000);
  }

  /** An expiration window that is not a number leaves no validation URL, so
      every session check fails. */
  lemma BadExpirationFailsClosed(config: map<string, string>, answer: Request -> Exchange, applicationId: string, sessionId: string)
    requires KEY_TEMP_EXPIRATION in config && ParseLong(config[KEY_TEMP_EXPIRATION]).None?
    ensures !SessionAccepted(LoadConfiguration(config).validateUrl, answer, applicationId, sessionId)
  {
  }

  // ---------------------------------------------------------------------------
  // Header check and file-name sanitiser

  /** A header that is present and not blank after `trim()`. */
  predicate Present(v: Option<string>) {
    v.Some? && Trim(v.value) != []
  }

  /** `validateHeaders`: all five headers present and not blank. */
  predicate ValidateHeaders(h: Headers) {
    Present(h.documentId) && Present(h.fileName) && Present(h.documentType) &&
    Present(h.applicationId) && Present(h.sessionId)
  }

  /** The header is given and holds a character above U+0020. */
  predicate HasVisible(v: Option<string>) {
    v.Some? && exists k :: 0 <= k < |v.value| && !IsTrimmable(v.value[k])
  }

  /** A header counts exactly when it is given and has a character above U+0020;
      a whitespace-only header counts as missing. */
  lemma PresentIff(v: Option<string>)
    ensures Present(v) <==> HasVisible(v)
  {
    if v.Some? {
      TrimEmptyIff(v.value);
    }
  }

  /** The header check accepts exactly the requests whose five headers are all
      given and each hold a character above U+0020. */
  lemma ValidateHeadersIff(h: Headers)
    ensures ValidateHeaders(h) <==>
      && HasVisible(h.documentId) && HasVisible(h.fileName) && HasVisible(h.documentType)
      && HasVisible(h.applicationId) && HasVisible(h.sessionId)
  {
    PresentIff(h.documentId);
    PresentIff(h.fileName);
    PresentIff(h.documentType);
    PresentIff(h.applicationId);
    PresentIff(h.sessionId);
  }

  /** The characters the sanitiser keeps: `[A-Za-z0-9._-]`. */
  predicate IsAllowed(c: char) {
    ('a' <= c <= 'z') || ('A' <= c <= 'Z') || ('0' <= c <= '9') || c == '.' || c == '_' || c == '-'
  }

  /** `replaceAll("[^a-zA-Z0-9._\\-]", "_")`. */
  function ReplaceDisallowed(s: string): string {
    seq(|s|, i requires 0 <= i < |s| => if IsAllowed(s[i]) then s[i] else '_')
  }

  /** `sanitizeFileName`: the last path segment of the name, with every
      character outside `[A-Za-z0-9._-]` replaced by `_`. */
  function SanitizeFileName(fileName: string): (r: string)
    ensures |r| == |Name(fileName)|
    ensures forall i :: 0 <= i < |r| ==> IsAllowed(r[i])
    ensures '/' !in r
    ensures forall i :: 0 <= i < |r| ==>
      r[i] == if IsAllowed(Name(fileName)[i]) then Name(fileName)[i] else '_'
  {
    ReplaceDisallowed(Name(fileName))
  }

  /** Sanitising a sanitised name changes nothing. */
  lemma {:induction false} SanitizeIdempotent(fileName: string)
    ensures SanitizeFileName(SanitizeFileName(fileName)) == SanitizeFileName(fileName)
  {
    NameOfSegment(SanitizeFileName(fileName));
  }

  /** A name made only of allowed characters and no separator is kept as is. */
  lemma SanitizeKeepsSafeName(fileName: string)
    requires forall i :: 0 <= i < |fileName| ==> IsAllowed(fileName[i])
    ensures SanitizeFileName(fileName) == fileName
  {
    assert '/' !in fileName by {
      assert !IsAllowed('/');
    }
    NameOfSegment(fileName);
  }

  /** Directory components are dropped: `../../etc/passwd` becomes `passwd`. */
  lemma SanitizeDropsDirectories()
    ensures SanitizeFileName("../../etc/passwd") == "passwd"
  {
    var p := "../../etc/passwd";
    assert p == Join("../../etc", "passwd");
    JoinChild("../../etc", "passwd");
    SanitizeKeepsSafeName("passwd");
    NameOfSegment("passwd");
  }

  /** Dots are allowed, so the name `..` comes through unchanged. */
  lemma SanitizeKeepsDotDot()
    ensures SanitizeFileName("..") == ".."
  {
    SanitizeKeepsSafeName("..");
  }

  // ---------------------------------------------------------------------------
  // Tokens and temp file names

  predicate IsLowerHex(c: char) {
    ('0' <= c <= '9') || ('a' <= c <= 'f')
  }

  /** The text `UUID.toString()` produces: 36 characters, `-` at positions 8, 13,
      18 and 23, lower-case hexadecimal digits elsewhere. */
  predicate IsUuidText(t: string) {
    |t| == 36 &&
    forall i :: 0 <= i < 36 ==> if i == 8 || i == 13 || i == 18 || i == 23 then t[i] == '-' else IsLowerHex(t[i])
  }

  /** The name of the temporary copy for a token. */
  function TempFileName(token: string, fileName: string): string {
    token + "_" + fileName
  }

  lemma UuidCharsAllowed(t: string)
    requires IsUuidText(t)
    ensures forall i :: 0 <= i < |t| ==> IsAllowed(t[i]) && !IsEscaped(t[i])
    ensures '/' !in t
  {
    assert forall i :: 0 <= i < |t| ==> IsAllowed(t[i]);
  }

  predicate AllAllowed(s: string) {
    forall i :: 0 <= i < |s| ==> IsAllowed(s[i])
  }

  /** Allowed characters never need escaping in JSON. */
  lemma AllowedNotEscaped(s: string)
    requires AllAllowed(s)
    ensures forall i :: 0 <= i < |s| ==> !IsEscaped(s[i])
  {
  }

  /** The temp file of a token is a direct child of the temp directory, it is
      named `token_fileName`, and that name is made of allowed characters. */
  lemma TempFileInTempDir(dir: Path, token: string, fileName: string)
    requires IsUuidText(token)
    ensures var name := TempFileName(token, SanitizeFileName(fileName));
      && ChildOf(Join(dir, name), dir)
      && '/' in Join(dir, name) && Parent(Join(dir, name)) == dir
      && Name(Join(dir, name)) == name
      && AllAllowed(name)
  {
    var s := SanitizeFileName(fileName);
    var name := TempFileName(token, s);
    UuidCharsAllowed(token);
    assert forall i :: 0 <= i < |name| ==> IsAllowed(name[i]) by {
      forall i | 0 <= i < |name|
        ensures IsAllowed(name[i])
      {
        if i < |token| {
          assert name[i] == token[i];
        } else if i > |token| {
          assert name[i] == s[i - |token| - 1];
        }
      }
    }
    assert '/' !in name by {
      assert !IsAllowed('/');
    }
    JoinChild(dir, name);
  }

  /** Different tokens give different temp files, whatever the file names: the
      token namespace is collision-free. */
  lemma TempFilesDistinct(dir: Path, t1: string, t2: string, n1: string, n2: string)
    requires IsUuidText(t1) && IsUuidText(t2) && t1 != t2
    ensures Join(dir, TempFileName(t1, n1)) != Join(dir, TempFileName(t2, n2))
  {
    assert TempFileName(t1, n1)[..36] == t1;
    assert TempFileName(t2, n2)[..36] == t2;
    assert TempFileName(t1, n1) != TempFileName(t2, n2);
    if Join(dir, TempFileName(t1, n1)) == Join(dir, TempFileName(t2, n2)) {
      JoinInjective(dir, TempFileName(t1, n1), TempFileName(t2, n2));
    }
  }

  // ---------------------------------------------------------------------------
  // Issuing a copy

  /** What `createTemporaryFile` returns. */
  datatype TemporaryAccessToken = TemporaryAccessToken(token: string, tempFile: Path)

  /** The result of `createTemporaryFile` and the filesystem it leaves. */
  datatype Issued = Issued(result: Result<TemporaryAccessToken>, entries: Entries)

  /** `createTemporaryFile`: ensure the temp directory exists, copy the source
      to `token_fileName` in it (replacing what is there), stamp its
      modification time. */
  function IssueOutcome(e: Entries, denied: set<Path>, tempDir: Path, source: Path, fileName: string, token: string, now: int): (o: Issued)
    requires IsFile(e, source)
  {
    var target := Join(tempDir, TempFileName(token, fileName));
    if tempDir !in e && tempDir in denied then
      Issued(Failure("Failed to create temp directory: " + tempDir), e)
    else
      var e1 := WithDirectory(e, tempDir);
      if CanCopyTo(e1, denied, target) then
        Issued(Success(TemporaryAccessToken(token, target)), e1[target := File(e[source].bytes, now)])
      else
        Issued(Failure(target), e1)
  }

  /** What issuing a copy does to the filesystem: on success the token names
      the target, which holds the source's bytes stamped with the current
      time; at most the temp directory and the target are new; every other
      entry is as it was; a temp directory that cannot be created leaves
      everything unchanged. */
  lemma IssueOutcomeFacts(e: Entries, denied: set<Path>, tempDir: Path, source: Path, fileName: string, token: string, now: int)
    requires IsFile(e, source)
    ensures var o := IssueOutcome(e, denied, tempDir, source, fileName, token, now);
      var target := Join(tempDir, TempFileName(token, fileName));
      && (o.result.Success? ==>
            && o.result.value == TemporaryAccessToken(token, target)
            && o.entries.Keys == e.Keys + {tempDir, target}
            && o.entries[target] == File(e[source].bytes, now))
      && (o.result.Failure? ==> o.entries.Keys <= e.Keys + {tempDir} && target !in o.entries - e.Keys)
      && (forall p :: p in e && p != target ==> p in o.entries && o.entries[p] == e[p])
      && (forall p :: p in o.entries && p !in e && p != target ==> p == tempDir && o.entries[p] == Directory)
      && (tempDir !in e && tempDir in denied ==> o.result.Failure? && o.entries == e)
      && (o.result.Success? <==> !(tempDir !in e && tempDir in denied) && CanCopyTo(WithDirectory(e, tempDir), denied, target))
  {
  }

  /** A copy issued at `now` survives every sweep run within the expiration
      window: its age cannot exceed the window before then. */
  lemma FreshCopySurvivesSweep(e: Entries, denied: set<Path>, tempDir: Path, source: Path, fileName: string,
                               token: string, now: int, later: int, expirationMs: int)
    requires IsFile(e, source)
    requires IssueOutcome(e, denied, tempDir, source, fileName, token, now).result.Success?
    requires later - now <= expirationMs
    ensures var o := IssueOutcome(e, denied, tempDir, source, fileName, token, now);
      var target := o.result.value.tempFile;
      target in o.entries - ExpiredDeletions(o.entries, denied, tempDir, later, expirationMs)
  {
  }

  // ---------------------------------------------------------------------------
  // The sweep

  /** The temp files `cleanupExpiredTempFiles` deletes: when the temp directory
      exists and is a directory, every regular file directly in it older than
      the window whose deletion the filesystem permits. */
  function ExpiredDeletions(e: Entries, denied: set<Path>, dir: Path, now: int, expirationMs: int): (d: set<Path>)
    ensures d <= e.Keys
    ensures forall p :: p in d <==>
      IsDirectory(e, dir) && p in e && ChildOf(p, dir) && e[p].File? && now - e[p].mtime > expirationMs && p !in denied
  {
    if IsDirectory(e, dir) then
      set p | p in e && ChildOf(p, dir) && e[p].File? && now - e[p].mtime > expirationMs && p !in denied
    else {}
  }

  /** What the sweep keeps: files no older than the window, entries that are
      not regular files, anything outside the temp directory, and files it is
      not permitted to delete. */
  lemma SweepKeeps(e: Entries, denied: set<Path>, dir: Path, now: int, expirationMs: int, p: Path)
    requires p in e
    requires || !ChildOf(p, dir) || e[p].Directory? || now - e[p].mtime <= expirationMs || p in denied
             || !IsDirectory(e, dir)
    ensures p in e - ExpiredDeletions(e, denied, dir, now, expirationMs)
  {
  }

  /** A second sweep at the same time deletes nothing more. */
  lemma SweepIdempotent(e: Entries, denied: set<Path>, dir: Path, now: int, expirationMs: int)
    ensures var d := ExpiredDeletions(e, denied, dir, now, expirationMs);
      ExpiredDeletions(e - d, denied, dir, now, expirationMs) == {}
  {
    var d := ExpiredDeletions(e, denied, dir, now, expirationMs);
    if IsDirectory(e, dir) {
      assert dir !in d by {
        assert !ChildOf(dir, dir);
      }
    }
    var d2 := ExpiredDeletions(e - d, denied, dir, now, expirationMs);
    assert forall p :: p in d2 ==> p in d && p !in (e - d);
  }

  /** Every file the sweep deletes is among those the directory lists. */
  lemma DoomedAreListed(e: Entries, denied: set<Path>, dir: Path, now: int, expirationMs: int, files: set<Path>)
    requires files == set p | p in e && ChildOf(p, dir)
    ensures ExpiredDeletions(e, denied, dir, now, expirationMs) <= files
  {
  }

  /** One step of the sweep loop: handling `file` extends the deleted set by
      it exactly when it is doomed. */
  lemma SweepStep(doomed: set<Path>, files: set<Path>, remaining: set<Path>, deleted: set<Path>, file: Path, removed: bool)
    requires file in remaining && remaining <= files
    requires deleted == doomed * (files - remaining)
    requires removed <==> file in doomed
    ensures file !in deleted
    ensures (if removed then deleted + {file} else deleted) == doomed * (files - (remaining - {file}))
  {
  }

  /** Once nothing remains, the deleted set is the doomed set. */
  lemma SweepDone(doomed: set<Path>, files: set<Path>, remaining: set<Path>, deleted: set<Path>)
    requires remaining == {} && doomed <= files
    requires deleted == doomed * (files - remaining)
    ensures deleted == doomed
  {
  }

  // ---------------------------------------------------------------------------
  // Responses

  /** `buildSuccessResponse`: `{"status":"OK","token":T,"file":F}`. */
  function SuccessBody(token: string, tempFileName: string): string {
    "{" + (MemberText("status", MSG_SUCCESS) + ("," + TokenAndFile(token, tempFileName)))
  }

  /** The members after the status: `"token":T,"file":F}`. */
  function TokenAndFile(token: string, tempFileName: string): string {
    MemberText("token", token) + ("," + (MemberText("file", tempFileName) + "}"))
  }

  /** `buildErrorResponse`: the status with `{"error":"<escaped message>"}`. */
  function ErrorResponse(status: int, message: string): (r: Response)
    ensures r.status == status
  {
    Response(status, ErrorBody(Some(message)))
  }

  /** A client reads exactly the message back from an error body. */
  lemma ErrorResponseReadsBack(status: int, message: string)
    ensures ParseObject(ErrorResponse(status, message).body) == Some([("error", message)])
  {
    ErrorBodyRoundTrip(message);
  }

  /** For a message without a double quote, the body is the one the replacement
      chain as written produces. */
  lemma ErrorResponseAsWritten(status: int, message: string)
    requires forall k :: 0 <= k < |message| ==> message[k] != '"'
    ensures ErrorResponse(status, message).body == "{" + MemberText("error", EscapeJsonAsWritten(Some(message))) + "}"
  {
    AsWrittenAgreesWithoutQuote(message);
  }

  /** A client reads back the token and the file name from a success body
      whenever neither needs escaping, as for a UUID and a sanitised name. */
  lemma SuccessBodyReadsBack(token: string, tempFileName: string)
    requires forall i :: 0 <= i < |token| ==> !IsEscaped(token[i])
    requires forall i :: 0 <= i < |tempFileName| ==> !IsEscaped(tempFileName[i])
    ensures ParseObject(SuccessBody(token, tempFileName)) ==
      Some([("status", "OK"), ("token", token), ("file", tempFileName)])
  {
    var m2 := TokenAndFile(token, tempFileName);
    TokenAndFileRead(token, tempFileName);
    PlainRoundTrip("OK", "," + m2);
    MemberRead("status", "OK", "OK", "," + m2);
    MembersThen(MemberText("status", "OK") + ("," + m2), ("status", "OK"), m2);
    assert SuccessBody(token, tempFileName)[1..] == MemberText("status", "OK") + ("," + m2);
    assert [("status", "OK")] + [("token", token), ("file", tempFileName)] ==
      [("status", "OK"), ("token", token), ("file", tempFileName)];
  }

  lemma TokenAndFileRead(token: string, tempFileName: string)
    requires forall i :: 0 <= i < |token| ==> !IsEscaped(token[i])
    requires forall i :: 0 <= i < |tempFileName| ==> !IsEscaped(tempFileName[i])
    ensures ParseMembers(TokenAndFile(token, tempFileName)) == Some([("token", token), ("file", tempFileName)])
  {
    var m3 := MemberText("file", tempFileName) + "}";
    PlainRoundTrip(tempFileName, "}");
    MemberRead("file", tempFileName, tempFileName, "}");
    MembersLast(m3, ("file", tempFileName));
    PlainRoundTrip(token, "," + m3);
    MemberRead("token", token, token, "," + m3);
    MembersThen(TokenAndFile(token, tempFileName), ("token", token), m3);
    assert [("token", token)] + [("file", tempFileName)] == [("token", token), ("file", tempFileName)];
  }

  // ---------------------------------------------------------------------------
  // The request as a whole

  /** The source document of a request: `{base}/{documentId}_{sanitized}`. */
  function SourceFile(paths: map<string, string>, documentType: string, documentId: string, sanitized: string): Path
    requires documentType in paths
  {
    Join(paths[documentType], documentId + "_" + sanitized)
  }

  /** For a document id without separator, the source file lies directly in
      the type's base directory and is named `{documentId}_{sanitized}`. */
  lemma SourceFileInBase(paths: map<string, string>, documentType: string, documentId: string, fileName: string)
    requires documentType in paths && '/' !in documentId
    ensures var source := SourceFile(paths, documentType, documentId, SanitizeFileName(fileName));
      && ChildOf(source, paths[documentType])
      && Name(source) == documentId + "_" + SanitizeFileName(fileName)
  {
    JoinSeparated(paths[documentType], documentId, SanitizeFileName(fileName));
  }

  /** The response, the filesystem left behind, and whether a sweep was
      scheduled. */
  datatype AccessOutcome = AccessOutcome(response: Response, entries: Entries, scheduled: bool)

  /** One `createTemporaryAccess` call. The checks run in order (headers,
      session, document type, source file), then the copy; a request refused
      before the copy changes nothing, and a sweep is scheduled exactly when
      access is granted. */
  function TemporaryAccess(s: Settings, paths: map<string, string>, answer: Request -> Exchange, h: Headers,
                           e: Entries, denied: set<Path>, token: string, now: int): (o: AccessOutcome)
    ensures o.response.status in {OK, BAD_REQUEST, UNAUTHORIZED, NOT_FOUND, INTERNAL_SERVER_ERROR}
    ensures o.scheduled <==> o.response.status == OK
    ensures o.response.status != OK && o.response.status != INTERNAL_SERVER_ERROR ==> o.entries == e
    ensures !ValidateHeaders(h) ==> o.response == ErrorResponse(BAD_REQUEST, MSG_MISSING_HEADERS)
  {
    if !ValidateHeaders(h) then
      AccessOutcome(ErrorResponse(BAD_REQUEST, MSG_MISSING_HEADERS), e, false)
    else if !SessionAccepted(s.validateUrl, answer, h.applicationId.value, h.sessionId.value) then
      AccessOutcome(ErrorResponse(UNAUTHORIZED, MSG_INVALID_SESSION), e, false)
    else
      DocumentOutcome(s, paths, h.documentId.value, h.fileName.value, h.documentType.value, e, denied, token, now)
  }

  /** The part of `createTemporaryAccess` after the session check: resolve the
      document type, find the source file, issue the copy. */
  function DocumentOutcome(s: Settings, paths: map<string, string>, documentId: string, fileName: string,
                           documentType: string, e: Entries, denied: set<Path>, token: string, now: int): (o: AccessOutcome)
    ensures o.response.status in {OK, BAD_REQUEST, NOT_FOUND, INTERNAL_SERVER_ERROR}
    ensures o.scheduled <==> o.response.status == OK
    ensures o.response.status == BAD_REQUEST || o.response.status == NOT_FOUND ==> o.entries == e
    ensures documentType !in paths ==> o.response == ErrorResponse(BAD_REQUEST, MSG_INVALID_DOC_TYPE)
    ensures documentType in paths && !IsFile(e, SourceFile(paths, documentType, documentId, SanitizeFileName(fileName))) ==>
      o.response == ErrorResponse(NOT_FOUND, MSG_FILE_NOT_FOUND)
  {
    if documentType !in paths then
      AccessOutcome(ErrorResponse(BAD_REQUEST, MSG_INVALID_DOC_TYPE), e, false)
    else
      var sanitized := SanitizeFileName(fileName);
      var source := SourceFile(paths, documentType, documentId, sanitized);
      if !IsFile(e, source) then
        AccessOutcome(ErrorResponse(NOT_FOUND, MSG_FILE_NOT_FOUND), e, false)
      else
        var issued := IssueOutcome(e, denied, s.tempBaseDir, source, sanitized, token, now);
        match issued.result
        case Failure(message) => AccessOutcome(ErrorResponse(INTERNAL_SERVER_ERROR, message), issued.entries, false)
        case Success(info) => AccessOutcome(Response(OK, SuccessBody(info.token, Name(info.tempFile))), issued.entries, true)
  }

  /** The session gate: a request is answered 401 exactly when its headers
      pass and the validation service does not accept its session. */
  lemma UnauthorizedIff(s: Settings, paths: map<string, string>, answer: Request -> Exchange, h: Headers,
                        e: Entries, denied: set<Path>, token: string, now: int)
    ensures TemporaryAccess(s, paths, answer, h, e, denied, token, now).response.status == UNAUTHORIZED <==>
      ValidateHeaders(h) && !SessionAccepted(s.validateUrl, answer, h.applicationId.value, h.sessionId.value)
    ensures var o := TemporaryAccess(s, paths, answer, h, e, denied, token, now);
      o.response.status == UNAUTHORIZED ==> o.response == ErrorResponse(UNAUTHORIZED, MSG_INVALID_SESSION) && o.entries == e
  {
  }

  /** Past the session check, a copy is issued exactly when the document type
      is configured, the source file exists and the copy succeeds; the temp
      file then holds the source's bytes stamped with the current time, and
      the body reports its name. */
  lemma DocumentGrantedIff(s: Settings, paths: map<string, string>, documentId: string, fileName: string,
                           documentType: string, e: Entries, denied: set<Path>, token: string, now: int)
    ensures var o := DocumentOutcome(s, paths, documentId, fileName, documentType, e, denied, token, now);
      o.response.status == OK <==>
      && documentType in paths
      && var source := SourceFile(paths, documentType, documentId, SanitizeFileName(fileName));
         && IsFile(e, source)
         && IssueOutcome(e, denied, s.tempBaseDir, source, SanitizeFileName(fileName), token, now).result.Success?
    ensures var o := DocumentOutcome(s, paths, documentId, fileName, documentType, e, denied, token, now);
      o.response.status == OK ==>
      var sanitized := SanitizeFileName(fileName);
      var source := SourceFile(paths, documentType, documentId, sanitized);
      var target := Join(s.tempBaseDir, TempFileName(token, sanitized));
      && IsFile(e, source)
      && target in o.entries && o.entries[target] == File(e[source].bytes, now)
      && o.response.body == SuccessBody(token, Name(target))
  {
    if documentType in paths {
      var sanitized := SanitizeFileName(fileName);
      var source := SourceFile(paths, documentType, documentId, sanitized);
      if IsFile(e, source) {
        IssueOutcomeFacts(e, denied, s.tempBaseDir, source, sanitized, token, now);
      }
    }
  }

  /** A copy that cannot be made is answered 500 with the failure's message,
      leaving the filesystem as the failed copy left it. */
  lemma CopyFailureReported(s: Settings, paths: map<string, string>, documentId: string, fileName: string,
                            documentType: string, e: Entries, denied: set<Path>, token: string, now: int)
    requires documentType in paths
    requires IsFile(e, SourceFile(paths, documentType, documentId, SanitizeFileName(fileName)))
    ensures var source := SourceFile(paths, documentType, documentId, SanitizeFileName(fileName));
      var issued := IssueOutcome(e, denied, s.tempBaseDir, source, SanitizeFileName(fileName), token, now);
      var o := DocumentOutcome(s, paths, documentId, fileName, documentType, e, denied, token, now);
      issued.result.Failure? ==>
        o.response == ErrorResponse(INTERNAL_SERVER_ERROR, issued.result.message) && o.entries == issued.entries
  {
  }

  /** Access is granted exactly when the headers pass, the session is
      accepted, and a copy is issued; then the temp file holds the source's
      bytes stamped with the current time, and the body reports its name. */
  lemma AccessGrantedIff(s: Settings, paths: map<string, string>, answer: Request -> Exchange, h: Headers,
                         e: Entries, denied: set<Path>, token: string, now: int)
    ensures var o := TemporaryAccess(s, paths, answer, h, e, denied, token, now);
      o.response.status == OK <==>
      && ValidateHeaders(h)
      && SessionAccepted(s.validateUrl, answer, h.applicationId.value, h.sessionId.value)
      && var d := DocumentOutcome(s, paths, h.documentId.value, h.fileName.value, h.documentType.value, e, denied, token, now);
         d.response.status == OK && o == d
  {
  }

  // ---------------------------------------------------------------------------
  // The endpoint

  /** The endpoint with the configuration it loaded at class initialisation
      and the queue of the single-threaded cleanup executor. */
  class Endpoint {
    const settings: Settings
    const documentPaths: map<string, string>
    var scheduledCleanups: nat

    constructor (config: map<string, string>)
      ensures settings == LoadConfiguration(config) && documentPaths == config
      ensures scheduledCleanups == 0
    {
      settings := LoadConfiguration(config);
      documentPaths := config;
      scheduledCleanups := 0;
    }

    /** `scheduleCleanup`: one sweep submitted to the executor. */
    method ScheduleCleanup()
      modifies this`scheduledCleanups
      ensures scheduledCleanups == old(scheduledCleanups) + 1
    {
      scheduledCleanups := scheduledCleanups + 1;
    }

    method IsApexSessionValid(applicationId: string, sessionId: string, svc: ValidationService) returns (valid: bool)
      modifies svc
      ensures valid == SessionAccepted(settings.validateUrl, svc.answer, applicationId, sessionId)
      ensures svc.log == old(svc.log) + SessionCalls(settings.validateUrl, applicationId, sessionId)
    {
      valid := ValidateSession(settings.validateUrl, applicationId, sessionId, svc);
    }

    /** `createTemporaryFile`, with the token `UUID.randomUUID()` would give and
        the current time as parameters. */
    method CreateTemporaryFile(fs: Disk, source: Path, fileName: string, token: string, now: int)
        returns (r: Result<TemporaryAccessToken>)
      requires IsFile(fs.entries, source)
      modifies fs
      ensures var o := IssueOutcome(old(fs.entries), fs.denied, settings.tempBaseDir, source, fileName, token, now);
        r == o.result && fs.entries == o.entries
    {
      ghost var e0 := fs.entries;
      var tempDir := settings.tempBaseDir;
      if tempDir !in fs.entries {
        var made := fs.Mkdirs(tempDir);
        if !made {
          return Failure("Failed to create temp directory: " + tempDir);
        }
      }
      assert fs.entries == WithDirectory(e0, tempDir);
      var tempFile := Join(tempDir, TempFileName(token, fileName));
      var copied := fs.Copy(source, tempFile, now);
      if !copied {
        return Failure(tempFile);
      }
      var _ := fs.SetLastModified(tempFile, now);
      return Success(TemporaryAccessToken(token, tempFile));
    }

    /** The body of the sweep loop for one listed entry: a regular file older
        than the window is deleted, if the filesystem permits. */
    method SweepFile(fs: Disk, file: Path, now: int) returns (removed: bool)
      modifies fs
      ensures removed == (file in old(fs.entries) && old(fs.entries)[file].File? &&
                          now - old(fs.entries)[file].mtime > settings.expirationMs && file !in fs.denied)
      ensures fs.entries == if removed then old(fs.entries) - {file} else old(fs.entries)
    {
      removed := false;
      if file in fs.entries && fs.entries[file].File? {
        var fileAge := now - fs.entries[file].mtime;
        if fileAge > settings.expirationMs {
          removed := fs.Delete(file);
        }
      }
    }

    /** `cleanupExpiredTempFiles`: delete every expired regular file listed in
        the temp directory, counting the deletions that succeed; a failed
        deletion does not stop the loop. */
    method CleanupExpiredTempFiles(fs: Disk, now: int) returns (deletedCount: nat)
      modifies fs
      ensures var d := ExpiredDeletions(old(fs.entries), fs.denied, settings.tempBaseDir, now, settings.expirationMs);
        fs.entries == old(fs.entries) - d && deletedCount == |d|
    {
      var dir := settings.tempBaseDir;
      if dir !in fs.entries || !fs.entries[dir].Directory? {
        assert ExpiredDeletions(fs.entries, fs.denied, dir, now, settings.expirationMs) == {};
        return 0;
      }
      ghost var e0 := fs.entries;
      ghost var doomed := ExpiredDeletions(e0, fs.denied, dir, now, settings.expirationMs);
      var files := set p | p in fs.entries && ChildOf(p, dir);
      var remaining := files;
      deletedCount := 0;
      ghost var deleted: set<Path> := {};
      while remaining != {}
        invariant remaining <= files
        invariant deleted == doomed * (files - remaining)
        invariant fs.entries == e0 - deleted
        invariant deletedCount == |deleted|
        decreases remaining
      {
        var file :| file in remaining;
        assert file in e0 && file !in deleted;
        var removed := SweepFile(fs, file, now);
        assert removed <==> file in doomed;
        SweepStep(doomed, files, remaining, deleted, file, removed);
        if removed {
          deletedCount := deletedCount + 1;
          deleted := deleted + {file};
        }
        remaining := remaining - {file};
      }
      DoomedAreListed(e0, fs.denied, dir, now, settings.expirationMs, files);
      SweepDone(doomed, files, remaining, deleted);
    }

    /** `createTemporaryAccess`, with the fresh token and the current time as
        parameters: the response, the filesystem and the cleanup queue are
        those `TemporaryAccess` describes. */
    method CreateTemporaryAccess(h: Headers, fs: Disk, svc: ValidationService, token: string, now: int)
        returns (resp: Response)
      modifies this`scheduledCleanups, fs, svc
      ensures var o := TemporaryAccess(settings, documentPaths, svc.answer, h, old(fs.entries), fs.denied, token, now);
        && resp == o.response && fs.entries == o.entries
        && scheduledCleanups == old(scheduledCleanups) + (if o.scheduled then 1 else 0)
      ensures svc.log == old(svc.log) + (if ValidateHeaders(h) then SessionCalls(settings.validateUrl, h.applicationId.value, h.sessionId.value) else [])
    {
      if !ValidateHeaders(h) {
        return ErrorResponse(BAD_REQUEST, MSG_MISSING_HEADERS);
      }
      var documentId, fileName, documentType := h.documentId.value, h.fileName.value, h.documentType.value;
      var applicationId, sessionId := h.applicationId.value, h.sessionId.value;

      ghost var e0 := fs.entries;
      var valid := IsApexSessionValid(applicationId, sessionId, svc);
      if !valid {
        return ErrorResponse(UNAUTHORIZED, MSG_INVALID_SESSION);
      }

      assert TemporaryAccess(settings, documentPaths, svc.answer, h, e0, fs.denied, token, now) ==
        DocumentOutcome(settings, documentPaths, documentId, fileName, documentType, e0, fs.denied, token, now);
      resp := ServeDocument(documentId, fileName, documentType, fs, token, now);
    }

    /** `createTemporaryAccess` after the session check. */
    method ServeDocument(documentId: string, fileName: string, documentType: string, fs: Disk, token: string, now: int)
        returns (resp: Response)
      modifies this`scheduledCleanups, fs
      ensures var o := DocumentOutcome(settings, documentPaths, documentId, fileName, documentType, old(fs.entries), fs.denied, token, now);
        && resp == o.response && fs.entries == o.entries
        && scheduledCleanups == old(scheduledCleanups) + (if o.scheduled then 1 else 0)
    {
      var sanitizedFileName := SanitizeFileName(fileName);

      if documentType !in documentPaths {
        return ErrorResponse(BAD_REQUEST, MSG_INVALID_DOC_TYPE);
      }

      var sourceFile := SourceFile(documentPaths, documentType, documentId, sanitizedFileName);
      if sourceFile !in fs.entries || !fs.entries[sourceFile].File? {
        return ErrorResponse(NOT_FOUND, MSG_FILE_NOT_FOUND);
      }

      resp := IssueAccess(fs, sourceFile, sanitizedFileName, token, now);
    }

    /** The end of `createTemporaryAccess` once the source file is found: make
        the copy, then either report the failure or schedule a sweep and
        report the token. */
    method IssueAccess(fs: Disk, source: Path, sanitized: string, token: string, now: int) returns (resp: Response)
      requires IsFile(fs.entries, source)
      modifies this`scheduledCleanups, fs
      ensures var i := IssueOutcome(old(fs.entries), fs.denied, settings.tempBaseDir, source, sanitized, token, now);
        && fs.entries == i.entries
        && (i.result.Success? ==>
              resp == Response(OK, SuccessBody(token, Name(i.result.value.tempFile))) &&
              scheduledCleanups == old(scheduledCleanups) + 1)
        && (i.result.Failure? ==>
              resp == ErrorResponse(INTERNAL_SERVER_ERROR, i.result.message) &&
              scheduledCleanups == old(scheduledCleanups))
    {
      var tokenInfo := CreateTemporaryFile(fs, source, sanitized, token, now);
      if tokenInfo.Failure? {
        return ErrorResponse(INTERNAL_SERVER_ERROR, tokenInfo.message);
      }

      ScheduleCleanup();

      return Response(OK, SuccessBody(tokenInfo.value.token, Name(tokenInfo.value.tempFile)));
    }
  }

  /** The issuance contract for a well-formed token: a copy of the source named
      `token_sanitized` directly in the temp directory, its name reported in a
      body the client reads back, and the rest of the filesystem unchanged. */
  lemma IssuedCopyIsReported(e: Entries, denied: set<Path>, tempDir: Path, source: Path, fileName: string, token: string, now: int)
    requires IsFile(e, source) && IsUuidText(token)
    requires IssueOutcome(e, denied, tempDir, source, SanitizeFileName(fileName), token, now).result.Success?
    ensures var o := IssueOutcome(e, denied, tempDir, source, SanitizeFileName(fileName), token, now);
      var name := TempFileName(token, SanitizeFileName(fileName));
      && o.result.value.tempFile == Join(tempDir, name)
      && ChildOf(o.result.value.tempFile, tempDir)
      && o.entries[Join(tempDir, name)] == File(e[source].bytes, now)
      && ParseObject(SuccessBody(token, Name(o.result.value.tempFile))) ==
           Some([("status", "OK"), ("token", token), ("file", name)])
  {
    var name := TempFileName(token, SanitizeFileName(fileName));
    TempFileInTempDir(tempDir, token, fileName);
    UuidCharsAllowed(token);
    AllowedNotEscaped(name);
    SuccessBodyReadsBack(token, name);
  }
}
