# Secure document file server: the two REST endpoints

This project models the Java core of a secure document file server that
sits behind an Oracle APEX application. It has two JAX-RS endpoints:

- `POST /SaveDocumentV2` (`java_rest/SaveDocumentV2.java`) is the upload
  endpoint. It checks that the body stream and the five identifying
  headers are present. It asks an external ORDS service whether the APEX
  session is valid, then finds the storage directory configured for the
  document type. Finally it writes the stream to
  `{base}/{documentId}_{sanitised name}`.
- `POST /AccessToDocumentV2` (`java_rest/AccessToDocumentV2.java`) is the
  temporary-access endpoint. It runs the same header check (here the
  headers may not be blank either) and the same session check, then finds
  the stored source document. It copies the document to
  `{tempDir}/{token}_{sanitised name}`, replies with the token, and queues
  a sweep that deletes copies older than the configured expiration window.

The model has ten modules, one per file:

| module | role |
|---|---|
| `Wrappers` | `Option` for Java `null`, `Result` for a thrown exception, and `Properties.getProperty` |
| `Text` | `String.trim`, `String.contains`, and the concatenation a `StringBuilder` or an output stream builds up |
| `JavaLong` | `Long.parseLong` in radix 10 |
| `Json` | the JSON escaping of error messages: the code as written and the corrected version; also a reader for flat JSON objects, which is how a client sees a response body |
| `FileSystem` | paths, `File.getName`, and a `Disk` class whose `entries` map the methods update in place (`mkdirs`, `Files.copy`, `setLastModified`, `delete`, `FileOutputStream`, `write`) |
| `Http` | headers, input streams and responses |
| `Session` | the call to the validation service (`isApexSessionValid`, `readResponse`) against a `ValidationService` object that logs every request |
| `AccessToDocument` | the access endpoint: the `Endpoint` class with its loaded settings and its cleanup queue, plus pure outcome functions that specify its methods |
| `SaveDocument` | the upload endpoint: methods over the loaded properties, plus pure outcome functions that specify them |
| `Consistency` | how the two endpoints fit together: when a stored document can be found again |

Each endpoint method is imperative Dafny that changes the `Disk` (the filesystem), the
`ValidationService` log and the cleanup counter. It is proved equal to a
pure outcome function of the request and the filesystem before the call:
`TemporaryAccess` for the access endpoint, `UploadOutcome` for the upload
endpoint. Lemmas about those functions state what the endpoints promise:
- which status answers which request, in both directions;
- that a refused request leaves the disk unchanged;
- what the new or copied file holds;
- that a client can read the body back.

Values that come from outside the program are parameters: the UUID token,
the current time, the validation service's answer, what the streams
deliver, and which paths the process may not write.

Points where the code behaves differently from what a reader of the two
endpoints might expect, each stated by a lemma:
- Sanitisers:
  - The two endpoints sanitise file names differently. The access path keeps only the last path segment and replaces every character outside `[A-Za-z0-9._-]` with `_` (`AccessToDocument.SanitizeFileName`).
  - The upload path replaces only `/ : * ? " < > |` with `_` and keeps directory components as text (`SaveDocument.SanitizeFileName`). Backslashes, spaces and `..` pass through.
  - So the two endpoints disagree on many names (`Consistency.SanitizersAgreeIff`, `Consistency.SpaceNameNotFound`).
- Session request: both endpoints send only the application id and the session id to the validation service; the upload endpoint's document id is not part of the request (`Session.ValidateSession`).
- Blank headers: the access endpoint refuses headers that are blank after trimming, but the upload endpoint checks only for null (`Consistency.BlankHeadersOnlyUploaded`).
- The `..` name: the access sanitiser returns `..` for `..` (`AccessToDocument.SanitizeKeepsDotDot`). The sanitised name is then only one part of `{documentId}_..`, so the name alone cannot climb out of the directory. Neither endpoint sanitises the document id, so the id can (see "## Left out").
- Failed copies and writes: nothing deletes a partial target. A read failure during upload leaves the bytes written so far in the target (`SaveDocument.SaveOutcome`).
- Reported file name: the upload reply names the file by `File.getName()` of the target. That is `{documentId}_{name}` only when the document id holds no `/` (`SaveDocument.ReportedNameOfTarget`, `SaveDocument.SeparatorInDocumentId`).
- Failed configuration load: in the access endpoint, an expiration window that does not parse throws after the document paths were loaded. The window stays 0 and the validation URL stays null, so every session check fails while lookups of document types still succeed (`AccessToDocument.BadExpirationFailsClosed`).

## Model

| member | source | states |
|---|---|---|
| `Text.TrimStart` | java_rest/AccessToDocumentV2.java:283 | the result is a suffix of the text, everything dropped is at most U+0020, and a non-empty result does not start with such a character |
| `Text.TrimEnd` | java_rest/AccessToDocumentV2.java:283 | the result is a prefix of the text, everything dropped is at most U+0020, and a non-empty result does not end with such a character |
| `Text.Trim` | java_rest/AccessToDocumentV2.java:283 | `trim` never lengthens, a non-empty result neither starts nor ends with a character at most U+0020, and text without such characters is kept |
| `Text.TrimEmptyIff` | java_rest/AccessToDocumentV2.java:211-215 | `s.trim().isEmpty()` holds exactly when every character of `s` is at most U+0020 |
| `Text.TrimIdempotent` | java_rest/AccessToDocumentV2.java:283 | trimming an already trimmed body changes nothing |
| `Text.Contains` | java_rest/AccessToDocumentV2.java:255-256 | every text contains the empty pattern, and a contained pattern is no longer than the text |
| `Text.ContainsAt` | java_rest/AccessToDocumentV2.java:255-256 | an occurrence of the pattern at any position makes `contains` true |
| `Text.ContainsWitness` | java_rest/AccessToDocumentV2.java:255-256 | when `contains` is true, the pattern occurs at a position it returns |
| `Text.ContainedCharOccurs` | java_rest/AccessToDocumentV2.java:255-256 | every character of a contained pattern occurs in the text |
| `Text.Concat` | java_rest/AccessToDocumentV2.java:275-283 | no chunks accumulate to nothing, and a single chunk to exactly that chunk |
| `Text.ConcatAppend` | java_rest/SaveDocumentV2.java:282-285 | what the write loop accumulates over two runs of chunks is the first run's bytes followed by the second's |
| `Text.ConcatLengthStep` | java_rest/SaveDocumentV2.java:282-285 | one more chunk appends exactly that chunk and adds its length to the running total |
| `JavaLong.ParseLong` | java_rest/AccessToDocumentV2.java:92-94 | the text parses exactly when, after an optional `-` or `+`, it is a non-empty run of ASCII digits whose value is at most `Long.MAX_VALUE`, or at most `-Long.MIN_VALUE` after a minus; the magnitude is that value, and the result lies in the 64-bit signed range |
| `JavaLong.DecimalText` | java_rest/AccessToDocumentV2.java:92-94 | the rendering of a natural number is non-empty and all digits |
| `JavaLong.DigitsValueOfDecimal` | java_rest/AccessToDocumentV2.java:92-94 | reading the digits of a rendered number gives the number back |
| `JavaLong.ParseDecimal` | java_rest/AccessToDocumentV2.java:92-94 | every non-negative long, written in decimal, parses to itself |
| `JavaLong.ParseNegativeDecimal` | java_rest/AccessToDocumentV2.java:92-94 | every negative long down to `Long.MIN_VALUE`, written with a minus sign, parses to itself |
| `JavaLong.ParseTooLarge` | java_rest/AccessToDocumentV2.java:92-94 | a decimal text beyond `Long.MAX_VALUE` throws |
| `Json.Escaped` | java_rest/AccessToDocumentV2.java:398-409 | escaping never shortens a message |
| `Json.EscapeJsonString` | java_rest/AccessToDocumentV2.java:398-409 | the corrected escaping; a null message gives the empty string |
| `Json.EscapedPlain` | java_rest/AccessToDocumentV2.java:402-408 | a message with no character that needs escaping comes back unchanged |
| `Json.EscapeJsonAsWritten` | java_rest/AccessToDocumentV2.java:398-409 | the replacement chain as written; a null message gives the empty string |
| `Json.AsWrittenAgreesWithoutQuote` | java_rest/AccessToDocumentV2.java:402-408 | on messages without a double quote, the chain as written equals the corrected escaping |
| `Json.ReplaceCharRemoves` | java_rest/AccessToDocumentV2.java:402-408 | `replace` changes nothing when the character does not occur, and leaves none of it when the replacement does not hold it |
| `Json.QuoteReplaced` | java_rest/AccessToDocumentV2.java:402 | the first replacement turns `a"b` into `a\"b` |
| `Json.BackslashDoubled` | java_rest/AccessToDocumentV2.java:403-408 | the later replacements then double the backslash just inserted |
| `Json.AsWrittenBreaksQuote` | java_rest/AccessToDocumentV2.java:402-403 | as written, `a"b` becomes `a\\"b`, which a JSON reader takes as the string `a\` followed by stray text |
| `Json.CorrectedEscapesQuote` | java_rest/AccessToDocumentV2.java:402-403 | the corrected escaping writes `a"b` as `a\"b` |
| `Json.ParseString` | java_rest/AccessToDocumentV2.java:383-393 | reading a JSON string consumes at least its closing quote |
| `Json.ParseMember` | java_rest/AccessToDocumentV2.java:367-373 | reading one member consumes input |
| `Json.EscapedRoundTrip` | java_rest/AccessToDocumentV2.java:383-409 | an escaped message followed by a quote reads back as exactly the message, whatever follows |
| `Json.PlainRoundTrip` | java_rest/AccessToDocumentV2.java:367-373 | text that needs no escaping, placed unescaped between quotes, reads back unchanged |
| `Json.MemberRead` | java_rest/AccessToDocumentV2.java:367-373 | a member `"key":"value"` reads back as the pair `(key, value)`, leaving what follows |
| `Json.ErrorBodyRoundTrip` | java_rest/AccessToDocumentV2.java:383-393 | a client reads exactly `[("error", message)]` back from an error envelope, for every message |
| `FileSystem.Join` | java_rest/AccessToDocumentV2.java:165 | `new File(dir, name)` is the directory, one separator and the name |
| `FileSystem.StripTrailingSlashes` | java_rest/AccessToDocumentV2.java:223 | path normalisation removes only trailing separators, all of them |
| `FileSystem.AfterLastSlash` | java_rest/AccessToDocumentV2.java:223 | the last segment is a separator-free suffix, preceded by a separator unless it is the whole path |
| `FileSystem.Name` | java_rest/AccessToDocumentV2.java:223 | `File.getName()` never contains a separator |
| `FileSystem.NameOfSegment` | java_rest/AccessToDocumentV2.java:223 | a name without a separator is its own `getName()` |
| `FileSystem.NameShorter` | java_rest/AccessToDocumentV2.java:223 | a name with a separator is longer than its `getName()` |
| `FileSystem.JoinChild` | java_rest/AccessToDocumentV2.java:300 | `new File(dir, name)` with a separator-free name is listed by `dir.listFiles()`, has `dir` as parent, and has `name` as its `getName()` |
| `FileSystem.JoinInjective` | java_rest/AccessToDocumentV2.java:300 | two children of one directory are the same path only when their names are equal |
| `FileSystem.WithDirectory` | java_rest/SaveDocumentV2.java:268-271 | after `exists() \|\| mkdirs()` the directory path is present and every other entry is as it was |
| `FileSystem.Disk.constructor` | java_rest/AccessToDocumentV2.java:291 | the filesystem starts with the given entries and permissions |
| `FileSystem.Disk.Mkdirs` | java_rest/AccessToDocumentV2.java:292 | `mkdirs` succeeds exactly for a missing, permitted path, and adds only that directory |
| `FileSystem.Disk.Copy` | java_rest/AccessToDocumentV2.java:305 | `Files.copy` with `REPLACE_EXISTING` succeeds exactly when the target is permitted, its parent is a directory and it is no non-empty directory; then the target holds the source's bytes and nothing else changes |
| `FileSystem.Disk.SetLastModified` | java_rest/AccessToDocumentV2.java:308 | only the modification time of an existing file changes |
| `FileSystem.Disk.Delete` | java_rest/AccessToDocumentV2.java:350 | `delete` removes exactly the path, only when it exists, is permitted, and is a file or an empty directory |
| `FileSystem.Disk.OpenForWrite` | java_rest/SaveDocumentV2.java:277 | `new FileOutputStream` creates or truncates the target when its parent is a directory, it is no directory, and it is permitted |
| `FileSystem.Disk.Append` | java_rest/SaveDocumentV2.java:283 | `write` appends the chunk to the file and changes nothing else |
| `Session.ValidationService.constructor` | java_rest/AccessToDocumentV2.java:237-238 | the service answers with the given behaviour and has received no request |
| `Session.ValidationService.Get` | java_rest/AccessToDocumentV2.java:237-249 | one GET is sent and logged, and its answer is the service's answer to that request |
| `Session.BodyOf` | java_rest/AccessToDocumentV2.java:267-284 | reading throws exactly for a stream that fails, and a body read is already trimmed |
| `Session.ReadResponse` | java_rest/AccessToDocumentV2.java:267-284 | the body is the trimmed concatenation of every chunk of the stream the status selects: the success stream for 2xx, the error stream otherwise; a null stream gives `""` and a failing read throws |
| `Session.SessionCalls` | java_rest/AccessToDocumentV2.java:230-238 | a session check sends at most one request, and none without a URL |
| `Session.ValidateSession` | java_rest/AccessToDocumentV2.java:230-262 | the result is the validity decision on the service's answer, and the log grows by exactly the one request, or by none when no URL is configured |
| `Session.FailsClosed` | java_rest/AccessToDocumentV2.java:231-234 | no URL, a transport failure, or a failing read means the session is invalid |
| `Session.AcceptedIffFlag` | java_rest/AccessToDocumentV2.java:254-256 | otherwise the session is valid exactly when the trimmed body contains `"is_valid":"1"` or `"is_valid":1` |
| `Session.NoDigitOneRejected` | java_rest/AccessToDocumentV2.java:255-256 | a body without the digit 1 never validates, so `"is_valid":true` is refused |
| `Session.AcceptsTwelve` | java_rest/AccessToDocumentV2.java:255-256 | because the test is a substring test, `"is_valid":12` validates |
| `Session.ErrorStatusWithFlagAccepted` | java_rest/AccessToDocumentV2.java:267-269 | a non-2xx status does not reject by itself: an error body carrying the flag validates the session |
| `AccessToDocument.LoadConfiguration` | java_rest/AccessToDocumentV2.java:81-106 | the temp directory defaults to `/tmp/document-access` and the window to `3600000`; when the window does not parse, it stays 0 and the URL stays null |
| `AccessToDocument.DefaultSettings` | java_rest/AccessToDocumentV2.java:91-95 | with none of the three keys set, the settings are `/tmp/document-access`, one hour, and no URL |
| `AccessToDocument.BadExpirationFailsClosed` | java_rest/AccessToDocumentV2.java:92-95 | a window that does not parse makes every session check fail |
| `AccessToDocument.PresentIff` | java_rest/AccessToDocumentV2.java:211 | a header counts exactly when it is given and holds a character above U+0020 |
| `AccessToDocument.ValidateHeadersIff` | java_rest/AccessToDocumentV2.java:209-216 | the header check passes exactly when all five headers are given and each holds a character above U+0020 |
| `AccessToDocument.SanitizeFileName` | java_rest/AccessToDocumentV2.java:221-225 | the result is the last path segment with every disallowed character replaced: no separator, only allowed characters, and the same length as that segment |
| `AccessToDocument.SanitizeIdempotent` | java_rest/AccessToDocumentV2.java:221-225 | sanitising a sanitised name changes nothing |
| `AccessToDocument.SanitizeKeepsSafeName` | java_rest/AccessToDocumentV2.java:221-225 | a name of allowed characters only is kept unchanged |
| `AccessToDocument.SanitizeDropsDirectories` | java_rest/AccessToDocumentV2.java:223 | `../../etc/passwd` becomes `passwd` |
| `AccessToDocument.SanitizeKeepsDotDot` | java_rest/AccessToDocumentV2.java:224 | the name `..` comes through unchanged |
| `AccessToDocument.UuidCharsAllowed` | java_rest/AccessToDocumentV2.java:297 | a UUID's text is made of allowed characters that need no JSON escaping |
| `AccessToDocument.AllowedNotEscaped` | java_rest/AccessToDocumentV2.java:367-373 | allowed characters never need JSON escaping |
| `AccessToDocument.SourceFileInBase` | java_rest/AccessToDocumentV2.java:165 | for a document id without a separator, the source looked up is a direct child of the type's base directory named `{documentId}_{sanitised}` |
| `AccessToDocument.TempFileInTempDir` | java_rest/AccessToDocumentV2.java:297-300 | the copy for a UUID token is a direct child of the temp directory named `token_sanitised`, made of allowed characters only |
| `AccessToDocument.TempFilesDistinct` | java_rest/AccessToDocumentV2.java:297-300 | different tokens give different temp files, whatever the file names |
| `AccessToDocument.IssueOutcomeFacts` | java_rest/AccessToDocumentV2.java:289-311 | a successful copy is named `{tempDir}/{token}_{name}` and holds the source's bytes stamped with the current time; at most the temp directory and the copy are new; every other entry is as it was; a temp directory that cannot be made leaves the filesystem unchanged; success holds exactly when the directory exists or can be made and the copy can be written |
| `AccessToDocument.FreshCopySurvivesSweep` | java_rest/AccessToDocumentV2.java:305-308 | a copy survives every sweep run within the expiration window after it was made |
| `AccessToDocument.ExpiredDeletions` | java_rest/AccessToDocumentV2.java:329-357 | the sweep deletes exactly the regular files directly in an existing temp directory that are older than the window and may be deleted |
| `AccessToDocument.SweepKeeps` | java_rest/AccessToDocumentV2.java:343-356 | the sweep keeps fresh files, directories, entries outside the temp directory, and files it may not delete |
| `AccessToDocument.SweepIdempotent` | java_rest/AccessToDocumentV2.java:329-357 | a second sweep at the same time deletes nothing more |
| `AccessToDocument.DoomedAreListed` | java_rest/AccessToDocumentV2.java:335-343 | every file the sweep deletes is among those `listFiles()` returns |
| `AccessToDocument.ErrorResponse` | java_rest/AccessToDocumentV2.java:383-393 | the response carries the given status; the body is built with the corrected escaping (see "## Left out") |
| `AccessToDocument.ErrorResponseReadsBack` | java_rest/AccessToDocumentV2.java:383-393 | a client reads exactly `[("error", message)]` back from the error body, for every message |
| `AccessToDocument.ErrorResponseAsWritten` | java_rest/AccessToDocumentV2.java:398-409 | for a message without a double quote, the body is exactly the one the replacement chain as written produces |
| `AccessToDocument.SuccessBodyReadsBack` | java_rest/AccessToDocumentV2.java:367-378 | a client reads `status` `OK`, the token and the file name back from the success body when neither needs escaping |
| `AccessToDocument.TokenAndFileRead` | java_rest/AccessToDocumentV2.java:369-372 | the token and file members read back in order |
| `AccessToDocument.TemporaryAccess` | java_rest/AccessToDocumentV2.java:129-188 | the status is one of 200, 400, 401, 404 and 500; a sweep is scheduled exactly for 200; every refusal other than 500 leaves the filesystem unchanged; failing headers give the 400 "Missing required headers" response |
| `AccessToDocument.DocumentOutcome` | java_rest/AccessToDocumentV2.java:157-187 | after the session check the status is one of 200, 400, 404 and 500; a sweep is scheduled exactly for 200; 400 and 404 leave the filesystem unchanged; an unconfigured type gives the 400 "Invalid document type" response; a source that is not a regular file gives the 404 "File not found" response |
| `AccessToDocument.UnauthorizedIff` | java_rest/AccessToDocumentV2.java:141-153 | the answer is 401 exactly when the headers pass and the session is not accepted; it is then the "Invalid session" response and the filesystem is unchanged |
| `AccessToDocument.DocumentGrantedIff` | java_rest/AccessToDocumentV2.java:157-182 | after the session check, access is granted exactly when the type is configured, `{base}/{id}_{sanitised}` is a regular file, and the copy succeeds; the copy then holds the source's bytes and the body names it |
| `AccessToDocument.CopyFailureReported` | java_rest/AccessToDocumentV2.java:172-187 | when the source exists but the copy fails, the answer is 500 with the failure's message, and the filesystem is what the failed copy left |
| `AccessToDocument.AccessGrantedIff` | java_rest/AccessToDocumentV2.java:139-182 | access is granted exactly when the headers pass, the session is accepted, and the document stage grants it |
| `AccessToDocument.IssuedCopyIsReported` | java_rest/AccessToDocumentV2.java:172-182 | for a UUID token, a successful copy lies directly in the temp directory, holds the source's bytes, and the client reads back the token and the copy's name |
| `AccessToDocument.Endpoint.constructor` | java_rest/AccessToDocumentV2.java:73-106 | the endpoint holds the settings `loadConfiguration` derives from the properties, the properties as its document paths, and no queued sweep |
| `AccessToDocument.Endpoint.ScheduleCleanup` | java_rest/AccessToDocumentV2.java:316-324 | one sweep is queued |
| `AccessToDocument.Endpoint.IsApexSessionValid` | java_rest/AccessToDocumentV2.java:230-262 | the decision and the requests sent are those of the session check on the loaded URL |
| `AccessToDocument.Endpoint.CreateTemporaryFile` | java_rest/AccessToDocumentV2.java:289-311 | the result and the new filesystem are those `IssueOutcome` describes |
| `AccessToDocument.Endpoint.SweepFile` | java_rest/AccessToDocumentV2.java:344-356 | a listed entry is deleted exactly when it is a regular file older than the window and may be deleted |
| `AccessToDocument.Endpoint.CleanupExpiredTempFiles` | java_rest/AccessToDocumentV2.java:329-362 | the filesystem loses exactly the expired deletable files, and the count is their number |
| `AccessToDocument.Endpoint.CreateTemporaryAccess` | java_rest/AccessToDocumentV2.java:129-188 | the response and the filesystem are those of `TemporaryAccess`; a sweep is queued exactly when that grants access; the validation service receives one request only after the headers pass |
| `AccessToDocument.Endpoint.ServeDocument` | java_rest/AccessToDocumentV2.java:157-187 | the response, filesystem and queue after the session check are those of `DocumentOutcome` |
| `AccessToDocument.Endpoint.IssueAccess` | java_rest/AccessToDocumentV2.java:172-187 | a successful copy queues a sweep and answers 200 with the token and the copy's name; a failure answers 500 with its message and queues nothing |
| `SaveDocument.ValidateHeaders` | java_rest/SaveDocumentV2.java:169-180 | the request goes on exactly when the stream and all five headers are non-null; otherwise the answer is 400 |
| `SaveDocument.SanitizeFileName` | java_rest/SaveDocumentV2.java:265 | every `/ : * ? " < > \|` becomes `_` and every other character, backslash included, stays in place |
| `SaveDocument.SanitizeIdempotent` | java_rest/SaveDocumentV2.java:265 | sanitising twice is sanitising once |
| `SaveDocument.SanitizeKeepsOthers` | java_rest/SaveDocumentV2.java:265 | a name without denied characters is kept unchanged |
| `SaveDocument.SanitizeExamples` | java_rest/SaveDocumentV2.java:265 | `..` and `a\b` are kept, and `../x` becomes `.._x` |
| `SaveDocument.SaveOutcomeFacts` | java_rest/SaveDocumentV2.java:261-291 | a successful save writes exactly the stream's bytes to `{base}/{id}_{sanitised}`, replacing what was there; at most the base directory and the target are new; every other entry is as it was; a base directory that cannot be made leaves the filesystem unchanged; success holds exactly when the directory exists or can be made, the target can be opened, and the stream reads to its end |
| `SaveDocument.SaveFileToDisk` | java_rest/SaveDocumentV2.java:261-291 | the result and the new filesystem are those of `SaveOutcome`, and on success the byte count is the length of the whole stream |
| `SaveDocument.SuccessBodyReadsBack` | java_rest/SaveDocumentV2.java:296-306 | a client reads `status` `OK` and the file name back when the name needs no escaping |
| `SaveDocument.ErrorResponse` | java_rest/SaveDocumentV2.java:311-320 | the response carries the given status (see "## Left out" for the body) |
| `SaveDocument.ErrorResponseReadsBack` | java_rest/SaveDocumentV2.java:311-320 | a client reads exactly `[("error", message)]` back from the error body when the message needs no escaping |
| `SaveDocument.BackslashNameMisread` | java_rest/SaveDocumentV2.java:296-301 | the sanitiser keeps `a\b`, and the unescaped success body then makes a client read `D_a` followed by a backspace |
| `SaveDocument.ReportedNameOfTarget` | java_rest/SaveDocumentV2.java:137-142 | for a document id without a separator, the reported name is `{id}_{sanitised}` and the target lies directly in the base directory |
| `SaveDocument.SeparatorInDocumentId` | java_rest/SaveDocumentV2.java:274 | the id `x/y` puts the file `f` in a subdirectory, and the reply names only `y_f` |
| `SaveDocument.StoreOutcome` | java_rest/SaveDocumentV2.java:129-147 | after the session check the status is one of 200, 400 and 500; an unconfigured type, and only that, gives the 400 "Invalid document type" response with the filesystem unchanged; a failed save gives 500 with its message and keeps what the save left |
| `SaveDocument.UploadOutcome` | java_rest/SaveDocumentV2.java:102-148 | the status is one of 200, 400, 401 and 500; 400 and 401 leave the filesystem unchanged; a missing stream or header gives the 400 "Missing required headers" response; 401 holds exactly when the stream and headers are given and the session is not accepted, and is the "Invalid session" response |
| `SaveDocument.StoredIff` | java_rest/SaveDocumentV2.java:129-142 | after the session check, an upload succeeds exactly when the type is configured and the save succeeds; the target then holds the stream's bytes and the reply names it |
| `SaveDocument.UploadedIff` | java_rest/SaveDocumentV2.java:113-142 | an upload succeeds exactly when the stream and headers are given, the session is accepted, and storing succeeds |
| `SaveDocument.StorePlainName` | java_rest/SaveDocumentV2.java:261-306 | storing a name that needs neither sanitising nor escaping, into an existing directory, writes the stream's bytes to `{base}/{id}_{name}`; the client reads `{"status":"OK","file":"{id}_{name}"}` |
| `SaveDocument.IsApexSessionValid` | java_rest/SaveDocumentV2.java:185-219 | the decision and the requests sent are those of the session check on the URL looked up at that call |
| `SaveDocument.SaveDocument` | java_rest/SaveDocumentV2.java:102-148 | the response and the filesystem are those of `UploadOutcome`; the validation service receives one request only once the stream and headers are given |
| `SaveDocument.StoreDocument` | java_rest/SaveDocumentV2.java:129-147 | the response and the filesystem after the session check are those of `StoreOutcome` |
| `Consistency.SanitizersAgreeIff` | java_rest/SaveDocumentV2.java:265 | the two sanitisers agree exactly on names without a separator in which every character is either allowed by the access sanitiser or denied by the upload sanitiser |
| `Consistency.SafeNameFound` | java_rest/AccessToDocumentV2.java:165 | for a name of allowed characters, the file an upload writes is the file an access request with the same type, id and name looks up |
| `Consistency.UploadThenAccessFinds` | java_rest/SaveDocumentV2.java:274-285 | after a successful upload of such a name, the access endpoint finds a regular file holding the uploaded bytes |
| `Consistency.SpaceNameNotFound` | java_rest/AccessToDocumentV2.java:224 | `a b.txt` is stored as `D_a b.txt` but looked up as `D_a_b.txt`, a different path |
| `Consistency.BlankHeadersOnlyUploaded` | java_rest/SaveDocumentV2.java:172-173 | blank headers pass the upload check and fail the access check |

## Left out

- HTTP transport: JAX-RS dispatch, the CORS preflight handlers, the `Access-Control-Allow-Origin` header, the request properties and the connect and read timeouts. The validation service is a function from request to answer, and a timeout is one of its `Unreachable` answers.
- Logging (`logRequestHeaders` and every `LOGGER` call): it has no effect on results.
- The properties file: loading it is I/O, so both endpoints take the loaded properties as a map. A file that cannot be read at all, which leaves every access setting null or 0, is not modelled.
- `UUID.randomUUID()` and `System.currentTimeMillis()` are parameters. Token uniqueness is not assumed; `AccessToDocument.TempFilesDistinct` says what distinct tokens give.
- The single-threaded cleanup executor: a sweep runs later and concurrently with requests. The model counts the sweeps it queues (`scheduledCleanups`) and offers the sweep as its own synchronous method, `CleanupExpiredTempFiles`. It does not model interleaving or a sweep's exception.
- `listFiles()` returning null, and I/O errors other than the denied paths and a stream that fails after its last chunk.
- Buffer sizes (1024 and 8192 bytes): the model reads a stream in the chunks it delivers.
- Character decoding of the validation response: the model reads characters, not bytes in the platform charset.
- Path normalisation: directory paths are not normalised at all. A configured directory with a trailing or doubled `/` is a different path, and so a different map key, from the same directory written without it. Only `FileSystem.Name` (`File.getName()`) strips trailing separators. Relative paths are not resolved.
- `FileSystem.Join`, and with it `AccessToDocument.SourceFile` and `SaveDocument.SaveTarget`: a path is the literal text `dir + "/" + name`. Java's `File` resolves more than that. Separators, `.` and `..` segments in the unsanitised document id (`java_rest/AccessToDocumentV2.java:165`, `java_rest/SaveDocumentV2.java:274`) are neither normalised nor resolved, so the id `../secret/D` under `/data/docs` gives the key `/data/docs/../secret/D_f`, not the file `/data/secret/D_f` Java reaches. A leading `/` in the id is also kept, giving `base//x_f` where Java gives `base/x_f`. So the model cannot show a document id reaching outside the base directory: for such an id, the access endpoint answers 404 and an upload fails with 500, where Java would find or write the file outside the base.
- `mkdirs` creating missing parent directories is not modelled: a base or temp directory can be created only when it is not already present, and it is created alone.
- Exception messages:
  - A failed `Files.copy` or `new FileOutputStream` is reported with the target path as its message.
  - A read failure is reported as `read failed`.
  - A null message (`e.getMessage()` at `java_rest/SaveDocumentV2.java:146`, which would then throw inside `buildErrorResponse`) is not modelled.
- `SaveDocument.ErrorResponse`: line 314 of `java_rest/SaveDocumentV2.java` is not valid Java as written (its replacement literal is unterminated). The model writes the message unescaped. So its contract states only the status, and `SaveDocument.ErrorResponseReadsBack` promises a read-back only for messages that need no escaping.
- `AccessToDocument.ErrorResponse`: the body is built with the corrected escaping (`Json.EscapeJsonString`), not with the replacement chain at `java_rest/AccessToDocumentV2.java:402-408`, as the finding below explains. For a message holding a double quote the model's body therefore differs from the source's; `AccessToDocument.ErrorResponseAsWritten` shows that the two bodies are equal for every other message, and `Json.AsWrittenBreaksQuote` shows what the source writes for `a"b`.
- `AccessToDocument.Endpoint.CreateTemporaryFile`: `setLastModified` is taken to stamp the same time as the copy, and its result is ignored as the source ignores it.
- `JavaLong.ParseLong`: Unicode digits other than ASCII `0`-`9`, which `Long.parseLong` also accepts, are not modelled.
- The JSON reader in `Json` does not read `\u` escapes. It reads only flat objects of string values, which is all the endpoints write.
- The JSON reader is lenient: it accepts raw control characters below U+0020 inside a string, which strict JSON forbids. The read-back lemmas (`Json.ErrorBodyRoundTrip`, the `SuccessBodyReadsBack` and `ErrorResponseReadsBack` lemmas) hold for that lenient reader. A strict reader would reject a body whose message or name holds such a character.
- Sanitising before the session check (`java_rest/AccessToDocumentV2.java:147`) is modelled after it. The sanitiser is pure and cannot throw, so the results are the same.

## Findings

| source | as written | input that shows it | evidently intended | confidence | as-written member | corrected member |
|---|---|---|---|---|---|---|
| java_rest/AccessToDocumentV2.java:402-403 | `escapeJsonString` replaces `"` with `\"` first and only then doubles every backslash, including the one it just inserted | the message `a"b` becomes `a\\"b`, which a JSON reader takes as `a\` and then stray text, so the error body is not the intended JSON | escape backslashes first, so that `a"b` becomes `a\"b` and every message reads back unchanged | not executed | `Json.AsWrittenBreaksQuote` | `Json.ErrorBodyRoundTrip` |
