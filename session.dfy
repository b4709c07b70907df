/** The adapter to the external session-validation endpoint: one GET request,
    the body read from whichever stream the status selects, and a substring
    test for the validity flag. Every failure reads as "invalid". */
module Session {
  import opened Wrappers
  import opened Text
  import opened Http

  /** The outbound request: the endpoint URL and the two identifying headers. */
  datatype Request = Request(url: string, applicationId: string, sessionId: string)

  /** What one call to the endpoint yields: a failure before any status is known
      (a malformed URL, a refused connection, a timeout), or a status with the
      success stream and the error stream the connection exposes
      (`None` where `getInputStream`/`getErrorStream` give null). */
  datatype Exchange =
    | Unreachable
    | Answered(status: int, input: Option<Stream<char>>, errorStream: Option<Stream<char>>)

  /** The external service. `answer` is how it responds to each request;
      `log` records every request sent to it. */
  class ValidationService {
    const answer: Request -> Exchange
    var log: seq<Request>

    constructor (answer: Request -> Exchange)
      ensures this.answer == answer && log == []
    {
      this.answer := answer;
      log := [];
    }

    method Get(r: Request) returns (x: Exchange)
      modifies this
      ensures x == answer(r) && log == old(log) + [r]
    {
      x := answer(r);
      log := log + [r];
    }
  }

  predicate IsSuccessStatus(status: int) {
    200 <= status < 300
  }

  /** The stream `readResponse` reads: the success stream for a 2xx status,
      the error stream otherwise. */
  function SelectedStream(status: int, input: Option<Stream<char>>, errorStream: Option<Stream<char>>): Option<Stream<char>> {
    if IsSuccessStatus(status) then input else errorStream
  }

  /** What `readResponse` returns for the selected stream: the empty string
      for a null stream, otherwise the trimmed concatenation of every chunk;
      a failing read throws. */
  function BodyOf(stream: Option<Stream<char>>): (r: Result<string>)
    ensures r.Failure? <==> stream.Some? && stream.value.failsAtEnd
    ensures r.Success? ==> Trim(r.value) == r.value
  {
    match stream
    case None => Success("")
    case Some(st) =>
      if st.failsAtEnd then Failure("read failed")
      else TrimIdempotent(Concat(st.chunks)); Success(Trim(Concat(st.chunks)))
  }

  /** `readResponse`: a loop appending every chunk to a `StringBuilder`. */
  method ReadResponse(status: int, input: Option<Stream<char>>, errorStream: Option<Stream<char>>)
      returns (body: Result<string>)
    ensures body == BodyOf(SelectedStream(status, input, errorStream))
  {
    var stream := if IsSuccessStatus(status) then input else errorStream;
    if stream.None? {
      return Success("");
    }
    var chunks := stream.value.chunks;
    var builder: string := "";
    var i := 0;
    while i < |chunks|
      invariant 0 <= i <= |chunks|
      invariant builder == Concat(chunks[..i])
    {
      ConcatLengthStep(chunks, i);
      builder := builder + chunks[i];
      i := i + 1;
    }
    assert chunks[..i] == chunks;
    if stream.value.failsAtEnd {
      return Failure("read failed");
    }
    TrimIdempotent(builder);
    return Success(Trim(builder));
  }

  /** The validity test: the body holds `"is_valid":"1"` or `"is_valid":1`. */
  predicate IsValidFlag(body: string) {
    Contains(body, "\"is_valid\":\"1\"") || Contains(body, "\"is_valid\":1")
  }

  /** A validation URL is configured: present and not empty. */
  predicate Configured(url: Option<string>) {
    url.Some? && url.value != ""
  }

  /** The requests one session check sends: one when a URL is configured. */
  function SessionCalls(url: Option<string>, applicationId: string, sessionId: string): (r: seq<Request>)
    ensures |r| <= 1
  {
    if Configured(url) then [Request(url.value, applicationId, sessionId)] else []
  }

  /** The decision `isApexSessionValid` reaches. */
  predicate SessionAccepted(url: Option<string>, answer: Request -> Exchange, applicationId: string, sessionId: string) {
    Configured(url) &&
    match answer(Request(url.value, applicationId, sessionId))
    case Unreachable => false
    case Answered(status, input, errorStream) =>
      match BodyOf(SelectedStream(status, input, errorStream))
      case Failure(_) => false
      case Success(body) => IsValidFlag(body)
  }

  /** `isApexSessionValid`: no request without a configured URL; any exception
      while calling or reading counts as an invalid session. */
  method ValidateSession(url: Option<string>, applicationId: string, sessionId: string, svc: ValidationService)
      returns (valid: bool)
    modifies svc
    ensures valid == SessionAccepted(url, svc.answer, applicationId, sessionId)
    ensures svc.log == old(svc.log) + SessionCalls(url, applicationId, sessionId)
  {
    if url.None? || url.value == "" {
      return false;
    }
    var x := svc.Get(Request(url.value, applicationId, sessionId));
    match x {
      case Unreachable =>
        return false;
      case Answered(status, input, errorStream) =>
        var body := ReadResponse(status, input, errorStream);
        if body.Failure? {
          return false;
        }
        valid := IsValidFlag(body.value);
    }
  }

  /** The check fails closed: without a configured URL, on a transport failure
      and on a failing read the session is invalid. */
  lemma FailsClosed(url: Option<string>, answer: Request -> Exchange, applicationId: string, sessionId: string)
    ensures !Configured(url) ==> !SessionAccepted(url, answer, applicationId, sessionId)
    ensures Configured(url) && answer(Request(url.value, applicationId, sessionId)).Unreachable? ==>
      !SessionAccepted(url, answer, applicationId, sessionId)
    ensures Configured(url) && answer(Request(url.value, applicationId, sessionId)).Answered? ==>
      var x := answer(Request(url.value, applicationId, sessionId));
      var st := SelectedStream(x.status, x.input, x.errorStream);
      st.Some? && st.value.failsAtEnd ==> !SessionAccepted(url, answer, applicationId, sessionId)
  {
  }

  /** Otherwise the decision is exactly the flag test on the trimmed body of
      the selected stream, whatever the status. */
  lemma AcceptedIffFlag(url: Option<string>, answer: Request -> Exchange, applicationId: string, sessionId: string,
                        status: int, input: Option<Stream<char>>, errorStream: Option<Stream<char>>, body: string)
    requires Configured(url)
    requires answer(Request(url.value, applicationId, sessionId)) == Answered(status, input, errorStream)
    requires BodyOf(SelectedStream(status, input, errorStream)) == Success(body)
    ensures SessionAccepted(url, answer, applicationId, sessionId) <==>
      Contains(body, "\"is_valid\":\"1\"") || Contains(body, "\"is_valid\":1")
  {
  }

  /** A body without the digit 1 never validates a session: a structured
      `"is_valid":true` is rejected. */
  lemma NoDigitOneRejected(body: string)
    requires '1' !in body
    ensures !IsValidFlag(body)
  {
    if Contains(body, "\"is_valid\":\"1\"") {
      ContainedCharOccurs(body, "\"is_valid\":\"1\"", '1');
    }
    if Contains(body, "\"is_valid\":1") {
      ContainedCharOccurs(body, "\"is_valid\":1", '1');
    }
  }

  /** Being a substring test, the check also accepts `"is_valid":12`. */
  lemma AcceptsTwelve()
    ensures IsValidFlag("{\"is_valid\":12}")
  {
    var body := "{\"is_valid\":12}";
    assert body[1..1 + |"\"is_valid\":1"|] == "\"is_valid\":1";
    ContainsAt(body, "\"is_valid\":1", 1);
  }

  /** A non-2xx status does not reject by itself: an error body carrying the
      flag validates the session. */
  lemma ErrorStatusWithFlagAccepted(url: string, answer: Request -> Exchange, applicationId: string, sessionId: string,
                                    status: int, body: string)
    requires url != "" && !IsSuccessStatus(status) && IsValidFlag(Trim(body))
    requires answer(Request(url, applicationId, sessionId)) == Answered(status, None, Some(Stream([body], false)))
    ensures SessionAccepted(Some(url), answer, applicationId, sessionId)
  {
    assert Concat([body]) == body by {
      assert [body][..0] == [];
    }
  }
}
