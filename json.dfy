/** The JSON text the endpoints produce: the escaping of error messages, and a
    reader for flat objects with string values, which is how a client sees a
    response body. */
module Json {
  import opened Wrappers

  const BACKSPACE: char := '\U{0008}'
  const FORM_FEED: char := '\U{000C}'

  /** One escaped character as JSON writes it inside a string. */
  function EscapeChar(c: char): string {
    if c == '"' then "\\\""
    else if c == '\\' then "\\\\"
    else if c == BACKSPACE then "\\b"
    else if c == FORM_FEED then "\\f"
    else if c == '\n' then "\\n"
    else if c == '\r' then "\\r"
    else if c == '\t' then "\\t"
    else [c]
  }

  /** The characters `escapeJsonString` rewrites. */
  predicate IsEscaped(c: char) {
    c == '"' || c == '\\' || c == BACKSPACE || c == FORM_FEED || c == '\n' || c == '\r' || c == '\t'
  }

  /** Escaping every character of `s` in one pass. */
  function Escaped(s: string): (r: string)
    ensures |r| >= |s|
  {
    if s == [] then [] else EscapeChar(s[0]) + Escaped(s[1..])
  }

  /** `escapeJsonString` with the replacements in the order that makes it
      correct (backslash first), so that no inserted backslash is escaped
      again. A null message gives the empty string. */
  function EscapeJsonString(input: Option<string>): (r: string)
    ensures input.None? ==> r == ""
  {
    match input
    case None => ""
    case Some(s) => Escaped(s)
  }

  /** Input with no character that needs escaping comes back unchanged. */
  lemma {:induction false} EscapedPlain(s: string)
    requires forall k :: 0 <= k < |s| ==> !IsEscaped(s[k])
    ensures Escaped(s) == s
  {
    if s != [] {
      EscapedPlain(s[1..]);
    }
  }

  // ---------------------------------------------------------------------------
  // The code as written: seven literal replacements, the quote first.

  /** `s.replace(c, r)`: every occurrence of the character `c` replaced by `r`. */
  function ReplaceChar(s: string, c: char, r: string): string {
    if s == [] then [] else (if s[0] == c then r else [s[0]]) + ReplaceChar(s[1..], c, r)
  }

  /** Replacing a character that does not occur changes nothing, and once the
      replacement does not hold the character, none is left. */
  lemma {:induction false} ReplaceCharRemoves(s: string, c: char, r: string)
    ensures c !in s ==> ReplaceChar(s, c, r) == s
    ensures c !in r ==> c !in ReplaceChar(s, c, r)
  {
    if s != [] {
      ReplaceCharRemoves(s[1..], c, r);
      assert s == [s[0]] + s[1..];
    }
  }

  lemma {:induction false} ReplaceCharAppend(a: string, b: string, c: char, r: string)
    ensures ReplaceChar(a + b, c, r) == ReplaceChar(a, c, r) + ReplaceChar(b, c, r)
  {
    if a != [] {
      assert (a + b)[1..] == a[1..] + b;
      ReplaceCharAppend(a[1..], b, c, r);
    } else {
      assert a + b == b;
    }
  }

  lemma ReplaceCharSingle(x: char, c: char, r: string)
    ensures ReplaceChar([x], c, r) == if x == c then r else [x]
  {
    assert [x][1..] == [];
  }

  /** The six replacements that follow the quote replacement, in source order. */
  function EscapeTail(s: string): string {
    var s1 := ReplaceChar(s, '\\', "\\\\");
    var s2 := ReplaceChar(s1, BACKSPACE, "\\b");
    var s3 := ReplaceChar(s2, FORM_FEED, "\\f");
    var s4 := ReplaceChar(s3, '\n', "\\n");
    var s5 := ReplaceChar(s4, '\r', "\\r");
    ReplaceChar(s5, '\t', "\\t")
  }

  /** `escapeJsonString` exactly as the source chains its replacements: the
      quote is replaced by backslash-quote before every backslash is doubled. */
  function EscapeJsonAsWritten(input: Option<string>): (r: string)
    ensures input.None? ==> r == ""
  {
    match input
    case None => ""
    case Some(s) => EscapeTail(ReplaceChar(s, '"', "\\\""))
  }

  lemma EscapeTailAppend(a: string, b: string)
    ensures EscapeTail(a + b) == EscapeTail(a) + EscapeTail(b)
  {
    var a1, b1 := ReplaceChar(a, '\\', "\\\\"), ReplaceChar(b, '\\', "\\\\");
    ReplaceCharAppend(a, b, '\\', "\\\\");
    var a2, b2 := ReplaceChar(a1, BACKSPACE, "\\b"), ReplaceChar(b1, BACKSPACE, "\\b");
    ReplaceCharAppend(a1, b1, BACKSPACE, "\\b");
    var a3, b3 := ReplaceChar(a2, FORM_FEED, "\\f"), ReplaceChar(b2, FORM_FEED, "\\f");
    ReplaceCharAppend(a2, b2, FORM_FEED, "\\f");
    var a4, b4 := ReplaceChar(a3, '\n', "\\n"), ReplaceChar(b3, '\n', "\\n");
    ReplaceCharAppend(a3, b3, '\n', "\\n");
    var a5, b5 := ReplaceChar(a4, '\r', "\\r"), ReplaceChar(b4, '\r', "\\r");
    ReplaceCharAppend(a4, b4, '\r', "\\r");
    ReplaceCharAppend(a5, b5, '\t', "\\t");
  }

  /** On a single character other than the quote, the chained replacements
      agree with one-pass escaping. */
  lemma EscapeTailChar(x: char)
    requires x != '"'
    ensures EscapeTail([x]) == EscapeChar(x)
  {
    ReplaceCharSingle(x, '\\', "\\\\");
    var s1 := ReplaceChar([x], '\\', "\\\\");
    if x == '\\' {
      assert s1 == ['\\'] + ['\\'];
      ReplaceCharAppend(['\\'], ['\\'], BACKSPACE, "\\b");
      ReplaceCharSingle('\\', BACKSPACE, "\\b");
      ReplaceCharAppend(['\\'], ['\\'], FORM_FEED, "\\f");
      ReplaceCharSingle('\\', FORM_FEED, "\\f");
      ReplaceCharAppend(['\\'], ['\\'], '\n', "\\n");
      ReplaceCharSingle('\\', '\n', "\\n");
      ReplaceCharAppend(['\\'], ['\\'], '\r', "\\r");
      ReplaceCharSingle('\\', '\r', "\\r");
      ReplaceCharAppend(['\\'], ['\\'], '\t', "\\t");
      ReplaceCharSingle('\\', '\t', "\\t");
    } else {
      assert s1 == [x];
      if x == BACKSPACE {
        EscapeTailLetter(x, BACKSPACE, 'b');
      } else if x == FORM_FEED {
        EscapeTailLetter(x, FORM_FEED, 'f');
      } else if x == '\n' {
        EscapeTailLetter(x, '\n', 'n');
      } else if x == '\r' {
        EscapeTailLetter(x, '\r', 'r');
      } else if x == '\t' {
        EscapeTailLetter(x, '\t', 't');
      } else {
        ReplaceCharSingle(x, BACKSPACE, "\\b");
        ReplaceCharSingle(x, FORM_FEED, "\\f");
        ReplaceCharSingle(x, '\n', "\\n");
        ReplaceCharSingle(x, '\r', "\\r");
        ReplaceCharSingle(x, '\t', "\\t");
      }
    }
  }

  /** A control character `x` escaped as backslash-`l` by the replacement for
      `ctl`; every later replacement leaves the two characters alone. */
  lemma EscapeTailLetter(x: char, ctl: char, l: char)
    requires x == ctl && x != '\\' && x != '"'
    requires (ctl, l) in {(BACKSPACE, 'b'), (FORM_FEED, 'f'), ('\n', 'n'), ('\r', 'r'), ('\t', 't')}
    ensures EscapeTail([x]) == EscapeChar(x)
  {
    var two := ['\\', l];
    assert two == ['\\'] + [l];
    forall c: char, r: string | c == BACKSPACE || c == FORM_FEED || c == '\n' || c == '\r' || c == '\t'
      ensures ReplaceChar([x], c, r) == if x == c then r else [x]
      ensures ReplaceChar(two, c, r) == two
    {
      ReplaceCharSingle(x, c, r);
      ReplaceCharAppend(['\\'], [l], c, r);
      ReplaceCharSingle('\\', c, r);
      ReplaceCharSingle(l, c, r);
    }
    ReplaceCharSingle(x, '\\', "\\\\");
  }

  /** On messages without a double quote, the code as written and the
      corrected escaping agree. */
  lemma {:induction false} AsWrittenAgreesWithoutQuote(s: string)
    requires forall k :: 0 <= k < |s| ==> s[k] != '"'
    ensures EscapeJsonAsWritten(Some(s)) == EscapeJsonString(Some(s))
  {
    if s != [] {
      AsWrittenAgreesWithoutQuote(s[1..]);
      assert s == [s[0]] + s[1..];
      ReplaceCharAppend([s[0]], s[1..], '"', "\\\"");
      ReplaceCharSingle(s[0], '"', "\\\"");
      EscapeTailAppend([s[0]], ReplaceChar(s[1..], '"', "\\\""));
      EscapeTailChar(s[0]);
    }
  }

  // ---------------------------------------------------------------------------
  // Reading JSON back, as a client does.

  /** The character a backslash escape stands for (`\u` escapes are not read). */
  function Unescape(c: char): Option<char> {
    if c == '"' then Some('"')
    else if c == '\\' then Some('\\')
    else if c == '/' then Some('/')
    else if c == 'b' then Some(BACKSPACE)
    else if c == 'f' then Some(FORM_FEED)
    else if c == 'n' then Some('\n')
    else if c == 'r' then Some('\r')
    else if c == 't' then Some('\t')
    else None
  }

  /** Reads the body of a JSON string that starts just after its opening quote:
      the decoded value and the text after the closing quote. */
  function ParseString(s: string): (r: Option<(string, string)>)
    ensures r.Some? ==> |r.value.1| < |s|
    decreases |s|
  {
    if s == [] then None
    else if s[0] == '"' then Some(([], s[1..]))
    else if s[0] == '\\' then
      if |s| < 2 then None
      else match Unescape(s[1])
        case None => None
        case Some(c) =>
          match ParseString(s[2..])
          case None => None
          case Some(vr) => Some(([c] + vr.0, vr.1))
    else
      match ParseString(s[1..])
      case None => None
      case Some(vr) => Some(([s[0]] + vr.0, vr.1))
  }

  /** Reads one member `"key":"value"` of a flat object: the pair and the text after it. */
  function ParseMember(s: string): (r: Option<((string, string), string)>)
    ensures r.Some? ==> |r.value.1| < |s|
  {
    if s == [] || s[0] != '"' then None
    else match ParseString(s[1..])
      case None => None
      case Some(kr) =>
        var r1 := kr.1;
        if |r1| < 2 || r1[0] != ':' || r1[1] != '"' then None
        else match ParseString(r1[2..])
          case None => None
          case Some(vr) => Some(((kr.0, vr.0), vr.1))
  }

  /** The members of a flat object with at least one member, given the text after
      its opening brace; the closing brace must end the input. */
  function ParseMembers(s: string): Option<seq<(string, string)>>
    decreases |s|
  {
    match ParseMember(s)
    case None => None
    case Some(mr) =>
      if mr.1 == "}" then Some([mr.0])
      else if mr.1 != [] && mr.1[0] == ',' then
        match ParseMembers(mr.1[1..])
        case None => None
        case Some(rest) => Some([mr.0] + rest)
      else None
  }

  /** A client's reading of a response body as a flat object of strings. */
  function ParseObject(s: string): Option<seq<(string, string)>> {
    if s != [] && s[0] == '{' then ParseMembers(s[1..]) else None
  }

  /** Escaped text followed by a quote reads back as exactly the original text,
      with the reader stopping at that quote. */
  lemma {:induction false} EscapedRoundTrip(s: string, rest: string)
    ensures ParseString(Escaped(s) + "\"" + rest) == Some((s, rest))
  {
    if s == [] {
      assert Escaped(s) + "\"" + rest == ['"'] + rest;
    } else {
      var tail := Escaped(s[1..]) + "\"" + rest;
      EscapedRoundTrip(s[1..], rest);
      var c := s[0];
      var u := EscapeChar(c) + tail;
      assert Escaped(s) + "\"" + rest == u;
      assert s == [c] + s[1..];
      if IsEscaped(c) {
        assert u[0] == '\\' && Unescape(u[1]) == Some(c);
        assert u[2..] == tail;
      } else {
        assert u[0] == c && u[1..] == tail;
      }
    }
  }

  /** Text that needs no escaping, followed by a quote, reads back unchanged. */
  lemma PlainRoundTrip(s: string, rest: string)
    requires forall k :: 0 <= k < |s| ==> !IsEscaped(s[k])
    ensures ParseString(s + "\"" + rest) == Some((s, rest))
  {
    EscapedPlain(s);
    EscapedRoundTrip(s, rest);
  }

  /** One member `"key":"value"` of a flat object, the value already escaped. */
  function MemberText(key: string, value: string): string {
    "\"" + key + "\":\"" + value + "\""
  }

  /** Reading a member's key, up to the colon. */
  lemma MemberKeyRead(key: string, rest: string)
    requires forall i :: 0 <= i < |key| ==> !IsEscaped(key[i])
    ensures var s := "\"" + key + "\"" + rest;
      s[0] == '"' && ParseString(s[1..]) == Some((key, rest))
  {
    var s := "\"" + key + "\"" + rest;
    assert s[1..] == key + "\"" + rest;
    PlainRoundTrip(key, rest);
  }

  /** One step of reading a member, stated on its parts. */
  lemma MemberUnfold(s: string, key: string, r1: string, v: string, after: string)
    requires s != [] && s[0] == '"' && ParseString(s[1..]) == Some((key, r1))
    requires |r1| >= 2 && r1[0] == ':' && r1[1] == '"' && ParseString(r1[2..]) == Some((v, after))
    ensures ParseMember(s) == Some(((key, v), after))
  {
  }

  /** A member whose key needs no escaping and whose value text reads back as
      `v` is read as the pair `(key, v)`, leaving what follows it. */
  lemma MemberRead(key: string, ev: string, v: string, after: string)
    requires forall i :: 0 <= i < |key| ==> !IsEscaped(key[i])
    requires ParseString(ev + "\"" + after) == Some((v, after))
    ensures ParseMember(MemberText(key, ev) + after) == Some(((key, v), after))
  {
    var r1 := ":\"" + ev + "\"" + after;
    MemberTextSplit(key, ev, after);
    MemberKeyRead(key, r1);
    MemberUnfold(MemberText(key, ev) + after, key, r1, v, after);
  }

  /** A member's text splits after its key into the colon, the opening quote
      and the value text. */
  lemma MemberTextSplit(key: string, ev: string, after: string)
    ensures var r1 := ":\"" + ev + "\"" + after;
      MemberText(key, ev) + after == "\"" + key + "\"" + r1 && r1[2..] == ev + "\"" + after
  {
    var r1 := ":\"" + ev + "\"" + after;
    assert r1[2..] == ev + "\"" + after;
  }

  /** A member that closes the object is its last pair. */
  lemma MembersLast(s: string, m: (string, string))
    requires ParseMember(s) == Some((m, "}"))
    ensures ParseMembers(s) == Some([m])
  {
  }

  /** A member followed by a comma comes before the members after the comma. */
  lemma MembersThen(s: string, m: (string, string), more: string)
    requires ParseMember(s) == Some((m, "," + more)) && ParseMembers(more).Some?
    ensures ParseMembers(s) == Some([m] + ParseMembers(more).value)
  {
    assert ("," + more)[1..] == more;
  }

  /** The error envelope `{"error":"<message>"}` with the message escaped. */
  function ErrorBody(message: Option<string>): string {
    "{" + MemberText("error", EscapeJsonString(message)) + "}"
  }

  /** A client reads back from an error envelope exactly the message. */
  lemma ErrorBodyRoundTrip(message: string)
    ensures ParseObject(ErrorBody(Some(message))) == Some([("error", message)])
  {
    var e := Escaped(message);
    EscapedRoundTrip(message, "}");
    MemberRead("error", e, message, "}");
    MembersLast(MemberText("error", e) + "}", ("error", message));
    assert ErrorBody(Some(message))[1..] == MemberText("error", e) + "}";
  }

  /** `"a\"b".replace("\"", "\\\"")` is `a\"b`. */
  lemma QuoteReplaced()
    ensures ReplaceChar("a\"b", '"', "\\\"") == ['a'] + ['\\'] + ['"'] + ['b']
  {
    assert "a\"b" == ['a'] + ['"'] + ['b'];
    ReplaceCharAppend(['a'] + ['"'], ['b'], '"', "\\\"");
    ReplaceCharAppend(['a'], ['"'], '"', "\\\"");
    ReplaceCharSingle('a', '"', "\\\"");
    ReplaceCharSingle('"', '"', "\\\"");
    ReplaceCharSingle('b', '"', "\\\"");
  }

  /** The remaining replacements then double the backslash just inserted. */
  lemma BackslashDoubled()
    ensures EscapeTail(['a'] + ['\\'] + ['"'] + ['b']) == "a\\\\\"b"
  {
    EscapeTailAppend(['a'] + ['\\'] + ['"'], ['b']);
    EscapeTailAppend(['a'] + ['\\'], ['"']);
    EscapeTailAppend(['a'], ['\\']);
    EscapeTailChar('a');
    EscapeTailChar('\\');
    EscapeTailChar('b');
    EscapeTailQuote();
  }

  /** With the replacements as written, a message holding a double quote comes
      out as backslash, backslash, quote: a reader takes the pair of
      backslashes for one backslash and stops at the quote. */
  lemma AsWrittenBreaksQuote()
    ensures EscapeJsonAsWritten(Some("a\"b")) == "a\\\\\"b"
    ensures ParseString(EscapeJsonAsWritten(Some("a\"b")) + "\"}") == Some(("a\\", "b\"}"))
  {
    QuoteReplaced();
    BackslashDoubled();
    var t := "a\\\\\"b" + "\"}";
    var w := "\"b\"}";
    assert ParseString(w) == Some(([], "b\"}"));
    ParseEscapeCons('\\', w);
    ParsePlainCons('a', ['\\', '\\'] + w);
    assert t == ['a'] + (['\\', '\\'] + w);
    assert ParseString(t) == Some((['a'] + (['\\'] + []), "b\"}"));
    assert ['a'] + (['\\'] + []) == "a\\";
    assert EscapeJsonAsWritten(Some("a\"b")) + "\"}" == t;
  }

  lemma ParsePlainCons(c: char, rest: string)
    requires c != '"' && c != '\\' && ParseString(rest).Some?
    ensures ParseString([c] + rest) == Some(([c] + ParseString(rest).value.0, ParseString(rest).value.1))
  {
    assert ([c] + rest)[1..] == rest;
  }

  lemma ParseEscapeCons(e: char, rest: string)
    requires Unescape(e).Some? && ParseString(rest).Some?
    ensures ParseString(['\\', e] + rest) ==
      Some(([Unescape(e).value] + ParseString(rest).value.0, ParseString(rest).value.1))
  {
    assert (['\\', e] + rest)[2..] == rest;
  }

  /** The corrected escaping writes the quote as backslash-quote. */
  lemma CorrectedEscapesQuote()
    ensures EscapeJsonString(Some("a\"b")) == "a\\\"b"
  {
    assert "a\"b"[1..] == "\"b";
    assert "a\"b"[1..][1..] == "b";
  }

  lemma EscapeTailQuote()
    ensures EscapeTail(['"']) == ['"']
  {
    ReplaceCharSingle('"', '\\', "\\\\");
    ReplaceCharSingle('"', BACKSPACE, "\\b");
    ReplaceCharSingle('"', FORM_FEED, "\\f");
    ReplaceCharSingle('"', '\n', "\\n");
    ReplaceCharSingle('"', '\r', "\\r");
    ReplaceCharSingle('"', '\t', "\\t");
  }
}
