/** The request reader of `src/lib.rs`: `HTTPRequest::new` collects the
    lines of the header block, `HTTPRequest::request` parses the first of
    them with `ParsedHTTPRequest::new`, which cuts the request line into
    method, path and version.  Headers and body are never parsed: the
    result always has an empty header map and no body. */
module HttpParser {
  import opened Wrappers
  import opened Whitespace
  import opened Lines
  import opened Seqs
  import opened TestMessage

  /** The panic `request_parts[index]` raises when the request line has only
      `len` whitespace-separated parts. */
  datatype Panic = IndexOutOfBounds(index: nat, len: nat)

  /** `ParsedHTTPRequest`; `httpMethod` is its `method` field (a keyword
      here) and `headers` stands for its `HashMap<String, String>`. */
  datatype ParsedRequest = ParsedRequest(
    httpMethod: string,
    version: string,
    path: string,
    headers: map<string, string>,
    body: Option<string>)

  /** `HTTPRequest` without the borrowed stream: the collected lines. */
  datatype HttpRequest = HttpRequest(requestVec: seq<string>)

  /** `ParsedHTTPRequest::new`: the first three whitespace-separated parts of
      `request` are method, path and version; any further parts are ignored.
      With fewer than three parts the indexing panics, at index 0, 1 or 2:
      the first index that is out of range. */
  function ParseRequestLine(request: string): (r: Result<ParsedRequest, Panic>)
    ensures r.Ok? <==> |SplitWhitespace(request)| >= 3
    ensures r.Err? ==> r.error.index == r.error.len == |SplitWhitespace(request)| < 3
    ensures r.Ok? ==> IsToken(r.value.httpMethod) && IsToken(r.value.path) && IsToken(r.value.version)
    ensures r.Ok? ==> r.value.headers == map[] && r.value.body == None
  {
    var parts := SplitWhitespace(request);
    if |parts| < 3 then Err(IndexOutOfBounds(|parts|, |parts|))
    else Ok(ParsedRequest(parts[0], parts[2], parts[1], map[], None))
  }

  /** A request line is accepted with method `m`, path `p` and version `v`
      exactly when it is `m`, `p`, `v` and possibly more tokens, separated by
      whitespace, with leading and trailing whitespace allowed. */
  lemma ParseRequestLineAccepts(request: string, m: string, p: string, v: string)
    ensures ParseRequestLine(request) == Ok(ParsedRequest(m, v, p, map[], None)) <==>
            exists gaps, extra :: Layout(gaps, [m, p, v] + extra) && Interleave(gaps, [m, p, v] + extra) == request
  {
    var parts := SplitWhitespace(request);
    if ParseRequestLine(request) == Ok(ParsedRequest(m, v, p, map[], None)) {
      var extra := parts[3..];
      assert parts == [m, p, v] + extra;
      SplitWhitespaceCharacterization(request, parts);
    }
    forall gaps, extra | Layout(gaps, [m, p, v] + extra) && Interleave(gaps, [m, p, v] + extra) == request
      ensures ParseRequestLine(request) == Ok(ParsedRequest(m, v, p, map[], None))
    {
      SplitWhitespaceOfLayout(gaps, [m, p, v] + extra);
    }
  }

  /** A request line panics exactly when it holds fewer than three tokens. */
  lemma ParseRequestLineRejects(request: string)
    ensures ParseRequestLine(request).Err? <==>
            exists gaps, tokens :: |tokens| < 3 && Layout(gaps, tokens) && Interleave(gaps, tokens) == request
  {
    SplitWhitespaceCharacterization(request, SplitWhitespace(request));
    forall gaps, tokens | |tokens| < 3 && Layout(gaps, tokens) && Interleave(gaps, tokens) == request
      ensures ParseRequestLine(request).Err?
    {
      SplitWhitespaceOfLayout(gaps, tokens);
    }
  }

  /** Whitespace around and between the parts of a request line does not
      change the result, nor does anything after its third part. */
  lemma ParseRequestLineIgnoresSpacing(lead: string, m: string, g1: string, p: string, g2: string, v: string, rest: string)
    requires AllWhitespace(lead) && IsToken(m) && IsToken(p) && IsToken(v)
    requires AllWhitespace(g1) && g1 != [] && AllWhitespace(g2) && g2 != []
    requires rest == [] || IsWhitespace(rest[0])
    ensures ParseRequestLine(lead + (m + g1 + p + g2 + v) + rest) == Ok(ParsedRequest(m, v, p, map[], None))
  {
    var line := m + g1 + p + g2 + v;
    var gaps, tokens := [[], g1, g2, []], [m, p, v];
    InterleaveThree([], m, g1, p, g2, v, []);
    assert [] + m + g1 + p + g2 + v + [] == line;
    assert Layout(gaps, tokens);
    SplitWhitespaceOfLayout(gaps, tokens);
    AppendAssoc(lead, line, rest);
    SplitWhitespaceDropsLeading(lead, line + rest);
    if rest != [] {
      SplitWhitespaceAtGap(line, [rest[0]], rest[1..]);
      assert rest == [rest[0]] + rest[1..];
      AppendAssoc(line, [rest[0]], rest[1..]);
      assert SplitWhitespace(line + rest) == [m, p, v] + SplitWhitespace(rest[1..]);
    } else {
      assert line + rest == line;
    }
  }

  /** `HTTPRequest::new`: the lines of `input`, each without its LF or CRLF,
      up to (not including) the first empty line, in order. */
  function NewHttpRequest(input: string): (r: HttpRequest)
    ensures r.requestVec <= SplitLines(input)
    ensures forall k :: 0 <= k < |r.requestVec| ==> r.requestVec[k] != [] && NoLF(r.requestVec[k])
    ensures |r.requestVec| == |SplitLines(input)| || SplitLines(input)[|r.requestVec|] == []
  {
    HttpRequest(TakeWhileNonEmpty(SplitLines(input)))
  }

  /** A header block ends at the first blank line: the non-empty lines
      before it are collected, whatever follows it is not. */
  lemma NewHttpRequestOfMessage(head: seq<string>, crlf: seq<bool>, blankCrlf: bool, rest: string)
    requires Encodable(head, crlf)
    requires forall k :: 0 <= k < |head| ==> head[k] != []
    ensures NewHttpRequest(Encode(head, crlf) + Terminate([], blankCrlf) + rest).requestVec == head
  {
    AppendAssoc(Encode(head, crlf), Terminate([], blankCrlf), rest);
    SplitLinesOfEncoding(head, crlf, Terminate([], blankCrlf) + rest);
    SplitLinesOfTerminated([], blankCrlf, rest);
    AppendAssoc(head, [[]], SplitLines(rest));
    TakeWhileNonEmptyStopsAtBlank(head, SplitLines(rest));
  }

  /** Nothing is collected exactly when the input is empty or starts with
      a blank line. */
  lemma NewHttpRequestEmpty(input: string)
    ensures NewHttpRequest(input).requestVec == [] <==>
            input == [] || input[0] == '\n' || (|input| >= 2 && input[..2] == "\r\n")
  {
    if input != [] {
      var i := IndexOfLF(input);
      if |input| >= 2 && input[..2] == "\r\n" {
        assert input[0] == '\r' && input[1] == '\n';
        assert i == 1;
        assert input[..i] == "\r";
      }
      if i < |input| {
        assert SplitLines(input)[0] == StripCR(input[..i]);
        if StripCR(input[..i]) == [] && i != 0 {
          assert i == 1 && input[0] == '\r';
          assert input[..2] == "\r\n";
        }
      }
    }
  }

  /** `HTTPRequest::request`: no request when no line was collected,
      otherwise the parse of the first line, panic included. */
  function Request(req: HttpRequest): (r: Result<Option<ParsedRequest>, Panic>)
    ensures r == Ok(None) <==> req.requestVec == []
    ensures r.Err? <==> req.requestVec != [] && ParseRequestLine(req.requestVec[0]).Err?
    ensures r.Err? ==> Err(r.error) == ParseRequestLine(req.requestVec[0])
    ensures r.Ok? && r.value.Some? ==> Ok(r.value.value) == ParseRequestLine(req.requestVec[0])
  {
    if |req.requestVec| > 0 then
      match ParseRequestLine(req.requestVec[0])
      case Ok(parsed) => Ok(Some(parsed))
      case Err(panic) => Err(panic)
    else
      Ok(None)
  }

  /** Reading a whole message: the request line of its header block gives
      method, path and version; the other header lines and anything after
      the blank line play no part. */
  lemma RequestOfMessage(head: seq<string>, crlf: seq<bool>, blankCrlf: bool, rest: string,
                         gaps: seq<string>, m: string, p: string, v: string, extra: seq<string>)
    requires Encodable(head, crlf)
    requires forall k :: 0 <= k < |head| ==> head[k] != []
    requires head != [] && Layout(gaps, [m, p, v] + extra) && Interleave(gaps, [m, p, v] + extra) == head[0]
    ensures Request(NewHttpRequest(Encode(head, crlf) + Terminate([], blankCrlf) + rest))
            == Ok(Some(ParsedRequest(m, v, p, map[], None)))
  {
    NewHttpRequestOfMessage(head, crlf, blankCrlf, rest);
    ParseRequestLineAccepts(head[0], m, p, v);
  }

  /** No request is returned exactly when the input is empty or starts
      with a blank line. */
  lemma RequestNone(input: string)
    ensures Request(NewHttpRequest(input)) == Ok(None) <==>
            input == [] || input[0] == '\n' || (|input| >= 2 && input[..2] == "\r\n")
  {
    NewHttpRequestEmpty(input);
  }

  /** The request line of `ExampleHttpPost` has the tokens POST, `/` and
      HTTP/1.1. */
  lemma ExampleRequestLine()
    ensures SplitWhitespace("POST / HTTP/1.1") == ["POST", "/", "HTTP/1.1"]
  {
    var gaps, tokens := [[], " ", " ", []], ["POST", "/", "HTTP/1.1"];
    InterleaveThree([], "POST", " ", "/", " ", "HTTP/1.1", []);
    assert [] + "POST" + " " + "/" + " " + "HTTP/1.1" + [] == "POST / HTTP/1.1";
    assert IsToken("HTTP/1.1");
    assert Layout(gaps, tokens);
    SplitWhitespaceOfLayout(gaps, tokens);
  }

  /** The layout of the `it_works` message for any three header lines and
      body line: CRLF-terminated header lines, a blank line, the body line
      and another blank line. */
  lemma TestMessageLayout(l0: string, l1: string, l2: string, body: string)
    ensures l0 + "\r\n" + l1 + "\r\n" + l2 + "\r\n" + "" + "\r\n" + body + "\r\n" + "" + "\r\n"
            == Encode([l0, l1, l2], [true, true, true]) + Terminate([], true) + (body + "\r\n" + "" + "\r\n")
    ensures l0 + "\r\n" + l1 + "\r\n" + l2 + "\r\n" + "" + "\r\n" + body + "\r\n" + "" + "\r\n"
            == l0 + ("\r\n" + (l1 + "\r\n" + l2 + "\r\n" + "" + "\r\n" + body + "\r\n" + "" + "\r\n"))
  {
    var head, crlf := [l0, l1, l2], [true, true, true];
    assert head[1..] == [l1, l2] && head[2..] == [l2] && head[3..] == [];
    assert crlf[1..] == [true, true] && crlf[2..] == [true] && crlf[3..] == [];
    assert Encode(head[2..], crlf[2..]) == Terminate(l2, true) + [];
    assert Encode(head[1..], crlf[1..]) == Terminate(l1, true) + Encode(head[2..], crlf[2..]);
    assert Encode(head, crlf) == Terminate(l0, true) + Encode(head[1..], crlf[1..]);
  }

  lemma ExampleContentTypeHasNoLF()
    ensures NoLF(ExampleContentType)
  {
  }

  /** A line starting with `POST / HTTP/1.1` and then whitespace parses the
      same whatever follows. */
  lemma ParsePostLine(after: string)
    ensures ParseRequestLine("POST / HTTP/1.1" + ("\r\n" + after)) == Ok(ParsedRequest("POST", "HTTP/1.1", "/", map[], None))
  {
    assert IsToken("HTTP/1.1");
    ParseRequestLineIgnoresSpacing([], "POST", " ", "/", " ", "HTTP/1.1", "\r\n" + after);
    assert "POST" + " " + "/" + " " + "HTTP/1.1" == "POST / HTTP/1.1";
    assert [] + "POST / HTTP/1.1" == "POST / HTTP/1.1";
  }

  /** `it_works`: the whole message, header and body lines included, parsed
      as a request line gives POST, `/` and HTTP/1.1, with no headers and no
      body. */
  lemma ItWorks()
    ensures ParseRequestLine(ExampleHttpPost) == Ok(ParsedRequest("POST", "HTTP/1.1", "/", map[], None))
  {
    TestMessageLayout("POST / HTTP/1.1", "Content-Length: 19", ExampleContentType, "something=something");
    ParsePostLine("Content-Length: 19" + "\r\n" + ExampleContentType + "\r\n" + "" + "\r\n" +
                  "something=something" + "\r\n" + "" + "\r\n");
  }

  /** The same message read through `HTTPRequest::new` and `request`: the
      three header lines are collected and the first is parsed. */
  lemma ExampleRequest()
    ensures NewHttpRequest(ExampleHttpPost).requestVec ==
            ["POST / HTTP/1.1", "Content-Length: 19", ExampleContentType]
    ensures Request(NewHttpRequest(ExampleHttpPost)) == Ok(Some(ParsedRequest("POST", "HTTP/1.1", "/", map[], None)))
  {
    var l0, l1, l2 := "POST / HTTP/1.1", "Content-Length: 19", ExampleContentType;
    var head, crlf := [l0, l1, l2], [true, true, true];
    var rest := "something=something" + "\r\n" + "" + "\r\n";
    TestMessageLayout(l0, l1, l2, "something=something");
    ExampleContentTypeHasNoLF();
    assert NoLF(l0) && NoLF(l1);
    assert Encodable(head, crlf);
    NewHttpRequestOfMessage(head, crlf, true, rest);
    ExampleRequestLine();
  }
}
