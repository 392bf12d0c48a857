/**
 * The HTTP response envelope of saba_core/src/http.rs: raw response text is
 * split into a status line (version, status code, reason), an ordered list
 * of headers and a body.
 */
module Http {
  import opened Wrappers
  import opened Text

  /** The crate's error type; the parser only ever builds its `Network` variant. */
  datatype Error = Network(message: string)

  /** `Header::new(name, value)` is this constructor. */
  datatype Header = Header(name: string, value: string)

  /** The parsed response; the getters `version()`, ..., `body()` are its destructors. */
  datatype HttpResponse = HttpResponse(
    version: string,
    statusCode: U16,
    reason: string,
    headers: seq<Header>,
    body: string)

  // ---------------------------------------------------------------------
  // HttpResponse::new, as a specification
  // ---------------------------------------------------------------------

  /** Leading whitespace removed, then every CR LF turned into LF. */
  function Preprocess(raw: string): string
  {
    ReplaceCrlf(TrimStart(raw))
  }

  /** One header line: split at its first `:`, both sides trimmed. */
  function HeaderOf(line: string): (h: Header)
    requires ':' in line
    ensures ':' !in h.name
    ensures Trim(h.name) == h.name && Trim(h.value) == h.value
  {
    var parts := SplitN(line, 2, ':');
    assert |parts| == 2;
    TrimIdempotent(parts[0]);
    TrimIdempotent(parts[1]);
    Header(Trim(parts[0]), Trim(parts[1]))
  }

  /**
   * The header lines in order; `splitted_header[1]` on a line without `:`
   * is an index out of range on a vector of length 1.
   */
  function HeadersOf(lines: seq<string>): Run<seq<Header>>
  {
    if forall i :: 0 <= i < |lines| ==> ':' in lines[i] then
      Returns(seq(|lines|, i requires 0 <= i < |lines| => HeaderOf(lines[i])))
    else
      Panics(IndexOutOfBounds(1, 1))
  }

  /** Headers and body of the text that follows the status line. */
  function HeaderBlock(remaining: string): (Run<seq<Header>>, string)
  {
    match SplitOnce(remaining, "\n\n")
    case Some((h, b)) => (HeadersOf(Split(h, '\n')), b)
    case None => (Returns([]), remaining)
  }

  /** The second status-line field as a `u16`, or 404 when it does not parse. */
  function StatusCode(field: string): U16
  {
    match ParseU16(field)
    case Some(code) => code
    case None => 404
  }

  /**
   * The struct literal at the end of `new`: the status line split at every
   * space; fields 0, 1 and 2 are read in that order.
   */
  function Build(statusLine: string, headers: Run<seq<Header>>, body: string): Run<Result<HttpResponse, Error>>
  {
    match headers
    case Panics(cause) => Panics(cause)
    case Returns(hs) =>
      var statuses := Split(statusLine, ' ');
      if |statuses| < 2 then Panics(IndexOutOfBounds(|statuses|, 1))
      else if |statuses| < 3 then Panics(IndexOutOfBounds(|statuses|, 2))
      else Returns(Ok(HttpResponse(statuses[0], StatusCode(statuses[1]), statuses[2], hs, body)))
  }

  /** What `HttpResponse::new(raw)` does: return an `Ok`, return an `Err`, or panic. */
  function Parse(raw: string): Run<Result<HttpResponse, Error>>
  {
    var text := Preprocess(raw);
    match SplitOnceChar(text, '\n')
    case None => Returns(Err(Network("invalid http response: " + text)))
    case Some((statusLine, remaining)) =>
      var (headers, body) := HeaderBlock(remaining);
      Build(statusLine, headers, body)
  }

  // ---------------------------------------------------------------------
  // HttpResponse::new and header_value, as the source runs them
  // ---------------------------------------------------------------------

  /** `HttpResponse::new`: the steps of `Parse`, with the header vector built by a loop of pushes. */
  method New(raw: string) returns (r: Run<Result<HttpResponse, Error>>)
    ensures r == Parse(raw)
  {
    var text := Preprocess(raw);
    match SplitOnceChar(text, '\n') {
      case None =>
        return Returns(Err(Network("invalid http response: " + text)));
      case Some((statusLine, remaining)) =>
        var headers, body := ReadHeaderBlock(remaining);
        if headers.Panics? {
          return Panics(headers.cause);
        }
        var statuses := Split(statusLine, ' ');
        if |statuses| < 2 {
          return Panics(IndexOutOfBounds(|statuses|, 1));
        }
        if |statuses| < 3 {
          return Panics(IndexOutOfBounds(|statuses|, 2));
        }
        r := Returns(Ok(HttpResponse(statuses[0], StatusCode(statuses[1]), statuses[2], headers.value, body)));
    }
  }

  /** The text after the status line cut at its first `\n\n` (two LFs in a row), the header lines read in order. */
  method ReadHeaderBlock(remaining: string) returns (headers: Run<seq<Header>>, body: string)
    ensures (headers, body) == HeaderBlock(remaining)
  {
    match SplitOnce(remaining, "\n\n") {
      case Some((h, b)) =>
        headers := ReadHeaders(Split(h, '\n'));
        body := b;
      case None =>
        headers, body := Returns([]), remaining;
    }
  }

  /** The `for` loop over the header lines: split each at its first `:` and push the trimmed pair. */
  method ReadHeaders(lines: seq<string>) returns (r: Run<seq<Header>>)
    ensures r == HeadersOf(lines)
  {
    var headers: seq<Header> := [];
    for i := 0 to |lines|
      invariant forall k :: 0 <= k < i ==> ':' in lines[k]
      invariant headers == HeadersUpTo(lines, i)
    {
      var splittedHeader := SplitN(lines[i], 2, ':');
      if |splittedHeader| < 2 {
        HeaderWithoutColonPanics(lines, i);
        return Panics(IndexOutOfBounds(|splittedHeader|, 1));
      }
      var header := Header(Trim(splittedHeader[0]), Trim(splittedHeader[1]));
      HeaderOfSplit(lines[i]);
      HeadersUpToNext(lines, i);
      headers := headers + [header];
    }
    HeadersOfAll(lines);
    return Returns(headers);
  }

  /** The headers of the first `i` lines, as far as they all hold a `:`. */
  function HeadersUpTo(lines: seq<string>, i: nat): seq<Header>
    requires i <= |lines|
    requires forall k :: 0 <= k < i ==> ':' in lines[k]
  {
    seq(i, k requires 0 <= k < i => HeaderOf(lines[k]))
  }

  /** The header `new` builds from the two `splitn` parts of one line. */
  lemma HeaderOfSplit(line: string)
    requires |SplitN(line, 2, ':')| >= 2
    ensures ':' in line
    ensures HeaderOf(line) == Header(Trim(SplitN(line, 2, ':')[0]), Trim(SplitN(line, 2, ':')[1]))
  {
  }

  lemma HeadersUpToNext(lines: seq<string>, i: nat)
    requires i < |lines|
    requires forall k :: 0 <= k <= i ==> ':' in lines[k]
    ensures HeadersUpTo(lines, i + 1) == HeadersUpTo(lines, i) + [HeaderOf(lines[i])]
  {
    var a, b := HeadersUpTo(lines, i + 1), HeadersUpTo(lines, i) + [HeaderOf(lines[i])];
    assert |a| == |b|;
    forall k | 0 <= k < |a|
      ensures a[k] == b[k]
    {
    }
  }

  /** The vector the loop has pushed once every line is read. */
  lemma HeadersOfAll(lines: seq<string>)
    requires forall k :: 0 <= k < |lines| ==> ':' in lines[k]
    ensures HeadersOf(lines) == Returns(HeadersUpTo(lines, |lines|))
  {
  }

  /** The first header named exactly `name` sits at index `i`. */
  predicate FirstNamed(headers: seq<Header>, name: string, i: nat)
  {
    i < |headers| && headers[i].name == name
    && forall j :: 0 <= j < i ==> headers[j].name != name
  }

  /** `header_value`: a linear search returning the first match, case-sensitively. */
  method HeaderValue(response: HttpResponse, name: string) returns (r: Result<string, string>)
    ensures r.Ok? <==> exists i :: 0 <= i < |response.headers| && response.headers[i].name == name
    ensures r.Ok? ==> exists i: nat :: FirstNamed(response.headers, name, i) && r.value == response.headers[i].value
    ensures r.Err? ==> r.error == "failed to find " + name + " in headers"
  {
    var headers := response.headers;
    for i := 0 to |headers|
      invariant forall j :: 0 <= j < i ==> headers[j].name != name
    {
      if headers[i].name == name {
        assert FirstNamed(headers, name, i);
        return Ok(headers[i].value);
      }
    }
    return Err("failed to find " + name + " in headers");
  }

  // ---------------------------------------------------------------------
  // Properties of Parse
  // ---------------------------------------------------------------------

  /** Without a line feed after the leading whitespace, `new` returns a `Network` error. */
  lemma ParseFailsWithoutNewline(raw: string)
    ensures (Parse(raw).Returns? && Parse(raw).value.Err?) <==> '\n' !in TrimStart(raw)
    ensures '\n' !in TrimStart(raw) ==>
      Parse(raw) == Returns(Err(Network("invalid http response: " + Preprocess(raw))))
  {
    var text := Preprocess(raw);
    assert '\n' in text <==> '\n' in TrimStart(raw);
    match SplitOnceChar(text, '\n') {
      case None =>
      case Some((statusLine, remaining)) =>
        var (headers, body) := HeaderBlock(remaining);
        assert !Build(statusLine, headers, body).Returns? || Build(statusLine, headers, body).value.Ok?;
    }
  }

  /** A response with CR LF line endings parses exactly like the same response with LF. */
  lemma ParseIgnoresCrlf(raw: string)
    requires '\r' !in raw
    ensures Parse(ToCrlf(raw)) == Parse(raw)
  {
    PreprocessIgnoresCrlf(raw);
  }

  lemma PreprocessIgnoresCrlf(raw: string)
    requires '\r' !in raw
    ensures Preprocess(ToCrlf(raw)) == Preprocess(raw)
  {
    var t := TrimStart(raw);
    assert '\r' !in t by {
      TrimStartSuffix(raw);
      assert t == raw[|raw| - |t|..];
    }
    TrimStartToCrlf(raw);
    ReplaceCrlfUndoesToCrlf(t);
  }

  /**
   * The status line is split at every single space: the version is field 0,
   * the code is field 1 and the reason is exactly field 2, whatever follows.
   */
  lemma StatusLineFields(fields: seq<string>, headers: seq<Header>, body: string)
    requires |fields| >= 3
    requires forall i :: 0 <= i < |fields| ==> ' ' !in fields[i]
    ensures Build(Join(fields, ' '), Returns(headers), body)
         == Returns(Ok(HttpResponse(fields[0], StatusCode(fields[1]), fields[2], headers, body)))
  {
    SplitJoin(fields, ' ');
  }

  /** A status line of one or two fields panics on the first missing index. */
  lemma ShortStatusLinePanics(fields: seq<string>, headers: seq<Header>, body: string)
    requires 1 <= |fields| < 3
    requires forall i :: 0 <= i < |fields| ==> ' ' !in fields[i]
    ensures Build(Join(fields, ' '), Returns(headers), body) == Panics(IndexOutOfBounds(|fields|, |fields|))
  {
    SplitJoin(fields, ' ');
  }

  /** A code written in decimal, with or without a leading `+`, reads as itself up to 65535, and as 404 above. */
  lemma StatusCodeOfDecimal(n: nat)
    ensures StatusCode(DecimalString(n)) == if n <= 0xFFFF then n else 404
    ensures StatusCode("+" + DecimalString(n)) == StatusCode(DecimalString(n))
  {
    ParseU16Decimal(n);
  }

  /**
   * An empty field, a lone `+`, or a field with any other character than a
   * digit (a `-` sign included) reads as 404.
   */
  lemma StatusCodeNotNumber(field: string, i: nat)
    requires || field == [] || field == "+"
             || (i < |field| && !IsDigit(field[i]) && (i > 0 || field[0] != '+'))
    ensures StatusCode(field) == 404
  {
    if field != [] && field != "+" {
      ParseU16RejectsNonDigit(field, i);
    }
  }

  /** A header line splits at its first `:`; later colons stay in the value. */
  lemma HeaderSplitsAtFirstColon(a: string, b: string)
    requires ':' !in a
    ensures HeaderOf(a + ":" + b) == Header(Trim(a), Trim(b))
  {
    SplitOnceCharAfter(a, ':', b);
  }

  /** A header line without `:` makes `new` panic, whatever the other lines hold. */
  lemma HeaderWithoutColonPanics(lines: seq<string>, k: nat)
    requires k < |lines| && ':' !in lines[k]
    ensures HeadersOf(lines) == Panics(IndexOutOfBounds(1, 1))
  {
  }

  /** On success the version and the reason hold no space and no line feed. */
  lemma ParseOkStatusFields(raw: string)
    requires Parse(raw).Returns? && Parse(raw).value.Ok?
    ensures var resp := Parse(raw).value.value;
      && ' ' !in resp.version && '\n' !in resp.version
      && ' ' !in resp.reason && '\n' !in resp.reason
  {
    var text := Preprocess(raw);
    var (statusLine, remaining) := SplitOnceChar(text, '\n').value;
    var statuses := Split(statusLine, ' ');
    if '\n' in statuses[0] {
      PieceInJoin(statuses, ' ', 0, '\n');
    }
    if '\n' in statuses[2] {
      PieceInJoin(statuses, ' ', 2, '\n');
    }
  }

  /** No header name holds a `:`, and names and values are trimmed. */
  predicate TrimmedHeaders(hs: seq<Header>)
  {
    forall i :: 0 <= i < |hs| ==>
      && ':' !in hs[i].name
      && Trim(hs[i].name) == hs[i].name
      && Trim(hs[i].value) == hs[i].value
  }

  lemma HeadersOfTrimmed(lines: seq<string>)
    requires HeadersOf(lines).Returns?
    ensures TrimmedHeaders(HeadersOf(lines).value)
  {
  }

  lemma HeaderBlockTrimmed(remaining: string)
    requires HeaderBlock(remaining).0.Returns?
    ensures TrimmedHeaders(HeaderBlock(remaining).0.value)
  {
    match SplitOnce(remaining, "\n\n") {
      case Some((h, b)) => HeadersOfTrimmed(Split(h, '\n'));
      case None =>
    }
  }

  /** On success every header name holds no `:` and names and values are trimmed. */
  lemma ParseOkHeaders(raw: string)
    requires Parse(raw).Returns? && Parse(raw).value.Ok?
    ensures TrimmedHeaders(Parse(raw).value.value.headers)
  {
    var remaining := SplitOnceChar(Preprocess(raw), '\n').value.1;
    HeaderBlockTrimmed(remaining);
  }

  /** The body is the end of the text that follows the status line. */
  lemma HeaderBlockBody(remaining: string)
    ensures IsSuffix(HeaderBlock(remaining).1, remaining)
  {
    match SplitOnce(remaining, "\n\n") {
      case Some((h, b)) =>
        var p := h + "\n\n";
        assert remaining == p + b;
        assert remaining[|p|..] == b;
      case None =>
    }
  }

  /** The body is the end of the preprocessed text, whenever there is a status line. */
  lemma BodyIsSuffix(text: string)
    requires '\n' in text
    ensures IsSuffix(HeaderBlock(SplitOnceChar(text, '\n').value.1).1, text)
  {
    var remaining := SplitOnceChar(text, '\n').value.1;
    SplitOnceCharSuffix(text, '\n');
    HeaderBlockBody(remaining);
    SuffixTransitive(text, remaining, HeaderBlock(remaining).1);
  }

  /** A successful parse found a status line, and its body is that of the header block. */
  lemma ParseOkParts(raw: string)
    requires Parse(raw).Returns? && Parse(raw).value.Ok?
    ensures SplitOnceChar(Preprocess(raw), '\n').Some?
    ensures Parse(raw).value.value.body == HeaderBlock(SplitOnceChar(Preprocess(raw), '\n').value.1).1
  {
  }

  /** On success the body is the end of the preprocessed text, verbatim. */
  lemma ParseOkBody(raw: string)
    requires Parse(raw).Returns? && Parse(raw).value.Ok?
    ensures IsSuffix(Parse(raw).value.value.body, Preprocess(raw))
  {
    ParseOkParts(raw);
    BodyIsSuffix(Preprocess(raw));
  }

  // ---------------------------------------------------------------------
  // Round trip against a well-formed response text
  // ---------------------------------------------------------------------

  /** `version SP code SP reason`, the code in decimal. */
  function StatusLineText(resp: HttpResponse): string
  {
    resp.version + " " + DecimalString(resp.statusCode) + " " + resp.reason
  }

  function HeaderLine(h: Header): string
  {
    h.name + ": " + h.value
  }

  function HeaderLines(headers: seq<Header>): seq<string>
  {
    seq(|headers|, i requires 0 <= i < |headers| => HeaderLine(headers[i]))
  }

  /** Header lines each ended by LF, then the blank line, then the body. */
  function AfterStatusLine(resp: HttpResponse): string
  {
    if resp.headers == [] then "\n" + resp.body
    else Join(HeaderLines(resp.headers), '\n') + "\n\n" + resp.body
  }

  /** The response written out as a server sends it (with LF line ends). */
  function Render(resp: HttpResponse): string
  {
    StatusLineText(resp) + "\n" + AfterStatusLine(resp)
  }

  predicate WellFormedHeader(h: Header)
  {
    && ':' !in h.name && '\n' !in h.name && '\r' !in h.name
    && '\n' !in h.value && '\r' !in h.value
    && Trim(h.name) == h.name && Trim(h.value) == h.value
  }

  /** The responses that Render writes unambiguously. */
  predicate Renderable(resp: HttpResponse)
  {
    && resp.version != []
    && (forall i :: 0 <= i < |resp.version| ==> !IsWhitespace(resp.version[i]))
    && ' ' !in resp.reason && '\n' !in resp.reason && '\r' !in resp.reason
    && (forall i :: 0 <= i < |resp.headers| ==> WellFormedHeader(resp.headers[i]))
    && '\r' !in resp.body
  }

  lemma RenderStatusLine(resp: HttpResponse)
    requires Renderable(resp)
    ensures var text := Render(resp);
      && Preprocess(text) == text
      && SplitOnceChar(text, '\n') == Some((StatusLineText(resp), AfterStatusLine(resp)))
  {
    var v, d, reason := resp.version, DecimalString(resp.statusCode), resp.reason;
    var text := Render(resp);
    assert '\r' !in v && '\n' !in v && ' ' !in v by {
      assert IsWhitespace('\r') && IsWhitespace('\n') && IsWhitespace(' ');
    }
    assert '\r' !in d && '\n' !in d by {
      assert !IsDigit('\r') && !IsDigit('\n');
    }
    var lines := HeaderLines(resp.headers);
    assert '\r' !in Join(lines, '\n') by {
      NotInJoin(lines, '\n', '\r');
    }
    assert '\r' !in text;
    assert text[0] == v[0];
    assert TrimStart(text) == text;
    var s := StatusLineText(resp);
    assert '\n' !in s;
    SplitOnceCharAfter(s, '\n', AfterStatusLine(resp));
  }

  lemma StatusLineOfRender(resp: HttpResponse, headers: seq<Header>, body: string)
    requires Renderable(resp)
    ensures Build(StatusLineText(resp), Returns(headers), body)
         == Returns(Ok(HttpResponse(resp.version, resp.statusCode, resp.reason, headers, body)))
  {
    var v, d, reason := resp.version, DecimalString(resp.statusCode), resp.reason;
    assert ' ' !in v by {
      assert IsWhitespace(' ');
    }
    assert ' ' !in d by {
      assert !IsDigit(' ');
    }
    var fields := [v, d, reason];
    assert Join(fields, ' ') == StatusLineText(resp) by {
      assert fields[1..] == [d, reason];
      assert fields[1..][1..] == [reason];
      assert Join([reason], ' ') == reason;
      assert Join([d, reason], ' ') == d + " " + reason;
      assert Join(fields, ' ') == v + " " + (d + " " + reason);
      var line, other := StatusLineText(resp), v + " " + (d + " " + reason);
      assert |line| == |other|;
      forall i | 0 <= i < |line|
        ensures line[i] == other[i]
      {
      }
    }
    StatusLineFields(fields, headers, body);
    ParseU16Decimal(resp.statusCode);
  }

  /** A well-formed header, written as `name: value`, reads back as itself. */
  lemma HeaderLineParses(h: Header)
    requires WellFormedHeader(h)
    ensures HeaderLine(h) != [] && '\n' !in HeaderLine(h) && ':' in HeaderLine(h)
    ensures HeaderOf(HeaderLine(h)) == h
  {
    var line := HeaderLine(h);
    assert line == h.name + ":" + (" " + h.value) by {
      var other := h.name + ":" + (" " + h.value);
      assert |line| == |other|;
      forall i | 0 <= i < |line|
        ensures line[i] == other[i]
      {
      }
    }
    assert line[|h.name|] == ':';
    HeaderSplitsAtFirstColon(h.name, " " + h.value);
    TrimLeadingSpace(h.value);
  }

  /** The header lines of well-formed headers read back as those headers. */
  lemma HeadersOfHeaderLines(headers: seq<Header>)
    requires forall i :: 0 <= i < |headers| ==> WellFormedHeader(headers[i])
    ensures forall i :: 0 <= i < |headers| ==>
      HeaderLines(headers)[i] != [] && '\n' !in HeaderLines(headers)[i]
    ensures HeadersOf(HeaderLines(headers)) == Returns(headers)
  {
    var lines := HeaderLines(headers);
    forall i | 0 <= i < |lines|
      ensures lines[i] != [] && '\n' !in lines[i] && ':' in lines[i]
      ensures HeaderOf(lines[i]) == headers[i]
    {
      HeaderLineParses(headers[i]);
    }
    var hs := seq(|lines|, i requires 0 <= i < |lines| => HeaderOf(lines[i]));
    assert hs == headers;
  }

  /** No `\n\n` occurs inside a join of non-empty lines. */
  lemma NoBlankLineInJoin(lines: seq<string>, body: string)
    requires lines != []
    requires forall i :: 0 <= i < |lines| ==> lines[i] != [] && '\n' !in lines[i]
    ensures forall k: nat :: k < |Join(lines, '\n')| ==> !OccursAt(Join(lines, '\n') + "\n\n" + body, "\n\n", k)
  {
    var j := Join(lines, '\n');
    JoinNoDoubleSeparator(lines, '\n');
    var remaining := j + "\n\n" + body;
    forall k: nat | k < |j|
      ensures !OccursAt(remaining, "\n\n", k)
    {
      assert remaining[k..k + 2] == [j[k], remaining[k + 1]];
      if k + 1 < |j| {
        assert remaining[k + 1] == j[k + 1];
      }
    }
  }

  /** Non-empty lines without LF, joined, end at the first `\n\n` that follows them. */
  lemma SplitAtBlankLine(lines: seq<string>, body: string)
    requires lines != []
    requires forall i :: 0 <= i < |lines| ==> lines[i] != [] && '\n' !in lines[i]
    ensures SplitOnce(Join(lines, '\n') + "\n\n" + body, "\n\n") == Some((Join(lines, '\n'), body))
  {
    NoBlankLineInJoin(lines, body);
    SplitOnceAfter(Join(lines, '\n'), "\n\n", body);
  }

  /** Well-formed header lines, joined, parse back to the headers they came from. */
  lemma HeaderBlockOfRender(headers: seq<Header>, body: string)
    requires headers != []
    requires forall i :: 0 <= i < |headers| ==> WellFormedHeader(headers[i])
    ensures HeaderBlock(Join(HeaderLines(headers), '\n') + "\n\n" + body) == (Returns(headers), body)
  {
    var lines := HeaderLines(headers);
    HeadersOfHeaderLines(headers);
    SplitAtBlankLine(lines, body);
    SplitJoin(lines, '\n');
  }

  /**
   * Round trip: a well-formed response with at least one header parses back
   * to itself, its body verbatim.
   */
  lemma ParseRender(resp: HttpResponse)
    requires Renderable(resp) && resp.headers != []
    ensures Parse(Render(resp)) == Returns(Ok(resp))
  {
    RenderStatusLine(resp);
    HeaderBlockOfRender(resp.headers, resp.body);
    StatusLineOfRender(resp, resp.headers, resp.body);
  }

  // ---------------------------------------------------------------------
  // The empty header block: as written and as intended
  // ---------------------------------------------------------------------

  /** A body without line feeds holds no `\n\n` after a leading LF. */
  lemma NoBlankLineAfterLf(body: string)
    requires '\n' !in body
    ensures forall j: nat :: !OccursAt("\n" + body, "\n\n", j)
  {
    var s := "\n" + body;
    forall j: nat
      ensures !OccursAt(s, "\n\n", j)
    {
      if j + 2 <= |s| {
        assert s[j..j + 2][1] == s[j + 1] == body[j];
      }
    }
  }

  /**
   * As written, a response with no headers keeps the blank line's LF at the
   * head of its body: `split_once("\n\n")` runs on the text after the status
   * line's own LF, so only that one LF of the blank line is left to match.
   */
  lemma ParseNoHeadersKeepsLf(resp: HttpResponse)
    requires Renderable(resp) && resp.headers == [] && '\n' !in resp.body
    ensures Parse(Render(resp)) == Returns(Ok(resp.(body := "\n" + resp.body)))
  {
    RenderStatusLine(resp);
    var remaining := AfterStatusLine(resp);
    assert remaining == "\n" + resp.body;
    NoBlankLineAfterLf(resp.body);
    StatusLineOfRender(resp, [], "\n" + resp.body);
  }

  /** With no headers and no body, the text is the status line and one blank line. */
  lemma RenderStatusLineOnly(resp: HttpResponse)
    requires resp.headers == [] && resp.body == []
    ensures Render(resp) == StatusLineText(resp) + "\n\n"
  {
  }

  /**
   * A status line followed by a single blank line, such as
   * `HTTP/1.1 200 OK` LF LF, parses to a body of one LF, not an empty one.
   */
  lemma ParseStatusLineOnly(resp: HttpResponse)
    requires Renderable(resp) && resp.headers == [] && resp.body == []
    ensures Parse(Render(resp)) == Returns(Ok(resp.(body := "\n")))
  {
    ParseNoHeadersKeepsLf(resp);
    assert "\n" + resp.body == "\n";
  }

  /** `HTTP/1.1 200 OK` is the status line of a renderable response. */
  lemma OkStatusLine(resp: HttpResponse)
    requires resp == HttpResponse("HTTP/1.1", 200, "OK", [], "")
    ensures Renderable(resp) && StatusLineText(resp) == "HTTP/1.1 200 OK"
  {
    forall i | 0 <= i < |resp.version|
      ensures !IsWhitespace(resp.version[i])
    {
    }
    assert DecimalString(200) == "200";
  }

  /** As written, the text `HTTP/1.1 200 OK` LF LF parses to the body `"\n"`, not to an empty body. */
  lemma ParseStatusLineLiteral()
    ensures Parse("HTTP/1.1 200 OK\n\n") == Returns(Ok(HttpResponse("HTTP/1.1", 200, "OK", [], "\n")))
  {
    var resp := HttpResponse("HTTP/1.1", 200, "OK", [], "");
    OkStatusLine(resp);
    RenderStatusLineOnly(resp);
    assert Render(resp) == "HTTP/1.1 200 OK\n\n";
    ParseStatusLineOnly(resp);
  }

  /**
   * As written, a response with no headers panics as soon as `\n\n` occurs in
   * the text after the status line, an LF followed by the body: that is, when
   * the body holds `\n\n` or starts with an LF. The text starts with an LF,
   * so the first line of the header block is empty, and it has no `:`.
   */
  lemma ParseNoHeadersBlankLinePanics(resp: HttpResponse, k: nat)
    requires Renderable(resp) && resp.headers == []
    requires OccursAt("\n" + resp.body, "\n\n", k)
    ensures Parse(Render(resp)) == Panics(IndexOutOfBounds(1, 1))
  {
    RenderStatusLine(resp);
    HeaderBlockLfPanics(AfterStatusLine(resp), k);
  }

  /** A body that holds `\n\n`, or that starts with an LF, meets the condition above. */
  lemma NoHeadersPanicCases(body: string, k: nat)
    requires OccursAt(body, "\n\n", k) || (k == 0 && body != [] && body[0] == '\n')
    ensures OccursAt("\n" + body, "\n\n", if OccursAt(body, "\n\n", k) then k + 1 else 0)
  {
    if OccursAt(body, "\n\n", k) {
      OccursAtCons('\n', body, "\n\n", k);
    } else {
      assert ("\n" + body)[0..2] == "\n\n";
    }
  }

  /**
   * A text that starts with an LF and holds `\n\n` somewhere reads as header
   * lines whose first one is empty, so the header block panics.
   */
  lemma HeaderBlockLfPanics(remaining: string, k: nat)
    requires remaining != [] && remaining[0] == '\n'
    requires OccursAt(remaining, "\n\n", k)
    ensures HeaderBlock(remaining).0 == Panics(IndexOutOfBounds(1, 1))
  {
    var (h, b) := SplitOnce(remaining, "\n\n").value;
    assert h == [] || h[0] == remaining[0];
    SplitLeadingSeparator(h, '\n');
    HeaderWithoutColonPanics(Split(h, '\n'), 0);
  }

  /**
   * Headers and body with the empty header block read as intended: a blank
   * line right after the status line means no headers and a body that
   * starts after that blank line.
   */
  function HeaderBlockIntended(remaining: string): (Run<seq<Header>>, string)
  {
    if remaining != [] && remaining[0] == '\n' then (Returns([]), remaining[1..])
    else HeaderBlock(remaining)
  }

  /** `HttpResponse::new` with the empty header block read as intended. */
  function ParseIntended(raw: string): Run<Result<HttpResponse, Error>>
  {
    var text := Preprocess(raw);
    match SplitOnceChar(text, '\n')
    case None => Returns(Err(Network("invalid http response: " + text)))
    case Some((statusLine, remaining)) =>
      var (headers, body) := HeaderBlockIntended(remaining);
      Build(statusLine, headers, body)
  }

  /** The intended reading differs from the source only when the header block is empty. */
  lemma ParseIntendedAgrees(raw: string)
    requires SplitOnceChar(Preprocess(raw), '\n').Some?
    requires var remaining := SplitOnceChar(Preprocess(raw), '\n').value.1;
      remaining == [] || remaining[0] != '\n'
    ensures ParseIntended(raw) == Parse(raw)
  {
  }

  /** Round trip of the intended reading: every well-formed response, with or without headers. */
  lemma ParseIntendedRender(resp: HttpResponse)
    requires Renderable(resp)
    ensures ParseIntended(Render(resp)) == Returns(Ok(resp))
  {
    RenderStatusLine(resp);
    HeaderBlockIntendedOfRender(resp);
    StatusLineOfRender(resp, resp.headers, resp.body);
  }

  /** The intended header block of a rendered response is its headers and its body. */
  lemma HeaderBlockIntendedOfRender(resp: HttpResponse)
    requires Renderable(resp)
    ensures HeaderBlockIntended(AfterStatusLine(resp)) == (Returns(resp.headers), resp.body)
  {
    var remaining := AfterStatusLine(resp);
    if resp.headers == [] {
      assert remaining[1..] == resp.body;
    } else {
      var lines := HeaderLines(resp.headers);
      assert remaining[0] != '\n' by {
        JoinNoDoubleSeparator(lines, '\n') by {
          HeadersOfHeaderLines(resp.headers);
        }
        assert remaining[0] == Join(lines, '\n')[0];
      }
      HeaderBlockOfRender(resp.headers, resp.body);
    }
  }
}
