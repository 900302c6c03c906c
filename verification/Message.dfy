/** The HTTP message dialect of the repository (RFC 7230, sections 3.1.1, 3.1.2, 3.2 and
    3.3.2, as far as the code follows them): what each stage of the parser accepts, and how
    a message is printed. The methods that consume a cursor in place are in MessageReader. */
module Message {
  import opened Text
  import opened Numbers

  /** How a stage of the parser ends: with a value, with one of the two exceptions and its
      text, or with `remove_prefix` past the end of the view, which C++ leaves undefined. */
  datatype Parsed<+T> = Ok(value: T) | Expecting(what: string) | Incorrect(what: string) | Undefined {
    predicate IsFailure() {
      !Ok?
    }

    function PropagateFailure<U>(): Parsed<U>
      requires IsFailure()
    {
      match this
      case Expecting(what) => Expecting(what)
      case Incorrect(what) => Incorrect(what)
      case _ => Undefined
    }

    function Extract(): T
      requires Ok?
    {
      value
    }
  }

  datatype Header = Header(name: string, value: string)

  datatype StartLine = StartLine(verb: string, target: string, version: string)

  datatype RequestValue =
    RequestValue(verb: string, target: string, version: string, headers: seq<Header>, body: string)

  datatype ResponceValue =
    ResponceValue(version: string, code: nat, text: string, headers: seq<Header>, body: string)

  /** The array has ten places and nine initializers, so its last element is empty. */
  const METHODS: seq<string> :=
    ["CONNECT", "DELETE", "GET", "HEAD", "OPTIONS", "PATCH", "POST", "PUT", "TRACE", ""]

  const VERSIONS: seq<string> := ["0.9", "1.0", "1.1"]

  const PROTOCOL := "HTTP/"

  const LAST_CODE := 599

  // ---- expectations ----

  function Hint(hint: string, otherwise: string): string {
    if hint == "" then otherwise else hint
  }

  /** Length of the common prefix, unless the text stops inside the expected word. */
  function Expect(expectation: string, reality: string, full: string, hint: string): Parsed<nat> {
    var cur := CommonPrefix(expectation, reality);
    if cur > 0 && cur == |reality| && cur < |expectation| && full == ""
    then Expecting(Hint(hint, expectation))
    else Ok(cur)
  }

  function FindInRange(range: seq<string>, reality: string, full: string, hint: string): Parsed<()> {
    if range == [] then Incorrect(Hint(hint, reality))
    else
      var cur :- Expect(range[0], reality, full, hint);
      if cur == |reality| then Ok(()) else FindInRange(range[1..], reality, full, hint)
  }

  // ---- start lines ----

  function ReadMethod(s: string): Parsed<Step<string>> {
    var t := ReadToken(s);
    var _ :- FindInRange(METHODS, t.value, t.rest, "");
    Ok(t)
  }

  /** What follows the common prefix with "HTTP/" must be a prefix of a known version. */
  function ReadVersion(token: string, rest: string): Parsed<string> {
    var cur :- Expect(PROTOCOL, token, rest, "");
    if cur == 0 then Incorrect("Request protocol")
    else
      var v := token[cur..];
      if v == "" then Expecting("Request protocol version")
      else if |v| > 3 then Incorrect("Request version")
      else
        var _ :- FindInRange(VERSIONS, v, rest, "Request version");
        Ok(v)
  }

  function ReadProtocol(s: string): Parsed<Step<string>> {
    var t := ReadToken(s);
    var v :- ReadVersion(t.value, t.rest);
    Ok(Step(v, t.rest))
  }

  /** One matching character is enough for the comparison; two are removed. */
  function ReadLineEnd(s: string): Parsed<string> {
    var u := SkipSpaces(s);
    var cur :- Expect(CRLF, if |u| < 2 then u else u[..2], u, "");
    if cur == 0 then Incorrect("Start line") else SkipTwo(u)
  }

  /** `remove_prefix(2)`. */
  function SkipTwo(s: string): Parsed<string> {
    if |s| < 2 then Undefined else Ok(s[2..])
  }

  function ReadStartLine(s: string): Parsed<Step<StartLine>> {
    var verb :- ReadMethod(s);
    var target := ReadToken(verb.rest);
    var version :- ReadProtocol(target.rest);
    var rest :- ReadLineEnd(version.rest);
    Ok(Step(StartLine(verb.value, target.value, version.value), rest))
  }

  function ReadCode(s: string): Parsed<Step<nat>> {
    var t := ReadToken(s);
    match Stoul(t.value)
    case None => Incorrect("Cannot convert error code")
    case Some(n) =>
      var code := n % 0x1_0000;
      if code < 60 && t.rest == "" then Expecting("Status code")
      else if code > LAST_CODE then Incorrect("Status code")
      else Ok(Step(code, t.rest))
  }

  function ReadText(s: string): Parsed<Step<string>> {
    var t := SkipSpaces(s);
    match FindCrlf(t)
    case None => Expecting("Start line")
    case Some(cur) => Ok(Step(t[..cur], t[cur + 2..]))
  }

  // ---- headers ----

  /** The only colon of the token is its last character. */
  predicate IsHeaderToken(token: string) {
    && token != ""
    && token[|token| - 1] == ':'
    && forall i :: 0 <= i < |token| - 1 ==> token[i] != ':'
  }

  predicate IsAllowed(names: set<string>, name: string) {
    name in names || "X-" <= name
  }

  predicate HasName(headers: seq<Header>, name: string) {
    exists i :: 0 <= i < |headers| && headers[i].name == name
  }

  function ReadHeader(names: set<string>, seen: seq<Header>, s: string): (r: Parsed<Step<Header>>)
    requires FindCrlf(s).Some?
    ensures r.Ok? ==> |r.value.rest| < |s|
  {
    var t := ReadToken(s);
    if !IsHeaderToken(t.value) then Incorrect("Header name")
    else
      var name := t.value[..|t.value| - 1];
      if !IsAllowed(names, name) then Incorrect("Header name")
      else if HasName(seen, name) then Incorrect("Multiple header use")
      else
        var u := SkipSpaces(t.rest);
        LineEndSurvives(s);
        var cur := FindCrlf(u).value;
        Ok(Step(Header(name, u[..cur]), u[cur + 2..]))
  }

  /** Neither the token nor the blanks around it can run over the end of the line. */
  lemma LineEndSurvives(s: string)
    requires FindCrlf(s).Some?
    ensures FindCrlf(SkipSpaces(ReadToken(s).rest)).Some?
    ensures |SkipSpaces(ReadToken(s).rest)| <= |s|
  {
    ReadTokenIs(s);
    SkipSpacesIs(s);
    var cur := FindCrlf(s).value;
    var k := LeadingSpaces(s);
    assert k <= cur;
    FindCrlfInSuffix(s, k);
    var t := SkipSpaces(s);
    FindCrlfInSuffix(t, TokenLength(t));
    var u := ReadToken(s).rest;
    SkipSpacesIs(u);
    FindCrlfInSuffix(u, LeadingSpaces(u));
  }

  /** Reads header lines until the text starts with CRLF or holds no CRLF any more. In the
      second case a non-empty remainder is returned as if the block had ended there. */
  function ReadHeaders(names: set<string>, seen: seq<Header>, s: string): Parsed<Step<seq<Header>>>
    decreases |s|
  {
    match FindCrlf(s)
    case None => if s == "" then Expecting("Header") else Ok(Step(seen, s))
    case Some(cur) =>
      if cur == 0 then Ok(Step(seen, s))
      else
        var line :- ReadHeader(names, seen, s);
        ReadHeaders(names, seen + [line.value], line.rest)
  }

  // ---- body ----

  predicate DeclaresLength(h: Header) {
    h.name == "Content-Length" || h.name == "Transfer-Encoding"
  }

  /** The first header that declares a length. */
  function LengthHeader(headers: seq<Header>): (r: Option<Header>)
    ensures r.Some? ==> DeclaresLength(r.value) && r.value in headers
    ensures r.None? <==> forall i :: 0 <= i < |headers| ==> !DeclaresLength(headers[i])
  {
    if headers == [] then None
    else if DeclaresLength(headers[0]) then Some(headers[0])
    else LengthHeader(headers[1..])
  }

  function ReadBody(headers: seq<Header>, s: string): Parsed<string> {
    match LengthHeader(headers)
    case None => if s == "" then Ok("") else Incorrect("Body exists, but no content length found")
    case Some(h) =>
      match Stoul(h.value)
      case None => Incorrect("Content length")
      case Some(size) =>
        if |s| < size then Expecting("Body")
        else if |s| > size then Incorrect("Size of body")
        else Ok(s)
  }

  // ---- whole messages ----

  /** The part behind a start line: header block, two more bytes, body. */
  function ReadRest(names: set<string>, s: string): Parsed<(seq<Header>, string)> {
    var headers :- ReadHeaders(names, [], s);
    var rest :- SkipTwo(headers.rest);
    var body :- ReadBody(headers.value, rest);
    Ok((headers.value, body))
  }

  function ParseRequest(names: set<string>, s: string): Parsed<RequestValue> {
    var line :- ReadStartLine(s);
    var (headers, body) :- ReadRest(names, line.rest);
    Ok(RequestValue(line.value.verb, line.value.target, line.value.version, headers, body))
  }

  function ParseResponce(names: set<string>, s: string): Parsed<ResponceValue> {
    var version :- ReadProtocol(s);
    var code :- ReadCode(version.rest);
    var text :- ReadText(code.rest);
    var (headers, body) :- ReadRest(names, text.rest);
    Ok(ResponceValue(version.value, code.value, text.value, headers, body))
  }

  // ---- printing ----

  function PrintHeader(h: Header): string {
    h.name + ": " + h.value + CRLF
  }

  function PrintHeaders(headers: seq<Header>): string {
    if headers == [] then "" else PrintHeader(headers[0]) + PrintHeaders(headers[1..])
  }

  function PrintRest(headers: seq<Header>, body: string): string {
    PrintHeaders(headers) + (CRLF + body)
  }

  function PrintStartLine(line: StartLine): string {
    line.verb + (" " + (line.target + (" " + (PROTOCOL + line.version + CRLF))))
  }

  function LineOf(r: RequestValue): StartLine {
    StartLine(r.verb, r.target, r.version)
  }

  function PrintRequest(r: RequestValue): string {
    PrintStartLine(LineOf(r)) + PrintRest(r.headers, r.body)
  }

  function PrintStatusLine(r: ResponceValue): string {
    PROTOCOL + r.version + (" " + (ToDecimal(r.code) + (" " + (r.text + CRLF))))
  }

  function PrintResponce(r: ResponceValue): string {
    PrintStatusLine(r) + PrintRest(r.headers, r.body)
  }
}
