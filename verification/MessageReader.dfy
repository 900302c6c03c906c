/** The parser and the printer as the repository runs them: a cursor consumed in place, loops
    over it, and message objects whose fields are assigned stage by stage. Each method is tied
    to the stage functions of Message. */
module MessageReader {
  import opened Text
  import opened Numbers
  import opened Message

  const REQUEST_HEADER_NAMES: set<string> := {
    "A-IM", "Accept", "Accept-Charset", "Accept-Control-Request-Headers", "Accept-Control-Request-Method",
    "Accept-DateTime", "Accept-Encoding", "Accept-Language", "Authorization", "Cache-Control", "Connection",
    "Content-Encoding", "Content-Length", "Content-MD5", "Content-Type", "Cookie", "DNT", "Date", "Expect",
    "Forwarded", "From", "Front-End-Https", "HTTP2-Settings", "Host", "If-Match", "If-Modified-Since",
    "If-None-Match", "If-Unmodified-Since", "IfRange", "Max-Forward", "Origin", "Pragma",
    "Proxy-Authorization", "Proxy-Connection", "Range", "Referer", "Save-Data", "TE", "Trailer",
    "Transfer-Encoding", "Upgrade", "Upgrade-Insecure-Requests", "User-Agent", "Via", "Warning"
  }

  const RESPONCE_HEADER_NAMES: set<string> := {
    "Accept-Patch", "Accept-Ranges", "Access-Control-Allow-Headers", "Access-Control-Allow-Methods",
    "Access-Control-Allow-Origin", "Access-Control-AllowCredentials", "Access-Control-Expose-Headers",
    "Access-Control-Max-Age", "Age", "Allow", "Alt-Svc", "Cache-Control", "Connection",
    "Content-Disposition", "Content-Encoding", "Content-Language", "Content-Length", "Content-Locationg",
    "Content-MD5", "Content-Range", "Content-Security-Policy", "Content-Type", "Date", "Delta-Base", "ETag",
    "Expires", "IM", "Last-Modified", "Link", "Location", "P3P", "Pragma", "Proxy-Authenticate",
    "Public-Key-Pins", "Refresh", "Retry-After", "Server", "Set-Cookie", "Status",
    "Strict-Transport-Security", "Timing-Allow-Origin", "Tk", "Trailer", "Transfer-Encoding", "Upgrade",
    "Vary", "Via", "WWW-Authenticate", "Warning"
  }

  /** A `std::string_view` that is passed by reference and shortened from the front. */
  class StringView {
    var rest: string

    constructor (text: string)
      ensures rest == text
    {
      rest := text;
    }
  }

  /** The cursor version of a stage ends like the stage, and stands where the stage stops. */
  ghost predicate Agrees<T(!new)>(stage: Parsed<Step<T>>, r: Parsed<T>, rest: string) {
    match stage
    case Ok(step) => r == Ok(step.value) && rest == step.rest
    case Expecting(what) => r == Expecting(what)
    case Incorrect(what) => r == Incorrect(what)
    case Undefined => r == Undefined
  }

  method LeftStrip(sv: StringView)
    modifies sv
    ensures sv.rest == SkipSpaces(old(sv.rest))
  {
    while sv.rest != "" && IsSpace(sv.rest[0])
      invariant SkipSpaces(sv.rest) == SkipSpaces(old(sv.rest))
      decreases |sv.rest|
    {
      sv.rest := sv.rest[1..];
    }
  }

  method TakeToken(sv: StringView) returns (token: string)
    modifies sv
    ensures Step(token, sv.rest) == ReadToken(old(sv.rest))
  {
    ReadTokenIs(sv.rest);
    LeftStrip(sv);
    var pos := TokenLength(sv.rest);
    token := sv.rest[..pos];
    sv.rest := sv.rest[pos..];
  }

  method Mismatch(lhs: string, rhs: string) returns (n: nat)
    ensures n <= |lhs| && n <= |rhs| && lhs[..n] == rhs[..n]
    ensures n < |lhs| && n < |rhs| ==> lhs[n] != rhs[n]
    ensures n == CommonPrefix(lhs, rhs)
  {
    n := 0;
    while n < |lhs| && n < |rhs| && lhs[n] == rhs[n]
      invariant n <= |lhs| && n <= |rhs| && lhs[..n] == rhs[..n]
      invariant n + CommonPrefix(lhs[n..], rhs[n..]) == CommonPrefix(lhs, rhs)
    {
      assert lhs[n..][1..] == lhs[n + 1..] && rhs[n..][1..] == rhs[n + 1..];
      n := n + 1;
    }
  }

  method ExpectWord(expectation: string, reality: string, full: string, hint: string) returns (r: Parsed<nat>)
    ensures r == Expect(expectation, reality, full, hint)
  {
    var cur := Mismatch(expectation, reality);
    if cur > 0 && cur == |reality| && cur < |expectation| && full == "" {
      return Expecting(Hint(hint, expectation));
    }
    return Ok(cur);
  }

  method ExpectToFindInRange(range: seq<string>, reality: string, full: string, hint: string) returns (r: Parsed<()>)
    ensures r == FindInRange(range, reality, full, hint)
  {
    for i := 0 to |range|
      invariant FindInRange(range[i..], reality, full, hint) == FindInRange(range, reality, full, hint)
    {
      assert range[i..][1..] == range[i + 1..];
      var cur :- ExpectWord(range[i], reality, full, hint);
      if cur == |reality| {
        return Ok(());
      }
    }
    return Incorrect(Hint(hint, reality));
  }

  method ParseProtocol(sv: StringView) returns (r: Parsed<string>)
    modifies sv
    ensures Agrees(ReadProtocol(old(sv.rest)), r, sv.rest)
  {
    hide FindInRange, CommonPrefix, ReadToken;
    var token := TakeToken(sv);
    var cur :- ExpectWord(PROTOCOL, token, sv.rest, "");
    if cur == 0 {
      return Incorrect("Request protocol");
    }
    token := token[cur..];
    if token == "" {
      return Expecting("Request protocol version");
    }
    if |token| > 3 {
      return Incorrect("Request version");
    }
    var _ :- ExpectToFindInRange(VERSIONS, token, sv.rest, "Request version");
    return Ok(token);
  }

  method ParseHeader(names: set<string>, seen: seq<Header>, sv: StringView) returns (r: Parsed<Header>)
    requires FindCrlf(sv.rest).Some?
    modifies sv
    ensures Agrees(ReadHeader(names, seen, old(sv.rest)), r, sv.rest)
  {
    hide IsAllowed, ReadToken, SkipSpaces;
    ghost var before := sv.rest;
    LineEndSurvives(before);
    var token := TakeToken(sv);
    if !IsHeaderToken(token) {
      return Incorrect("Header name");
    }
    token := token[..|token| - 1];
    if !IsAllowed(names, token) {
      return Incorrect("Header name");
    }
    var used := ContainsName(seen, token);
    if used {
      return Incorrect("Multiple header use");
    }
    LeftStrip(sv);
    var cur := FindCrlf(sv.rest).value;
    var h := Header(token, sv.rest[..cur]);
    sv.rest := sv.rest[cur + 2..];
    return Ok(h);
  }

  method ContainsName(headers: seq<Header>, name: string) returns (found: bool)
    ensures found == HasName(headers, name)
  {
    for i := 0 to |headers|
      invariant !HasName(headers[..i], name)
    {
      if headers[i].name == name {
        return true;
      }
    }
    assert headers[..|headers|] == headers;
    return false;
  }

  method ParseHeaders(names: set<string>, sv: StringView) returns (r: Parsed<seq<Header>>)
    modifies sv
    ensures Agrees(ReadHeaders(names, [], old(sv.rest)), r, sv.rest)
  {
    hide ReadHeader;
    var headers := [];
    var cur := FindCrlf(sv.rest);
    while cur.Some?
      invariant cur == FindCrlf(sv.rest)
      invariant ReadHeaders(names, headers, sv.rest) == ReadHeaders(names, [], old(sv.rest))
      decreases |sv.rest|
    {
      if cur.value == 0 {
        break;
      }
      var h :- ParseHeader(names, headers, sv);
      headers := headers + [h];
      cur := FindCrlf(sv.rest);
    }
    if cur.None? && sv.rest == "" {
      return Expecting("Header");
    }
    return Ok(headers);
  }

  method ParseBody(headers: seq<Header>, sv: StringView) returns (r: Parsed<string>)
    ensures r == ReadBody(headers, sv.rest)
  {
    var it := LengthHeader(headers);
    if it.Some? {
      var size := Stoul(it.value.value);
      if size.None? {
        return Incorrect("Content length");
      }
      if |sv.rest| < size.value {
        return Expecting("Body");
      } else if |sv.rest| > size.value {
        return Incorrect("Size of body");
      }
      return Ok(sv.rest);
    } else if sv.rest != "" {
      return Incorrect("Body exists, but no content length found");
    }
    return Ok("");
  }

  method PrintAll(headers: seq<Header>) returns (result: string)
    ensures result == PrintHeaders(headers)
  {
    result := "";
    for i := 0 to |headers|
      invariant result + PrintHeaders(headers[i..]) == PrintHeaders(headers)
    {
      assert headers[i..][1..] == headers[i + 1..];
      result := result + PrintHeader(headers[i]);
    }
  }

  /** The fields of a request object after `parse`, which throws in the middle and leaves the
      stages behind the throw alone. */
  function AssignedRequest(names: set<string>, before: RequestValue, s: string): RequestValue {
    match ReadMethod(s)
    case Ok(verb) =>
      var target := ReadToken(verb.rest);
      var a := before.(verb := verb.value, target := target.value);
      (match ReadProtocol(target.rest)
       case Ok(version) =>
         var b := a.(version := version.value);
         (match ReadLineEnd(version.rest)
          case Ok(rest) => AssignedRest(names, b, rest)
          case _ => b)
       case _ => a)
    case _ => before
  }

  function AssignedRest(names: set<string>, before: RequestValue, s: string): RequestValue {
    match ReadHeaders(names, [], s)
    case Ok(headers) =>
      var a := before.(headers := headers.value);
      (match SkipTwo(headers.rest)
       case Ok(rest) =>
         (match ReadBody(headers.value, rest)
          case Ok(body) => a.(body := body)
          case _ => a)
       case _ => a)
    case _ => before
  }

  class Request {
    var verb: string
    var target: string
    var version: string
    var headers: seq<Header>
    var body: string

    function Value(): RequestValue
      reads this
    {
      RequestValue(verb, target, version, headers, body)
    }

    constructor ()
      ensures Value() == RequestValue("", "", "", [], "")
    {
      verb, target, version, headers, body := "", "", "", [], "";
    }

    method Str() returns (result: string)
      ensures result == PrintRequest(Value())
    {
      result := verb + " " + target + " " + PROTOCOL + version + CRLF;
      var lines := PrintAll(headers);
      result := result + lines;
      result := result + CRLF;
      result := result + body;
    }

    method Parse(text: string) returns (r: Parsed<()>)
      modifies this
      ensures Value() == AssignedRequest(REQUEST_HEADER_NAMES, old(Value()), text)
      ensures match ParseRequest(REQUEST_HEADER_NAMES, text) {
                case Ok(v) => r == Ok(()) && Value() == v
                case Expecting(what) => r == Expecting(what)
                case Incorrect(what) => r == Incorrect(what)
                case Undefined => r == Undefined
              }
    {
      hide ReadRest, AssignedRest, FindInRange, ReadProtocol, Expect, ReadToken, SkipSpaces, REQUEST_HEADER_NAMES;
      var sv := new StringView(text);
      var token := TakeToken(sv);
      var _ :- ExpectToFindInRange(METHODS, token, sv.rest, "");
      verb := token;
      target := TakeToken(sv);
      version :- ParseProtocol(sv);
      LeftStrip(sv);
      token := if |sv.rest| < 2 then sv.rest else sv.rest[..2];
      var cur :- ExpectWord(CRLF, token, sv.rest, "");
      if cur == 0 {
        return Incorrect("Start line");
      }
      if |sv.rest| < 2 {
        return Undefined;
      }
      sv.rest := sv.rest[2..];
      r := ParseRest(sv);
    }

    /** Header block and body, which a request shares with a response. */
    method ParseRest(sv: StringView) returns (r: Parsed<()>)
      modifies this`headers, this`body, sv
      ensures Value() == AssignedRest(REQUEST_HEADER_NAMES, old(Value()), old(sv.rest))
      ensures match ReadRest(REQUEST_HEADER_NAMES, old(sv.rest)) {
                case Ok(v) => r == Ok(()) && Value() == old(Value()).(headers := v.0, body := v.1)
                case Expecting(what) => r == Expecting(what)
                case Incorrect(what) => r == Incorrect(what)
                case Undefined => r == Undefined
              }
    {
      hide ReadHeaders, ReadBody, REQUEST_HEADER_NAMES;
      headers :- ParseHeaders(REQUEST_HEADER_NAMES, sv);
      if |sv.rest| < 2 {
        return Undefined;
      }
      sv.rest := sv.rest[2..];
      body :- ParseBody(headers, sv);
      return Ok(());
    }
  }

  function AssignedResponce(names: set<string>, before: ResponceValue, s: string): ResponceValue {
    match ReadProtocol(s)
    case Ok(version) =>
      var a := before.(version := version.value, code := AssignedCode(before.code, version.rest));
      (match ReadCode(version.rest)
       case Ok(code) =>
         (match ReadText(code.rest)
          case Ok(text) => AssignedResponceRest(names, a.(text := text.value), text.rest)
          case _ => a)
       case _ => a)
    case _ => before
  }

  /** The code is assigned before it is checked. */
  function AssignedCode(before: nat, s: string): nat {
    match Stoul(ReadToken(s).value)
    case None => before
    case Some(n) => n % 0x1_0000
  }

  function AssignedResponceRest(names: set<string>, before: ResponceValue, s: string): ResponceValue {
    match ReadHeaders(names, [], s)
    case Ok(headers) =>
      var a := before.(headers := headers.value);
      (match SkipTwo(headers.rest)
       case Ok(rest) =>
         (match ReadBody(headers.value, rest)
          case Ok(body) => a.(body := body)
          case _ => a)
       case _ => a)
    case _ => before
  }

  class Responce {
    var version: string
    var code: nat
    var text: string
    var headers: seq<Header>
    var body: string

    function Value(): ResponceValue
      reads this
    {
      ResponceValue(version, code, text, headers, body)
    }

    constructor ()
      ensures Value() == ResponceValue("", 0, "", [], "")
    {
      version, code, text, headers, body := "", 0, "", [], "";
    }

    method Str() returns (result: string)
      ensures result == PrintResponce(Value())
    {
      result := PROTOCOL + version + " " + ToDecimal(code) + " " + text + CRLF;
      var lines := PrintAll(headers);
      result := result + lines;
      result := result + CRLF;
      result := result + body;
    }

    method Parse(responce: string) returns (r: Parsed<()>)
      modifies this
      ensures Value() == AssignedResponce(RESPONCE_HEADER_NAMES, old(Value()), responce)
      ensures match ParseResponce(RESPONCE_HEADER_NAMES, responce) {
                case Ok(v) => r == Ok(()) && Value() == v
                case Expecting(what) => r == Expecting(what)
                case Incorrect(what) => r == Incorrect(what)
                case Undefined => r == Undefined
              }
    {
      hide ReadRest, AssignedResponceRest, ReadProtocol, ReadToken, SkipSpaces, FindCrlf, Stoul, RESPONCE_HEADER_NAMES;
      var sv := new StringView(responce);
      version :- ParseProtocol(sv);
      var token := TakeToken(sv);
      var number := Stoul(token);
      if number.None? {
        return Incorrect("Cannot convert error code");
      }
      code := number.value % 0x1_0000;
      if code < 60 && sv.rest == "" {
        return Expecting("Status code");
      }
      if code > LAST_CODE {
        return Incorrect("Status code");
      }
      LeftStrip(sv);
      var cur := FindCrlf(sv.rest);
      if cur.None? {
        return Expecting("Start line");
      }
      text := sv.rest[..cur.value];
      sv.rest := sv.rest[cur.value + 2..];
      r := ParseRest(sv);
    }

    method ParseRest(sv: StringView) returns (r: Parsed<()>)
      modifies this`headers, this`body, sv
      ensures Value() == AssignedResponceRest(RESPONCE_HEADER_NAMES, old(Value()), old(sv.rest))
      ensures match ReadRest(RESPONCE_HEADER_NAMES, old(sv.rest)) {
                case Ok(v) => r == Ok(()) && Value() == old(Value()).(headers := v.0, body := v.1)
                case Expecting(what) => r == Expecting(what)
                case Incorrect(what) => r == Incorrect(what)
                case Undefined => r == Undefined
              }
    {
      hide ReadHeaders, ReadBody, RESPONCE_HEADER_NAMES;
      headers :- ParseHeaders(RESPONCE_HEADER_NAMES, sv);
      if |sv.rest| < 2 {
        return Undefined;
      }
      sv.rest := sv.rest[2..];
      body :- ParseBody(headers, sv);
      return Ok(());
    }
  }
}
