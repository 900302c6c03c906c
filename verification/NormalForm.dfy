/** Printing and parsing are inverse on exactly the messages the parser can produce. */
module NormalForm {
  import opened Text
  import opened Numbers
  import opened Message
  import opened Words

  // ---- what the parser can produce ----

  predicate GoodVerb(verb: string) {
    verb != "" && IsPrefixOfSome(METHODS, verb)
  }

  predicate GoodVersion(version: string) {
    version != "" && IsPrefixOfSome(VERSIONS, version)
  }

  /** A status text or a header value: one line, no blank in front. */
  predicate GoodLine(v: string) {
    (v == "" || !IsSpace(v[0])) && !HasCrlf(v)
  }

  predicate GoodHeader(names: set<string>, h: Header) {
    && IsAllowed(names, h.name)
    && IsToken(h.name + ":")
    && ':' !in h.name
    && GoodLine(h.value)
  }

  predicate GoodHeaders(names: set<string>, headers: seq<Header>) {
    && (forall i :: 0 <= i < |headers| ==> GoodHeader(names, headers[i]))
    && (forall i, j :: 0 <= i < j < |headers| ==> headers[i].name != headers[j].name)
  }

  predicate GoodBody(headers: seq<Header>, body: string) {
    match LengthHeader(headers)
    case None => body == ""
    case Some(h) => Stoul(h.value) == Some(|body|)
  }

  predicate GoodRequest(names: set<string>, r: RequestValue) {
    && GoodVerb(r.verb)
    && IsToken(r.target)
    && GoodVersion(r.version)
    && GoodHeaders(names, r.headers)
    && GoodBody(r.headers, r.body)
  }

  predicate GoodResponce(names: set<string>, r: ResponceValue) {
    && GoodVersion(r.version)
    && r.code <= LAST_CODE
    && GoodLine(r.text)
    && GoodHeaders(names, r.headers)
    && GoodBody(r.headers, r.body)
  }

  // ---- one stage at a time: the image ----

  /** Once a token is empty every later token is empty. */
  lemma StuckAtCr(s: string)
    requires s == "" || s[0] == '\r'
    ensures ReadToken(s) == Step("", s)
  {
  }

  lemma MethodImage(s: string)
    requires ReadMethod(s).Ok?
    ensures var t := ReadMethod(s).value;
            && t == ReadToken(s)
            && (t.value != "" ==> GoodVerb(t.value))
            && (t.value == "" ==> t.rest == "" || t.rest[0] == '\r')
  {
    hide FindInRange;
    ReadTokenShape(s);
    var t := ReadToken(s);
    if t.value != "" {
      FindInRangeDecides(METHODS, t.value, t.rest, "");
    }
  }

  lemma VersionImage(token: string, rest: string)
    requires ReadVersion(token, rest).Ok?
    ensures GoodVersion(ReadVersion(token, rest).value) && token != ""
  {
    hide FindInRange;
    var v := token[CommonPrefix(PROTOCOL, token)..];
    FindInRangeDecides(VERSIONS, v, rest, "Request version");
  }

  lemma ProtocolImage(s: string)
    requires ReadProtocol(s).Ok?
    ensures GoodVersion(ReadProtocol(s).value.value)
    ensures s != "" && s[0] != '\r'
    ensures ReadProtocol(s).value.rest == ReadToken(s).rest
  {
    hide ReadVersion, ReadToken, GoodVersion;
    VersionImage(ReadToken(s).value, ReadToken(s).rest);
    if s == "" || s[0] == '\r' {
      StuckAtCr(s);
    }
  }

  lemma StartLineImage(s: string)
    requires ReadStartLine(s).Ok?
    ensures var line := ReadStartLine(s).value.value;
            GoodVerb(line.verb) && IsToken(line.target) && GoodVersion(line.version)
  {
    hide ReadToken, ReadProtocol, ReadMethod, ReadLineEnd, GoodVerb, GoodVersion, IsToken;
    var verb := ReadMethod(s).value;
    var target := ReadToken(verb.rest);
    MethodImage(s);
    ReadTokenShape(verb.rest);
    ProtocolImage(target.rest);
    if verb.rest == "" || verb.rest[0] == '\r' {
      StuckAtCr(verb.rest);
      assert false;
    }
  }

  lemma LineImage(s: string)
    requires FindCrlf(SkipSpaces(s)).Some?
    ensures var u := SkipSpaces(s); GoodLine(u[..FindCrlf(u).value])
  {
    var u := SkipSpaces(s);
    NoCrlfInPrefix(u, FindCrlf(u).value);
  }

  lemma HeaderImage(names: set<string>, seen: seq<Header>, s: string)
    requires FindCrlf(s).Some? && ReadHeader(names, seen, s).Ok?
    ensures var h := ReadHeader(names, seen, s).value.value;
            GoodHeader(names, h) && !HasName(seen, h.name)
  {
    hide ReadToken, SkipSpaces, GoodLine, IsAllowed, HasName, IsToken;
    var t := ReadToken(s);
    var name := t.value[..|t.value| - 1];
    ReadTokenShape(s);
    assert name + ":" == t.value;
    LineEndSurvives(s);
    LineImage(t.rest);
  }

  lemma {:induction false} HeadersImage(names: set<string>, seen: seq<Header>, s: string)
    requires GoodHeaders(names, seen)
    ensures var r := ReadHeaders(names, seen, s); r.Ok? ==> GoodHeaders(names, r.value.value)
    decreases |s|
  {
    var cur := FindCrlf(s);
    if cur.Some? && cur.value != 0 && ReadHeader(names, seen, s).Ok? {
      var line := ReadHeader(names, seen, s).value;
      HeaderImage(names, seen, s);
      HeadersImage(names, seen + [line.value], line.rest);
    }
  }

  lemma BodyImage(headers: seq<Header>, s: string)
    ensures var r := ReadBody(headers, s); r.Ok? ==> GoodBody(headers, r.value)
  {
  }

  lemma RestImage(names: set<string>, s: string)
    requires ReadRest(names, s).Ok?
    ensures GoodHeaders(names, ReadRest(names, s).value.0)
    ensures GoodBody(ReadRest(names, s).value.0, ReadRest(names, s).value.1)
  {
    hide ReadHeaders, ReadBody, GoodHeaders, GoodBody;
    HeadersImage(names, [], s);
    var headers := ReadHeaders(names, [], s).value;
    BodyImage(headers.value, SkipTwo(headers.rest).value);
  }

  /** Every accepted request is well formed. */
  lemma RequestImage(names: set<string>, s: string)
    requires ParseRequest(names, s).Ok?
    ensures GoodRequest(names, ParseRequest(names, s).value)
  {
    hide ReadStartLine, ReadRest, GoodVerb, IsToken, GoodVersion, GoodHeaders, GoodBody;
    StartLineImage(s);
    RestImage(names, ReadStartLine(s).value.rest);
  }

  lemma CodeImage(s: string)
    ensures ReadCode(s).Ok? ==> ReadCode(s).value.value <= LAST_CODE
  {
    hide Stoul, ReadToken;
  }

  lemma TextImage(s: string)
    ensures ReadText(s).Ok? ==> GoodLine(ReadText(s).value.value)
  {
    if FindCrlf(SkipSpaces(s)).Some? {
      LineImage(s);
    }
  }

  /** Every accepted response is well formed. */
  lemma ResponceImage(names: set<string>, s: string)
    requires ParseResponce(names, s).Ok?
    ensures GoodResponce(names, ParseResponce(names, s).value)
  {
    hide ReadProtocol, ReadCode, ReadText, ReadRest, GoodVersion, GoodLine, GoodHeaders, GoodBody;
    ProtocolImage(s);
    var version := ReadProtocol(s).value;
    CodeImage(version.rest);
    var code := ReadCode(version.rest).value;
    TextImage(code.rest);
    RestImage(names, ReadText(code.rest).value.rest);
  }

  // ---- one stage at a time: reading back what was printed ----

  lemma VersionOfPrinted(blanks: string, version: string, rest: string)
    requires forall i :: 0 <= i < |blanks| ==> IsSpace(blanks[i])
    requires GoodVersion(version)
    requires rest != "" && EndsToken(rest[0])
    ensures ReadProtocol(blanks + (PROTOCOL + version) + rest) == Ok(Step(version, rest))
  {
    VersionsAreWords();
    PrefixIsToken(VERSIONS, version);
    var token := PROTOCOL + version;
    assert forall i :: 0 <= i < |token| ==> token[i] == if i < 5 then PROTOCOL[i] else version[i - 5];
    assert IsToken(token);
    ReadTokenOf(blanks, token, rest);
    CommonPrefixOfExtension(PROTOCOL, version);
    assert token[5..] == version;
    FindInRangeDecides(VERSIONS, version, rest, "Request version");
  }

  lemma LineEndOfPrinted(rest: string)
    ensures ReadLineEnd(CRLF + rest) == Ok(rest)
  {
    var s := CRLF + rest;
    assert SkipSpaces(s) == s;
    assert s[..2] == CRLF && s[2..] == rest;
    CommonPrefixOfExtension(CRLF, "");
    assert CRLF + "" == CRLF;
  }

  lemma VerbIsRead(verb: string, rest: string)
    requires GoodVerb(verb) && rest != "" && EndsToken(rest[0])
    ensures ReadMethod(verb + rest) == Ok(Step(verb, rest))
  {
    hide FindInRange, ReadToken;
    MethodsAreWords();
    PrefixIsToken(METHODS, verb);
    ReadTokenOf("", verb, rest);
    assert "" + verb + rest == verb + rest;
    FindInRangeDecides(METHODS, verb, rest, "");
  }

  lemma StartLineParts(line: StartLine, rest: string)
    ensures PrintStartLine(line) + rest
            == line.verb + (" " + line.target + (" " + (PROTOCOL + line.version) + (CRLF + rest)))
  {
  }

  lemma StartLineOfPrinted(line: StartLine, rest: string)
    requires GoodVerb(line.verb) && IsToken(line.target) && GoodVersion(line.version)
    ensures ReadStartLine(PrintStartLine(line) + rest) == Ok(Step(line, rest))
  {
    hide ReadMethod, ReadToken, ReadProtocol, ReadLineEnd, PrintStartLine, GoodVerb, GoodVersion, IsToken;
    StartLineParts(line, rest);
    var s3 := CRLF + rest;
    var s2 := " " + (PROTOCOL + line.version) + s3;
    VerbIsRead(line.verb, " " + line.target + s2);
    ReadTokenOf(" ", line.target, s2);
    VersionOfPrinted(" ", line.version, s3);
    LineEndOfPrinted(rest);
  }

  lemma ValueOfPrinted(value: string, rest: string)
    requires GoodLine(value)
    ensures var tail := value + CRLF + rest;
            && SkipSpaces(" " + tail) == tail
            && FindCrlf(tail) == Some(|value|)
            && tail[..|value|] == value && tail[|value| + 2..] == rest
  {
    var tail := value + CRLF + rest;
    assert tail[0] == if value == "" then '\r' else value[0];
    SkipSpacesOf(" ", tail);
    FindCrlfAfter(value, rest);
  }

  lemma HeaderOfPrinted(names: set<string>, seen: seq<Header>, h: Header, rest: string)
    requires GoodHeader(names, h) && !HasName(seen, h.name)
    ensures var s := PrintHeader(h) + rest;
            && FindCrlf(s).Some? && FindCrlf(s).value != 0
            && ReadHeader(names, seen, s) == Ok(Step(h, rest))
  {
    hide IsAllowed, HasName, SkipSpaces, TokenLength, FindCrlf, GoodLine;
    var token := h.name + ":";
    var tail := h.value + CRLF + rest;
    PrintedLineHasEnd(h, rest);
    assert ReadToken(PrintHeader(h) + rest) == Step(token, " " + tail) by {
      assert PrintHeader(h) + rest == "" + token + (" " + tail);
      ReadTokenOf("", token, " " + tail);
    }
    ValueOfPrinted(h.value, rest);
    assert token[..|token| - 1] == h.name;
  }

  lemma PrintedLineHasEnd(h: Header, rest: string)
    requires IsToken(h.name + ":")
    ensures var r := FindCrlf(PrintHeader(h) + rest); r.Some? && r.value != 0
  {
    var token := h.name + ":";
    var s := PrintHeader(h) + rest;
    var k := |h.name| + 2 + |h.value|;
    assert s == h.name + (": " + (h.value + (CRLF + rest)));
    assert s[k] == '\r' && s[k + 1] == '\n';
    assert IsCrlfAt(s, k);
    assert s[0] == token[0] by {
      assert h.name != "" ==> s[0] == h.name[0] == token[0];
    }
  }

  /** Printed header lines are read one by one, whatever follows them. */
  lemma {:induction false} HeadersOfPrinted(names: set<string>, seen: seq<Header>, headers: seq<Header>, tail: string)
    requires GoodHeaders(names, seen + headers)
    ensures ReadHeaders(names, seen, PrintHeaders(headers) + tail) == ReadHeaders(names, seen + headers, tail)
    decreases |headers|
  {
    hide GoodHeader, ReadHeader, FindCrlf, PrintHeader;
    if headers == [] {
      assert PrintHeaders(headers) + tail == tail && seen + headers == seen;
    } else {
      var h := headers[0];
      var more := PrintHeaders(headers[1..]) + tail;
      assert PrintHeaders(headers) + tail == PrintHeader(h) + more;
      assert h == (seen + headers)[|seen|];
      assert forall i :: 0 <= i < |seen| ==> seen[i] == (seen + headers)[i];
      HeaderOfPrinted(names, seen, h, more);
      assert seen + headers == seen + [h] + headers[1..];
      HeadersOfPrinted(names, seen + [h], headers[1..], tail);
    }
  }

  lemma BlankLineEndsHeaders(names: set<string>, seen: seq<Header>, rest: string)
    ensures ReadHeaders(names, seen, CRLF + rest) == Ok(Step(seen, CRLF + rest))
  {
    assert IsCrlfAt(CRLF + rest, 0);
    FindCrlfUnique(CRLF + rest, 0);
  }

  lemma RestOfPrinted(names: set<string>, headers: seq<Header>, body: string)
    requires GoodHeaders(names, headers) && GoodBody(headers, body)
    ensures ReadRest(names, PrintRest(headers, body)) == Ok((headers, body))
  {
    assert [] + headers == headers;
    HeadersOfPrinted(names, [], headers, CRLF + body);
    BlankLineEndsHeaders(names, headers, body);
    assert (CRLF + body)[2..] == body;
  }

  // ---- the main results ----

  /** Parsing inverts printing on exactly the well-formed requests. */
  lemma RequestRoundTrip(names: set<string>, r: RequestValue)
    ensures ParseRequest(names, PrintRequest(r)) == Ok(r) <==> GoodRequest(names, r)
  {
    hide ParseRequest, GoodRequest, PrintRequest;
    if ParseRequest(names, PrintRequest(r)) == Ok(r) {
      RequestImage(names, PrintRequest(r));
    }
    if GoodRequest(names, r) {
      PrintedRequestIsRead(names, r);
    }
  }

  lemma PrintedRequestIsRead(names: set<string>, r: RequestValue)
    requires GoodRequest(names, r)
    ensures ParseRequest(names, PrintRequest(r)) == Ok(r)
  {
    hide ReadStartLine, PrintStartLine, ReadRest, PrintRest, GoodVerb, IsToken, GoodVersion, GoodHeaders, GoodBody;
    StartLineOfPrinted(LineOf(r), PrintRest(r.headers, r.body));
    RestOfPrinted(names, r.headers, r.body);
  }

  /** Printing an accepted request and parsing it again gives the same request. */
  lemma RequestNormalForm(names: set<string>, s: string)
    requires ParseRequest(names, s).Ok?
    ensures ParseRequest(names, PrintRequest(ParseRequest(names, s).value)) == ParseRequest(names, s)
  {
    RequestImage(names, s);
    RequestRoundTrip(names, ParseRequest(names, s).value);
  }

  /** The printed form determines the request. */
  lemma PrintRequestInjective(names: set<string>, a: RequestValue, b: RequestValue)
    requires GoodRequest(names, a) && GoodRequest(names, b)
    requires PrintRequest(a) == PrintRequest(b)
    ensures a == b
  {
    RequestRoundTrip(names, a);
    RequestRoundTrip(names, b);
  }

  lemma CodeOfPrinted(code: nat, rest: string)
    requires code <= LAST_CODE
    requires rest != "" && EndsToken(rest[0])
    ensures ReadCode(" " + ToDecimal(code) + rest) == Ok(Step(code, rest))
  {
    hide Stoul, ReadToken, ToDecimal;
    DecimalIsToken(code);
    ReadTokenOf(" ", ToDecimal(code), rest);
    StoulOfDecimal(code);
  }

  /** A number with its sign, in the 16 bits that a status code has. */
  function LowBits(sign: string, value: nat): nat {
    (if sign == "-" then 0 - value else value) % 0x1_0000
  }

  lemma NegatedBits(v: nat)
    requires v < ULONG_RANGE
    ensures (ULONG_RANGE - v) % ULONG_RANGE % 0x1_0000 == LowBits("-", v)
  {
    if v > 0 {
      assert ULONG_RANGE - v == 0 - v + 0x1_0000 * 0x1_0000_0000_0000;
    }
  }

  lemma CodeOfToken(blanks: string, token: string, rest: string)
    requires forall i :: 0 <= i < |blanks| ==> IsSpace(blanks[i])
    requires IsToken(token) && (rest == "" || EndsToken(rest[0]))
    ensures var r := ReadCode(blanks + token + rest);
            match Stoul(token)
            case None => r == Incorrect("Cannot convert error code")
            case Some(n) =>
              var code := n % 0x1_0000;
              if code < 60 && rest == "" then r == Expecting("Status code")
              else if code > LAST_CODE then r == Incorrect("Status code")
              else r == Ok(Step(code, rest))
  {
    hide Stoul, ReadToken, IsToken;
    ReadTokenOf(blanks, token, rest);
  }

  /** Whatever stands for the status code: white space, a sign, digits, and text that is not looked
      at. Its value counts modulo 2^16, with its sign, and is accepted up to 599, so that a number
      far beyond the limit passes when its low 16 bits do. At the end of the text a value below 60
      asks for more. */
  lemma CodeIsTruncated(blanks: string, white: string, sign: string, digits: string, junk: string, rest: string)
    requires forall i :: 0 <= i < |blanks| ==> IsSpace(blanks[i])
    requires forall i :: 0 <= i < |white| ==> IsWhite(white[i])
    requires sign in {"", "+", "-"}
    requires forall i :: 0 <= i < |digits| ==> IsDigit(digits[i])
    requires junk == "" || !IsDigit(junk[0])
    requires sign == "" && digits == "" ==> junk == "" || (!IsWhite(junk[0]) && junk[0] !in {'+', '-'})
    requires IsToken(white + (sign + (digits + junk)))
    requires rest == "" || EndsToken(rest[0])
    ensures var r := ReadCode(blanks + (white + (sign + (digits + junk))) + rest);
            var code := LowBits(sign, ValueOf(digits));
            if digits == "" || ValueOf(digits) >= ULONG_RANGE then r == Incorrect("Cannot convert error code")
            else if code < 60 && rest == "" then r == Expecting("Status code")
            else if code > LAST_CODE then r == Incorrect("Status code")
            else r == Ok(Step(code, rest))
  {
    hide Stoul, ReadCode, ValueOf, IsToken;
    CodeOfToken(blanks, white + (sign + (digits + junk)), rest);
    StoulReads(white, sign, digits, junk);
    if sign == "-" && ValueOf(digits) < ULONG_RANGE {
      NegatedBits(ValueOf(digits));
      hide LowBits;
    }
  }

  lemma TextOfPrinted(text: string, rest: string)
    requires GoodLine(text)
    ensures ReadText(" " + (text + CRLF + rest)) == Ok(Step(text, rest))
  {
    ValueOfPrinted(text, rest);
  }

  /** Parsing inverts printing on exactly the well-formed responses. */
  lemma ResponceRoundTrip(names: set<string>, r: ResponceValue)
    ensures ParseResponce(names, PrintResponce(r)) == Ok(r) <==> GoodResponce(names, r)
  {
    hide ParseResponce, GoodResponce, PrintResponce;
    if ParseResponce(names, PrintResponce(r)) == Ok(r) {
      ResponceImage(names, PrintResponce(r));
    }
    if GoodResponce(names, r) {
      PrintedResponceIsRead(names, r);
    }
  }

  lemma PrintedResponceIsRead(names: set<string>, r: ResponceValue)
    requires GoodResponce(names, r)
    ensures ParseResponce(names, PrintResponce(r)) == Ok(r)
  {
    hide ReadProtocol, ReadCode, ReadText, ReadRest, ToDecimal, GoodVersion, GoodLine, GoodHeaders, GoodBody;
    var rest := PrintRest(r.headers, r.body);
    var s2 := " " + (r.text + CRLF + rest);
    var s1 := " " + ToDecimal(r.code) + s2;
    assert PrintResponce(r) == "" + (PROTOCOL + r.version) + s1;
    VersionOfPrinted("", r.version, s1);
    CodeOfPrinted(r.code, s2);
    TextOfPrinted(r.text, rest);
    RestOfPrinted(names, r.headers, r.body);
  }

  /** Printing an accepted response and parsing it again gives the same response. */
  lemma ResponceNormalForm(names: set<string>, s: string)
    requires ParseResponce(names, s).Ok?
    ensures ParseResponce(names, PrintResponce(ParseResponce(names, s).value)) == ParseResponce(names, s)
  {
    ResponceImage(names, s);
    ResponceRoundTrip(names, ParseResponce(names, s).value);
  }
}
