/** What is left in a message object when its parser throws: exactly the parts in front of the error
    have been replaced. */
module PartialParse {
  import opened Text
  import opened Numbers
  import opened Message
  import opened NormalForm
  import opened ResponceStreaming
  import opened Grammar
  import opened MessageReader

  /** A text that does not begin with a method leaves the object as it was. */
  lemma VerbErrorKeepsAll(names: set<string>, before: RequestValue, b: string, word: string, more: string)
    requires AreBlanks(b) && IsOneWord(word) && !IsVerb(word)
    requires more == "" || more[0] == ' ' || more[0] == '\r'
    ensures AssignedRequest(names, before, b + word + more) == before
  {
    VerbRefused(names, b, word, more);
    hide ReadToken, FindInRange, IsVerb, ReadProtocol, ReadLineEnd, ReadRest, AssignedRest;
    VerbIs(word);
    LooseTokenIsRead(b, word, more);
    NotInRange(METHODS, word, more);
  }

  lemma AssignsStartLine(names: set<string>, before: RequestValue, s: string, line: StartLine, rest: string)
    requires IsRequestLine(s, line, rest)
    ensures AssignedRequest(names, before, s)
            == AssignedRest(names, before.(verb := line.verb, target := line.target, version := line.version), rest)
  {
    hide ReadMethod, ReadToken, ReadProtocol, ReadLineEnd, IsRequestLine, AssignedRest;
    RequestLineIsRead(s, line, rest);
  }

  /** A header that is refused leaves the new start line and the old headers and body. */
  lemma HeaderErrorKeepsHeaders(names: set<string>, before: RequestValue, s: string, line: StartLine, lines: seq<Line>,
                                tail: string, b: string, word: string, more: string)
    requires IsRequestLine(s, line, LinesText(lines) + tail) && ArePadded(lines) && LineStarts(tail, b, word, more)
    requires AreHeaders(names, HeadersOf(lines)) && !NamesHeader(names, word)
    ensures AssignedRequest(names, before, s)
            == RequestValue(line.verb, line.target, line.version, before.headers, before.body)
  {
    hide IsRequestLine, AreHeaders, LinesText, ArePadded, LineStarts, NamesHeader, ReadHeaders, AssignedRequest;
    var headers := HeadersOf(lines);
    AssignsStartLine(names, before, s, line, LinesText(lines) + tail);
    HeadersAre(names, headers);
    assert [] + headers == headers;
    LinesAreRead(names, [], lines, tail);
    HeaderRefused(names, headers, tail, b, word, more);
  }

  /** A body that is refused or waited for leaves everything new but the body. */
  lemma BodyErrorKeepsBody(names: set<string>, before: RequestValue, s: string, line: StartLine, lines: seq<Line>,
                           tail: string, body: string)
    requires IsRequestLine(s, line, LinesText(lines) + tail) && ArePadded(lines) && IsTail(tail, body)
    requires AreHeaders(names, HeadersOf(lines)) && !AskFor(HeadersOf(lines), |body|)
    ensures AssignedRequest(names, before, s)
            == RequestValue(line.verb, line.target, line.version, HeadersOf(lines), before.body)
  {
    hide IsRequestLine, AreHeaders, LinesText, ArePadded, IsTail, AskFor, ReadHeaders, AssignedRequest, ReadBody,
      GoodBody;
    var headers := HeadersOf(lines);
    AssignsStartLine(names, before, s, line, LinesText(lines) + tail);
    HeadersAre(names, headers);
    assert [] + headers == headers;
    LinesAreRead(names, [], lines, tail);
    TailIsRead(names, headers, tail, body);
    BodyIs(headers, body);
    BodyImage(headers, body);
    if ReadBody(headers, body).Ok? {
      BodyIsAll(headers, body);
    }
  }

  lemma BodyIsAll(headers: seq<Header>, body: string)
    requires ReadBody(headers, body).Ok?
    ensures ReadBody(headers, body) == Ok(body)
  {
  }

  /** A status code above 599 is refused, and left in the object. */
  lemma CodeErrorKeepsWrongCode(names: set<string>, before: ResponceValue, b0: string, k: nat, version: string,
                                b1: string, word: string, more: string)
    requires AreBlanks(b0) && AreBlanks(b1) && 1 <= k <= 5 && IsVersion(version) && IsOneWord(word)
    requires more == "" || more[0] == ' ' || more[0] == '\r'
    requires Stoul(word).Some? && Stoul(word).value % 0x1_0000 > 599
    ensures var s := b0 + ("HTTP/"[..k] + version) + (" " + b1 + word + more);
            && ParseResponce(names, s) == Incorrect("Status code")
            && AssignedResponce(names, before, s)
               == before.(version := version, code := Stoul(word).value % 0x1_0000)
  {
    hide IsVersion, ReadProtocol, ReadToken, ReadText, ReadRest, Stoul, GoodVersion, AssignedResponceRest;
    VersionIs(version);
    WordIs(word);
    BlanksBehindSpace(b1);
    LooseVersionIsRead(b0, k, version, " " + b1 + word + more);
    CodeOfToken(" " + b1, word, more);
    LooseTokenIsRead(" " + b1, word, more);
  }

  /** The body of a response that is refused or waited for leaves everything new but the body. */
  lemma ResponceBodyErrorKeepsBody(names: set<string>, before: ResponceValue, s: string, line: StatusLine,
                                   lines: seq<Line>, tail: string, body: string)
    requires IsStatusLine(s, line.version, line.code, line.text, LinesText(lines) + tail)
    requires ArePadded(lines) && IsTail(tail, body)
    requires AreHeaders(names, HeadersOf(lines)) && !AskFor(HeadersOf(lines), |body|)
    ensures AssignedResponce(names, before, s)
            == ResponceValue(line.version, line.code, line.text, HeadersOf(lines), before.body)
  {
    hide IsStatusLine, AreHeaders, LinesText, ArePadded, IsTail, AskFor, ReadHeaders, AssignedResponce, ReadBody,
      GoodBody;
    var headers := HeadersOf(lines);
    AssignsStatusLine(names, before, s, line, LinesText(lines) + tail);
    HeadersAre(names, headers);
    assert [] + headers == headers;
    LinesAreRead(names, [], lines, tail);
    TailIsRead(names, headers, tail, body);
    BodyIs(headers, body);
    BodyImage(headers, body);
    if ReadBody(headers, body).Ok? {
      BodyIsAll(headers, body);
    }
  }

  lemma AssignsStatusLine(names: set<string>, before: ResponceValue, s: string, line: StatusLine, rest: string)
    requires IsStatusLine(s, line.version, line.code, line.text, rest)
    ensures AssignedResponce(names, before, s)
            == AssignedResponceRest(names, before.(version := line.version, code := line.code, text := line.text), rest)
  {
    hide ReadProtocol, ReadToken, ReadText, Stoul, IsStatusLine, AssignedResponceRest;
    StatusLineIsRead(s, line.version, line.code, line.text, rest);
    var version := ReadProtocol(s).value;
    var code := ReadCode(version.rest).value;
    assert code.value == AssignedCode(before.code, version.rest);
  }
}
