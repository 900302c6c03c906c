/** What the parser says about a request of which only a part has arrived. */
module Streaming {
  import opened Text
  import opened Numbers
  import opened Message
  import opened Words
  import opened NormalForm

  // ---- a complete header block ----

  datatype Head = Head(line: StartLine, headers: seq<Header>)

  function ReadHead(names: set<string>, s: string): Parsed<Step<Head>> {
    var line :- ReadStartLine(s);
    var headers :- ReadHeaders(names, [], line.rest);
    Ok(Step(Head(line.value, headers.value), headers.rest))
  }

  /** The header loop was left at a blank line, not for want of a further CRLF. */
  predicate BlockComplete(names: set<string>, s: string) {
    ReadHead(names, s).Ok? && CRLF <= ReadHead(names, s).value.rest
  }

  lemma ProtocolExtends(s: string, x: string)
    requires ReadProtocol(s).Ok? && ReadProtocol(s).value.rest != ""
    ensures ReadProtocol(s + x) == Ok(Step(ReadProtocol(s).value.value, ReadProtocol(s).value.rest + x))
  {
    hide FindInRange, SkipSpaces, TokenLength;
    var t := ReadToken(s);
    ReadTokenExtends(s, x);
    var v := t.value[CommonPrefix(PROTOCOL, t.value)..];
    FindInRangeIgnoresText(VERSIONS, v, t.rest, t.rest + x, "Request version");
  }

  lemma LineEndExtends(s: string, x: string)
    requires ReadLineEnd(s).Ok?
    ensures ReadLineEnd(s + x) == Ok(ReadLineEnd(s).value + x)
  {
    hide CommonPrefix;
    var u := SkipSpaces(s);
    SkipSpacesExtends(s, x);
    assert (u + x)[..2] == u[..2] && (u + x)[2..] == u[2..] + x;
  }

  /** An accepted start line stays as it is when text arrives behind it. */
  lemma StartLineExtends(s: string, x: string)
    requires ReadStartLine(s).Ok?
    ensures ReadStartLine(s + x) == Ok(Step(ReadStartLine(s).value.value, ReadStartLine(s).value.rest + x))
  {
    hide ReadToken, ReadProtocol, ReadLineEnd, FindInRange;
    var verb := ReadToken(s);
    var target := ReadToken(verb.rest);
    var version := ReadProtocol(target.rest).value;
    ProtocolImage(target.rest);
    EmptyHasNoMore();
    ReadTokenExtends(s, x);
    ReadTokenExtends(verb.rest, x);
    FindInRangeIgnoresText(METHODS, verb.value, verb.rest, verb.rest + x, "");
    ProtocolExtends(target.rest, x);
    LineEndExtends(version.rest, x);
  }

  lemma EmptyHasNoMore()
    ensures ReadToken("") == Step("", "")
    ensures ReadLineEnd("").Incorrect?
    ensures ReadProtocol("").Incorrect?
  {
    StuckAtCr("");
    hide FindInRange, ReadToken, CommonPrefix, LeadingSpaces;
    assert CommonPrefix(PROTOCOL, "") == 0;
    assert CommonPrefix(CRLF, "") == 0;
    assert SkipSpaces("") == "";
  }

  lemma LineSplitExtends(u: string, x: string)
    requires FindCrlf(u).Some?
    ensures FindCrlf(u + x) == FindCrlf(u)
    ensures var cur := FindCrlf(u).value;
            (u + x)[..cur] == u[..cur] && (u + x)[cur + 2..] == u[cur + 2..] + x
  {
    FindCrlfExtends(u, x);
  }

  lemma CrlfIsFound(s: string)
    ensures CRLF <= s ==> FindCrlf(s).Some?
  {
    assert CRLF <= s ==> IsCrlfAt(s, 0);
  }

  lemma HeaderExtends(names: set<string>, seen: seq<Header>, s: string, x: string)
    requires FindCrlf(s).Some? && ReadHeader(names, seen, s).Ok?
    ensures FindCrlf(s + x) == FindCrlf(s)
    ensures var r := ReadHeader(names, seen, s).value;
            ReadHeader(names, seen, s + x) == Ok(Step(r.value, r.rest + x))
  {
    hide IsAllowed, HasName, IsHeaderToken, SkipSpaces, ReadToken;
    FindCrlfExtends(s, x);
    var t := ReadToken(s);
    LineEndSurvives(s);
    var u := SkipSpaces(t.rest);
    RestIsThere(t.rest);
    ReadTokenExtends(s, x);
    SkipSpacesExtends(t.rest, x);
    LineSplitExtends(u, x);
  }

  lemma RestIsThere(s: string)
    requires FindCrlf(SkipSpaces(s)).Some?
    ensures s != "" && SkipSpaces(s) != ""
  {
  }

  lemma {:induction false} HeadersExtend(names: set<string>, seen: seq<Header>, s: string, x: string)
    requires ReadHeaders(names, seen, s).Ok? && CRLF <= ReadHeaders(names, seen, s).value.rest
    ensures var r := ReadHeaders(names, seen, s).value;
            ReadHeaders(names, seen, s + x) == Ok(Step(r.value, r.rest + x))
    decreases |s|
  {
    hide ReadHeader;
    CrlfIsFound(s);
    if FindCrlf(s).None? {
      assert false;
    } else if FindCrlf(s).value == 0 {
      FindCrlfExtends(s, x);
    } else {
      var line := ReadHeader(names, seen, s).value;
      HeaderExtends(names, seen, s, x);
      HeadersExtend(names, seen + [line.value], line.rest, x);
    }
  }

  lemma HeadExtends(names: set<string>, s: string, x: string)
    requires BlockComplete(names, s)
    ensures var r := ReadHead(names, s).value;
            && ReadHead(names, s + x) == Ok(Step(r.value, r.rest + x))
            && BlockComplete(names, s + x)
  {
    hide ReadStartLine, ReadHeaders;
    StartLineExtends(s, x);
    var line := ReadStartLine(s).value;
    HeadersExtend(names, [], line.rest, x);
    assert CRLF <= ReadHead(names, s).value.rest + x;
  }

  // ---- which exception a caller sees ----

  datatype Verdict = Accept | Wait | Reject | Broken

  function VerdictOf<T>(p: Parsed<T>): Verdict {
    match p
    case Ok(_) => Accept
    case Expecting(_) => Wait
    case Incorrect(_) => Reject
    case Undefined => Broken
  }

  /** The outcome of a body of which `have` bytes are there. */
  function BodyVerdict(headers: seq<Header>, have: nat): Verdict {
    match LengthHeader(headers)
    case None => if have == 0 then Accept else Reject
    case Some(h) =>
      match Stoul(h.value)
      case None => Reject
      case Some(size) => if have < size then Wait else if have > size then Reject else Accept
  }

  lemma BodyVerdictExact(headers: seq<Header>, s: string)
    ensures VerdictOf(ReadBody(headers, s)) == BodyVerdict(headers, |s|)
    ensures ReadBody(headers, s).Ok? ==> ReadBody(headers, s).value == s
  {
    hide Stoul, LengthHeader;
  }

  /** Once the block is complete, bytes that arrive later leave the start line and the headers
      alone, and only the number of body bytes decides. */
  lemma CompleteBlockDecides(names: set<string>, s: string, x: string)
    requires BlockComplete(names, s)
    ensures var head := ReadHead(names, s).value;
            var body := head.rest[2..] + x;
            && VerdictOf(ParseRequest(names, s + x)) == BodyVerdict(head.value.headers, |body|)
            && (ParseRequest(names, s + x).Ok? ==>
                  ParseRequest(names, s + x).value
                  == RequestValue(head.value.line.verb, head.value.line.target, head.value.line.version,
                                  head.value.headers, body))
  {
    hide ReadStartLine, ReadHeaders, ReadBody, BodyVerdict;
    HeadExtends(names, s, x);
    var head := ReadHead(names, s).value;
    var body := head.rest[2..] + x;
    assert (head.rest + x)[2..] == body;
    BodyVerdictExact(head.value.headers, body);
  }

  // ---- a canonical request cut anywhere ----

  /** How many printed header lines are complete in the first `j` characters of the block, and
      how many characters follow them. */
  function CompleteLines(headers: seq<Header>, j: nat): (r: (nat, nat))
    ensures r.0 <= |headers| && r.1 <= j
  {
    if headers == [] || j < |PrintHeader(headers[0])| then (0, j)
    else
      var (n, k) := CompleteLines(headers[1..], j - |PrintHeader(headers[0])|);
      (n + 1, k)
  }

  /** Behind the complete lines: nothing there asks for more, one character is stripped beyond
      the end, and of two or more the first two are dropped and the others taken for a body. */
  function TailVerdict(headers: seq<Header>, k: nat): Verdict {
    if k == 0 then Wait else if k == 1 then Broken else BodyVerdict(headers, k - 2)
  }

  function CutVerdict(r: RequestValue, i: nat): Verdict {
    var verbEnd := |r.verb|;
    var protocol := verbEnd + 1 + |r.target| + 1;
    var versionEnd := protocol + |PROTOCOL| + |r.version|;
    if i == 0 then Reject
    else if i < verbEnd then Wait
    else if i == verbEnd then (if r.verb in METHODS then Reject else Wait)
    else if i <= protocol then Reject
    else if i < versionEnd then Wait
    else if i == versionEnd then (if r.version in VERSIONS then Reject else Wait)
    else if i == versionEnd + 1 then Broken
    else
      var (n, k) := CompleteLines(r.headers, i - versionEnd - 2);
      TailVerdict(r.headers[..n], k)
  }

  // -- cuts in the start line --

  /** A token that runs to the end of the text. */
  lemma LastToken(blanks: string, t: string)
    requires forall i :: 0 <= i < |blanks| ==> IsSpace(blanks[i])
    requires IsToken(t)
    ensures ReadToken(blanks + t) == Step(t, "")
  {
    ReadTokenOf(blanks, t, "");
    assert blanks + t + "" == blanks + t;
  }

  lemma TokenPrefix(t: string, n: nat)
    requires IsToken(t) && 0 < n <= |t|
    ensures IsToken(t[..n])
  {
  }

  lemma CutInVerb(names: set<string>, verb: string, i: nat)
    requires GoodVerb(verb) && i <= |verb|
    ensures VerdictOf(ParseRequest(names, verb[..i]))
            == if i == 0 || verb[..i] in METHODS then Reject else Wait
  {
    hide FindInRange, ReadToken, ReadProtocol, ReadLineEnd, ReadRest, IsToken;
    EmptyHasNoMore();
    if i == 0 {
      assert FindInRange(METHODS, "", "", "").Ok? by { EmptyWordIsFound(); }
    } else {
      var t := verb[..i];
      assert IsPrefixOfSome(METHODS, t) by {
        var k :| 0 <= k < |METHODS| && verb <= METHODS[k];
        assert t <= METHODS[k];
      }
      MethodsAreWords();
      PrefixIsToken(METHODS, t);
      LastToken("", t);
      assert "" + t == t;
      FindInRangeDecides(METHODS, t, "", "");
    }
  }

  /** The empty token matches the first word, with a common prefix of length zero. */
  lemma EmptyWordIsFound()
    ensures FindInRange(METHODS, "", "", "") == Ok(())
  {
  }

  lemma CutInTarget(names: set<string>, verb: string, target: string, j: nat)
    requires GoodVerb(verb) && IsToken(target) && j <= |target|
    ensures VerdictOf(ParseRequest(names, verb + (" " + target[..j]))) == Reject
  {
    hide ReadMethod, ReadToken, ReadProtocol, ReadLineEnd, ReadRest;
    VerbIsRead(verb, " " + target[..j]);
    EmptyHasNoMore();
    if j == 0 {
      assert " " + target[..j] == " ";
      BlanksHaveNoToken(" ");
    } else {
      TokenPrefix(target, j);
      LastToken(" ", target[..j]);
    }
  }

  lemma BlanksHaveNoToken(blanks: string)
    requires forall i :: 0 <= i < |blanks| ==> IsSpace(blanks[i])
    ensures ReadToken(blanks) == Step("", "")
    ensures ReadProtocol(blanks) == Incorrect("Request protocol")
  {
    hide FindInRange, ReadToken;
    SkipSpacesOf(blanks, "");
    assert blanks + "" == blanks;
    ReadTokenIs(blanks);
    assert CommonPrefix(PROTOCOL, "") == 0;
  }

  /** The protocol word and version behind any blanks, cut after `j` characters. */
  lemma CutProtocol(blanks: string, version: string, j: nat)
    requires forall i :: 0 <= i < |blanks| ==> IsSpace(blanks[i])
    requires GoodVersion(version) && j <= |PROTOCOL| + |version|
    ensures var r := ReadProtocol(blanks + (PROTOCOL + version)[..j]);
            if j == 0 then r == Incorrect("Request protocol")
            else if j == |PROTOCOL| + |version| && version in VERSIONS then r == Ok(Step(version, ""))
            else r == Expecting(if j < 5 then "HTTP/" else if j == 5 then "Request protocol version"
                                else "Request version")
  {
    hide FindInRange, ReadToken, IsToken;
    var q := (PROTOCOL + version)[..j];
    if j == 0 {
      assert blanks + q == blanks;
      BlanksHaveNoToken(blanks);
    } else if j <= |PROTOCOL| {
      assert q == PROTOCOL[..j];
      CutWord(j);
      LastToken(blanks, q);
    } else {
      assert q == PROTOCOL + version[..j - |PROTOCOL|];
      CutVersion(version, j - |PROTOCOL|);
      LastToken(blanks, q);
    }
  }

  lemma CutWord(j: nat)
    requires 0 < j <= |PROTOCOL|
    ensures IsToken(PROTOCOL[..j])
    ensures ReadVersion(PROTOCOL[..j], "") == Expecting(if j < 5 then "HTTP/" else "Request protocol version")
  {
    CommonPrefixIsAll(PROTOCOL, PROTOCOL[..j]);
  }

  lemma CutVersion(version: string, n: nat)
    requires GoodVersion(version) && 0 < n <= |version|
    ensures var v := version[..n];
            && IsToken(PROTOCOL + v)
            && ReadVersion(PROTOCOL + v, "")
               == if n == |version| && version in VERSIONS then Ok(version) else Expecting("Request version")
  {
    hide FindInRange;
    var v := version[..n];
    var k :| 0 <= k < |VERSIONS| && version <= VERSIONS[k];
    assert v <= VERSIONS[k] && IsPrefixOfSome(VERSIONS, v);
    VersionsAreWords();
    PrefixIsToken(VERSIONS, v);
    assert forall i :: 0 <= i < |PROTOCOL + v| ==> (PROTOCOL + v)[i] == if i < 5 then PROTOCOL[i] else v[i - 5];
    CommonPrefixOfExtension(PROTOCOL, v);
    assert (PROTOCOL + v)[5..] == v;
    assert n == |version| ==> v == version;
    assert v in VERSIONS ==> n == |version| && v == version;
    FindInRangeDecides(VERSIONS, v, "", "Request version");
    FailsWithHint(VERSIONS, v, "", "Request version");
  }

  /** With a hint every failure of the search carries the hint. */
  lemma {:induction false} FailsWithHint(range: seq<string>, t: string, full: string, hint: string)
    requires hint != ""
    ensures FindInRange(range, t, full, hint) in {Ok(()), Expecting(hint), Incorrect(hint)}
  {
    if range != [] {
      FailsWithHint(range[1..], t, full, hint);
    }
  }

  lemma CutInProtocol(names: set<string>, line: StartLine, j: nat)
    requires GoodVerb(line.verb) && IsToken(line.target) && GoodVersion(line.version)
    requires j <= |PROTOCOL| + |line.version|
    ensures var s := line.verb + (" " + line.target + (" " + (PROTOCOL + line.version)[..j]));
            VerdictOf(ParseRequest(names, s))
            == if j == 0 || (j == |PROTOCOL| + |line.version| && line.version in VERSIONS) then Reject else Wait
  {
    hide ReadMethod, ReadToken, ReadProtocol, ReadLineEnd, ReadRest, GoodVersion;
    var tail := " " + (PROTOCOL + line.version)[..j];
    VerbIsRead(line.verb, " " + line.target + tail);
    ReadTokenOf(" ", line.target, tail);
    CutProtocol(" ", line.version, j);
    EmptyHasNoMore();
  }

  /** The line end itself, cut between CR and LF: two characters are stripped where one is left. */
  lemma CutInLineEnd(names: set<string>, line: StartLine)
    requires GoodVerb(line.verb) && IsToken(line.target) && GoodVersion(line.version)
    ensures var s := line.verb + (" " + line.target + (" " + (PROTOCOL + line.version) + "\r"));
            VerdictOf(ParseRequest(names, s)) == Broken
  {
    hide ReadMethod, ReadToken, ReadProtocol, ReadLineEnd, ReadRest, GoodVersion;
    var tail := " " + (PROTOCOL + line.version) + "\r";
    VerbIsRead(line.verb, " " + line.target + tail);
    ReadTokenOf(" ", line.target, tail);
    VersionOfPrinted(" ", line.version, "\r");
    LoneCr();
  }

  lemma LoneCr()
    ensures ReadLineEnd("\r") == Undefined
  {
    hide CommonPrefix, SkipSpaces;
    assert SkipSpaces("\r") == "\r" by {
      SkipSpacesOf("", "\r");
      assert "" + "\r" == "\r";
    }
    CommonPrefixIsAll(CRLF, "\r");
  }

  // -- cuts in the header block --

  /** The stages behind the header loop. */
  function Conclude(headers: Parsed<Step<seq<Header>>>): Parsed<string> {
    var h :- headers;
    var rest :- SkipTwo(h.rest);
    ReadBody(h.value, rest)
  }

  /** A line that has not got its CRLF ends the block, whatever it holds. */
  lemma TailWithoutCrlf(names: set<string>, seen: seq<Header>, s: string)
    requires !HasCrlf(s)
    ensures VerdictOf(Conclude(ReadHeaders(names, seen, s))) == TailVerdict(seen, |s|)
  {
    hide ReadBody, BodyVerdict;
    if FindCrlf(s).Some? {
      assert false;
    }
    if |s| >= 2 {
      BodyVerdictExact(seen, s[2..]);
    }
  }

  lemma PartialLine(h: Header, k: nat)
    requires IsToken(h.name + ":") && GoodLine(h.value)
    requires k < |PrintHeader(h)|
    ensures !HasCrlf(PrintHeader(h)[..k])
  {
    var s := PrintHeader(h);
    var n := |h.name| + 2;
    var token := h.name + ":";
    assert s == token + (" " + h.value + CRLF);
    assert forall i :: 0 <= i < |token| ==> s[i] == token[i];
    assert forall i :: 0 <= i < |token| ==> s[i] != '\r';
    assert s[n - 1] == ' ';
    assert forall i :: n <= i < n + |h.value| ==> s[i] == h.value[i - n];
    assert s[n + |h.value|] == '\r' && s[n + |h.value| + 1] == '\n';
    forall i: nat | i + 1 < k
      ensures !IsCrlfAt(s, i)
    {
      if n <= i < n + |h.value| - 1 {
        assert !IsCrlfAt(h.value, i - n);
      }
    }
    NoCrlfInPrefix(s, k);
  }

  lemma TailOfBlankLine(names: set<string>, seen: seq<Header>, body: string, k: nat)
    requires k <= 2 + |body|
    ensures VerdictOf(Conclude(ReadHeaders(names, seen, (CRLF + body)[..k]))) == TailVerdict(seen, k)
  {
    hide ReadBody, BodyVerdict, ReadHeaders;
    var s := (CRLF + body)[..k];
    if k < 2 {
      TailWithoutCrlf(names, seen, s);
    } else {
      assert s == CRLF + body[..k - 2];
      BlankLineEndsHeaders(names, seen, body[..k - 2]);
      BodyVerdictExact(seen, s[2..]);
    }
  }

  lemma {:induction false} CutInBlock(names: set<string>, seen: seq<Header>, headers: seq<Header>, body: string, j: nat)
    requires GoodHeaders(names, seen + headers)
    requires j <= |PrintRest(headers, body)|
    ensures var (n, k) := CompleteLines(headers, j);
            VerdictOf(Conclude(ReadHeaders(names, seen, PrintRest(headers, body)[..j])))
            == TailVerdict(seen + headers[..n], k)
    decreases |headers|
  {
    hide GoodHeader, ReadHeaders, Conclude, VerdictOf, TailVerdict, PrintHeader;
    var s := PrintRest(headers, body)[..j];
    assert seen + headers[..0] == seen;
    if headers == [] {
      assert PrintRest(headers, body) == CRLF + body;
      TailOfBlankLine(names, seen, body, j);
    } else {
      var h := headers[0];
      assert h == (seen + headers)[|seen|];
      var line := PrintHeader(h);
      assert PrintRest(headers, body) == line + PrintRest(headers[1..], body);
      if j < |line| {
        assert s == line[..j];
        GoodHeaderParts(names, h);
        PartialLine(h, j);
        TailWithoutCrlf(names, seen, s);
      } else {
        var more := PrintRest(headers[1..], body)[..j - |line|];
        assert s == line + more;
        assert seen + [h] + headers[1..] == seen + headers;
        GoodHeadersPrefix(names, seen + [h], headers[1..]);
        OneLine(names, seen, h, more);
        CutInBlock(names, seen + [h], headers[1..], body, j - |line|);
        var n := CompleteLines(headers[1..], j - |line|).0;
        assert seen + [h] + headers[1..][..n] == seen + headers[..n + 1];
      }
    }
  }

  lemma GoodHeaderParts(names: set<string>, h: Header)
    requires GoodHeader(names, h)
    ensures IsToken(h.name + ":") && GoodLine(h.value)
  {
  }

  lemma OneLine(names: set<string>, seen: seq<Header>, h: Header, more: string)
    requires GoodHeader(names, h) && GoodHeaders(names, seen + [h])
    ensures ReadHeaders(names, seen, PrintHeader(h) + more) == ReadHeaders(names, seen + [h], more)
  {
    HeadersOfPrinted(names, seen, [h], more);
    assert PrintHeaders([h]) == PrintHeader(h);
  }

  lemma GoodHeadersPrefix(names: set<string>, a: seq<Header>, b: seq<Header>)
    requires GoodHeaders(names, a + b)
    ensures GoodHeaders(names, a)
  {
    hide GoodHeader;
    assert forall i :: 0 <= i < |a| ==> a[i] == (a + b)[i];
  }

  // -- all cuts --

  /** The printed start line as the pieces its cuts fall into. */
  lemma StartLinePieces(line: StartLine, i: nat)
    requires i < |PrintStartLine(line)|
    ensures var m := |line.verb|;
            var p := m + 1 + |line.target| + 1;
            var word := PROTOCOL + line.version;
            PrintStartLine(line)[..i]
            == if i <= m then line.verb[..i]
               else if i < p then line.verb + (" " + line.target[..i - m - 1])
               else if i <= p + |word| then line.verb + (" " + line.target + (" " + word[..i - p]))
               else line.verb + (" " + line.target + (" " + word + "\r"))
  {
  }

  lemma CutInStartLine(names: set<string>, r: RequestValue, i: nat)
    requires GoodRequest(names, r) && i < |PrintStartLine(LineOf(r))|
    ensures VerdictOf(ParseRequest(names, PrintStartLine(LineOf(r))[..i])) == CutVerdict(r, i)
  {
    hide ParseRequest, PrintStartLine, GoodVerb, IsToken, GoodVersion;
    var m := |r.verb|;
    var p := m + 1 + |r.target| + 1;
    var v := p + |PROTOCOL| + |r.version|;
    StartLinePieces(LineOf(r), i);
    PrintedLength(LineOf(r));
    if i <= m {
      CutInVerb(names, r.verb, i);
      assert i == m ==> r.verb[..i] == r.verb;
      if 0 < i < m {
        ProperPrefixIsNoMethod(r.verb, i);
      }
    } else if i < p {
      CutInTarget(names, r.verb, r.target, i - m - 1);
    } else if i <= v {
      CutInProtocol(names, LineOf(r), i - p);
    } else {
      CutInLineEnd(names, LineOf(r));
    }
  }

  lemma ProperPrefixIsNoMethod(verb: string, i: nat)
    requires GoodVerb(verb) && 0 < i < |verb|
    ensures verb[..i] !in METHODS
  {
    MethodsAreWords();
    var k :| 0 <= k < |METHODS| && verb <= METHODS[k];
    assert verb[..i] <= METHODS[k] && |verb[..i]| < |METHODS[k]|;
  }

  /** The exact outcome of parsing a canonical request cut anywhere before its end. */
  lemma CutVerdictExact(names: set<string>, r: RequestValue, i: nat)
    requires GoodRequest(names, r) && i < |PrintRequest(r)|
    ensures VerdictOf(ParseRequest(names, PrintRequest(r)[..i])) == CutVerdict(r, i)
  {
    var n := |PrintStartLine(LineOf(r))|;
    if i < n {
      assert PrintRequest(r)[..i] == PrintStartLine(LineOf(r))[..i];
      CutInStartLine(names, r, i);
    } else {
      CutBehindStartLine(names, r, i);
    }
  }

  lemma CutBehindStartLine(names: set<string>, r: RequestValue, i: nat)
    requires GoodRequest(names, r) && |PrintStartLine(LineOf(r))| <= i < |PrintRequest(r)|
    ensures VerdictOf(ParseRequest(names, PrintRequest(r)[..i])) == CutVerdict(r, i)
  {
    hide ReadStartLine, PrintStartLine, PrintRest, ReadHeaders, ReadBody, TailVerdict, GoodVerb, GoodVersion,
      IsToken, GoodHeaders, GoodBody, CompleteLines;
    var line := PrintStartLine(LineOf(r));
    var j := i - |line|;
    var rest := PrintRest(r.headers, r.body);
    assert PrintRequest(r)[..i] == line + rest[..j];
    StartLineOfPrinted(LineOf(r), rest[..j]);
    assert [] + r.headers == r.headers;
    CutInBlock(names, [], r.headers, r.body, j);
    var n := CompleteLines(r.headers, j).0;
    assert [] + r.headers[..n] == r.headers[..n];
    PrintedLength(LineOf(r));
  }

  lemma PrintedLength(line: StartLine)
    ensures |PrintStartLine(line)| == |line.verb| + 1 + |line.target| + 1 + |PROTOCOL| + |line.version| + 2
  {
  }

  // -- what the exact outcome means --

  function BlockStart(r: RequestValue): nat {
    |r.verb| + 1 + |r.target| + 1 + |PROTOCOL| + |r.version| + 2
  }

  function LineEnd(r: RequestValue, n: nat): nat
    requires n <= |r.headers|
  {
    BlockStart(r) + |PrintHeaders(r.headers[..n])|
  }

  /** Inside the method, inside the protocol word and version, right behind the CRLF of the
      start line or of a header line, or anywhere behind the blank line. */
  predicate IsResumable(r: RequestValue, i: nat) {
    || 0 < i < |r.verb|
    || |r.verb| + 1 + |r.target| + 1 < i < BlockStart(r) - 2
    || (exists n :: 0 <= n <= |r.headers| && i == LineEnd(r, n))
    || LineEnd(r, |r.headers|) + 2 <= i
  }

  lemma {:induction false} CompleteLinesAtEnd(headers: seq<Header>, n: nat, k: nat)
    requires n <= |headers|
    requires n < |headers| ==> k == 0
    ensures CompleteLines(headers, |PrintHeaders(headers[..n])| + k) == (n, k)
  {
    if n > 0 {
      assert headers[..n][0] == headers[0] && headers[..n][1..] == headers[1..][..n - 1];
      CompleteLinesAtEnd(headers[1..], n - 1, k);
    }
  }

  /** A request cut at one of these points is waited for, never rejected. */
  lemma ResumableCutsWait(names: set<string>, r: RequestValue, i: nat)
    requires GoodRequest(names, r) && i < |PrintRequest(r)|
    requires IsResumable(r, i)
    ensures ParseRequest(names, PrintRequest(r)[..i]).Expecting?
  {
    hide ParseRequest, PrintRequest, GoodRequest;
    CutVerdictExact(names, r, i);
    assert CutVerdict(r, i) == Wait by { ResumableVerdict(names, r, i); }
  }

  lemma ResumableVerdict(names: set<string>, r: RequestValue, i: nat)
    requires GoodRequest(names, r) && i < |PrintRequest(r)|
    requires IsResumable(r, i)
    ensures CutVerdict(r, i) == Wait
  {
    hide GoodHeaders, IsToken, GoodVerb, GoodVersion, PrintHeaders;
    if i < BlockStart(r) {
      BlockStartsBehind(r);
    } else {
      ResumableInBlock(names, r, i);
    }
  }

  lemma BlockStartsBehind(r: RequestValue)
    ensures forall n :: 0 <= n <= |r.headers| ==> LineEnd(r, n) >= BlockStart(r)
  {
  }

  lemma ResumableInBlock(names: set<string>, r: RequestValue, i: nat)
    requires GoodRequest(names, r) && BlockStart(r) <= i < |PrintRequest(r)|
    requires IsResumable(r, i)
    ensures var (n, k) := CompleteLines(r.headers, i - BlockStart(r)); TailVerdict(r.headers[..n], k) == Wait
  {
    hide PrintHeaders, TailVerdict, CompleteLines, GoodRequest, PrintRequest;
    if LineEnd(r, |r.headers|) + 2 <= i {
      PrintedLength(LineOf(r));
      RequestParts(names, r);
      WaitsForBody(r.headers, r.body, i - BlockStart(r));
    } else {
      var n :| 0 <= n <= |r.headers| && i == LineEnd(r, n);
      CompleteLinesAtEnd(r.headers, n, 0);
      assert TailVerdict(r.headers[..n], 0) == Wait by { BlockGoesOn(r.headers[..n]); }
    }
  }

  lemma BlockGoesOn(headers: seq<Header>)
    ensures TailVerdict(headers, 0) == Wait
  {
  }

  lemma WaitsForBody(headers: seq<Header>, body: string, j: nat)
    requires GoodBody(headers, body)
    requires |PrintHeaders(headers[..|headers|])| + 2 <= j < |PrintRest(headers, body)|
    ensures var (n, k) := CompleteLines(headers, j); TailVerdict(headers[..n], k) == Wait
  {
    hide CompleteLines, PrintHeaders, Stoul, LengthHeader;
    assert headers[..|headers|] == headers;
    var k := j - |PrintHeaders(headers)|;
    CompleteLinesAtEnd(headers, |headers|, k);
    BodyIsShort(headers, body, k - 2);
  }

  lemma BodyIsShort(headers: seq<Header>, body: string, have: nat)
    requires GoodBody(headers, body) && have < |body|
    ensures BodyVerdict(headers, have) == Wait
  {
    hide Stoul, LengthHeader;
  }

  /** A cut request is taken for a whole one exactly when the cut falls behind the second
      character of a header line and the headers before that line ask for what is left. */
  lemma FalseAcceptanceExact(names: set<string>, r: RequestValue, i: nat)
    requires GoodRequest(names, r) && i < |PrintRequest(r)|
    ensures ParseRequest(names, PrintRequest(r)[..i]).Ok?
            <==> && i >= BlockStart(r)
                 && var (n, k) := CompleteLines(r.headers, i - BlockStart(r));
                    && n < |r.headers| && k >= 2
                    && match LengthHeader(r.headers[..n]) {
                         case None => k == 2
                         case Some(h) => Stoul(h.value) == Some(k - 2)
                       }
  {
    hide ParseRequest, PrintRequest, GoodRequest, Stoul;
    CutVerdictExact(names, r, i);
    if i >= BlockStart(r) && CompleteLines(r.headers, i - BlockStart(r)).0 == |r.headers| {
      PrintedLength(LineOf(r));
      RequestParts(names, r);
      BodyCutWaits(r.headers, r.body, i - BlockStart(r));
    }
  }

  lemma RequestParts(names: set<string>, r: RequestValue)
    requires GoodRequest(names, r)
    ensures GoodBody(r.headers, r.body)
    ensures |PrintRequest(r)| == |PrintStartLine(LineOf(r))| + |PrintRest(r.headers, r.body)|
  {
  }

  /** In the blank line and the body nothing is accepted before the end. */
  lemma BodyCutWaits(headers: seq<Header>, body: string, j: nat)
    requires GoodBody(headers, body) && j < |PrintRest(headers, body)|
    requires CompleteLines(headers, j).0 == |headers|
    ensures var (n, k) := CompleteLines(headers, j); TailVerdict(headers[..n], k) in {Wait, Broken}
  {
    LinesThenTail(headers, j);
    assert headers[..|headers|] == headers;
  }

  lemma {:induction false} LinesThenTail(headers: seq<Header>, j: nat)
    ensures var (n, k) := CompleteLines(headers, j);
            n == |headers| ==> j == |PrintHeaders(headers)| + k
  {
    if headers != [] && j >= |PrintHeader(headers[0])| {
      LinesThenTail(headers[1..], j - |PrintHeader(headers[0])|);
    }
  }

  const SAMPLE := RequestValue("GET", "/", "1.1", [Header("Host", "a")], "")

  lemma SampleIsGood()
    ensures GoodRequest({"Host"}, SAMPLE)
  {
    assert "GET" <= METHODS[2] && "1.1" <= VERSIONS[2];
    assert IsToken("Host" + ":");
  }

  /** Such a cut exists: here the last two characters that arrived begin a header line. */
  lemma TruncatedRequestAccepted()
    ensures 18 < |PrintRequest(SAMPLE)|
    ensures ParseRequest({"Host"}, PrintRequest(SAMPLE)[..18]).Ok?
  {
    hide ParseRequest, GoodRequest;
    SampleIsGood();
    PrintedLength(LineOf(SAMPLE));
    assert SAMPLE.headers[..0] == [];
    FalseAcceptanceExact({"Host"}, SAMPLE, 18);
  }
}
