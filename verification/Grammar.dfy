/** Which texts are accepted, and as what: the two languages of the parser, written down as padded
    lines of characters, without any stage of the parser. */
module Grammar {
  import opened Text
  import opened Numbers
  import opened Message
  import opened Words
  import opened NormalForm
  import opened Streaming
  import opened ResponceStreaming

  // ---- characters ----

  predicate AreBlanks(s: string) {
    forall i :: 0 <= i < |s| ==> s[i] == ' ' || s[i] == '\t'
  }

  /** Blanks behind a token: a tab would be taken for a part of it. */
  predicate ArePadding(s: string) {
    AreBlanks(s) && (s != "" ==> s[0] == ' ')
  }

  predicate StartsDark(s: string) {
    s != "" ==> s[0] != ' ' && s[0] != '\t'
  }

  /** One word: not empty, no blank in front, neither space nor CR inside. */
  predicate IsOneWord(s: string) {
    s != "" && StartsDark(s) && forall i :: 0 <= i < |s| ==> s[i] != ' ' && s[i] != '\r'
  }

  /** One line: no blank in front, no CRLF inside. */
  predicate IsOneLine(s: string) {
    StartsDark(s) && forall i :: 0 <= i < |s| - 1 ==> !(s[i] == '\r' && s[i + 1] == '\n')
  }

  predicate IsBeginning(s: string, words: seq<string>) {
    s != "" && exists i :: 0 <= i < |words| && s <= words[i]
  }

  predicate IsVerb(s: string) {
    IsBeginning(s, ["CONNECT", "DELETE", "GET", "HEAD", "OPTIONS", "PATCH", "POST", "PUT", "TRACE"])
  }

  predicate IsVersion(s: string) {
    IsBeginning(s, ["0.9", "1.0", "1.1"])
  }

  // ---- headers and body ----

  /** A header name is in the table or starts with "X-". */
  predicate IsHeader(names: set<string>, h: Header) {
    && (h.name in names || "X-" <= h.name)
    && IsOneWord(h.name + ":") && (forall i :: 0 <= i < |h.name| ==> h.name[i] != ':')
    && IsOneLine(h.value)
  }

  predicate AreHeaders(names: set<string>, headers: seq<Header>) {
    && (forall i :: 0 <= i < |headers| ==> IsHeader(names, headers[i]))
    && (forall i, j :: 0 <= i < j < |headers| ==> headers[i].name != headers[j].name)
  }

  predicate NamesLength(h: Header) {
    h.name == "Content-Length" || h.name == "Transfer-Encoding"
  }

  /** The first header of one of the two names has the number i. */
  predicate IsLengthAt(headers: seq<Header>, i: nat) {
    i < |headers| && NamesLength(headers[i]) && forall j :: 0 <= j < i ==> !NamesLength(headers[j])
  }

  predicate HasNoLength(headers: seq<Header>) {
    forall i :: 0 <= i < |headers| ==> !NamesLength(headers[i])
  }

  /** The number of body bytes that the headers ask for. */
  predicate AskFor(headers: seq<Header>, size: nat) {
    || (exists i :: 0 <= i < |headers| && IsLengthAt(headers, i) && Stoul(headers[i].value) == Some(size))
    || (HasNoLength(headers) && size == 0)
  }

  lemma {:induction false} LengthHeaderIs(headers: seq<Header>)
    ensures LengthHeader(headers).None? <==> HasNoLength(headers)
    ensures forall i: nat :: IsLengthAt(headers, i) ==> LengthHeader(headers) == Some(headers[i])
    ensures HasNoLength(headers) || exists i: nat :: IsLengthAt(headers, i)
  {
    if headers != [] {
      var rest := headers[1..];
      LengthHeaderIs(rest);
      assert forall i: nat :: IsLengthAt(headers, i) && i > 0 ==> IsLengthAt(rest, i - 1);
      if NamesLength(headers[0]) {
        assert IsLengthAt(headers, 0);
      } else if !HasNoLength(rest) {
        var i: nat :| IsLengthAt(rest, i);
        assert IsLengthAt(headers, i + 1);
      }
    }
  }

  lemma BodyIs(headers: seq<Header>, body: string)
    ensures GoodBody(headers, body) <==> AskFor(headers, |body|)
  {
    hide Stoul, LengthHeader;
    LengthHeaderIs(headers);
  }

  lemma HeaderIs(names: set<string>, h: Header)
    ensures GoodHeader(names, h) <==> IsHeader(names, h)
  {
    LineIs(h.value);
    assert ':' in h.name <==> exists i :: 0 <= i < |h.name| && h.name[i] == ':';
  }

  lemma LineIs(v: string)
    ensures GoodLine(v) <==> IsOneLine(v)
  {
    if HasCrlf(v) {
      var i: nat :| i < |v| && IsCrlfAt(v, i);
      assert v[i] == '\r' && v[i + 1] == '\n';
    }
    if i :| 0 <= i < |v| - 1 && v[i] == '\r' && v[i + 1] == '\n' {
      assert IsCrlfAt(v, i);
    }
  }

  lemma HeadersAre(names: set<string>, headers: seq<Header>)
    ensures GoodHeaders(names, headers) <==> AreHeaders(names, headers)
  {
    hide GoodHeader, IsHeader;
    forall i | 0 <= i < |headers|
      ensures GoodHeader(names, headers[i]) <==> IsHeader(names, headers[i])
    {
      HeaderIs(names, headers[i]);
    }
  }

  lemma VerbIs(s: string)
    ensures GoodVerb(s) <==> IsVerb(s)
  {
    var words := ["CONNECT", "DELETE", "GET", "HEAD", "OPTIONS", "PATCH", "POST", "PUT", "TRACE"];
    assert METHODS == words + [""];
    if GoodVerb(s) {
      var i :| 0 <= i < |METHODS| && s <= METHODS[i];
      assert i < 9 ==> METHODS[i] == words[i];
    }
    if i :| 0 <= i < |words| && s <= words[i] {
      assert METHODS[i] == words[i];
    }
  }

  lemma VersionIs(s: string)
    ensures GoodVersion(s) <==> IsVersion(s)
  {
    assert VERSIONS == ["0.9", "1.0", "1.1"];
  }

  // ---- the language of header blocks ----

  /** A header line as it may be written: blanks in front of the name and of the value. */
  datatype Line = Line(before: string, header: Header, between: string)

  function LineText(l: Line): string {
    l.before + (l.header.name + ":") + (l.between + (l.header.value + "\r\n"))
  }

  function LinesText(lines: seq<Line>): string {
    if lines == [] then "" else LineText(lines[0]) + LinesText(lines[1..])
  }

  function HeadersOf(lines: seq<Line>): seq<Header> {
    seq(|lines|, i requires 0 <= i < |lines| => lines[i].header)
  }

  /** Without padding a value can only be empty or start with CR. */
  predicate IsPadded(l: Line) {
    && AreBlanks(l.before) && ArePadding(l.between)
    && (l.between == "" && l.header.value != "" ==> l.header.value[0] == '\r')
  }

  predicate ArePadded(lines: seq<Line>) {
    forall i :: 0 <= i < |lines| ==> IsPadded(lines[i])
  }

  /** What is behind the header lines: CRLF and the body, or, if the text holds no further CRLF,
      any two characters and the body. */
  predicate IsTail(s: string, body: string) {
    && |s| >= 2 && s[2..] == body
    && (s[..2] == "\r\n" || forall i :: 0 <= i < |s| - 1 ==> !(s[i] == '\r' && s[i + 1] == '\n'))
  }

  /** The block is made of these lines and this tail. */
  ghost predicate IsBlock(names: set<string>, s: string, headers: seq<Header>, body: string) {
    && AreHeaders(names, headers)
    && AskFor(headers, |body|)
    && exists lines, tail :: ArePadded(lines) && HeadersOf(lines) == headers && IsTail(tail, body)
                             && s == LinesText(lines) + tail
  }

  /** One padded line is read as its header. */
  lemma PaddedLineIsRead(names: set<string>, seen: seq<Header>, l: Line, rest: string)
    requires IsPadded(l) && GoodHeader(names, l.header) && !HasName(seen, l.header.name)
    ensures var s := LineText(l) + rest;
            && FindCrlf(s).Some? && FindCrlf(s).value != 0
            && ReadHeader(names, seen, s) == Ok(Step(l.header, rest))
  {
    hide IsAllowed, HasName, SkipSpaces, ReadToken, FindCrlf, HasCrlf;
    var h := l.header;
    var token := h.name + ":";
    var tail := h.value + CRLF + rest;
    var s := LineText(l) + rest;
    assert s == l.before + token + (l.between + tail);
    assert tail[0] == if h.value == "" then '\r' else h.value[0];
    assert (l.between + tail)[0] == if l.between == "" then tail[0] else ' ';
    ReadTokenOf(l.before, token, l.between + tail);
    SkipSpacesOf(l.between, tail);
    FindCrlfAfter(h.value, rest);
    assert tail[..|h.value|] == h.value && tail[|h.value| + 2..] == rest;
    assert token[..|token| - 1] == h.name;
    LineHasEnd(l, rest);
  }

  lemma LineHasEnd(l: Line, rest: string)
    requires IsPadded(l) && IsToken(l.header.name + ":")
    ensures var r := FindCrlf(LineText(l) + rest); r.Some? && r.value != 0
  {
    var s := LineText(l) + rest;
    var token := l.header.name + ":";
    var k := |l.before| + |token| + |l.between| + |l.header.value|;
    assert s == l.before + (token + (l.between + (l.header.value + (CRLF + rest))));
    assert s[k] == '\r' && s[k + 1] == '\n';
    assert IsCrlfAt(s, k);
    assert s[0] == if l.before == "" then token[0] else l.before[0];
  }

  /** A token stands behind blanks. */
  lemma TokenSplits(s: string) returns (b: string)
    ensures AreBlanks(b) && s == b + ReadToken(s).value + ReadToken(s).rest
  {
    ReadTokenIs(s);
    SkipSpacesIs(s);
    b := s[..LeadingSpaces(s)];
  }

  lemma BlanksSplit(s: string) returns (b: string)
    ensures AreBlanks(b) && s == b + SkipSpaces(s) && StartsDark(SkipSpaces(s))
  {
    SkipSpacesIs(s);
    b := s[..LeadingSpaces(s)];
  }

  /** What a header is read from. */
  lemma HeaderParts(names: set<string>, seen: seq<Header>, s: string)
    requires FindCrlf(s).Some? && ReadHeader(names, seen, s).Ok?
    ensures var r := ReadHeader(names, seen, s).value;
            && ReadToken(s).value == r.value.name + ":"
            && SkipSpaces(ReadToken(s).rest) == r.value.value + (CRLF + r.rest)
  {
    hide IsAllowed, HasName, SkipSpaces, ReadToken;
    var r := ReadHeader(names, seen, s).value;
    LineEndSurvives(s);
    var u := SkipSpaces(ReadToken(s).rest);
    var cur := FindCrlf(u).value;
    SplitAtCrlf(u, cur);
  }

  /** Every header that is read stands on a padded line. */
  lemma HeaderReadIsPadded(names: set<string>, seen: seq<Header>, s: string) returns (l: Line)
    requires FindCrlf(s).Some? && ReadHeader(names, seen, s).Ok?
    ensures var r := ReadHeader(names, seen, s).value;
            IsPadded(l) && l.header == r.value && s == LineText(l) + r.rest
  {
    hide ReadHeader, ReadToken, SkipSpaces, FindCrlf, IsToken;
    var r := ReadHeader(names, seen, s).value;
    var t := ReadToken(s);
    HeaderParts(names, seen, s);
    ReadTokenShape(s);
    var before := TokenSplits(s);
    var between := BlanksSplit(t.rest);
    var u := r.value.value + (CRLF + r.rest);
    assert u[0] == if r.value.value == "" then '\r' else r.value.value[0];
    assert t.rest == between + u;
    assert t.rest[0] == if between == "" then u[0] else between[0];
    l := Line(before, r.value, between);
    assert LineText(l) + r.rest == before + t.value + t.rest;
  }

  lemma TailIsRead(names: set<string>, seen: seq<Header>, s: string, body: string)
    requires IsTail(s, body)
    ensures ReadHeaders(names, seen, s) == Ok(Step(seen, s)) && SkipTwo(s) == Ok(body)
  {
    if s[..2] == "\r\n" {
      assert s == CRLF + s[2..];
      BlankLineEndsHeaders(names, seen, s[2..]);
    } else if FindCrlf(s).Some? {
      assert false;
    }
  }

  lemma {:induction false} LinesAreRead(names: set<string>, seen: seq<Header>, lines: seq<Line>, tail: string)
    requires ArePadded(lines) && GoodHeaders(names, seen + HeadersOf(lines))
    ensures ReadHeaders(names, seen, LinesText(lines) + tail)
            == ReadHeaders(names, seen + HeadersOf(lines), tail)
    decreases |lines|
  {
    hide GoodHeader, ReadHeader, FindCrlf, LineText, IsPadded;
    if lines == [] {
      assert LinesText(lines) + tail == tail && seen + HeadersOf(lines) == seen;
    } else {
      var h := lines[0].header;
      var more := LinesText(lines[1..]) + tail;
      assert LinesText(lines) + tail == LineText(lines[0]) + more;
      assert HeadersOf(lines) == [h] + HeadersOf(lines[1..]);
      assert h == (seen + HeadersOf(lines))[|seen|];
      assert forall i :: 0 <= i < |seen| ==> seen[i] == (seen + HeadersOf(lines))[i];
      PaddedLineIsRead(names, seen, lines[0], more);
      assert seen + HeadersOf(lines) == seen + [h] + HeadersOf(lines[1..]);
      LinesAreRead(names, seen + [h], lines[1..], tail);
    }
  }

  lemma EndIsTail(s: string)
    requires |s| >= 2 && (FindCrlf(s).None? || FindCrlf(s).value == 0)
    ensures IsTail(s, s[2..])
  {
    if FindCrlf(s).None? {
      assert forall i :: 0 <= i < |s| - 1 && s[i] == '\r' && s[i + 1] == '\n' ==> IsCrlfAt(s, i);
    } else {
      assert s[..2] == [s[0], s[1]];
    }
  }

  /** Every block that is read is made of padded lines and a tail. */
  lemma {:induction false} BlockIsPadded(names: set<string>, seen: seq<Header>, s: string)
      returns (lines: seq<Line>, tail: string)
    requires ReadHeaders(names, seen, s).Ok? && |ReadHeaders(names, seen, s).value.rest| >= 2
    ensures var r := ReadHeaders(names, seen, s).value;
            && ArePadded(lines) && r.value == seen + HeadersOf(lines)
            && tail == r.rest && IsTail(tail, tail[2..])
            && s == LinesText(lines) + tail
    decreases |s|
  {
    hide IsPadded, LineText, ReadHeader, FindCrlf, IsTail;
    var cur := FindCrlf(s);
    if cur.None? || cur.value == 0 {
      lines, tail := [], s;
      assert s == LinesText([]) + s && seen + HeadersOf([]) == seen;
      EndIsTail(s);
    } else {
      var line := ReadHeader(names, seen, s).value;
      var l := HeaderReadIsPadded(names, seen, s);
      lines, tail := BlockIsPadded(names, seen + [line.value], line.rest);
      var rest := lines;
      lines := [l] + rest;
      assert lines[1..] == rest;
      assert LinesText(lines) == LineText(l) + LinesText(rest);
      assert HeadersOf(lines) == [line.value] + HeadersOf(rest);
      assert seen + HeadersOf(lines) == seen + [line.value] + HeadersOf(rest);
      assert s == LineText(l) + (LinesText(rest) + tail);
    }
  }

  /** The exact language of header block and body. */
  lemma BlockLanguage(names: set<string>, s: string, headers: seq<Header>, body: string)
    ensures ReadRest(names, s) == Ok((headers, body)) <==> IsBlock(names, s, headers, body)
  {
    hide ReadBody, GoodBody, ReadHeaders, GoodHeaders, AreHeaders, AskFor, IsTail, ArePadded, LinesText, HeadersOf;
    if ReadRest(names, s) == Ok((headers, body)) {
      RestImage(names, s);
      HeadersAre(names, headers);
      BodyIs(headers, body);
      BlockHasShape(names, s);
    }
    if IsBlock(names, s, headers, body) {
      var lines, tail :| ArePadded(lines) && HeadersOf(lines) == headers && IsTail(tail, body)
                         && s == LinesText(lines) + tail;
      HeadersAre(names, headers);
      BodyIs(headers, body);
      assert [] + headers == headers;
      LinesAreRead(names, [], lines, tail);
      TailIsRead(names, headers, tail, body);
      GoodBodyIsRead(headers, body);
    }
  }

  lemma GoodBodyIsRead(headers: seq<Header>, body: string)
    requires GoodBody(headers, body)
    ensures ReadBody(headers, body) == Ok(body)
  {
  }

  lemma BlockHasShape(names: set<string>, s: string)
    requires ReadRest(names, s).Ok?
    ensures var (headers, body) := ReadRest(names, s).value;
            exists lines, tail :: ArePadded(lines) && HeadersOf(lines) == headers && IsTail(tail, body)
                                  && s == LinesText(lines) + tail
  {
    hide ReadHeaders, ArePadded, LinesText, HeadersOf, IsTail;
    var r := ReadHeaders(names, [], s).value;
    var lines, tail := BlockIsPadded(names, [], s);
    assert [] + HeadersOf(lines) == HeadersOf(lines);
    BodyVerdictExact(r.value, tail[2..]);
  }

  // ---- the language of start lines ----

  /** Behind the blanks in front of it, each word may have more blanks; of the protocol word a
      beginning will do, and of the line end the CR and one more character. */
  ghost predicate IsRequestLine(s: string, line: StartLine, rest: string) {
    && IsVerb(line.verb) && IsOneWord(line.target) && IsVersion(line.version)
    && exists b0, b1, b2, b3, k: nat, c: char ::
         && AreBlanks(b0) && AreBlanks(b1) && AreBlanks(b2) && ArePadding(b3) && 1 <= k <= 5
         && s == b0 + line.verb + (" " + b1 + line.target + (" " + b2 + ("HTTP/"[..k] + line.version)
                 + (b3 + ("\r" + [c] + rest))))
  }

  /** The status code is what `stoul` reads from the second word, in 16 bits. */
  ghost predicate IsStatusLine(s: string, version: string, code: nat, text: string, rest: string) {
    && IsVersion(version) && code <= 599 && IsOneLine(text)
    && exists b0, b1, b2, k: nat, word ::
         && AreBlanks(b0) && AreBlanks(b1) && ArePadding(b2) && 1 <= k <= 5
         && (b2 == "" && text != "" ==> text[0] == '\r')
         && IsOneWord(word) && Stoul(word).Some? && Stoul(word).value % 0x1_0000 == code
         && s == b0 + ("HTTP/"[..k] + version) + (" " + b1 + word + (b2 + (text + "\r\n" + rest)))
  }

  lemma LooseVersionIsRead(blanks: string, k: nat, version: string, rest: string)
    requires AreBlanks(blanks) && 1 <= k <= 5 && GoodVersion(version)
    requires rest != "" && EndsToken(rest[0])
    ensures ReadProtocol(blanks + (PROTOCOL[..k] + version) + rest) == Ok(Step(version, rest))
  {
    hide FindInRange, ReadToken, SkipSpaces;
    VersionsAreWords();
    PrefixIsToken(VERSIONS, version);
    var token := PROTOCOL[..k] + version;
    assert token[k] == version[0] && version[0] in {'0', '1'} by { VersionStart(version); }
    assert forall i :: 0 <= i < |token| ==> token[i] == if i < k then PROTOCOL[i] else version[i - k];
    ReadTokenOf(blanks, token, rest);
    CommonPrefixUnique(PROTOCOL, token, k);
    assert token[k..] == version;
    FindInRangeDecides(VERSIONS, version, rest, "Request version");
    assert |version| <= 3 by { VersionStart(version); }
  }

  lemma VersionStart(version: string)
    requires GoodVersion(version)
    ensures version[0] in {'0', '1'} && |version| <= 3
  {
    var i :| 0 <= i < |VERSIONS| && version <= VERSIONS[i];
    assert version[0] == VERSIONS[i][0];
  }

  lemma CommonPrefixUnique(a: string, b: string, k: nat)
    requires k <= |a| && k <= |b| && a[..k] == b[..k]
    requires k < |a| && k < |b| ==> a[k] != b[k]
    ensures CommonPrefix(a, b) == k
  {
    var n := CommonPrefix(a, b);
    assert forall i :: 0 <= i < k ==> a[..k][i] == a[i] && b[..k][i] == b[i];
    assert forall i :: 0 <= i < n ==> a[..n][i] == a[i] && b[..n][i] == b[i];
  }

  /** What a version is read from. */
  lemma VersionShape(s: string) returns (b: string, k: nat)
    requires ReadProtocol(s).Ok?
    ensures var r := ReadProtocol(s).value;
            && AreBlanks(b) && 1 <= k <= 5 && GoodVersion(r.value)
            && s == b + (PROTOCOL[..k] + r.value) + r.rest
            && (r.rest != "" ==> EndsToken(r.rest[0]))
  {
    hide FindInRange, ReadToken;
    b := TokenSplits(s);
    ReadTokenShape(s);
    ProtocolImage(s);
    var t := ReadToken(s).value;
    k := CommonPrefix(PROTOCOL, t);
    assert t == t[..k] + t[k..];
  }

  /** The exact language of line ends. */
  lemma LineEndIs(b: string, c: char, rest: string)
    requires AreBlanks(b)
    ensures ReadLineEnd(b + ("\r" + [c] + rest)) == Ok(rest)
  {
    var u := "\r" + [c] + rest;
    SkipSpacesOf(b, u);
    assert u[..2][0] == CRLF[0] && u[2..] == rest;
  }

  lemma LineEndShape(s: string) returns (b: string, c: char)
    requires ReadLineEnd(s).Ok?
    ensures AreBlanks(b) && s == b + ("\r" + [c] + ReadLineEnd(s).value)
  {
    b := BlanksSplit(s);
    var u := SkipSpaces(s);
    hide SkipSpaces;
    c := u[1];
    assert u == [u[0]] + [u[1]] + u[2..];
  }

  lemma WordIs(s: string)
    ensures IsToken(s) <==> IsOneWord(s)
    ensures IsToken(s) ==> s != ""
  {
  }

  /** A rest that begins a further word begins with a space. */
  lemma SpaceBetween(s: string) returns (rest: string)
    requires s == "" || EndsToken(s[0])
    requires ReadToken(s).value != ""
    ensures s == " " + rest
  {
    if s == "" || s[0] == '\r' {
      StuckAtCr(s);
      assert false;
    } else {
      rest := s[1..];
    }
  }

  lemma BlankAhead(b: string, t: string)
    requires t != "" && t[0] != ' ' && (b + t)[0] == ' '
    ensures b != "" && b[0] == ' '
  {
  }

  /** A word behind another one: a space, any further blanks, the word. */
  lemma NextWord(s: string) returns (b: string)
    requires s == "" || EndsToken(s[0])
    requires ReadToken(s).value != ""
    ensures AreBlanks(b) && s == " " + b + ReadToken(s).value + ReadToken(s).rest
    ensures IsOneWord(ReadToken(s).value)
    ensures ReadToken(s).rest == "" || EndsToken(ReadToken(s).rest[0])
  {
    var all := TokenSplits(s);
    ReadTokenShape(s);
    var rest := SpaceBetween(s);
    hide ReadToken;
    assert s == all + (ReadToken(s).value + ReadToken(s).rest);
    BlankAhead(all, ReadToken(s).value + ReadToken(s).rest);
    b := all[1..];
    assert all == " " + b;
  }

  lemma LooseLineIsRead(line: StartLine, b0: string, b1: string, b2: string, k: nat, b3: string, c: char,
                        rest: string)
    requires IsVerb(line.verb) && IsOneWord(line.target) && IsVersion(line.version)
    requires AreBlanks(b0) && AreBlanks(b1) && AreBlanks(b2) && ArePadding(b3) && 1 <= k <= 5
    ensures var s3 := b3 + ("\r" + [c] + rest);
            var s2 := (" " + b2) + (PROTOCOL[..k] + line.version) + s3;
            var s1 := (" " + b1) + line.target + s2;
            ReadStartLine(b0 + line.verb + s1) == Ok(Step(line, rest))
  {
    hide IsVerb, IsVersion, IsOneWord, ReadMethod, ReadToken, ReadProtocol, ReadLineEnd, GoodVersion, GoodVerb, IsToken;
    VerbIs(line.verb);
    VersionIs(line.version);
    WordIs(line.target);
    BlanksBehindSpace(b1);
    BlanksBehindSpace(b2);
    hide AreBlanks;
    var s3 := b3 + ("\r" + [c] + rest);
    var s2 := (" " + b2) + (PROTOCOL[..k] + line.version) + s3;
    var s1 := (" " + b1) + line.target + s2;
    assert s3[0] == if b3 == "" then '\r' else b3[0];
    LineEndIs(b3, c, rest);
    LooseVersionIsRead(" " + b2, k, line.version, s3);
    LooseTokenIsRead(" " + b1, line.target, s2);
    LooseVerbIsRead(b0, line.verb, s1);
  }

  lemma RequestLineIsRead(s: string, line: StartLine, rest: string)
    requires IsRequestLine(s, line, rest)
    ensures ReadStartLine(s) == Ok(Step(line, rest))
  {
    hide IsVerb, IsVersion, IsOneWord, AreBlanks, ArePadding, ReadStartLine;
    var b0, b1, b2, b3, k: nat, c: char :|
      && AreBlanks(b0) && AreBlanks(b1) && AreBlanks(b2) && ArePadding(b3) && 1 <= k <= 5
      && s == b0 + line.verb + (" " + b1 + line.target + (" " + b2 + ("HTTP/"[..k] + line.version)
              + (b3 + ("\r" + [c] + rest))));
    LooseLineIsRead(line, b0, b1, b2, k, b3, c, rest);
  }

  lemma BlanksBehindSpace(b: string)
    requires AreBlanks(b)
    ensures AreBlanks(" " + b)
  {
  }

  lemma LooseTokenIsRead(b: string, t: string, rest: string)
    requires AreBlanks(b) && IsToken(t) && (rest == "" || EndsToken(rest[0]))
    ensures ReadToken(b + t + rest) == Step(t, rest)
  {
    ReadTokenOf(b, t, rest);
  }

  lemma LooseVerbIsRead(b: string, verb: string, rest: string)
    requires AreBlanks(b) && GoodVerb(verb) && rest != "" && EndsToken(rest[0])
    ensures ReadMethod(b + verb + rest) == Ok(Step(verb, rest))
  {
    hide FindInRange, ReadToken;
    MethodsAreWords();
    PrefixIsToken(METHODS, verb);
    ReadTokenOf(b, verb, rest);
    FindInRangeDecides(METHODS, verb, rest, "");
  }

  lemma RequestLineShape(s: string)
    requires ReadStartLine(s).Ok?
    ensures IsRequestLine(s, ReadStartLine(s).value.value, ReadStartLine(s).value.rest)
  {
    hide IsVerb, IsVersion, IsOneWord, AreBlanks, ArePadding, ReadToken, ReadProtocol, ReadLineEnd, GoodVerb,
      GoodVersion, FindInRange, IsToken;
    StartLineImage(s);
    var verb := ReadToken(s);
    var target := ReadToken(verb.rest);
    var version := ReadProtocol(target.rest).value;
    VerbIs(verb.value);
    VersionIs(version.value);
    WordIs(target.value);
    ReadTokenShape(s);
    var b0 := TokenSplits(s);
    var b1 := NextWord(verb.rest);
    var b2, k := VersionBehind(target.rest);
    var b3, c := LineEndShape(version.rest);
    PaddingBehind(b3, version.rest);
    var rest := ReadLineEnd(version.rest).value;
    assert s == b0 + verb.value + (" " + b1 + target.value + (" " + b2 + ("HTTP/"[..k] + version.value)
                + (b3 + ("\r" + [c] + rest))));
  }

  lemma PaddingBehind(b: string, s: string)
    requires AreBlanks(b) && b <= s && (s == "" || EndsToken(s[0]))
    ensures ArePadding(b)
  {
  }

  lemma VersionBehind(s: string) returns (b: string, k: nat)
    requires s == "" || EndsToken(s[0])
    requires ReadProtocol(s).Ok?
    ensures var r := ReadProtocol(s).value;
            && AreBlanks(b) && 1 <= k <= 5
            && s == " " + b + (PROTOCOL[..k] + r.value) + r.rest
            && (r.rest == "" || EndsToken(r.rest[0]))
  {
    var all;
    all, k := VersionShape(s);
    ProtocolImage(s);
    hide ReadProtocol;
    assert s[0] == ' ';
    var word := PROTOCOL[..k] + ReadProtocol(s).value.value + ReadProtocol(s).value.rest;
    assert s == all + word && word[0] == 'H';
    BlankAhead(all, word);
    b := all[1..];
    assert all == " " + b;
  }

  // ---- refused start lines ----

  /** A first word that begins no method is refused by its own text. */
  lemma VerbRefused(names: set<string>, b: string, word: string, more: string)
    requires AreBlanks(b) && IsOneWord(word) && !IsVerb(word)
    requires more == "" || more[0] == ' ' || more[0] == '\r'
    ensures ParseRequest(names, b + word + more) == Incorrect(word)
  {
    hide ReadToken, ReadProtocol, ReadLineEnd, ReadRest, FindInRange, IsVerb;
    VerbIs(word);
    WordIs(word);
    LooseTokenIsRead(b, word, more);
    NotInRange(METHODS, word, more);
  }

  lemma {:induction false} NotInRange(range: seq<string>, t: string, full: string)
    requires t != ""
    ensures !IsPrefixOfSome(range, t) ==> FindInRange(range, t, full, "") == Incorrect(t)
  {
    if range != [] {
      CommonPrefixIsAll(range[0], t);
      NotInRange(range[1..], t, full);
      if i :| 0 <= i < |range[1..]| && t <= range[1..][i] {
        assert range[i + 1] == range[1..][i];
      }
    }
  }

  /** Behind a method and a target a word that does not start with 'H' is no protocol, and one that
      goes on behind the protocol word with anything but a version is no version. */
  lemma ProtocolRefused(b: string, word: string, more: string)
    requires AreBlanks(b) && IsOneWord(word) && (more == "" || more[0] == ' ' || more[0] == '\r')
    ensures word[0] != 'H' ==> ReadProtocol(b + word + more) == Incorrect("Request protocol")
    ensures "HTTP/" <= word && word != "HTTP/" && !IsVersion(word[5..])
            ==> ReadProtocol(b + word + more) == Incorrect("Request version")
  {
    hide ReadToken, FindInRange, IsVersion;
    LooseTokenIsRead(b, word, more);
    if word[0] != 'H' {
      assert CommonPrefix(PROTOCOL, word) == 0;
    } else if "HTTP/" <= word && word != "HTTP/" && !IsVersion(word[5..]) {
      var v := word[5..];
      CommonPrefixUnique(PROTOCOL, word, 5);
      VersionIs(v);
      FindInRangeDecides(VERSIONS, v, more, "Request version");
      FailsWithHint(VERSIONS, v, more, "Request version");
    }
  }

  lemma LineEndRefused(s: string)
    requires StartsDark(s) && (s == "" || s[0] != '\r')
    ensures ReadLineEnd(s) == Incorrect("Start line")
  {
    SkipSpacesOf("", s);
    assert "" + s == s;
    var t := if |s| < 2 then s else s[..2];
    assert CommonPrefix(CRLF, t) == 0;
  }

  /** The exact language of requests: a text is accepted, as this request, if and only if it is a
      request line and a block. */
  lemma RequestLanguage(names: set<string>, s: string, r: RequestValue)
    ensures ParseRequest(names, s) == Ok(r)
            <==> exists rest :: IsRequestLine(s, StartLine(r.verb, r.target, r.version), rest)
                                && IsBlock(names, rest, r.headers, r.body)
  {
    hide ReadStartLine, ReadRest, IsRequestLine, IsBlock;
    if ParseRequest(names, s) == Ok(r) {
      RequestLineShape(s);
      var rest := ReadStartLine(s).value.rest;
      var block := ReadRest(names, rest);
      assert block.Ok? && block.value == (block.value.0, block.value.1);
      BlockLanguage(names, rest, r.headers, r.body);
      assert IsRequestLine(s, StartLine(r.verb, r.target, r.version), rest);
    }
    if rest :| IsRequestLine(s, StartLine(r.verb, r.target, r.version), rest)
               && IsBlock(names, rest, r.headers, r.body) {
      RequestLineIsRead(s, StartLine(r.verb, r.target, r.version), rest);
      BlockLanguage(names, rest, r.headers, r.body);
    }
  }

  // ---- the language of status lines ----

  lemma LooseStatusIsRead(version: string, code: nat, text: string, b0: string, k: nat, b1: string, word: string,
                          b2: string, rest: string)
    requires IsVersion(version) && code <= 599 && IsOneLine(text)
    requires AreBlanks(b0) && AreBlanks(b1) && ArePadding(b2) && 1 <= k <= 5
    requires b2 == "" && text != "" ==> text[0] == '\r'
    requires IsOneWord(word) && Stoul(word).Some? && Stoul(word).value % 0x1_0000 == code
    ensures var s2 := b2 + (text + "\r\n" + rest);
            var s1 := (" " + b1) + word + s2;
            ReadStatusLine(b0 + (PROTOCOL[..k] + version) + s1) == Ok(Step(StatusLine(version, code, text), rest))
  {
    hide IsVersion, IsOneWord, ReadProtocol, ReadToken, ReadCode, Stoul, GoodVersion, IsToken, ReadText;
    VersionIs(version);
    WordIs(word);
    BlanksBehindSpace(b1);
    var s2 := b2 + (text + "\r\n" + rest);
    var s1 := (" " + b1) + word + s2;
    PaddedTextIsRead(b2, text, rest);
    CodeOfToken(" " + b1, word, s2);
    LooseVersionIsRead(b0, k, version, s1);
  }

  lemma PaddedTextIsRead(b: string, text: string, rest: string)
    requires ArePadding(b) && IsOneLine(text) && (b == "" && text != "" ==> text[0] == '\r')
    ensures var s := b + (text + "\r\n" + rest);
            EndsToken(s[0]) && ReadText(s) == Ok(Step(text, rest))
  {
    hide SkipSpaces, FindCrlf;
    LineIs(text);
    var t := text + CRLF + rest;
    assert t[0] == if text == "" then '\r' else text[0];
    assert (b + t)[0] == if b == "" then t[0] else b[0];
    SkipSpacesOf(b, t);
    FindCrlfAfter(text, rest);
    assert t[..|text|] == text && t[|text| + 2..] == rest;
  }

  lemma TextShape(s: string) returns (b: string)
    requires s != "" && EndsToken(s[0]) && ReadText(s).Ok?
    ensures var r := ReadText(s).value;
            && ArePadding(b) && IsOneLine(r.value) && s == b + (r.value + "\r\n" + r.rest)
            && (b == "" && r.value != "" ==> r.value[0] == '\r')
  {
    hide SkipSpaces, IsOneLine, FindCrlf, ReadText;
    b := BlanksSplit(s);
    TextParts(s);
    var u := SkipSpaces(s);
    PaddingBehind(b, s);
    var r := ReadText(s).value;
    assert u[0] == if r.value == "" then '\r' else r.value[0];
    assert b == "" ==> s == u;
  }

  lemma TextParts(s: string)
    requires ReadText(s).Ok?
    ensures var r := ReadText(s).value; IsOneLine(r.value) && SkipSpaces(s) == r.value + "\r\n" + r.rest
  {
    TextImage(s);
    LineIs(ReadText(s).value.value);
    hide SkipSpaces, GoodLine, IsOneLine;
    var u := SkipSpaces(s);
    var cur := FindCrlf(u).value;
    SplitAtCrlf(u, cur);
  }

  lemma SplitAtCrlf(u: string, cur: nat)
    requires IsCrlfAt(u, cur)
    ensures u == u[..cur] + "\r\n" + u[cur + 2..]
  {
    assert u[cur..cur + 2] == CRLF;
    assert u == u[..cur] + u[cur..cur + 2] + u[cur + 2..];
  }

  lemma StatusLineIsRead(s: string, version: string, code: nat, text: string, rest: string)
    requires IsStatusLine(s, version, code, text, rest)
    ensures ReadStatusLine(s) == Ok(Step(StatusLine(version, code, text), rest))
  {
    hide IsVersion, IsOneWord, IsOneLine, AreBlanks, ArePadding, ReadStatusLine, Stoul;
    var b0, b1, b2, k: nat, word :|
      && AreBlanks(b0) && AreBlanks(b1) && ArePadding(b2) && 1 <= k <= 5
      && (b2 == "" && text != "" ==> text[0] == '\r')
      && IsOneWord(word) && Stoul(word).Some? && Stoul(word).value % 0x1_0000 == code
      && s == b0 + ("HTTP/"[..k] + version) + (" " + b1 + word + (b2 + (text + "\r\n" + rest)));
    LooseStatusIsRead(version, code, text, b0, k, b1, word, b2, rest);
  }

  lemma CodeWord(s: string)
    requires ReadCode(s).Ok?
    ensures var t := ReadToken(s);
            && ReadCode(s).value.rest == t.rest
            && Stoul(t.value).Some? && Stoul(t.value).value % 0x1_0000 == ReadCode(s).value.value <= 599
            && t.value != ""
  {
    EmptyIsNoNumber();
    hide ReadToken, Stoul;
  }

  lemma StatusLineShape(s: string)
    requires ReadStatusLine(s).Ok?
    ensures var r := ReadStatusLine(s).value;
            IsStatusLine(s, r.value.version, r.value.code, r.value.text, r.rest)
  {
    hide IsVersion, IsOneWord, IsOneLine, AreBlanks, ArePadding, ReadProtocol, ReadCode, ReadText, GoodVersion,
      ReadToken, Stoul;
    var version := ReadProtocol(s).value;
    var code := ReadCode(version.rest).value;
    var b0, k := VersionShape(s);
    VersionIs(version.value);
    CodeWord(version.rest);
    var word := ReadToken(version.rest).value;
    var b1 := NextWord(version.rest);
    NothingBehind();
    var b2 := TextShape(code.rest);
    var text := ReadText(code.rest).value;
    assert s == b0 + ("HTTP/"[..k] + version.value) + (" " + b1 + word + (b2 + (text.value + "\r\n" + text.rest)));
  }

  /** The exact language of responses. */
  lemma ResponceLanguage(names: set<string>, s: string, r: ResponceValue)
    ensures ParseResponce(names, s) == Ok(r)
            <==> exists rest :: IsStatusLine(s, r.version, r.code, r.text, rest)
                                && IsBlock(names, rest, r.headers, r.body)
  {
    hide ReadProtocol, ReadCode, ReadText, ReadRest, IsStatusLine, IsBlock;
    if ParseResponce(names, s) == Ok(r) {
      assert ReadStatusLine(s).Ok?;
      StatusLineShape(s);
      var rest := ReadStatusLine(s).value.rest;
      var block := ReadRest(names, rest);
      assert block.Ok? && block.value == (block.value.0, block.value.1);
      BlockLanguage(names, rest, r.headers, r.body);
      assert IsStatusLine(s, r.version, r.code, r.text, rest);
    }
    if rest :| IsStatusLine(s, r.version, r.code, r.text, rest) && IsBlock(names, rest, r.headers, r.body) {
      StatusLineIsRead(s, r.version, r.code, r.text, rest);
      BlockLanguage(names, rest, r.headers, r.body);
    }
  }

  // ---- the length of the body ----

  /** How a body ends the parsing: the first header that names a length decides, and without one
      there is no body. */
  predicate IsBodyOutcome<T(==)>(headers: seq<Header>, body: string, p: Parsed<T>, value: T) {
    && (forall i :: 0 <= i < |headers| && IsLengthAt(headers, i) ==>
          match Stoul(headers[i].value)
          case None => p == Incorrect("Content length")
          case Some(size) =>
            if |body| < size then p == Expecting("Body")
            else if |body| > size then p == Incorrect("Size of body")
            else p == Ok(value))
    && (HasNoLength(headers) ==>
          p == if body == "" then Ok(value) else Incorrect("Body exists, but no content length found"))
  }

  lemma BodyOutcome(headers: seq<Header>, body: string)
    ensures IsBodyOutcome(headers, body, ReadBody(headers, body), body)
  {
    hide Stoul, LengthHeader;
    LengthHeaderIs(headers);
  }

  lemma RestOutcome(names: set<string>, lines: seq<Line>, tail: string, body: string)
    requires ArePadded(lines) && AreHeaders(names, HeadersOf(lines)) && IsTail(tail, body)
    ensures var s := LinesText(lines) + tail;
            IsBodyOutcome(HeadersOf(lines), body, ReadRest(names, s), (HeadersOf(lines), body))
  {
    hide ReadHeaders, ReadBody, AreHeaders, HeadersOf, LinesText, ArePadded, IsLengthAt, HasNoLength, Stoul;
    var headers := HeadersOf(lines);
    HeadersAre(names, headers);
    assert [] + headers == headers;
    LinesAreRead(names, [], lines, tail);
    TailIsRead(names, headers, tail, body);
    BodyOutcome(headers, body);
  }

  /** Behind a request line and header lines the first header named Content-Length or
      Transfer-Encoding decides on the body, whatever the body is. */
  lemma RequestLengthDecides(names: set<string>, s: string, line: StartLine, lines: seq<Line>, tail: string,
                             body: string)
    requires IsRequestLine(s, line, LinesText(lines) + tail) && ArePadded(lines) && IsTail(tail, body)
    requires AreHeaders(names, HeadersOf(lines))
    ensures IsBodyOutcome(HeadersOf(lines), body, ParseRequest(names, s),
                          RequestValue(line.verb, line.target, line.version, HeadersOf(lines), body))
  {
    hide ReadStartLine, ReadRest, IsRequestLine, AreHeaders, HeadersOf, LinesText, ArePadded, IsTail, IsLengthAt,
      HasNoLength, Stoul;
    RequestLineIsRead(s, line, LinesText(lines) + tail);
    RestOutcome(names, lines, tail, body);
  }

  lemma ResponceLengthDecides(names: set<string>, s: string, line: StatusLine, lines: seq<Line>, tail: string,
                              body: string)
    requires IsStatusLine(s, line.version, line.code, line.text, LinesText(lines) + tail)
    requires ArePadded(lines) && IsTail(tail, body) && AreHeaders(names, HeadersOf(lines))
    ensures IsBodyOutcome(HeadersOf(lines), body, ParseResponce(names, s),
                          ResponceValue(line.version, line.code, line.text, HeadersOf(lines), body))
  {
    hide ReadProtocol, ReadCode, ReadText, ReadRest, IsStatusLine, AreHeaders, HeadersOf, LinesText, ArePadded, IsTail,
      IsLengthAt, HasNoLength, Stoul;
    StatusLineIsRead(s, line.version, line.code, line.text, LinesText(lines) + tail);
    RestOutcome(names, lines, tail, body);
  }

  // ---- refused headers ----

  /** The first word of a header line is a name of the table, or one that starts with "X-", and a
      colon. */
  predicate NamesHeader(names: set<string>, word: string) {
    && (exists i :: 0 <= i < |word| && word[i] == ':')
    && (forall i :: 0 <= i < |word| && word[i] == ':' ==> i == |word| - 1)
    && var name := word[..|word| - 1]; name in names || "X-" <= name
  }

  lemma WordNames(names: set<string>, word: string)
    ensures NamesHeader(names, word) <==> IsHeaderToken(word) && IsAllowed(names, word[..|word| - 1])
  {
  }

  predicate LineStarts(s: string, b: string, word: string, more: string) {
    && AreBlanks(b) && IsOneWord(word) && (more != "" ==> more[0] == ' ' || more[0] == '\r')
    && s == b + word + more
    && exists i :: 0 <= i < |more| - 1 && more[i] == '\r' && more[i + 1] == '\n'
  }

  /** A line whose first word names no header, or one that was there before, is refused. */
  lemma HeaderRefused(names: set<string>, seen: seq<Header>, s: string, b: string, word: string, more: string)
    requires LineStarts(s, b, word, more)
    ensures var p := ReadHeaders(names, seen, s);
            if !NamesHeader(names, word) then p == Incorrect("Header name")
            else (exists i :: 0 <= i < |seen| && seen[i].name == word[..|word| - 1])
                 ==> p == Incorrect("Multiple header use")
  {
    hide ReadToken, SkipSpaces, FindCrlf, IsHeaderToken, IsAllowed, NamesHeader;
    LooseTokenIsRead(b, word, more);
    WordNames(names, word);
    var i :| 0 <= i < |more| - 1 && more[i] == '\r' && more[i + 1] == '\n';
    assert s[|b| + |word| + i] == more[i] && s[|b| + |word| + i + 1] == more[i + 1];
    assert IsCrlfAt(s, |b| + |word| + i);
    assert s[0] == if b == "" then word[0] else b[0];
    assert FindCrlf(s).Some? && FindCrlf(s).value != 0;
  }

  /** So is a request that has such a line behind good ones. */
  lemma RequestRefused(names: set<string>, s: string, line: StartLine, lines: seq<Line>, tail: string, b: string,
                       word: string, more: string)
    requires IsRequestLine(s, line, LinesText(lines) + tail) && ArePadded(lines) && LineStarts(tail, b, word, more)
    requires AreHeaders(names, HeadersOf(lines))
    ensures var p := ParseRequest(names, s);
            if !NamesHeader(names, word) then p == Incorrect("Header name")
            else (exists i :: 0 <= i < |lines| && lines[i].header.name == word[..|word| - 1])
                 ==> p == Incorrect("Multiple header use")
  {
    hide ReadStartLine, ReadHeaders, IsRequestLine, AreHeaders, LinesText, ArePadded, LineStarts, NamesHeader;
    var headers := HeadersOf(lines);
    assert forall i :: 0 <= i < |lines| ==> headers[i].name == lines[i].header.name;
    HeadersAre(names, headers);
    assert [] + headers == headers;
    RequestLineIsRead(s, line, LinesText(lines) + tail);
    LinesAreRead(names, [], lines, tail);
    HeaderRefused(names, headers, tail, b, word, more);
  }

  // ---- what is printed ----

  /** Each header as it is printed: no blank in front, one space behind the colon. */
  function Plain(headers: seq<Header>): seq<Line> {
    seq(|headers|, i requires 0 <= i < |headers| => Line("", headers[i], " "))
  }

  lemma {:induction false} PrintedHeaders(headers: seq<Header>)
    ensures PrintHeaders(headers) == LinesText(Plain(headers))
  {
    if headers != [] {
      PrintedHeaders(headers[1..]);
      assert Plain(headers)[1..] == Plain(headers[1..]);
      assert LineText(Plain(headers)[0]) == PrintHeader(headers[0]);
    }
  }

  lemma PrintedForms(r: RequestValue, q: ResponceValue)
    ensures PrintRequest(r)
            == r.verb + " " + r.target + " HTTP/" + r.version + "\r\n" + LinesText(Plain(r.headers)) + "\r\n" + r.body
    ensures PrintResponce(q)
            == "HTTP/" + q.version + " " + ToDecimal(q.code) + " " + q.text + "\r\n" + LinesText(Plain(q.headers))
               + "\r\n" + q.body
  {
    hide ToDecimal, LinesText, Plain, PrintHeaders;
    PrintedHeaders(r.headers);
    PrintedHeaders(q.headers);
  }
}
