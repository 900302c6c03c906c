/** What the parser says about a response of which only a part has arrived. */
module ResponceStreaming {
  import opened Text
  import opened Numbers
  import opened Message
  import opened NormalForm
  import opened Streaming

  // ---- a complete header block ----

  datatype StatusLine = StatusLine(version: string, code: nat, text: string)

  function ReadStatusLine(s: string): Parsed<Step<StatusLine>> {
    var version :- ReadProtocol(s);
    var code :- ReadCode(version.rest);
    var text :- ReadText(code.rest);
    Ok(Step(StatusLine(version.value, code.value, text.value), text.rest))
  }

  datatype StatusHead = StatusHead(line: StatusLine, headers: seq<Header>)

  function ReadStatusHead(names: set<string>, s: string): Parsed<Step<StatusHead>> {
    var line :- ReadStatusLine(s);
    var headers :- ReadHeaders(names, [], line.rest);
    Ok(Step(StatusHead(line.value, headers.value), headers.rest))
  }

  predicate StatusBlockComplete(names: set<string>, s: string) {
    ReadStatusHead(names, s).Ok? && CRLF <= ReadStatusHead(names, s).value.rest
  }

  lemma CodeExtends(s: string, x: string)
    requires ReadCode(s).Ok? && ReadCode(s).value.rest != ""
    ensures ReadCode(s + x) == Ok(Step(ReadCode(s).value.value, ReadCode(s).value.rest + x))
  {
    hide Stoul, SkipSpaces, TokenLength;
    ReadTokenExtends(s, x);
  }

  lemma TextExtends(s: string, x: string)
    requires ReadText(s).Ok?
    ensures ReadText(s + x) == Ok(Step(ReadText(s).value.value, ReadText(s).value.rest + x))
  {
    hide SkipSpaces;
    RestIsThere(s);
    SkipSpacesExtends(s, x);
    LineSplitExtends(SkipSpaces(s), x);
  }

  /** At the end of the text there is no code, and no line end. */
  lemma NothingBehind()
    ensures ReadCode("") == Incorrect("Cannot convert error code")
    ensures ReadText("") == Expecting("Start line")
  {
    assert ReadToken("") == Step("", "");
    assert Stoul("") == None;
  }

  /** An accepted status line stays as it is when text arrives behind it: unlike a status code, it
      is never accepted at the end of the text. */
  lemma StatusLineExtends(s: string, x: string)
    requires ReadStatusLine(s).Ok?
    ensures ReadStatusLine(s + x) == Ok(Step(ReadStatusLine(s).value.value, ReadStatusLine(s).value.rest + x))
  {
    hide ReadProtocol, ReadCode, ReadText;
    NothingBehind();
    var version := ReadProtocol(s).value;
    var code := ReadCode(version.rest).value;
    ProtocolExtends(s, x);
    CodeExtends(version.rest, x);
    TextExtends(code.rest, x);
  }

  /** Once the block is complete, bytes that arrive later leave the status line and the headers
      alone, and only the number of body bytes decides. */
  lemma CompleteStatusBlockDecides(names: set<string>, s: string, x: string)
    requires StatusBlockComplete(names, s)
    ensures var head := ReadStatusHead(names, s).value;
            var body := head.rest[2..] + x;
            && VerdictOf(ParseResponce(names, s + x)) == BodyVerdict(head.value.headers, |body|)
            && (ParseResponce(names, s + x).Ok? ==>
                  ParseResponce(names, s + x).value
                  == ResponceValue(head.value.line.version, head.value.line.code, head.value.line.text,
                                   head.value.headers, body))
  {
    hide ReadProtocol, ReadCode, ReadText, ReadHeaders, ReadBody, BodyVerdict;
    assert ReadStatusLine(s).Ok?;
    var line := ReadStatusLine(s).value;
    StatusLineExtends(s, x);
    HeadersExtend(names, [], line.rest, x);
    var head := ReadStatusHead(names, s).value;
    var body := head.rest[2..] + x;
    assert (head.rest + x)[2..] == body;
    BodyVerdictExact(head.value.headers, body);
  }

  // ---- a canonical response cut anywhere ----

  function StatusLineLength(r: ResponceValue): nat {
    |PROTOCOL| + |r.version| + 1 + |ToDecimal(r.code)| + 1 + |r.text| + 2
  }

  /** Within the status line the parser waits, except at the end of a whole version and behind the
      blank after it, where the empty text is no number. */
  function ResponceCutVerdict(r: ResponceValue, i: nat): Verdict {
    var versionEnd := |PROTOCOL| + |r.version|;
    if i == 0 then Reject
    else if i < versionEnd then Wait
    else if i == versionEnd then (if r.version in VERSIONS then Reject else Wait)
    else if i == versionEnd + 1 then Reject
    else if i < StatusLineLength(r) then Wait
    else
      var (n, k) := CompleteLines(r.headers, i - StatusLineLength(r));
      TailVerdict(r.headers[..n], k)
  }

  // -- cuts in the status line --

  lemma CutInVersion(names: set<string>, version: string, i: nat)
    requires GoodVersion(version) && i <= |PROTOCOL| + |version|
    ensures VerdictOf(ParseResponce(names, (PROTOCOL + version)[..i]))
            == if i == 0 || (i == |PROTOCOL| + |version| && version in VERSIONS) then Reject else Wait
  {
    hide ReadProtocol, ReadCode, ReadText, ReadRest, GoodVersion;
    var s := (PROTOCOL + version)[..i];
    assert "" + s == s;
    CutProtocol("", version, i);
    NothingBehind();
  }

  /** The first digits of a number print a smaller one. */
  lemma {:induction false} DecimalPrefix(n: nat, k: nat) returns (m: nat)
    requires 0 < k <= |ToDecimal(n)|
    ensures m <= n && ToDecimal(n)[..k] == ToDecimal(m)
  {
    if k == |ToDecimal(n)| {
      m := n;
    } else {
      m := DecimalPrefix(n / 10, k);
    }
  }

  lemma CutCode(code: nat, k: nat)
    requires code <= LAST_CODE && k <= |ToDecimal(code)|
    ensures var r := ReadCode(" " + ToDecimal(code)[..k]);
            if k == 0 then r.Incorrect? else r.Expecting? || (r.Ok? && r.value.rest == "")
  {
    hide Stoul, ReadToken, ToDecimal;
    if k == 0 {
      assert " " + ToDecimal(code)[..k] == " ";
      BlanksHaveNoToken(" ");
      assert Stoul("") == None by { EmptyIsNoNumber(); }
    } else {
      var m := DecimalPrefix(code, k);
      DecimalIsToken(m);
      LastToken(" ", ToDecimal(m));
      StoulOfDecimal(m);
    }
  }

  lemma EmptyIsNoNumber()
    ensures Stoul("") == None
  {
  }

  lemma CutInCode(names: set<string>, version: string, code: nat, k: nat)
    requires GoodVersion(version) && code <= LAST_CODE && k <= |ToDecimal(code)|
    ensures VerdictOf(ParseResponce(names, PROTOCOL + version + (" " + ToDecimal(code)[..k])))
            == if k == 0 then Reject else Wait
  {
    hide ReadProtocol, ReadCode, ReadText, ReadRest, GoodVersion, ToDecimal;
    var tail := " " + ToDecimal(code)[..k];
    assert "" + (PROTOCOL + version) + tail == PROTOCOL + version + tail;
    VersionOfPrinted("", version, tail);
    CutCode(code, k);
    NothingBehind();
  }

  lemma CutText(text: string, k: nat)
    requires GoodLine(text) && k < |text| + 2
    ensures ReadText((" " + (text + CRLF))[..k + 1]) == Expecting("Start line")
  {
    var q := (text + CRLF)[..k];
    assert (" " + (text + CRLF))[..k + 1] == " " + q;
    assert q != "" ==> q[0] == if text == "" then '\r' else text[0];
    SkipSpacesOf(" ", q);
    FindCrlfAfter(text, "");
    assert text + CRLF + "" == text + CRLF;
    NoCrlfInPrefix(text + CRLF, k);
    if FindCrlf(q).Some? {
      assert false;
    }
  }

  lemma CutInText(names: set<string>, r: ResponceValue, k: nat)
    requires GoodVersion(r.version) && r.code <= LAST_CODE && GoodLine(r.text) && k < |r.text| + 2
    ensures var tail := (" " + (r.text + CRLF))[..k + 1];
            VerdictOf(ParseResponce(names, PROTOCOL + r.version + (" " + ToDecimal(r.code) + tail))) == Wait
  {
    hide ReadProtocol, ReadCode, ReadText, ReadRest, GoodVersion, GoodLine, ToDecimal;
    var tail := (" " + (r.text + CRLF))[..k + 1];
    var more := " " + ToDecimal(r.code) + tail;
    assert "" + (PROTOCOL + r.version) + more == PROTOCOL + r.version + more;
    VersionOfPrinted("", r.version, more);
    CodeOfPrinted(r.code, tail);
    CutText(r.text, k);
  }

  /** The printed status line as the pieces its cuts fall into. */
  lemma StatusLinePieces(r: ResponceValue, i: nat)
    requires i < StatusLineLength(r)
    ensures |PrintStatusLine(r)| == StatusLineLength(r)
    ensures var word := PROTOCOL + r.version;
            var code := ToDecimal(r.code);
            PrintStatusLine(r)[..i]
            == if i <= |word| then word[..i]
               else if i <= |word| + 1 + |code| then word + (" " + code[..i - |word| - 1])
               else word + (" " + code + (" " + (r.text + CRLF))[..i - |word| - 1 - |code|])
  {
    hide ToDecimal;
    var word := PROTOCOL + r.version;
    var code := ToDecimal(r.code);
    var last := " " + (r.text + CRLF);
    assert PrintStatusLine(r) == word + (" " + code + last);
  }

  lemma CutInStatusLine(names: set<string>, r: ResponceValue, i: nat)
    requires GoodResponce(names, r) && i < StatusLineLength(r)
    ensures |PrintStatusLine(r)| == StatusLineLength(r)
    ensures VerdictOf(ParseResponce(names, PrintStatusLine(r)[..i])) == ResponceCutVerdict(r, i)
  {
    hide ParseResponce, PrintStatusLine, GoodVersion, GoodLine, GoodHeaders, GoodBody, ToDecimal;
    var word := PROTOCOL + r.version;
    var code := ToDecimal(r.code);
    StatusLinePieces(r, i);
    if i <= |word| {
      CutInVersion(names, r.version, i);
    } else if i <= |word| + 1 + |code| {
      CutInCode(names, r.version, r.code, i - |word| - 1);
    } else {
      CutInText(names, r, i - |word| - 2 - |code|);
    }
  }

  // -- all cuts --

  lemma StatusLineOfPrinted(r: ResponceValue, rest: string)
    requires GoodVersion(r.version) && r.code <= LAST_CODE && GoodLine(r.text)
    ensures ReadStatusLine(PrintStatusLine(r) + rest) == Ok(Step(StatusLine(r.version, r.code, r.text), rest))
  {
    hide ReadProtocol, ReadCode, ReadText, ToDecimal, GoodVersion, GoodLine;
    var s2 := " " + (r.text + CRLF + rest);
    var s1 := " " + ToDecimal(r.code) + s2;
    assert PrintStatusLine(r) + rest == "" + (PROTOCOL + r.version) + s1;
    VersionOfPrinted("", r.version, s1);
    CodeOfPrinted(r.code, s2);
    TextOfPrinted(r.text, rest);
  }

  /** Parsing behind a status line is the header loop and what concludes it. */
  lemma ParseBehind(names: set<string>, s: string)
    requires ReadStatusLine(s).Ok?
    ensures VerdictOf(ParseResponce(names, s))
            == VerdictOf(Conclude(ReadHeaders(names, [], ReadStatusLine(s).value.rest)))
  {
    hide ReadProtocol, ReadCode, ReadText, ReadHeaders, ReadBody;
  }

  lemma CutBehindStatusLine(names: set<string>, r: ResponceValue, i: nat)
    requires GoodResponce(names, r) && StatusLineLength(r) <= i < |PrintResponce(r)|
    requires |PrintStatusLine(r)| == StatusLineLength(r)
    ensures VerdictOf(ParseResponce(names, PrintResponce(r)[..i])) == ResponceCutVerdict(r, i)
  {
    hide ParseResponce, ReadStatusLine, PrintStatusLine, PrintRest, ReadHeaders, Conclude, TailVerdict, GoodVersion,
      GoodLine, GoodHeaders, GoodBody, CompleteLines, ToDecimal;
    var line := PrintStatusLine(r);
    var j := i - |line|;
    var rest := PrintRest(r.headers, r.body);
    assert PrintResponce(r)[..i] == line + rest[..j];
    StatusLineOfPrinted(r, rest[..j]);
    ParseBehind(names, line + rest[..j]);
    assert [] + r.headers == r.headers;
    CutInBlock(names, [], r.headers, r.body, j);
    var n := CompleteLines(r.headers, j).0;
    assert [] + r.headers[..n] == r.headers[..n];
  }

  /** The exact outcome of parsing a canonical response cut anywhere before its end. */
  lemma ResponceCutExact(names: set<string>, r: ResponceValue, i: nat)
    requires GoodResponce(names, r) && i < |PrintResponce(r)|
    ensures VerdictOf(ParseResponce(names, PrintResponce(r)[..i])) == ResponceCutVerdict(r, i)
  {
    hide ParseResponce, PrintStatusLine, PrintRest, GoodResponce, ResponceCutVerdict;
    StatusLinePieces(r, 0);
    if i < StatusLineLength(r) {
      assert PrintResponce(r)[..i] == PrintStatusLine(r)[..i];
      CutInStatusLine(names, r, i);
    } else {
      CutBehindStatusLine(names, r, i);
    }
  }

  /** A cut response is taken for a whole one exactly when the cut falls behind the second
      character of a header line and the headers before that line ask for what is left. */
  lemma FalseResponceExact(names: set<string>, r: ResponceValue, i: nat)
    requires GoodResponce(names, r) && i < |PrintResponce(r)|
    ensures ParseResponce(names, PrintResponce(r)[..i]).Ok?
            <==> && i >= StatusLineLength(r)
                 && var (n, k) := CompleteLines(r.headers, i - StatusLineLength(r));
                    && n < |r.headers| && k >= 2
                    && match LengthHeader(r.headers[..n]) {
                         case None => k == 2
                         case Some(h) => Stoul(h.value) == Some(k - 2)
                       }
  {
    hide ParseResponce, PrintResponce, GoodResponce, Stoul;
    ResponceCutExact(names, r, i);
    if i >= StatusLineLength(r) && CompleteLines(r.headers, i - StatusLineLength(r)).0 == |r.headers| {
      ResponceParts(names, r);
      BodyCutWaits(r.headers, r.body, i - StatusLineLength(r));
    }
  }

  lemma ResponceParts(names: set<string>, r: ResponceValue)
    requires GoodResponce(names, r)
    ensures GoodBody(r.headers, r.body)
    ensures |PrintResponce(r)| == StatusLineLength(r) + |PrintRest(r.headers, r.body)|
  {
  }
}
