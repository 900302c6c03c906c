/** Characters and character sequences as the message parser sees them: blanks, tokens,
    line ends and common prefixes. Every scanning function states what it finds, so that
    the parser lemmas never have to unroll it. */
module Text {

  datatype Option<+T> = None | Some(value: T)

  const CRLF := "\r\n"

  predicate IsSpace(c: char) {
    c == ' ' || c == '\t'
  }

  /** The two characters at which a token stops. A tab does not stop a token. */
  predicate EndsToken(c: char) {
    c == ' ' || c == '\r'
  }

  /** Number of leading spaces and tabs. */
  function LeadingSpaces(s: string): (n: nat)
    ensures n <= |s|
    ensures forall i :: 0 <= i < n ==> IsSpace(s[i])
    ensures n < |s| ==> !IsSpace(s[n])
  {
    if s != "" && IsSpace(s[0]) then 1 + LeadingSpaces(s[1..]) else 0
  }

  function SkipSpaces(s: string): string {
    if s != "" && IsSpace(s[0]) then SkipSpaces(s[1..]) else s
  }

  lemma {:induction false} SkipSpacesIs(s: string)
    ensures SkipSpaces(s) == s[LeadingSpaces(s)..]
    ensures SkipSpaces(s) != "" ==> !IsSpace(SkipSpaces(s)[0])
  {
    if s != "" && IsSpace(s[0]) {
      SkipSpacesIs(s[1..]);
    }
  }

  /** Length of the longest prefix that holds no space and no CR. */
  function TokenLength(s: string): (n: nat)
    ensures n <= |s|
    ensures forall i :: 0 <= i < n ==> !EndsToken(s[i])
    ensures n < |s| ==> EndsToken(s[n])
  {
    if s == "" || EndsToken(s[0]) then 0 else 1 + TokenLength(s[1..])
  }

  /** A value taken off the front of the text, and the text that is left. */
  datatype Step<+T> = Step(value: T, rest: string)

  /** The characters up to the next stop. */
  function UpToStop(s: string): string {
    if s == "" || EndsToken(s[0]) then "" else [s[0]] + UpToStop(s[1..])
  }

  function FromStop(s: string): string {
    if s == "" || EndsToken(s[0]) then s else FromStop(s[1..])
  }

  function ReadToken(s: string): Step<string> {
    if s != "" && IsSpace(s[0]) then ReadToken(s[1..]) else Step(UpToStop(s), FromStop(s))
  }

  lemma {:induction false} StopIs(s: string)
    ensures UpToStop(s) == s[..TokenLength(s)] && FromStop(s) == s[TokenLength(s)..]
  {
    if s != "" && !EndsToken(s[0]) {
      StopIs(s[1..]);
    }
  }

  /** The token lies behind the blanks and ends at the first stop. */
  lemma {:induction false} ReadTokenIs(s: string)
    ensures var t := SkipSpaces(s); ReadToken(s) == Step(t[..TokenLength(t)], t[TokenLength(t)..])
  {
    if s != "" && IsSpace(s[0]) {
      ReadTokenIs(s[1..]);
    } else {
      StopIs(s);
    }
  }

  predicate IsCrlfAt(s: string, i: nat) {
    i + 1 < |s| && s[i] == '\r' && s[i + 1] == '\n'
  }

  predicate HasCrlf(s: string) {
    exists i: nat :: i < |s| && IsCrlfAt(s, i)
  }

  /** Position of the first CRLF. */
  function FindCrlf(s: string): (r: Option<nat>)
    ensures r.Some? ==> IsCrlfAt(s, r.value) && forall i: nat :: i < r.value ==> !IsCrlfAt(s, i)
    ensures r.None? ==> !HasCrlf(s)
  {
    if |s| < 2 then None
    else if IsCrlfAt(s, 0) then Some(0)
    else
      var r := FindCrlf(s[1..]);
      assert forall i: nat :: 0 < i ==> (IsCrlfAt(s, i) <==> IsCrlfAt(s[1..], i - 1));
      if r.None? then None else Some(r.value + 1)
  }

  /** Length of the longest common prefix. */
  function CommonPrefix(a: string, b: string): (n: nat)
    ensures n <= |a| && n <= |b| && a[..n] == b[..n]
    ensures n < |a| && n < |b| ==> a[n] != b[n]
  {
    if a == "" || b == "" || a[0] != b[0] then 0 else 1 + CommonPrefix(a[1..], b[1..])
  }

  /** What `ReadToken` can return: no leading blank, no space or CR inside. */
  predicate IsToken(t: string) {
    && t != ""
    && !IsSpace(t[0])
    && forall i :: 0 <= i < |t| ==> !EndsToken(t[i])
  }

  // ---- the scanners are determined by what they find ----

  lemma SkipSpacesOf(blanks: string, s: string)
    requires forall i :: 0 <= i < |blanks| ==> IsSpace(blanks[i])
    requires s == "" || !IsSpace(s[0])
    ensures LeadingSpaces(blanks + s) == |blanks| && SkipSpaces(blanks + s) == s
  {
    SkipSpacesIs(blanks + s);
    assert forall i :: 0 <= i < |blanks| ==> (blanks + s)[i] == blanks[i];
    assert s != "" ==> (blanks + s)[|blanks|] == s[0];
    assert (blanks + s)[|blanks|..] == s;
  }

  lemma TokenLengthOf(t: string, rest: string)
    requires forall i :: 0 <= i < |t| ==> !EndsToken(t[i])
    requires rest == "" || EndsToken(rest[0])
    ensures TokenLength(t + rest) == |t|
  {
    assert forall i :: 0 <= i < |t| ==> (t + rest)[i] == t[i];
    assert rest != "" ==> (t + rest)[|t|] == rest[0];
  }

  /** Reading a token that follows any blanks and is followed by its stop gives it back. */
  lemma ReadTokenOf(blanks: string, t: string, rest: string)
    requires forall i :: 0 <= i < |blanks| ==> IsSpace(blanks[i])
    requires IsToken(t)
    requires rest == "" || EndsToken(rest[0])
    ensures ReadToken(blanks + t + rest) == Step(t, rest)
  {
    hide ReadToken, SkipSpaces;
    assert blanks + t + rest == blanks + (t + rest);
    ReadTokenIs(blanks + (t + rest));
    SkipSpacesOf(blanks, t + rest);
    TokenLengthOf(t, rest);
    assert (t + rest)[..|t|] == t && (t + rest)[|t|..] == rest;
  }

  /** A token is empty only when the text ends there or goes on with CR. */
  lemma ReadTokenShape(s: string)
    ensures var r := ReadToken(s);
            && (r.value == "" || IsToken(r.value))
            && (r.rest == "" || EndsToken(r.rest[0]))
            && (r.value == "" ==> r.rest == "" || r.rest[0] == '\r')
            && |r.rest| + |r.value| <= |s|
  {
    ReadTokenIs(s);
    SkipSpacesIs(s);
  }

  /** Text appended behind the stop of a token does not change the token. */
  lemma ReadTokenExtends(s: string, x: string)
    requires ReadToken(s).rest != ""
    ensures ReadToken(s + x) == Step(ReadToken(s).value, ReadToken(s).rest + x)
  {
    var t := SkipSpaces(s);
    ReadTokenIs(s);
    ReadTokenIs(s + x);
    SkipSpacesExtends(s, x);
    var n := TokenLength(t);
    TokenLengthOf(t[..n], t[n..] + x);
    assert t + x == t[..n] + (t[n..] + x);
    assert (t + x)[..n] == t[..n] && (t + x)[n..] == t[n..] + x;
  }

  lemma SkipSpacesExtends(s: string, x: string)
    requires SkipSpaces(s) != ""
    ensures SkipSpaces(s + x) == SkipSpaces(s) + x
  {
    hide SkipSpaces;
    var k := LeadingSpaces(s);
    SkipSpacesIs(s);
    assert (s[k..] + x)[0] == s[k..][0];
    SkipSpacesOf(s[..k], s[k..] + x);
    assert s + x == s[..k] + (s[k..] + x);
  }

  lemma FindCrlfUnique(s: string, k: nat)
    requires IsCrlfAt(s, k)
    requires forall i: nat :: i < k ==> !IsCrlfAt(s, i)
    ensures FindCrlf(s) == Some(k)
  {
    assert k < |s|;
  }

  /** The first line end of a text without one, printed in front of CRLF, is that CRLF. */
  lemma FindCrlfAfter(v: string, rest: string)
    requires !HasCrlf(v)
    ensures FindCrlf(v + CRLF + rest) == Some(|v|)
  {
    var s := v + CRLF + rest;
    assert s[|v|] == '\r' && s[|v| + 1] == '\n';
    forall i: nat | i < |v|
      ensures !IsCrlfAt(s, i)
    {
      assert s[i] == v[i];
      if i + 1 < |v| {
        assert s[i + 1] == v[i + 1];
        assert !IsCrlfAt(v, i);
      } else {
        assert s[i + 1] == '\r';
      }
    }
    FindCrlfUnique(s, |v|);
  }

  lemma FindCrlfExtends(s: string, x: string)
    requires FindCrlf(s).Some?
    ensures FindCrlf(s + x) == FindCrlf(s)
  {
    var k := FindCrlf(s).value;
    assert forall i: nat :: i + 1 < |s| ==> (IsCrlfAt(s + x, i) <==> IsCrlfAt(s, i));
    FindCrlfUnique(s + x, k);
  }

  /** Dropping text in front of the first line end moves that line end forward. */
  lemma FindCrlfInSuffix(s: string, k: nat)
    requires FindCrlf(s).Some? && k <= FindCrlf(s).value
    ensures FindCrlf(s[k..]) == Some(FindCrlf(s).value - k)
  {
    var n := FindCrlf(s).value;
    assert forall i: nat :: k + i < |s| ==> (IsCrlfAt(s[k..], i) <==> IsCrlfAt(s, k + i));
    FindCrlfUnique(s[k..], n - k);
  }

  lemma NoCrlfInPrefix(s: string, n: nat)
    requires n <= |s|
    requires forall i: nat :: i + 1 < n ==> !IsCrlfAt(s, i)
    ensures !HasCrlf(s[..n])
  {
    forall i: nat | i < n
      ensures !IsCrlfAt(s[..n], i)
    {
      assert i + 1 < n ==> !IsCrlfAt(s, i);
    }
  }

  lemma CommonPrefixIsAll(a: string, b: string)
    ensures CommonPrefix(a, b) == |b| <==> b <= a
  {
    var n := CommonPrefix(a, b);
    assert b <= a ==> forall i :: 0 <= i < |b| ==> a[i] == b[i];
    assert n == |b| ==> b[..n] == b;
  }

  lemma CommonPrefixOfExtension(a: string, x: string)
    ensures CommonPrefix(a, a + x) == |a|
  {
    assert forall i :: 0 <= i < |a| ==> a[i] == (a + x)[i];
  }
}
