/** `std::stoul` in base ten on a 64-bit `unsigned long`, and `std::to_string`. */
module Numbers {
  import opened Text

  const ULONG_RANGE: nat := 0x1_0000_0000_0000_0000

  predicate IsDigit(c: char) {
    '0' <= c <= '9'
  }

  /** `isspace` in the "C" locale. */
  predicate IsWhite(c: char) {
    c == ' ' || '\t' <= c <= '\r'
  }

  function DigitOf(c: char): nat
    requires IsDigit(c)
  {
    c as int - '0' as int
  }

  function SkipWhite(s: string): string {
    if s != "" && IsWhite(s[0]) then SkipWhite(s[1..]) else s
  }

  /** Length of the longest prefix of digits. */
  function DigitRun(s: string): (n: nat)
    ensures n <= |s|
    ensures forall i :: 0 <= i < n ==> IsDigit(s[i])
    ensures n < |s| ==> !IsDigit(s[n])
  {
    if s != "" && IsDigit(s[0]) then 1 + DigitRun(s[1..]) else 0
  }

  function ValueOf(digits: string): nat
    requires forall i :: 0 <= i < |digits| ==> IsDigit(digits[i])
  {
    if digits == "" then 0
    else 10 * ValueOf(digits[..|digits| - 1]) + DigitOf(digits[|digits| - 1])
  }

  /** None stands for `invalid_argument` (no digit) and `out_of_range` (too big).
      A minus sign negates modulo the range, and what follows the digits is ignored. */
  function Stoul(s: string): Option<nat> {
    var t := SkipWhite(s);
    var negative := t != "" && t[0] == '-';
    var u := if negative || (t != "" && t[0] == '+') then t[1..] else t;
    var n := DigitRun(u);
    if n == 0 || ValueOf(u[..n]) >= ULONG_RANGE then None
    else if negative then Some((ULONG_RANGE - ValueOf(u[..n])) % ULONG_RANGE)
    else Some(ValueOf(u[..n]))
  }

  function DigitChar(d: nat): (c: char)
    requires d < 10
    ensures IsDigit(c) && DigitOf(c) == d
  {
    '0' + d as char
  }

  function ToDecimal(n: nat): (s: string)
    ensures s != "" && forall i :: 0 <= i < |s| ==> IsDigit(s[i])
  {
    if n < 10 then [DigitChar(n)] else ToDecimal(n / 10) + [DigitChar(n % 10)]
  }

  lemma {:induction false} ValueOfDecimal(n: nat)
    ensures ValueOf(ToDecimal(n)) == n
  {
    var s := ToDecimal(n);
    if n < 10 {
      assert s[..0] == "";
    } else {
      ValueOfDecimal(n / 10);
      assert s[..|s| - 1] == ToDecimal(n / 10);
    }
  }

  function TenTo(k: nat): nat {
    if k == 0 then 1 else 10 * TenTo(k - 1)
  }

  /** Digits have their places: a front part counts ten times for every digit behind it. */
  lemma {:induction false} ValueOfPlaces(a: string, b: string)
    requires forall i :: 0 <= i < |a| ==> IsDigit(a[i])
    requires forall i :: 0 <= i < |b| ==> IsDigit(b[i])
    ensures ValueOf(a + b) == ValueOf(a) * TenTo(|b|) + ValueOf(b)
    ensures forall c: char :: '0' <= c <= '9' ==> ValueOf([c]) == c as int - 48
  {
    if b == "" {
      assert a + b == a;
    } else {
      var front := b[..|b| - 1];
      assert (a + b)[..|a + b| - 1] == a + front;
      ValueOfPlaces(a, front);
      assert ValueOf(a) * TenTo(|b|) == 10 * (ValueOf(a) * TenTo(|front|)) by { TimesTen(ValueOf(a), TenTo(|front|)); }
    }
  }

  lemma TimesTen(x: nat, y: nat)
    ensures x * (10 * y) == 10 * (x * y)
  {
  }

  /** Printing and reading back is the identity on every value of the type. */
  lemma StoulOfDecimal(n: nat)
    requires n < ULONG_RANGE
    ensures Stoul(ToDecimal(n)) == Some(n)
  {
    var s := ToDecimal(n);
    assert IsDigit(s[0]);
    assert DigitRun(s) == |s|;
    assert s[..|s|] == s;
    ValueOfDecimal(n);
  }

  lemma {:induction false} SkipWhiteOf(white: string, s: string)
    requires forall i :: 0 <= i < |white| ==> IsWhite(white[i])
    requires s == "" || !IsWhite(s[0])
    ensures SkipWhite(white + s) == s
  {
    if white == "" {
      assert white + s == s;
    } else {
      assert (white + s)[1..] == white[1..] + s;
      SkipWhiteOf(white[1..], s);
    }
  }

  lemma DigitRunOf(digits: string, junk: string)
    requires forall i :: 0 <= i < |digits| ==> IsDigit(digits[i])
    requires junk == "" || !IsDigit(junk[0])
    ensures DigitRun(digits + junk) == |digits| && (digits + junk)[..|digits|] == digits
  {
    var u := digits + junk;
    assert forall i :: 0 <= i < |digits| ==> u[i] == digits[i];
    assert junk != "" ==> u[|digits|] == junk[0];
  }

  /** Everything `stoul` accepts: white space, an optional sign, the longest run of digits, and
      whatever follows. A sign without digits, and a value outside the type, is refused. */
  lemma StoulReads(white: string, sign: string, digits: string, junk: string)
    requires forall i :: 0 <= i < |white| ==> white[i] as int == 32 || 9 <= white[i] as int <= 13
    requires sign in {"", "+", "-"}
    requires forall i :: 0 <= i < |digits| ==> IsDigit(digits[i])
    requires junk == "" || !IsDigit(junk[0])
    requires sign == "" && digits == "" && junk != "" ==>
               junk[0] !in {'+', '-', ' '} && !(9 <= junk[0] as int <= 13)
    ensures Stoul(white + (sign + (digits + junk)))
            == if digits == "" || ValueOf(digits) >= 0x1_0000_0000_0000_0000 then None
               else if sign == "-" then Some((0x1_0000_0000_0000_0000 - ValueOf(digits)) % 0x1_0000_0000_0000_0000)
               else Some(ValueOf(digits))
  {
    hide ValueOf, DigitRun, SkipWhite;
    var u := digits + junk;
    var t := sign + u;
    DigitRunOf(digits, junk);
    assert t != "" ==> t[0] == if sign != "" then sign[0] else if digits != "" then digits[0] else junk[0];
    SkipWhiteOf(white, t);
    assert sign != "" ==> t[1..] == u;
    assert sign == "" ==> t == u;
  }

  /** The digits of a number form a token. */
  lemma DecimalIsToken(n: nat)
    ensures IsToken(ToDecimal(n))
  {
    var s := ToDecimal(n);
    assert IsDigit(s[0]);
  }
}
