/** The server's reply to a password, as text, and the client's reading of it as a number. */
module SessionId {
  import opened Wrappers
  import opened Trim
  import Handshake

  const REJECT_RESP: string := "[reject]"
  const TIMEOUT_RESP: string := "[timeout]"
  const DIGITS: string := "0123456789"
  const WHITESPACE: string := " \t\n\U{0B}\U{0C}\r"
  const LLONG_LIMIT: int := 0x8000_0000_0000_0000

  /** std::format("{}", n) of an unsigned integer. */
  function Print(n: nat): (s: string)
    ensures |s| > 0 && AllIn(s, DIGITS)
  {
    if n < 10 then [DIGITS[n]] else Print(n / 10) + [DIGITS[n % 10]]
  }

  function DigitValue(c: char): nat
    requires c in DIGITS
  {
    c as int - '0' as int
  }

  function DecimalValue(s: string): nat
    requires AllIn(s, DIGITS)
  {
    if s == "" then 0
    else
      assert AllIn(s[..|s| - 1], DIGITS);
      10 * DecimalValue(s[..|s| - 1]) + DigitValue(s[|s| - 1])
  }

  /** QString::toLongLong in base 10: white space round it is ignored, a sign is allowed, anything
      else but digits, or a value outside 64 bits, is an error. */
  function ToLongLong(s: string): Option<int> {
    ParseTrimmed(TrimToken(s, WHITESPACE))
  }

  function ParseTrimmed(t: string): Option<int> {
    var digits := if t != "" && (t[0] == '-' || t[0] == '+') then t[1..] else t;
    if digits == "" || FindFirstNotOf(digits, DIGITS).Some? then None
    else
      var magnitude: int := DecimalValue(digits);
      var value := if t[0] == '-' then -magnitude else magnitude;
      if -LLONG_LIMIT <= value < LLONG_LIMIT then Some(value) else None
  }

  function ReplyText(reply: Handshake.Reply, sessionId: nat): string {
    match reply
    case SessionId => Print(sessionId)
    case Reject => REJECT_RESP
    case Timeout => TIMEOUT_RESP
  }

  /** The two refusals, as they are on the wire. */
  lemma Refusals(sessionId: nat)
    ensures ReplyText(Handshake.Reject, sessionId) == "[reject]"
    ensures ReplyText(Handshake.Timeout, sessionId) == "[timeout]"
  {
  }

  lemma {:induction false} PrintHasValue(n: nat)
    ensures DecimalValue(Print(n)) == n
  {
    if 10 <= n {
      PrintHasValue(n / 10);
      assert Print(n)[..|Print(n)| - 1] == Print(n / 10);
      assert DigitValue(DIGITS[n % 10]) == n % 10;
    } else {
      assert Print(n)[..0] == "";
      assert DigitValue(DIGITS[n]) == n;
    }
  }

  /** Printing is injective, so two sessions with different ids get different replies. */
  lemma PrintIsInjective(m: nat, n: nat)
    requires Print(m) == Print(n)
    ensures m == n
  {
    PrintHasValue(m);
    PrintHasValue(n);
  }

  lemma DigitIsPlain(c: char)
    requires c in DIGITS
    ensures c !in WHITESPACE && c != '-' && c != '+'
  {
  }

  lemma PrintParses(n: nat)
    requires n < LLONG_LIMIT
    ensures ToLongLong(Print(n)) == Some(n)
  {
    var s := Print(n);
    DigitIsPlain(s[0]);
    DigitIsPlain(s[|s| - 1]);
    TrimTokenKeepsBare(s, WHITESPACE);
    PrintHasValue(n);
  }

  /** Text that starts with a char which is neither white space, a sign nor a digit is no number;
      that covers both refusals and every JSON chat message. */
  lemma OtherTextNeverParses(s: string)
    requires s != "" && s[0] !in WHITESPACE + DIGITS + "+-"
    ensures ToLongLong(s) == None
  {
    TrimTokenIsLongest(s, WHITESPACE);
    assert s[0] !in WHITESPACE;
    var lo, hi :| Bare(s, lo, hi, WHITESPACE) && TrimToken(s, WHITESPACE) == s[lo..hi]
      && forall a, b :: Bare(s, a, b, WHITESPACE) ==> lo <= a && b <= hi;
    assert Bare(s, 0, 1, WHITESPACE);
    var t := s[lo..hi];
    assert t[0] == s[0];
    assert t[0] != '-' && t[0] != '+' && t[0] !in DIGITS;
    assert !AllIn(t, DIGITS);
  }

  /** The client reads a number out of the server's reply exactly when the reply is a session id,
      and then it is that id: every unsigned 32-bit id fits the signed 64-bit result. */
  lemma ReplyAgreement(reply: Handshake.Reply, sessionId: nat)
    requires sessionId < 0x1_0000_0000
    ensures ToLongLong(ReplyText(reply, sessionId)) == (if reply.SessionId? then Some(sessionId) else None)
  {
    match reply
    case SessionId => PrintParses(sessionId);
    case Reject => OtherTextNeverParses(REJECT_RESP);
    case Timeout => OtherTextNeverParses(TIMEOUT_RESP);
  }

  // ---------- exactly the numbers ----------

  predicate IsSpace(c: char) { c == ' ' || '\t' <= c <= '\r' }

  predicate IsDigit(c: char) { '0' <= c <= '9' }

  ghost predicate Spaces(s: string) { forall i :: 0 <= i < |s| ==> IsSpace(s[i]) }

  ghost predicate Digits(s: string) { forall i :: 0 <= i < |s| ==> IsDigit(s[i]) }

  lemma DigitsAreIn(s: string)
    ensures Digits(s) <==> AllIn(s, DIGITS)
  {
    assert forall c: char :: c in DIGITS <==> IsDigit(c);
  }

  lemma SpacesAreIn(s: string)
    ensures Spaces(s) <==> AllIn(s, WHITESPACE)
  {
    assert forall c: char :: c in WHITESPACE <==> IsSpace(c);
  }

  function Signed(sign: string, magnitude: int): int {
    if sign == "-" then -magnitude else magnitude
  }

  /** `t` is a sign, or none, and digits of this value, which fits 64 bits. */
  ghost predicate SignedDigits(t: string, sign: string, digits: string, value: int) {
    && t == sign + digits && (sign == "" || sign == "+" || sign == "-")
    && digits != "" && Digits(digits) && AllIn(digits, DIGITS)
    && value == Signed(sign, DecimalValue(digits))
    && -9223372036854775808 <= value <= 9223372036854775807
  }

  lemma SignApart(t: string) returns (sign: string, digits: string)
    requires t != ""
    ensures t == sign + digits && (sign == "" || sign == "+" || sign == "-")
    ensures t[0] == '-' || t[0] == '+' ==> digits == t[1..] && sign == [t[0]]
    ensures !(t[0] == '-' || t[0] == '+') ==> digits == t && sign == ""
  {
    if t[0] == '-' || t[0] == '+' {
      sign, digits := t[..1], t[1..];
    } else {
      sign, digits := "", t;
    }
  }

  lemma ParsedIsSigned(t: string, value: int) returns (sign: string, digits: string)
    requires ParseTrimmed(t) == Some(value)
    ensures SignedDigits(t, sign, digits, value)
  {
    sign, digits := SignApart(t);
    DigitsAreIn(digits);
  }

  lemma SignedIsParsed(t: string, sign: string, digits: string, value: int)
    requires SignedDigits(t, sign, digits, value)
    ensures ParseTrimmed(t) == Some(value)
  {
    if sign == "" {
      assert IsDigit(t[0]);
      assert t == digits;
    } else {
      assert t[0] == sign[0] && t[1..] == digits;
    }
  }

  /** The text is white space, a number, white space. */
  ghost predicate ReadsAs(s: string, before: string, sign: string, digits: string, after: string, value: int) {
    && s == before + (sign + digits) + after && Spaces(before) && Spaces(after)
    && SignedDigits(sign + digits, sign, digits, value)
  }

  lemma NumberHasNoSpaceAtItsEnds(t: string, sign: string, digits: string, value: int)
    requires SignedDigits(t, sign, digits, value)
    ensures t != "" && t[0] !in WHITESPACE && t[|t| - 1] !in WHITESPACE
  {
    DigitIsPlain(digits[0]);
    DigitIsPlain(digits[|digits| - 1]);
    assert t[|t| - 1] == digits[|digits| - 1];
    assert t[0] == (if sign == "" then digits[0] else sign[0]);
  }

  lemma ReadIsNumber(s: string, value: int)
      returns (before: string, sign: string, digits: string, after: string)
    requires ToLongLong(s) == Some(value)
    ensures ReadsAs(s, before, sign, digits, after, value)
  {
    before, after := TrimTokenAround(s, WHITESPACE);
    SpacesAreIn(before);
    SpacesAreIn(after);
    sign, digits := ParsedIsSigned(TrimToken(s, WHITESPACE), value);
  }

  lemma NumberIsRead(s: string, before: string, sign: string, digits: string, after: string, value: int)
    requires ReadsAs(s, before, sign, digits, after, value)
    ensures ToLongLong(s) == Some(value)
  {
    SpacesAreIn(before);
    SpacesAreIn(after);
    NumberHasNoSpaceAtItsEnds(sign + digits, sign, digits, value);
    TrimEndsStrips(before, sign + digits, after, WHITESPACE, WHITESPACE);
    SignedIsParsed(sign + digits, sign, digits, value);
  }

  /** The client reads exactly the texts that are a decimal number of 64 bits with white space round it, and each
      as the number it is. */
  lemma ReadsExactlyNumbers(s: string, value: int)
    ensures ToLongLong(s) == Some(value)
       <==> exists before, sign, digits, after :: ReadsAs(s, before, sign, digits, after, value)
  {
    if ToLongLong(s) == Some(value) {
      var before, sign, digits, after := ReadIsNumber(s, value);
    }
    if before, sign, digits, after :| ReadsAs(s, before, sign, digits, after, value) {
      NumberIsRead(s, before, sign, digits, after, value);
    }
  }

  lemma StartsWithDigit(s: string, before: string, sign: string, digits: string, after: string, value: int, i: nat)
    requires ReadsAs(s, before, sign, digits, after, value) && i < |s| && IsDigit(s[0])
    ensures IsDigit(s[i]) || IsSpace(s[i])
  {
    assert before == "" && sign == "";
    if i < |digits| {
      assert s[i] == digits[i];
    } else {
      assert s[i] == after[i - |digits|];
    }
  }

  lemma StrangeCharIsNoNumber(s: string, i: nat)
    requires i < |s| && IsDigit(s[0]) && !IsDigit(s[i]) && !IsSpace(s[i])
    ensures ToLongLong(s) == None
  {
    if ToLongLong(s).Some? {
      var value := ToLongLong(s).value;
      var before, sign, digits, after := ReadIsNumber(s, value);
      StartsWithDigit(s, before, sign, digits, after, value, i);
    }
  }

  lemma PrintStartsWithDigit(n: nat)
    ensures IsDigit(Print(n)[0])
  {
    DigitsAreIn(Print(n));
  }

  /** A session id with other text glued to it is no number, unless that is digits and white space. */
  lemma GluedIdNeverParses(sessionId: nat, text: string, i: nat)
    requires i < |text| && !IsDigit(text[i]) && !IsSpace(text[i])
    ensures ToLongLong(Print(sessionId) + text) == None
  {
    PrintStartsWithDigit(sessionId);
    StrangeCharIsNoNumber(Print(sessionId) + text, |Print(sessionId)| + i);
  }

  // ---------- printing ----------

  function Zeros(n: nat): string {
    seq(n, k requires 0 <= k < n => '0')
  }

  /** No zero leads but in "0" itself. */
  lemma {:induction false} PrintHasNoLeadingZero(n: nat)
    ensures Print(n)[0] == '0' ==> n == 0 && Print(n) == "0"
  {
    if n < 10 {
      assert DIGITS[n] == '0' ==> n == 0;
    } else {
      PrintHasNoLeadingZero(n / 10);
      assert Print(n)[0] == Print(n / 10)[0];
    }
  }

  lemma OneDigitMore(n: nat, digit: nat)
    requires 0 < n && digit < 10
    ensures Print(10 * n + digit) == Print(n) + [DIGITS[digit]]
  {
    assert (10 * n + digit) / 10 == n && (10 * n + digit) % 10 == digit;
  }

  /** The largest id, digit by digit. */
  lemma LargestId()
    ensures Print(4294967295) == "4294967295"
  {
    assert Print(4) == "4";
    OneDigitMore(4, 2);
    OneDigitMore(42, 9);
    OneDigitMore(429, 4);
    OneDigitMore(4294, 9);
    OneDigitMore(42949, 6);
    OneDigitMore(429496, 7);
    OneDigitMore(4294967, 2);
    OneDigitMore(42949672, 9);
    OneDigitMore(429496729, 5);
  }

  lemma DigitIsItsValue(c: char)
    requires c in DIGITS
    ensures DigitValue(c) < 10 && DIGITS[DigitValue(c)] == c
  {
    assert IsDigit(c);
    assert forall k :: 0 <= k < 10 ==> DIGITS[k] as int == '0' as int + k;
  }

  lemma ValueOfLast(d: string)
    requires d != "" && AllIn(d, DIGITS)
    ensures AllIn(d[..|d| - 1], DIGITS)
    ensures DecimalValue(d) == 10 * DecimalValue(d[..|d| - 1]) + DigitValue(d[|d| - 1])
  {
    assert AllIn(d[..|d| - 1], DIGITS);
  }

  /** `d` is zeros and the print of n. */
  ghost predicate Writes(d: string, n: nat) {
    |Print(n)| <= |d| && d == Zeros(|d| - |Print(n)|) + Print(n)
  }

  lemma WritesOneMore(init: string, last: char, n: nat, digit: nat)
    requires digit < 10 && DIGITS[digit] == last && (if init == "" then n == 0 else Writes(init, n))
    ensures Writes(init + [last], 10 * n + digit)
  {
    if n == 0 {
      assert Print(digit) == [last] && Print(0) == "0";
      assert init == Zeros(|init|);
    } else {
      OneDigitMore(n, digit);
    }
  }

  lemma LastApart(d: string)
    requires d != ""
    ensures d == d[..|d| - 1] + [d[|d| - 1]]
  {
  }

  /** Digits are zeros and the print of their value: their value is the number they write. */
  lemma {:induction false} DigitsWriteTheirValue(d: string)
    requires d != "" && AllIn(d, DIGITS)
    ensures Writes(d, DecimalValue(d))
  {
    var init, last := d[..|d| - 1], d[|d| - 1];
    DigitIsItsValue(last);
    ValueOfLast(d);
    LastApart(d);
    if init == "" {
      WritesOneMore(init, last, 0, DigitValue(last));
    } else {
      DigitsWriteTheirValue(init);
      WritesOneMore(init, last, DecimalValue(init), DigitValue(last));
    }
  }
}
