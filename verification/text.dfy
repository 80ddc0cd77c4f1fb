/** The JavaScript string built-ins the script relies on: `String.prototype.trim`
    (validation of new task text), `String(n)` on a non-negative integer and
    `String.prototype.padStart` (formatting the clock as `HH:MM`). */
module Text {

  /** ECMAScript WhiteSpace and LineTerminator code points: what `trim` strips. */
  predicate IsJsWhitespace(c: char) {
    || c == '\t' || c == '\n' || c == '\U{000B}' || c == '\U{000C}' || c == '\r'
    || c == ' ' || c == '\U{00A0}' || c == '\U{1680}'
    || ('\U{2000}' <= c <= '\U{200A}')
    || c == '\U{2028}' || c == '\U{2029}' || c == '\U{202F}' || c == '\U{205F}'
    || c == '\U{3000}' || c == '\U{FEFF}'
  }

  predicate AllWhitespace(s: string) {
    forall i :: 0 <= i < |s| ==> IsJsWhitespace(s[i])
  }

  /** How many white-space characters open `s`. */
  function LeadingWhitespace(s: string): (k: nat)
    ensures k <= |s|
    ensures forall i :: 0 <= i < k ==> IsJsWhitespace(s[i])
    ensures k == |s| || !IsJsWhitespace(s[k])
  {
    if |s| == 0 || !IsJsWhitespace(s[0]) then 0
    else 1 + LeadingWhitespace(s[1..])
  }

  /** Where the white space that closes `s` begins. */
  function TrailingStart(s: string): (j: nat)
    ensures j <= |s|
    ensures forall i :: j <= i < |s| ==> IsJsWhitespace(s[i])
    ensures j == 0 || !IsJsWhitespace(s[j - 1])
  {
    if |s| == 0 || !IsJsWhitespace(s[|s| - 1]) then |s|
    else TrailingStart(s[..|s| - 1])
  }

  /** `s.trim()`: the slice of `s` left between its leading and its trailing
      white space, which neither starts nor ends with white space. It is empty
      exactly when `s` is made of white space only. */
  function Trim(s: string): (r: string)
    ensures var k := LeadingWhitespace(s);
      && k + |r| <= |s| && r == s[k..k + |r|]
      && forall i :: k + |r| <= i < |s| ==> IsJsWhitespace(s[i])
    ensures r == [] || (!IsJsWhitespace(r[0]) && !IsJsWhitespace(r[|r| - 1]))
    ensures r == [] <==> AllWhitespace(s)
  {
    var k := LeadingWhitespace(s);
    var j := TrailingStart(s[k..]);
    assert forall i :: k + j <= i < |s| ==> s[i] == s[k..][i - k];
    s[k..k + j]
  }

  /** Trimming twice trims nothing more. */
  lemma TrimIdempotent(s: string)
    ensures Trim(Trim(s)) == Trim(s)
  {
    var r := Trim(s);
    if r != [] {
      assert LeadingWhitespace(r) == 0;
      assert TrailingStart(r) == |r|;
      assert r[0..0 + |r|] == r;
    }
  }

  predicate IsDigit(c: char) {
    '0' <= c <= '9'
  }

  predicate AllDigits(s: string) {
    forall i :: 0 <= i < |s| ==> IsDigit(s[i])
  }

  /** The character of decimal digit `d`. */
  function DigitChar(d: nat): (c: char)
    requires d < 10
    ensures IsDigit(c) && DigitValue(c) == d
  {
    ('0' as int + d) as char
  }

  /** The value of a decimal digit character. */
  function DigitValue(c: char): (d: nat)
    requires IsDigit(c)
    ensures d < 10
  {
    c as int - '0' as int
  }

  /** The number a string of decimal digits denotes (the reading `parseInt`
      gives it); the empty string denotes 0. */
  function ValueOf(s: string): nat
    requires AllDigits(s)
  {
    if s == [] then 0 else ValueOf(s[..|s| - 1]) * 10 + DigitValue(s[|s| - 1])
  }

  /** `String(n)`: the decimal numeral of `n`, one character below ten.
      JavaScript agrees only for integers below 10^21 (from there it writes
      exponent notation) that are exact numbers (below 2^53); the script
      applies it to clock fields, all below 60. */
  function DecimalString(n: nat): (r: string)
    ensures 1 <= |r|
    ensures |r| == 1 <==> n < 10
  {
    if n < 10 then [DigitChar(n)] else DecimalString(n / 10) + [DigitChar(n % 10)]
  }

  /** `String(n)` is the shortest decimal numeral of `n`: all digits, no
      leading zero, and it denotes `n`. */
  lemma {:induction false} DecimalStringNumeral(n: nat)
    ensures var r := DecimalString(n);
      && AllDigits(r)
      && (|r| > 1 ==> r[0] != '0')
      && ValueOf(r) == n
  {
    if n >= 10 {
      DecimalStringNumeral(n / 10);
      var p := DecimalString(n / 10);
      var r := DecimalString(n);
      assert r == p + [DigitChar(n % 10)];
      assert r[..|r| - 1] == p;
      assert r[0] == p[0];
    }
  }

  /** `s.padStart(width, pad)`: `s` behind as many copies of `pad` as bring it
      to `width` characters; a string at least that long is left as it is.
      JavaScript counts UTF-16 code units and takes a filler string; this
      agrees with it for text in the Basic Multilingual Plane and a
      one-character filler, which is how the script uses it (digits, '0'). */
  function PadStart(s: string, width: nat, pad: char): (r: string)
    ensures |r| == if |s| >= width then |s| else width
    decreases width - |s|
  {
    if |s| >= width then s else PadStart([pad] + s, width, pad)
  }

  /** The padded string ends with `s` and begins with nothing but `pad`. */
  lemma {:induction false} PadStartShape(s: string, width: nat, pad: char)
    ensures var r := PadStart(s, width, pad);
      && r[|r| - |s|..] == s
      && forall i :: 0 <= i < |r| - |s| ==> r[i] == pad
    decreases width - |s|
  {
    if |s| < width {
      PadStartShape([pad] + s, width, pad);
      var r := PadStart(s, width, pad);
      assert r[|r| - |s|..] == r[|r| - |s| - 1..][1..];
      assert r[|r| - |s| - 1] == pad;
    }
  }

  /** A number below 100, padded to two places with '0', is its tens digit
      followed by its units digit. */
  lemma PadTwoDigits(n: nat)
    requires n < 100
    ensures PadStart(DecimalString(n), 2, '0') == [DigitChar(n / 10), DigitChar(n % 10)]
  {
    if n < 10 {
      assert DecimalString(n) == [DigitChar(n)];
      assert PadStart([DigitChar(n)], 2, '0') == PadStart(['0', DigitChar(n)], 2, '0');
      assert DigitChar(n / 10) == '0' && n % 10 == n;
    } else {
      var q := n / 10;
      assert DecimalString(q) == [DigitChar(q)];
      assert DecimalString(n) == [DigitChar(q), DigitChar(n % 10)];
    }
  }
}
