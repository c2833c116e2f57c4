/**
 * The JavaScript string operations the side bar relies on: `startsWith`,
 * `'' + n` for a non-negative integer, `split('/').pop()`, and `isNaN` applied
 * to a string (ECMAScript's StringToNumber grammar).
 */
module JsText {

  /** `s.startsWith(prefix)` */
  predicate StartsWith(s: string, prefix: string) {
    |prefix| <= |s| && s[..|prefix|] == prefix
  }

  predicate IsDigit(c: char) {
    '0' <= c <= '9'
  }

  predicate IsAsciiLetter(c: char) {
    'a' <= c <= 'z' || 'A' <= c <= 'Z'
  }

  /** A non-empty run of decimal digits (ECMAScript DecimalDigits). */
  predicate IsDecimalDigits(s: string) {
    |s| > 0 && forall i | 0 <= i < |s| :: IsDigit(s[i])
  }

  /** Zero or more decimal digits. */
  predicate AllDigits(s: string) {
    forall i | 0 <= i < |s| :: IsDigit(s[i])
  }

  function DigitChar(d: nat): (c: char)
    requires d < 10
    ensures IsDigit(c)
  {
    (48 + d) as char
  }

  /** The number a run of decimal digits denotes. */
  function DecimalValue(s: string): nat
    requires AllDigits(s)
  {
    if s == [] then 0 else DecimalValue(s[..|s| - 1]) * 10 + (s[|s| - 1] as int - '0' as int)
  }

  /** The decimal text of `n`, as JavaScript's `'chat' + i` renders a loop counter. */
  function NatToString(n: nat): (s: string)
    ensures IsDecimalDigits(s)
    ensures DecimalValue(s) == n
    ensures s[0] == '0' ==> n == 0
    ensures n < 10 <==> |s| == 1
    ensures s[|s| - 1] == DigitChar(n % 10)
  {
    if n < 10 then [DigitChar(n)]
    else
      var s := NatToString(n / 10) + [DigitChar(n % 10)];
      assert s[..|s| - 1] == NatToString(n / 10);
      s
  }

  /** Distinct loop counters render as distinct texts. */
  lemma {:induction false} NatToStringInjective(a: nat, b: nat)
    requires NatToString(a) == NatToString(b)
    ensures a == b
  {
    if a >= 10 && b >= 10 {
      var sa, sb := NatToString(a), NatToString(b);
      assert sa[..|sa| - 1] == NatToString(a / 10);
      assert sb[..|sb| - 1] == NatToString(b / 10);
      NatToStringInjective(a / 10, b / 10);
    }
  }

  /**
   * The last element of `s.split('/')`: the text after the last '/', or all
   * of `s` when it holds no '/'.
   */
  function LastSegment(s: string): (seg: string)
    ensures '/' !in seg
    ensures |seg| <= |s| && seg == s[|s| - |seg|..]
    ensures |seg| < |s| ==> s[|s| - |seg| - 1] == '/'
  {
    if s == [] then []
    else if s[|s| - 1] == '/' then []
    else LastSegment(s[..|s| - 1]) + [s[|s| - 1]]
  }

  /** A segment that follows a '/' and contains none is what `split('/').pop()` returns. */
  lemma {:induction false} LastSegmentAfterSlash(prefix: string, seg: string)
    requires '/' !in seg
    ensures LastSegment(prefix + "/" + seg) == seg
  {
    var s := prefix + "/" + seg;
    var r := LastSegment(s);
    var k := |s| - |seg| - 1;
    assert s[k] == '/';
    forall j | |s| - |r| <= j < |s|
      ensures s[j] != '/'
    {
      assert s[j] == r[j - (|s| - |r|)];
    }
    forall j | k < j < |s|
      ensures s[j] != '/'
    {
      assert s[j] == seg[j - k - 1];
    }
    assert s[|s| - |seg|..] == seg;
  }

  // ---------------------------------------------------------------------------
  // `isNaN(s)` for a string `s` is false exactly when `s` is a
  // StringNumericLiteral (ECMAScript, section 7.1.4.1, StringToNumber).
  // ---------------------------------------------------------------------------

  /** StrWhiteSpaceChar: WhiteSpace (including every Zs space) or LineTerminator. */
  predicate IsJsWhiteSpace(c: char) {
    || c == '\t' || c == '\U{B}' || c == '\U{C}' || c == ' ' || c == '\U{A0}' || c == '\U{FEFF}'
    || c == '\U{1680}' || ('\U{2000}' <= c <= '\U{200A}') || c == '\U{202F}' || c == '\U{205F}'
    || c == '\U{3000}'
    || c == '\n' || c == '\r' || c == '\U{2028}' || c == '\U{2029}'
  }

  function TrimStart(s: string): (t: string)
    ensures |t| <= |s| && t == s[|s| - |t|..]
    ensures t != [] ==> !IsJsWhiteSpace(t[0])
  {
    if s != [] && IsJsWhiteSpace(s[0]) then TrimStart(s[1..]) else s
  }

  function TrimEnd(s: string): (t: string)
    ensures |t| <= |s| && t == s[..|t|]
    ensures t != [] ==> !IsJsWhiteSpace(t[|t| - 1])
  {
    if s != [] && IsJsWhiteSpace(s[|s| - 1]) then TrimEnd(s[..|s| - 1]) else s
  }

  function Trim(s: string): string {
    TrimEnd(TrimStart(s))
  }

  predicate IsSign(c: char) {
    c == '+' || c == '-'
  }

  /** SignedInteger: DecimalDigits with an optional sign. */
  predicate IsSignedInteger(s: string) {
    IsDecimalDigits(s) || (|s| > 0 && IsSign(s[0]) && IsDecimalDigits(s[1..]))
  }

  /** `DecimalDigits . DecimalDigits?`, `. DecimalDigits` or `DecimalDigits`. */
  predicate IsMantissa(s: string) {
    || IsDecimalDigits(s)
    || exists i | 0 <= i < |s| && s[i] == '.' :: |s| > 1 && AllDigits(s[..i]) && AllDigits(s[i + 1..])
  }

  /** StrUnsignedDecimalLiteral: `Infinity`, or a mantissa with an optional exponent part. */
  predicate IsStrUnsignedDecimalLiteral(s: string) {
    || s == "Infinity"
    || IsMantissa(s)
    || exists i | 0 <= i < |s| && (s[i] == 'e' || s[i] == 'E') :: IsMantissa(s[..i]) && IsSignedInteger(s[i + 1..])
  }

  /** StrDecimalLiteral: an unsigned decimal literal with an optional sign. */
  predicate IsStrDecimalLiteral(s: string) {
    IsStrUnsignedDecimalLiteral(s) || (|s| > 0 && IsSign(s[0]) && IsStrUnsignedDecimalLiteral(s[1..]))
  }

  predicate IsHexDigit(c: char) {
    IsDigit(c) || 'a' <= c <= 'f' || 'A' <= c <= 'F'
  }

  /** NonDecimalIntegerLiteral: `0b`, `0o` or `0x` (either case) followed by digits of that base. */
  predicate IsNonDecimalIntegerLiteral(s: string) {
    && |s| > 2 && s[0] == '0'
    && (|| ((s[1] == 'b' || s[1] == 'B') && forall i | 2 <= i < |s| :: s[i] == '0' || s[i] == '1')
        || ((s[1] == 'o' || s[1] == 'O') && forall i | 2 <= i < |s| :: '0' <= s[i] <= '7')
        || ((s[1] == 'x' || s[1] == 'X') && forall i | 2 <= i < |s| :: IsHexDigit(s[i])))
  }

  /**
   * `!isNaN(s)`: `s`, once stripped of surrounding white space, is empty
   * (which converts to 0) or a StrNumericLiteral.
   */
  predicate JsNumeric(s: string) {
    var t := Trim(s);
    t == [] || IsStrDecimalLiteral(t) || IsNonDecimalIntegerLiteral(t)
  }

  /** Text that neither starts nor ends with white space is its own trim. */
  lemma TrimUnpadded(s: string)
    requires s != [] ==> !IsJsWhiteSpace(s[0]) && !IsJsWhiteSpace(s[|s| - 1])
    ensures Trim(s) == s
  {
  }

  /** `isNaN('')` is false: `/chat/` ends in an empty segment that counts as a number. */
  lemma EmptyIsNumeric()
    ensures JsNumeric("")
  {
  }

  /** Every run of decimal digits is numeric. */
  lemma DigitsAreNumeric(s: string)
    requires IsDecimalDigits(s)
    ensures JsNumeric(s)
  {
    TrimUnpadded(s);
  }

  /**
   * A non-empty string of ASCII letters is not numeric, except `Infinity`,
   * for which `isNaN` returns false.
   */
  lemma AlphabeticIsNotNumeric(s: string)
    requires s != [] && forall i | 0 <= i < |s| :: IsAsciiLetter(s[i])
    ensures JsNumeric(s) <==> s == "Infinity"
  {
    TrimUnpadded(s);
    LettersAreUnsignedOnlyAsInfinity(s);
    assert !IsSign(s[0]) && s[0] != '0';
  }

  lemma LettersAreUnsignedOnlyAsInfinity(u: string)
    requires forall i | 0 <= i < |u| :: IsAsciiLetter(u[i])
    ensures IsStrUnsignedDecimalLiteral(u) <==> u == "Infinity"
  {
    LettersAreNotMantissa(u);
    if i :| 0 <= i < |u| && (u[i] == 'e' || u[i] == 'E') && IsMantissa(u[..i]) && IsSignedInteger(u[i + 1..]) {
      LettersAreNotMantissa(u[..i]);
    }
  }

  lemma LettersAreNotMantissa(u: string)
    requires forall i | 0 <= i < |u| :: IsAsciiLetter(u[i])
    ensures !IsMantissa(u)
  {
    assert forall i | 0 <= i < |u| :: u[i] != '.';
    if |u| > 0 {
      assert !IsDigit(u[0]);
    }
  }

  /** Digits, `e`, digits: a decimal literal with an exponent part. */
  lemma ExponentIsNumeric(m: string, e: string)
    requires IsDecimalDigits(m) && IsDecimalDigits(e)
    ensures JsNumeric(m + "e" + e)
  {
    var s := m + "e" + e;
    assert s[..|m|] == m && s[|m| + 1..] == e && s[|m|] == 'e';
    TrimUnpadded(s);
    assert IsStrUnsignedDecimalLiteral(s);
  }

  /** Every rendered loop counter is numeric. */
  lemma NatToStringIsNumeric(n: nat)
    ensures JsNumeric(NatToString(n))
  {
    DigitsAreNumeric(NatToString(n));
  }
}
