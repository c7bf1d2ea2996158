/** The character classes the header code tests for, on bytes written as characters 0..255. */
module HttpChars {

  const CR := '\r'
  const LF := '\n'
  const CRLF := "\r\n"

  predicate IsWs(c: char) {
    c == ' ' || c == '\t'
  }

  predicate IsWsLfCr(c: char) {
    IsWs(c) || c == LF || c == CR
  }

  predicate IsDigit(c: char) {
    '0' <= c <= '9'
  }

  predicate IsHex(c: char) {
    IsDigit(c) || 'a' <= c <= 'f' || 'A' <= c <= 'F'
  }

  function HexValue(c: char): (v: nat)
    requires IsHex(c)
    ensures v < 16
  {
    if IsDigit(c) then c as int - '0' as int else ToLower(c) as int - 'a' as int + 10
  }

  predicate IsAlpha(c: char) {
    'a' <= c <= 'z' || 'A' <= c <= 'Z'
  }

  function ToLower(c: char): (d: char) {
    if 'A' <= c <= 'Z' then ((c as int) + 32) as char else c
  }

  predicate IsTspecial(c: char) {
    c == '(' || c == ')' || c == '<' || c == '>' || c == '@' || c == ',' || c == ';' || c == ':'
    || c == '\\' || c == '"' || c == '/' || c == '[' || c == ']' || c == '?' || c == '='
    || c == '{' || c == '}' || IsWs(c)
  }

  /** An HTTP token character: ASCII, no control, no separator. */
  predicate IsToken(c: char) {
    31 < c as int < 127 && !IsTspecial(c)
  }

  /** The first position at or after `from` that holds `c`, or |s| if there is none (memchr). */
  function IndexOf(s: string, c: char, from: nat): (k: nat)
    requires from <= |s|
    ensures from <= k <= |s|
    ensures forall j :: from <= j < k ==> s[j] != c
    ensures k < |s| ==> s[k] == c
    decreases |s| - from
  {
    if from == |s| || s[from] == c then from else IndexOf(s, c, from + 1)
  }

  // ----------------------------------------------------- the classes by their members

  const UPPER := "ABCDEFGHIJKLMNOPQRSTUVWXYZ"
  const LOWER := "abcdefghijklmnopqrstuvwxyz"
  const DIGITS := "0123456789"
  const HEX_LOWER := "0123456789abcdef"
  const HEX_UPPER := "0123456789ABCDEF"

  /** The token characters besides letters and digits (section 3.2.6 of RFC 7230). */
  const TOKEN_MARKS := "!#$%&'*+-.^_`|~"

  /** `c` is a hexadecimal digit, of either case, and stands for `v`. */
  ghost predicate HexStandsFor(c: char, v: nat) {
    v < 16 && (c == HEX_LOWER[v] || c == HEX_UPPER[v])
  }

  /** The classes contain exactly the characters they are named after. */
  lemma DigitsByMembers(c: char)
    ensures IsDigit(c) <==> c in DIGITS
  {
    assert '0' <= c <= '9' ==> c == DIGITS[c as int - '0' as int];
  }

  lemma CapitalsByMembers(c: char)
    ensures 'A' <= c <= 'Z' <==> c in UPPER
  {
    assert 'A' <= c <= 'Z' ==> c == UPPER[c as int - 'A' as int];
  }

  lemma SmallsByMembers(c: char)
    ensures 'a' <= c <= 'z' <==> c in LOWER
  {
    assert 'a' <= c <= 'z' ==> c == LOWER[c as int - 'a' as int];
  }

  lemma HexByMembers(c: char)
    ensures IsHex(c) <==> exists v :: HexStandsFor(c, v)
  {
    assert '0' <= c <= '9' ==> HexStandsFor(c, c as int - '0' as int);
    assert 'a' <= c <= 'f' ==> HexStandsFor(c, c as int - 'a' as int + 10);
    assert 'A' <= c <= 'F' ==> HexStandsFor(c, c as int - 'A' as int + 10);
  }

  /** Both cases of a hexadecimal digit have its value. */
  lemma HexValueIs(c: char, v: nat)
    requires HexStandsFor(c, v)
    ensures IsHex(c) && HexValue(c) == v
  {
  }

  lemma TokensByMembers(c: char)
    ensures IsToken(c) <==> IsAlpha(c) || IsDigit(c) || c in TOKEN_MARKS
  {
    var m := TOKEN_MARKS;
    if c in m {
      var i :| 0 <= i < |m| && m[i] == c;
    }
    if IsToken(c) && !IsAlpha(c) && !IsDigit(c) {
      assert c == m[0] || c == m[1] || c == m[2] || c == m[3] || c == m[4] || c == m[5] || c == m[6] || c == m[7]
          || c == m[8] || c == m[9] || c == m[10] || c == m[11] || c == m[12] || c == m[13] || c == m[14];
    }
  }

  lemma BlanksByMembers(c: char)
    ensures IsWs(c) <==> c in " \t"
    ensures IsWsLfCr(c) <==> c in " \t\r\n"
    ensures IsAlpha(c) <==> 'A' <= c <= 'Z' || 'a' <= c <= 'z'
  {
  }

  /** Folding maps each capital to its small letter and nothing else. */
  lemma FoldsCapitals(c: char)
    ensures forall i :: 0 <= i < 26 ==> ToLower(UPPER[i]) == LOWER[i]
    ensures c !in UPPER ==> ToLower(c) == c
  {
    CapitalsByMembers(c);
  }
}
