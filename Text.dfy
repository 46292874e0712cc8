/**
 * The string operations the application applies: character classes of the
 * filename regular expressions, `toLowerCase` and `trim`.
 */
module Text {

  /** The class `[a-z0-9]` under the `i` flag, that is `[A-Za-z0-9]`. */
  predicate IsAsciiAlphanumeric(c: char) {
    'a' <= c <= 'z' || 'A' <= c <= 'Z' || '0' <= c <= '9'
  }

  predicate IsUpper(c: char) {
    'A' <= c <= 'Z'
  }

  /** Lower-casing of one character, for the Latin letters A to Z. */
  function LowerChar(c: char): (r: char)
    ensures !IsUpper(r)
    ensures IsUpper(c) ==> 'a' <= r <= 'z' && r as int == c as int + 32
    ensures !IsUpper(c) ==> r == c
  {
    if IsUpper(c) then (c as int + 32) as char else c
  }

  /** `toLowerCase`, for the Latin letters A to Z. */
  function ToLower(s: string): (r: string)
    ensures |r| == |s|
    ensures forall i :: 0 <= i < |s| ==> r[i] == LowerChar(s[i])
    ensures forall i :: 0 <= i < |r| ==> !IsUpper(r[i])
    ensures (forall i :: 0 <= i < |s| ==> !IsUpper(s[i])) ==> r == s
  {
    seq(|s|, i requires 0 <= i < |s| => LowerChar(s[i]))
  }

  /** Lower-casing works character by character, so it distributes over concatenation. */
  lemma LowerAppend(a: string, b: string)
    ensures ToLower(a + b) == ToLower(a) + ToLower(b)
  {
  }

  /**
   * The code points that `String.prototype.trim` removes: ECMAScript's
   * WhiteSpace (tab, vertical tab, form feed, the space separators and
   * U+FEFF) and LineTerminator (LF, CR, U+2028, U+2029).
   */
  predicate IsTrimmable(c: char) {
    c == '\t' || c == '\n' || c == '\U{B}' || c == '\U{C}' || c == '\r' || c == ' ' ||
    c == '\U{A0}' || c == '\U{1680}' || '\U{2000}' <= c <= '\U{200A}' ||
    c == '\U{2028}' || c == '\U{2029}' || c == '\U{202F}' || c == '\U{205F}' || c == '\U{3000}' ||
    c == '\U{FEFF}'
  }

  /** The number of trimmable characters at the start of `s`. */
  function LeadingTrimmable(s: string): (k: nat)
    ensures k <= |s|
    ensures forall i :: 0 <= i < k ==> IsTrimmable(s[i])
    ensures k < |s| ==> !IsTrimmable(s[k])
  {
    if s != [] && IsTrimmable(s[0]) then
      var k := LeadingTrimmable(s[1..]);
      assert forall i :: 1 <= i <= k ==> s[i] == s[1..][i - 1];
      k + 1
    else 0
  }

  /** The index where the trimmable characters at the end of `s` begin. */
  function TrailingStart(s: string): (k: nat)
    ensures k <= |s|
    ensures forall i :: k <= i < |s| ==> IsTrimmable(s[i])
    ensures 0 < k ==> !IsTrimmable(s[k - 1])
  {
    if s != [] && IsTrimmable(s[|s| - 1]) then
      var init := s[..|s| - 1];
      var k := TrailingStart(init);
      assert forall i :: k <= i < |init| ==> s[i] == init[i];
      k
    else |s|
  }

  /** `trim`: `s` without its leading and trailing trimmable characters. */
  function Trim(s: string): (r: string)
    ensures exists i, j :: 0 <= i <= j <= |s| && r == s[i..j] &&
                           (forall k :: 0 <= k < i ==> IsTrimmable(s[k])) &&
                           (forall k :: j <= k < |s| ==> IsTrimmable(s[k]))
    ensures r != [] ==> !IsTrimmable(r[0]) && !IsTrimmable(r[|r| - 1])
  {
    var i := LeadingTrimmable(s);
    var t := s[i..];
    var j := TrailingStart(t);
    assert t[..j] == s[i..i + j];
    assert forall k :: i + j <= k < |s| ==> s[k] == t[k - i];
    t[..j]
  }

  /** A string with no trimmable character at either end is its own trim. */
  lemma TrimOfTrimmed(s: string)
    requires s != [] ==> !IsTrimmable(s[0]) && !IsTrimmable(s[|s| - 1])
    ensures Trim(s) == s
  {
  }

  /** The normalisation applied to an e-mail address at registration: `toLowerCase().trim()`. */
  function NormalizeEmail(email: string): string {
    Trim(ToLower(email))
  }

  /** Normalising an address twice gives the same as normalising it once. */
  lemma NormalizeEmailIdempotent(email: string)
    ensures NormalizeEmail(NormalizeEmail(email)) == NormalizeEmail(email)
  {
    var n := NormalizeEmail(email);
    var low := ToLower(email);
    assert forall i :: 0 <= i < |n| ==> !IsUpper(n[i]);
    assert ToLower(n) == n;
    TrimOfTrimmed(n);
  }
}
