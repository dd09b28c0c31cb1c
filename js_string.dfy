/**
 * String.prototype.trim, used on the title of both task forms: it removes
 * ECMAScript white space and line terminators from both ends of a string.
 */
module JsString {

  /** The WhiteSpace and LineTerminator code points of ECMAScript. */
  const WhiteSpace: set<char> := {
    '\t', '\n', '\U{000B}', '\U{000C}', '\r', ' ', '\U{00A0}', '\U{1680}',
    '\U{2000}', '\U{2001}', '\U{2002}', '\U{2003}', '\U{2004}', '\U{2005}',
    '\U{2006}', '\U{2007}', '\U{2008}', '\U{2009}', '\U{200A}',
    '\U{2028}', '\U{2029}', '\U{202F}', '\U{205F}', '\U{3000}', '\U{FEFF}'
  }

  predicate IsWhiteSpace(c: char) {
    c in WhiteSpace
  }

  /** The position of the first character of `s` at or after `i` that is not white space, or `|s|`. */
  function SkipWhiteSpace(s: string, i: nat): (n: nat)
    requires i <= |s|
    ensures i <= n <= |s|
    ensures forall k :: i <= k < n ==> IsWhiteSpace(s[k])
    ensures n < |s| ==> !IsWhiteSpace(s[n])
    decreases |s| - i
  {
    if i < |s| && IsWhiteSpace(s[i]) then SkipWhiteSpace(s, i + 1) else i
  }

  /** The end of `s[lo..j]` once its trailing white space is dropped. */
  function SkipWhiteSpaceBack(s: string, lo: nat, j: nat): (m: nat)
    requires lo <= j <= |s|
    ensures lo <= m <= j
    ensures forall k :: m <= k < j ==> IsWhiteSpace(s[k])
    ensures lo < m ==> !IsWhiteSpace(s[m - 1])
    decreases j
  {
    if lo < j && IsWhiteSpace(s[j - 1]) then SkipWhiteSpaceBack(s, lo, j - 1) else j
  }

  /**
   * `s.trim()`: the slice of `s` between its leading and its trailing white
   * space. It is empty exactly when `s` is all white space.
   */
  function Trim(s: string): (r: string)
    ensures var a := SkipWhiteSpace(s, 0);
      a + |r| <= |s| && r == s[a..a + |r|]
      && (forall k :: 0 <= k < a ==> IsWhiteSpace(s[k]))
      && (forall k :: a + |r| <= k < |s| ==> IsWhiteSpace(s[k]))
    ensures r != [] ==> !IsWhiteSpace(r[0]) && !IsWhiteSpace(r[|r| - 1])
    ensures r == [] <==> forall k :: 0 <= k < |s| ==> IsWhiteSpace(s[k])
  {
    var a := SkipWhiteSpace(s, 0);
    var b := SkipWhiteSpaceBack(s, a, |s|);
    s[a..b]
  }

  /** Trimming a trimmed string changes nothing. */
  lemma TrimIdempotent(s: string)
    ensures Trim(Trim(s)) == Trim(s)
  {
    var r := Trim(s);
    if r != [] {
      assert SkipWhiteSpace(r, 0) == 0;
      assert SkipWhiteSpaceBack(r, 0, |r|) == |r|;
    }
  }
}
