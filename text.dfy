/**
 * The two string operations the add-task dialog relies on: Kotlin's
 * `isNotBlank()` (the confirm guard) and `trim()` (applied to the title and
 * the description before a task is built). Both are defined in terms of
 * Kotlin's `Char.isWhitespace()`, written out below as a fixed table.
 */
module Text {

  /** Kotlin's `Char.isWhitespace()` as the app's Android runtime answers it:
      `Character.isWhitespace(c)` (the ASCII controls TAB, LF, VT, FF, CR, the
      separators U+001C..U+001F, and U+180E MONGOLIAN VOWEL SEPARATOR, which
      Android still treats as a space) or `Character.isSpaceChar(c)` (the
      Unicode categories Zs, Zl and Zp). */
  predicate IsWhitespace(c: char) {
    || c == '\t' || c == '\n' || c == '\U{000B}' || c == '\U{000C}' || c == '\r'
    || ('\U{001C}' <= c <= '\U{001F}')
    || c == ' ' || c == '\U{00A0}' || c == '\U{1680}' || c == '\U{180E}'
    || ('\U{2000}' <= c <= '\U{200A}')
    || c == '\U{2028}' || c == '\U{2029}'
    || c == '\U{202F}' || c == '\U{205F}' || c == '\U{3000}'
  }

  /** Kotlin's `isBlank()`: empty, or made of whitespace only. */
  predicate IsBlank(s: string) {
    forall i :: 0 <= i < |s| ==> IsWhitespace(s[i])
  }

  /** A string with no whitespace at either end (what `trim()` produces). */
  predicate IsTrimmed(s: string) {
    s == [] || (!IsWhitespace(s[0]) && !IsWhitespace(s[|s| - 1]))
  }

  /** The length of the longest all-whitespace prefix of `s`. */
  function LeadingWhitespace(s: string): (n: nat)
    ensures n <= |s|
    ensures forall i :: 0 <= i < n ==> IsWhitespace(s[i])
    ensures n < |s| ==> !IsWhitespace(s[n])
  {
    if s == [] || !IsWhitespace(s[0]) then 0 else 1 + LeadingWhitespace(s[1..])
  }

  /** The length of the longest all-whitespace suffix of `s`. */
  function TrailingWhitespace(s: string): (n: nat)
    ensures n <= |s|
    ensures forall i :: |s| - n <= i < |s| ==> IsWhitespace(s[i])
    ensures n < |s| ==> !IsWhitespace(s[|s| - 1 - n])
  {
    if s == [] || !IsWhitespace(s[|s| - 1]) then 0
    else 1 + TrailingWhitespace(s[..|s| - 1])
  }

  /** Kotlin's `trimStart()`: `s` without its leading whitespace. */
  function TrimStart(s: string): (r: string)
    ensures |r| <= |s|
    ensures IsBlank(s[..|s| - |r|]) && s[|s| - |r|..] == r
    ensures r != [] ==> !IsWhitespace(r[0])
  {
    s[LeadingWhitespace(s)..]
  }

  /** Kotlin's `trimEnd()`: `s` without its trailing whitespace. */
  function TrimEnd(s: string): (r: string)
    ensures |r| <= |s|
    ensures r == s[..|r|] && IsBlank(s[|r|..])
    ensures r != [] ==> !IsWhitespace(r[|r| - 1])
  {
    var r := s[..|s| - TrailingWhitespace(s)];
    assert forall i :: 0 <= i < |s| - |r| ==> s[|r|..][i] == s[|r| + i];
    r
  }

  /** Kotlin's `trim()`: drop the leading whitespace, then the trailing
      whitespace of what is left. The result is empty exactly when the input
      is blank, and otherwise starts and ends with a non-whitespace character. */
  function Trim(s: string): (r: string)
    ensures |r| <= |s|
    ensures IsTrimmed(r)
    ensures r == [] <==> IsBlank(s)
  {
    var rest := TrimStart(s);
    var r := TrimEnd(rest);
    assert IsBlank(s) ==> rest == [];
    r
  }

  /** Kotlin's `isNotBlank()`, the guard on the dialog's confirm button: it
      holds exactly when trimming leaves something, i.e. when some character
      is not whitespace. */
  function IsNotBlank(s: string): (b: bool)
    ensures b <==> Trim(s) != []
    ensures b <==> exists i :: 0 <= i < |s| && !IsWhitespace(s[i])
  {
    !IsBlank(s)
  }

  /** Trimming only removes whitespace, and only at the two ends: the input is
      a blank prefix, then the trimmed string, then a blank suffix. */
  lemma TrimRemovesOnlyEnds(s: string)
    ensures exists pre, post :: s == pre + Trim(s) + post && IsBlank(pre) && IsBlank(post)
  {
    var rest := TrimStart(s);
    var pre := s[..|s| - |rest|];
    var post := rest[|Trim(s)|..];
    assert s == pre + rest;
    assert rest == Trim(s) + post;
    assert s == pre + Trim(s) + post;
  }

  /** A trimmed string is left alone by `trim()`; in particular trimming twice
      is the same as trimming once. */
  lemma TrimOfTrimmed(s: string)
    requires IsTrimmed(s)
    ensures Trim(s) == s
  {
    if s != [] {
      assert TrimStart(s) == s;
      assert TrimEnd(s) == s;
    }
  }

  lemma TrimIdempotent(s: string)
    ensures Trim(Trim(s)) == Trim(s)
  {
    TrimOfTrimmed(Trim(s));
  }
}
