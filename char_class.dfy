/** The character classes the analyzer relies on, over ASCII:
    Python's `str.isalpha`, the regular-expression class `\w`, and
    `str.lower`. */
module CharClass {

  predicate IsUpper(c: char) { 'A' <= c <= 'Z' }

  predicate IsLowerCase(c: char) { 'a' <= c <= 'z' }

  /** `c.isalpha()` */
  predicate IsAlpha(c: char) { IsUpper(c) || IsLowerCase(c) }

  predicate IsDigit(c: char) { '0' <= c <= '9' }

  /** Membership in `\w`: a letter, a digit or the underscore. */
  predicate IsWordChar(c: char) { IsAlpha(c) || IsDigit(c) || c == '_' }

  /** `c.lower()`: an upper-case letter becomes the lower-case letter at
      the same place in the alphabet; every other character is kept. */
  function Lower(c: char): (r: char)
    ensures IsUpper(c) ==> IsLowerCase(r) && r as int - 'a' as int == c as int - 'A' as int
    ensures !IsUpper(c) ==> r == c
    ensures !IsUpper(r)
    ensures IsAlpha(r) == IsAlpha(c) && IsWordChar(r) == IsWordChar(c)
  {
    if IsUpper(c) then (c as int - 'A' as int + 'a' as int) as char else c
  }

  /** `s.lower()`, character by character. */
  function LowerString(s: string): (r: string)
    ensures |r| == |s|
    ensures forall i :: 0 <= i < |s| ==> r[i] == Lower(s[i])
  {
    if s == [] then [] else [Lower(s[0])] + LowerString(s[1..])
  }
}
