/** Character classes and the view of a string that Python's `$` anchor sees.
    The patterns of the source are written with ASCII ranges (`[A-Za-z]`,
    `[0-9]`), so these classes are ASCII only. */
module Text {

  predicate IsLetter(c: char) {
    'A' <= c <= 'Z' || 'a' <= c <= 'z'
  }

  predicate IsDigit(c: char) {
    '0' <= c <= '9'
  }

  predicate IsAlnum(c: char) {
    IsLetter(c) || IsDigit(c)
  }

  predicate AllLetters(s: string) {
    forall i :: 0 <= i < |s| ==> IsLetter(s[i])
  }

  predicate AllAlnum(s: string) {
    forall i :: 0 <= i < |s| ==> IsAlnum(s[i])
  }

  predicate AllDigits(s: string) {
    forall i :: 0 <= i < |s| ==> IsDigit(s[i])
  }

  predicate EndsWithNewline(s: string) {
    |s| > 0 && s[|s| - 1] == '\n'
  }

  /** Without MULTILINE, Python's `$` matches at the end of the string and
      also just before a single newline that ends it. A `$`-anchored match
      that must end in a non-newline character therefore ends exactly where
      `Body(s)` ends. */
  function Body(s: string): (b: string)
    ensures b <= s
    ensures EndsWithNewline(s) ==> |b| + 1 == |s|
    ensures !EndsWithNewline(s) ==> b == s
  {
    if EndsWithNewline(s) then s[..|s| - 1] else s
  }

  /** What follows `Body(s)` in `s`: a single newline or nothing. */
  function NewlineTail(s: string): (t: string)
    ensures Body(s) + t == s
    ensures |t| <= 1
  {
    if EndsWithNewline(s) then "\n" else ""
  }
}
