/** Character classes shared by the five regular expressions of the library,
    and the `\b` word-boundary test. `\d` and `\w` are taken over ASCII. */
module Chars {

  predicate IsDigit(c: char) {
    '0' <= c <= '9'
  }

  predicate IsAsciiLetter(c: char) {
    'a' <= c <= 'z' || 'A' <= c <= 'Z'
  }

  /** `\w`: letters, digits and underscore. */
  predicate IsWordChar(c: char) {
    IsAsciiLetter(c) || IsDigit(c) || c == '_'
  }

  /** The characters Python's `str.isspace()` accepts, i.e. what `str.strip()` removes. */
  predicate IsWhitespace(c: char) {
    || c == ' '
    || '\t' <= c <= '\r'
    || '\U{1C}' <= c <= '\U{1F}'
    || c == '\U{85}' || c == '\U{A0}' || c == '\U{1680}'
    || '\U{2000}' <= c <= '\U{200A}'
    || c == '\U{2028}' || c == '\U{2029}' || c == '\U{202F}'
    || c == '\U{205F}' || c == '\U{3000}'
  }

  /** The class `[a-zA-Z0-9 \-\(\)\[\]]` of characters a document name may keep. */
  predicate IsNameChar(c: char) {
    IsAsciiLetter(c) || IsDigit(c) || c == ' ' || c == '-' || c == '(' || c == ')' || c == '[' || c == ']'
  }

  /** Is there a word character at index `i` (false outside the text)? */
  predicate WordAt(t: string, i: int) {
    0 <= i < |t| && IsWordChar(t[i])
  }

  /** `\b` at position `i`: exactly one of t[i-1] and t[i] is a word character. */
  predicate AtBoundary(t: string, i: int) {
    WordAt(t, i - 1) != WordAt(t, i)
  }

  /** The bracketed classes used by the patterns, and a single space. */
  datatype CharClass =
    | Digit        // \d
    | Space        // ' '
    | LocalPart    // [A-Za-z0-9._%+-]
    | DomainPart   // [A-Za-z0-9.-]
    | TopLevel     // [A-Z|a-z]

  predicate InClass(k: CharClass, c: char) {
    match k
    case Digit => IsDigit(c)
    case Space => c == ' '
    case LocalPart => IsAsciiLetter(c) || IsDigit(c) || c == '.' || c == '_' || c == '%' || c == '+' || c == '-'
    case DomainPart => IsAsciiLetter(c) || IsDigit(c) || c == '.' || c == '-'
    case TopLevel => IsAsciiLetter(c) || c == '|'
  }

  /** Every character of t[i..j] is in class `k`. */
  predicate AllIn(t: string, i: int, j: int, k: CharClass) {
    0 <= i <= j <= |t| && forall m | i <= m < j :: InClass(k, t[m])
  }

  /** Length of the longest run of class-`k` characters starting at `i`:
      what a greedy `[...]+` or `[...]*` consumes before giving anything back. */
  function RunLength(t: string, i: nat, k: CharClass): (n: nat)
    requires i <= |t|
    ensures AllIn(t, i, i + n, k)
    ensures i + n == |t| || !InClass(k, t[i + n])
    decreases |t| - i
  {
    if i < |t| && InClass(k, t[i]) then 1 + RunLength(t, i + 1, k) else 0
  }

  /** A run of class-`k` characters is never longer than the greedy run. */
  lemma {:induction false} RunLengthCovers(t: string, i: nat, j: nat, k: CharClass)
    requires AllIn(t, i, j, k)
    ensures RunLength(t, i, k) >= j - i
    decreases j - i
  {
    if i < j {
      RunLengthCovers(t, i + 1, j, k);
    }
  }

  /** The run ends exactly at the first character outside the class. */
  lemma RunLengthExact(t: string, i: nat, j: nat, k: CharClass)
    requires AllIn(t, i, j, k) && j < |t| && !InClass(k, t[j])
    ensures RunLength(t, i, k) == j - i
  {
    RunLengthCovers(t, i, j, k);
  }

  /** A class run seen through a slice that starts at `q`. */
  lemma AllInSlice(t: string, q: nat, e: nat, i: nat, j: nat, k: CharClass)
    requires q <= e <= |t| && i <= j <= e - q && AllIn(t, q + i, q + j, k)
    ensures AllIn(t[q..e], i, j, k)
  {
    forall m | i <= m < j
      ensures InClass(k, t[q..e][m])
    {
      assert t[q..e][m] == t[q + m];
    }
  }
}
