/**
 * The two character-level notions the package takes from Go's standard
 * library: `unicode.IsSpace`, which the reader uses to separate tokens, and
 * `strings.EqualFold`, which `SubKey` uses to compare names.
 */
module Text {

  /** Go's `unicode.IsSpace`: the Latin-1 spaces plus the other Unicode White_Space characters. */
  predicate IsSpace(c: char) {
    || c == '\t' || c == '\n' || c == '\U{000B}' || c == '\U{000C}' || c == '\r' || c == ' '
    || c == '\U{0085}' || c == '\U{00A0}' || c == '\U{1680}'
    || ('\U{2000}' <= c <= '\U{200A}')
    || c == '\U{2028}' || c == '\U{2029}' || c == '\U{202F}' || c == '\U{205F}' || c == '\U{3000}'
  }

  /**
   * Simple case folding, made concrete for ASCII letters only: a letter of
   * either case folds to the lower-case one, anything else to itself, and
   * no result is an upper-case letter.
   */
  function Fold(c: char): (r: char)
    ensures ('A' <= c <= 'Z' || 'a' <= c <= 'z') <==> 'a' <= r <= 'z'
    ensures !('A' <= c <= 'Z') ==> r == c
    ensures 'A' <= c <= 'Z' ==> r != c && (r as int) - (c as int) == ('a' as int) - ('A' as int)
    ensures !('A' <= r <= 'Z')
  {
    if 'A' <= c <= 'Z' then (c as int + 32) as char else c
  }

  /** `strings.EqualFold`: equal length, and equal character by character after folding. */
  predicate EqualFold(a: string, b: string) {
    |a| == |b| && forall i :: 0 <= i < |a| ==> Fold(a[i]) == Fold(b[i])
  }

  /** Among ASCII characters, the spaces are tab, newline, vertical tab, form feed, carriage return and space. */
  lemma AsciiSpaces(c: char)
    requires c as int < 128
    ensures IsSpace(c) <==> c == '\t' || c == '\n' || c == '\U{000B}' || c == '\U{000C}' || c == '\r' || c == ' '
  {
  }

  lemma EqualFoldIsEquivalence(a: string, b: string, c: string)
    ensures EqualFold(a, a)
    ensures EqualFold(a, b) ==> EqualFold(b, a)
    ensures EqualFold(a, b) && EqualFold(b, c) ==> EqualFold(a, c)
  {
  }

  /** `x` and `y` are the same character, or the same ASCII letter in the two cases. */
  predicate CaseVariant(x: char, y: char) {
    || x == y
    || ('A' <= x <= 'Z' && y as int == x as int + 32)
    || ('A' <= y <= 'Z' && x as int == y as int + 32)
  }

  /**
   * Case only: names of different lengths never match, and names of the same
   * length match exactly when each character is the same up to the case of
   * an ASCII letter.
   */
  lemma EqualFoldIgnoresCase(a: string, b: string)
    ensures |a| != |b| ==> !EqualFold(a, b)
    ensures EqualFold(a, b) <==> |a| == |b| && forall i :: 0 <= i < |a| ==> CaseVariant(a[i], b[i])
  {
  }
}
