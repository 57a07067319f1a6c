/** Character classes of the ad-block engine: case folding, the ABP separator class, token
    characters and host-name characters. */
module AblockChars {

  /** ASCII lower-casing, the fold every network comparison goes through. */
  function Fold(c: char): (r: char)
  {
    if 'A' <= c <= 'Z' then c - 'A' + 'a' else c
  }

  function FoldAll(s: string): (r: string)
    ensures |r| == |s|
    ensures forall i :: 0 <= i < |s| ==> r[i] == Fold(s[i])
  {
    seq(|s|, i requires 0 <= i < |s| => Fold(s[i]))
  }

  predicate IsLetter(c: char) { 'a' <= c <= 'z' || 'A' <= c <= 'Z' }

  predicate IsDigit(c: char) { '0' <= c <= '9' }

  /** What `^` may consume: anything but a letter, a digit, `_`, `-`, `.` or `%`. */
  predicate IsSeparator(c: char)
  {
    !IsLetter(c) && !IsDigit(c) && c !in {'_', '-', '.', '%'}
  }

  /** Characters of an anchor token. */
  predicate IsTokenChar(c: char) { IsLetter(c) || IsDigit(c) || c == '%' }

  /** Characters a host name in a filter list may hold. */
  predicate IsHostChar(c: char) { IsLetter(c) || IsDigit(c) || c in {'.', '-', '_'} }

  predicate AllHostChars(s: string) { forall i :: 0 <= i < |s| ==> IsHostChar(s[i]) }

  /** Folding never changes which class a character is in. */
  lemma FoldKeepsClasses(c: char, d: char)
    requires Fold(c) == Fold(d)
    ensures IsTokenChar(c) == IsTokenChar(d)
    ensures IsSeparator(c) == IsSeparator(d)
    ensures IsHostChar(c) == IsHostChar(d)
  {
  }
}
