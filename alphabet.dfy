/** Characters of the nucleotide alphabet and the ASCII case mapping used by
    both the label check and the composition statistics. */
module Alphabet {

  /** `dna_bases` of the generator, in its order: a draw `d` in [0, 4) picks `Bases[d]`. */
  const Bases: string := "ACGT"

  /** An uppercase nucleotide letter. The same set is spelled "ATGC" by the
      label check and "ACGT" by the statistics. */
  predicate IsBase(ch: char) {
    ch == 'A' || ch == 'C' || ch == 'G' || ch == 'T'
  }

  /** Every character of `s` is an uppercase nucleotide letter. */
  predicate AllBases(s: string) {
    forall i :: 0 <= i < |s| ==> IsBase(s[i])
  }

  /** The tail of a string of bases is a string of bases. */
  lemma AllBasesTail(s: string)
    requires s != [] && AllBases(s)
    ensures AllBases(s[1..])
  {
    assert forall i :: 0 <= i < |s[1..]| ==> s[1..][i] == s[i + 1];
  }

  /** Splitting off the first character of the left operand of `+`. */
  lemma ConsAppend(s: string, t: string)
    requires s != []
    ensures s + t == [s[0]] + (s[1..] + t)
  {
  }

  /** `str.upper()` restricted to ASCII. */
  function ToUpper(ch: char): (u: char)
    ensures 'a' <= ch <= 'z' ==> 'A' <= u <= 'Z' && u as int == ch as int - 32
    ensures !('a' <= ch <= 'z') ==> u == ch
  {
    if 'a' <= ch <= 'z' then (ch as int - 32) as char else ch
  }

  /** `str.lower()` restricted to ASCII. */
  function ToLower(ch: char): (l: char)
    ensures 'A' <= ch <= 'Z' ==> 'a' <= l <= 'z' && l as int == ch as int + 32
    ensures !('A' <= ch <= 'Z') ==> l == ch
  {
    if 'A' <= ch <= 'Z' then (ch as int + 32) as char else ch
  }

  /** Two characters are equal once case is ignored (the IGNORECASE flag). */
  predicate SameLetter(x: char, y: char) {
    ToLower(x) == ToLower(y)
  }

  /** `s` and `t` are the same string once case is ignored. */
  predicate SameIgnoringCase(s: string, t: string) {
    |s| == |t| && forall i :: 0 <= i < |s| ==> SameLetter(s[i], t[i])
  }

  /** A character whose uppercase form is a nucleotide letter, i.e. one the
      scrub keeps. */
  predicate IsNucleotideLetter(ch: char) {
    IsBase(ToUpper(ch))
  }

  /** The characters the scrub keeps are exactly the eight letters A, C, G, T
      in either case. */
  lemma NucleotideLetters(ch: char)
    ensures IsNucleotideLetter(ch) <==> ch in "ACGTacgt"
  {
  }

  /** A character that matches a nucleotide letter ignoring case is itself a
      nucleotide letter. */
  lemma SameLetterKeepsNucleotide(x: char, y: char)
    requires IsNucleotideLetter(x) && SameLetter(x, y)
    ensures IsNucleotideLetter(y)
  {
  }

  /** A character matches its own uppercase form ignoring case. */
  lemma UpperSameLetter(ch: char)
    ensures SameLetter(ToUpper(ch), ch)
  {
  }

  /** Every string matches itself ignoring case. */
  lemma SameIgnoringCaseReflexive(s: string)
    ensures SameIgnoringCase(s, s)
  {
  }
}
