/** Worked examples of generation and analysis, including the lowercase
    label asymmetry. */
module Scenarios {
  import opened Alphabet
  import opened Wrappers
  import opened SequenceGenerator
  import opened CompositionAnalyzer
  import opened RecordRoundTrip

  /** Only n and N match n, ignoring case. */
  lemma OnlyLetterN(ch: char)
    requires SameLetter(ch, 'n')
    ensures ch == 'n' || ch == 'N'
  {
  }

  /** "name" written after text with no n in either case is removed and the
      text is kept. */
  lemma NameAfter(u: string, name: string)
    requires name == "name" && 'n' !in u && 'N' !in u
    ensures RemoveName(u + name, name) == u
  {
    forall i | 0 <= i < |u|
      ensures !SameLetter(u[i], name[0])
    {
      if SameLetter(u[i], name[0]) {
        OnlyLetterN(u[i]);
      }
    }
    RemoveNameTrailing(u, name);
  }

  /** The letters of "AcGtX", counted in either case. */
  lemma MixedCaseCounts(rest: string)
    requires rest == "AcGtX"
    ensures LetterCount(rest, 'A') == 1 && LetterCount(rest, 'C') == 1
    ensures LetterCount(rest, 'G') == 1 && LetterCount(rest, 'T') == 1
  {
    var m := multiset(rest);
    assert ToLower('A') == 'a' && ToLower('C') == 'c' && ToLower('G') == 'g' && ToLower('T') == 't';
    assert m['A'] == 1 && m['a'] == 0 && m['C'] == 0 && m['c'] == 1;
    assert m['G'] == 1 && m['g'] == 0 && m['T'] == 0 && m['t'] == 1;
  }

  /** "AcGtXname" with the label "name": the label is removed, the X is
      scrubbed, and the four bases left, in either case, give 25% each and 50%
      C+G. */
  lemma MixedCaseScenario()
    ensures var r := Analyze("AcGtXname", "name");
      && r.Composition?
      && r.counts == BaseCounts(1, 1, 1, 1, 4)
      && r.aPct == 25.0 && r.cPct == 25.0 && r.gPct == 25.0 && r.tPct == 25.0
      && r.cgPct == 50.0
  {
    var s, rest, name := "AcGtXname", "AcGtX", "name";
    NameAfter(rest, name);
    assert s == rest + name;
    MixedCaseCounts(rest);
    EqualShares(s, name, 1);
  }

  /** Counting in either case distributes over concatenation. */
  lemma LetterCountAppend(u: string, v: string, b: char)
    ensures LetterCount(u + v, b) == LetterCount(u, b) + LetterCount(v, b)
  {
    assert multiset(u + v) == multiset(u) + multiset(v);
  }

  /** Each base once in "ACGT". */
  lemma UpperPieceCounts(up: string)
    requires up == "ACGT"
    ensures LetterCount(up, 'A') == 1 && LetterCount(up, 'C') == 1
    ensures LetterCount(up, 'G') == 1 && LetterCount(up, 'T') == 1
  {
    var m := multiset(up);
    assert ToLower('A') == 'a' && ToLower('C') == 'c' && ToLower('G') == 'g' && ToLower('T') == 't';
    assert m['A'] == 1 && m['a'] == 0 && m['C'] == 1 && m['c'] == 0;
    assert m['G'] == 1 && m['g'] == 0 && m['T'] == 1 && m['t'] == 0;
  }

  /** Each base once in "acgt". */
  lemma LowerPieceCounts(low: string)
    requires low == "acgt"
    ensures LetterCount(low, 'A') == 1 && LetterCount(low, 'C') == 1
    ensures LetterCount(low, 'G') == 1 && LetterCount(low, 'T') == 1
  {
    var m := multiset(low);
    assert ToLower('A') == 'a' && ToLower('C') == 'c' && ToLower('G') == 'g' && ToLower('T') == 't';
    assert m['A'] == 0 && m['a'] == 1 && m['C'] == 0 && m['c'] == 1;
    assert m['G'] == 0 && m['g'] == 1 && m['T'] == 0 && m['t'] == 1;
  }

  /** No base in "XXX". */
  lemma JunkPieceCounts(junk: string)
    requires junk == "XXX"
    ensures LetterCount(junk, 'A') == 0 && LetterCount(junk, 'C') == 0
    ensures LetterCount(junk, 'G') == 0 && LetterCount(junk, 'T') == 0
  {
    var m := multiset(junk);
    assert ToLower('A') == 'a' && ToLower('C') == 'c' && ToLower('G') == 'g' && ToLower('T') == 't';
    assert m['A'] == 0 && m['a'] == 0 && m['C'] == 0 && m['c'] == 0;
    assert m['G'] == 0 && m['g'] == 0 && m['T'] == 0 && m['t'] == 0;
  }

  /** Counting in either case over three pieces. */
  lemma LetterCountPieces(up: string, low: string, junk: string, b: char)
    ensures LetterCount(up + low + junk, b) == LetterCount(up, b) + LetterCount(low, b) + LetterCount(junk, b)
  {
    LetterCountAppend(up, low, b);
    LetterCountAppend(up + low, junk, b);
  }

  /** The letters of "ACGTacgtXXX", counted in either case. */
  lemma FixtureCounts(up: string, low: string, junk: string)
    requires up == "ACGT" && low == "acgt" && junk == "XXX"
    ensures var rest := up + low + junk;
      && LetterCount(rest, 'A') == 2 && LetterCount(rest, 'C') == 2
      && LetterCount(rest, 'G') == 2 && LetterCount(rest, 'T') == 2
  {
    UpperPieceCounts(up);
    LowerPieceCounts(low);
    JunkPieceCounts(junk);
    LetterCountPieces(up, low, junk, 'A');
    LetterCountPieces(up, low, junk, 'C');
    LetterCountPieces(up, low, junk, 'G');
    LetterCountPieces(up, low, junk, 'T');
  }

  /** "ACGTacgtXXXname" is "ACGTacgtXXX" followed by the label, and
      "ACGTacgtXXX" is its three pieces put together. */
  lemma FixturePieces(s: string, rest: string)
    requires s == "ACGTacgtXXXname" && rest == "ACGTacgtXXX"
    ensures s == rest + "name" && rest == "ACGT" + "acgt" + "XXX"
  {
  }

  /** With the same positive number n of each base, in either case, left
      after removal, the analysis counts 4n and reports 25% per base and 50%
      C+G. */
  lemma EqualShares(s: string, name: string, n: nat)
    requires n > 0
    requires var rest := RemoveName(s, name);
      && LetterCount(rest, 'A') == n && LetterCount(rest, 'C') == n
      && LetterCount(rest, 'G') == n && LetterCount(rest, 'T') == n
    ensures var r := Analyze(s, name);
      && r.Composition?
      && r.counts == BaseCounts(n, n, n, n, 4 * n)
      && r.aPct == 25.0 && r.cPct == 25.0 && r.gPct == 25.0 && r.tPct == 25.0
      && r.cgPct == 50.0
  {
    QuarterShare(n);
  }

  /** One part in four is 25%. */
  lemma QuarterShare(n: nat)
    requires n > 0
    ensures Percent(n, 4 * n) == 25.0
  {
    PercentUnique(n, 4 * n, 25.0);
  }

  /** The reference record "ACGTacgtXXXname" with the label "name": eight bases
      in mixed case are counted, 25% each and 50% C+G. */
  lemma FixtureScenario()
    ensures var r := Analyze("ACGTacgtXXXname", "name");
      && r.Composition?
      && r.counts == BaseCounts(2, 2, 2, 2, 8)
      && r.aPct == 25.0 && r.cPct == 25.0 && r.gPct == 25.0 && r.tPct == 25.0
      && r.cgPct == 50.0
  {
    var s, rest, name := "ACGTacgtXXXname", "ACGTacgtXXX", "name";
    FixturePieces(s, rest);
    NameAfter(rest, name);
    FixtureCounts("ACGT", "acgt", "XXX");
    EqualShares(s, name, 2);
  }

  /** An empty record has no statistics, whatever the label. */
  lemma AnalyzeEmpty(name: string)
    ensures Analyze([], name).NoStatistics?
  {
  }

  /** A record that is only its label has no statistics. */
  lemma AnalyzeOnlyLabel()
    ensures Analyze("bob", "bob").NoStatistics?
  {
    RemoveNameLeading("bob", []);
    assert "bob" + [] == "bob";
  }

  /** The lowercase asymmetry: the label "a" passes the check, and drawing A
      then C with the label at offset 0 gives "aAC". */
  lemma LowercaseLabelGenerated()
    ensures LabelAccepted("a")
    ensures Generate(2, "a", [0, 1], 0) == Success("aAC")
  {
    assert DrawBases([0, 1]) == "AC" by {
      assert DrawBases([0, 1])[0] == 'A' && DrawBases([0, 1])[1] == 'C';
    }
    assert Splice("AC", "a", 0) == "aAC";
  }

  /** Removing the label "a" ignoring case also deletes the drawn A. */
  lemma LowercaseLabelRemoval()
    ensures RemoveName("aAC", "a") == "C"
  {
    var s1, s2, s3 := "aAC", "AC", "C";
    assert s1[..1] == "a" && s1[1..] == s2;
    RemoveNameDrop(s1, "a");
    assert s2[..1] == "A" && s2[1..] == s3;
    RemoveNameDrop(s2, "a");
    assert s3[..1] == "C" && s3[1..] == [];
    assert !SameLetter(s3[..1][0], "a"[0]);
    RemoveNameKeep(s3, "a");
  }

  /** So the statistics of "aAC" with its own label cover one base of the two
      drawn. */
  lemma LowercaseLabelStripsBases()
    ensures Analyze("aAC", "a").Composition? && Analyze("aAC", "a").counts.total == 1
  {
    LowercaseLabelRemoval();
    var s3 := "C";
    assert multiset(s3) == multiset{'C'};
    assert LetterCount(s3, 'A') == 0 && LetterCount(s3, 'C') == 1;
    assert LetterCount(s3, 'G') == 0 && LetterCount(s3, 'T') == 0;
  }

  /** "name" and "NAME" are the same label ignoring case. */
  lemma UppercaseLabel(name: string, upper: string)
    requires name == "name" && upper == "NAME"
    ensures SameIgnoringCase(name, upper)
  {
    forall i | 0 <= i < 4
      ensures SameLetter(name[i], upper[i])
    {
    }
  }

  /** Removing "NAME" from "AACGTname", with the strings as parameters. */
  lemma UppercaseLabelRemoval(s: string, u: string, name: string, upper: string)
    requires s == "AACGTname" && u == "AACGT" && name == "name" && upper == "NAME"
    ensures RemoveName(s, upper) == u
  {
    UppercaseLabel(name, upper);
    RemoveNameIgnoresCase(s, name, upper);
    NameAfter(u, name);
    assert s == u + name;
  }

  /** The label given in another case is still removed: "AACGTname" with
      "NAME" leaves "AACGT". */
  lemma UppercaseLabelScenario()
    ensures RemoveName("AACGTname", "NAME") == "AACGT"
  {
    UppercaseLabelRemoval("AACGTname", "AACGT", "name", "NAME");
  }

  /** A wrong label removes nothing: "tug" does not occur in "ACtag". */
  lemma WrongLabelRemoval(s: string, name: string)
    requires s == "ACtag" && name == "tug"
    ensures RemoveName(s, name) == s
  {
    assert !OccursAt(s, name, 0) && !OccursAt(s, name, 1) && !OccursAt(s, name, 2) by {
      assert !SameLetter(s[0], name[0]) && !SameLetter(s[1], name[0]) && !SameLetter(s[3], name[1]);
      assert s[0..3][0] == s[0] && s[1..4][0] == s[1] && s[2..5][1] == s[3];
    }
    RemoveNameAbsent(s, name);
  }

  /** The letters of "ACtag", counted in either case. */
  lemma WrongLabelCounts(rest: string)
    requires rest == "ACtag"
    ensures LetterCount(rest, 'A') == 2 && LetterCount(rest, 'C') == 1
    ensures LetterCount(rest, 'G') == 1 && LetterCount(rest, 'T') == 1
  {
    var m := multiset(rest);
    assert ToLower('A') == 'a' && ToLower('C') == 'c' && ToLower('G') == 'g' && ToLower('T') == 't';
    assert m['A'] == 1 && m['a'] == 1 && m['C'] == 1 && m['c'] == 0;
    assert m['G'] == 0 && m['g'] == 1 && m['T'] == 0 && m['t'] == 1;
  }

  /** Its nucleotide letters are then counted as data: "ACtag" analysed with
      "tug" counts the t, a and g beside the drawn A and C. */
  lemma WrongLabelScenario()
    ensures var r := Analyze("ACtag", "tug"); r.Composition? && r.counts == BaseCounts(2, 1, 1, 1, 5)
  {
    WrongLabelRemoval("ACtag", "tug");
    WrongLabelCounts("ACtag");
  }

  /** A lowercase label with a letter outside the alphabet survives the round
      trip: "anna" passes the check, and removing it from "ACGT" with the
      label at offset 1 gives back "ACGT". */
  lemma LowercaseLabelRoundTrip()
    ensures LabelAccepted("anna")
    ensures RemoveName(Splice("ACGT", "anna", 1), "anna") == "ACGT"
  {
    var name := "anna";
    assert !IsNucleotideLetter(name[1]);
    RemoveSplicedName("ACGT", name, 1);
  }
}
