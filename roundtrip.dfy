/** What analysing a generated record with its own label recovers, and where
    the lowercase-label asymmetry breaks that. */
module RecordRoundTrip {
  import opened Alphabet
  import opened Wrappers
  import opened SequenceGenerator
  import opened CompositionAnalyzer

  /** A label for which the round trip is exact: empty, or holding at least one
      character that is not a nucleotide letter in either case. */
  predicate NotAllNucleotides(name: string) {
    name == [] || exists i :: 0 <= i < |name| && !IsNucleotideLetter(name[i])
  }

  /** `q` is the first position of the label holding a character that is not a
      nucleotide letter. */
  predicate FirstOffAlphabet(name: string, q: int) {
    && 0 <= q < |name|
    && !IsNucleotideLetter(name[q])
    && forall j :: 0 <= j < q ==> IsNucleotideLetter(name[j])
  }

  /** A label with a character outside the nucleotide letters has a first one. */
  lemma {:induction false} FindOffAlphabet(name: string) returns (q: int)
    requires exists i :: 0 <= i < |name| && !IsNucleotideLetter(name[i])
    ensures FirstOffAlphabet(name, q)
    decreases |name|
  {
    if !IsNucleotideLetter(name[0]) {
      q := 0;
    } else {
      var i :| 0 <= i < |name| && !IsNucleotideLetter(name[i]);
      assert name[1..][i - 1] == name[i];
      var q' := FindOffAlphabet(name[1..]);
      q := q' + 1;
      forall j | 0 <= j < q
        ensures IsNucleotideLetter(name[j])
      {
        if j > 0 {
          assert name[j] == name[1..][j - 1];
        }
      }
    }
  }

  /** No match of such a label starts in a string of bases: the window would
      pair a base with the label's first off-alphabet character. */
  lemma BasesHoldNoLabel(v: string, name: string, q: int)
    requires AllBases(v) && FirstOffAlphabet(name, q)
    ensures !Occurs(v, name)
  {
    forall i | 0 <= i <= |v|
      ensures !OccursAt(v, name, i)
    {
      if i + |name| <= |v| {
        var w := v[i..i + |name|];
        assert w[q] == v[i + q];
        if SameLetter(w[q], name[q]) {
          SameLetterKeepsNucleotide(w[q], name[q]);
        }
      }
    }
  }

  /** No match starts on a base in front of such a label: the character facing
      the label's first off-alphabet one is a base or an earlier, nucleotide,
      character of the label. */
  lemma NoMatchBeforeLabel(x: string, name: string, v: string, q: int)
    requires x != [] && AllBases(x) && FirstOffAlphabet(name, q)
    ensures var s := x + (name + v); |name| <= |s| && !SameIgnoringCase(s[..|name|], name)
  {
    var s := x + (name + v);
    if q < |x| {
      assert s[q] == x[q];
    } else {
      assert s[q] == name[q - |x|];
    }
    assert s[..|name|][q] == s[q];
    if SameLetter(s[q], name[q]) {
      SameLetterKeepsNucleotide(s[q], name[q]);
    }
  }

  /** A base in front of such a label is kept, and the scan moves on by one. */
  lemma BaseBeforeLabelKept(x: string, name: string, v: string, q: int)
    requires x != [] && AllBases(x) && FirstOffAlphabet(name, q)
    ensures RemoveName(x + (name + v), name) == [x[0]] + RemoveName(x[1..] + (name + v), name)
  {
    NoMatchBeforeLabel(x, name, v, q);
    RemoveNameKeep(x + (name + v), name);
    assert (x + (name + v))[1..] == x[1..] + (name + v);
  }

  /** Bases in front of such a label pass through removal unchanged. */
  lemma {:induction false} RemoveNameBeforeLabel(x: string, name: string, v: string, q: int)
    requires AllBases(x) && FirstOffAlphabet(name, q)
    ensures RemoveName(x + (name + v), name) == x + RemoveName(name + v, name)
    decreases |x|
  {
    if x == [] {
      assert x + (name + v) == name + v;
    } else {
      BaseBeforeLabelKept(x, name, v, q);
      AllBasesTail(x);
      RemoveNameBeforeLabel(x[1..], name, v, q);
      ConsAppend(x, RemoveName(name + v, name));
    }
  }

  /** Removing the label from a spliced sequence gives back the base sequence
      whenever the label holds a character outside the nucleotide letters. */
  lemma RemoveSplicedName(dna: string, name: string, p: nat)
    requires AllBases(dna) && p <= |dna| && NotAllNucleotides(name)
    ensures RemoveName(Splice(dna, name, p), name) == dna
  {
    if name != [] {
      var u, v := dna[..p], dna[p..];
      var q := FindOffAlphabet(name);
      assert Splice(dna, name, p) == u + (name + v);
      RemoveNameBeforeLabel(u, name, v, q);
      RemoveNameLeading(name, v);
      BasesHoldNoLabel(v, name, q);
      RemoveNameAbsent(v, name);
      assert dna == u + v;
    }
  }

  /** Conversely, a non-empty label made only of nucleotide letters breaks the
      round trip: appended to its own uppercase form, both copies are removed. */
  lemma RemoveSplicedNameFails(name: string)
    requires name != [] && !NotAllNucleotides(name)
    ensures var dna := UpperAll(name);
      && AllBases(dna)
      && RemoveName(Splice(dna, name, |dna|), name) != dna
  {
    var dna := UpperAll(name);
    assert AllBases(dna) by {
      forall i | 0 <= i < |dna|
        ensures IsBase(dna[i])
      {
        assert IsNucleotideLetter(name[i]);
      }
    }
    SpliceAtEnds(dna, name);
    var s := dna + name;
    assert s[..|name|] == dna && s[|name|..] == name;
    RemoveNameDrop(s, name);
    RemoveNameLeading(name, []);
    assert name + [] == name;
  }

  /** When what is left after removing the label is a non-empty string of
      bases, the analysis counts exactly those bases. */
  lemma AnalyzeLeavesBases(s: string, name: string)
    requires AllBases(RemoveName(s, name)) && RemoveName(s, name) != []
    ensures var rest := RemoveName(s, name);
      var r := Analyze(s, name);
      && r.Composition?
      && r.counts == BaseCounts(multiset(rest)['A'], multiset(rest)['C'],
                                multiset(rest)['G'], multiset(rest)['T'], |rest|)
  {
    var rest := RemoveName(s, name);
    CountsBound(rest);
    LowercaseAbsent(rest, 'A');
    LowercaseAbsent(rest, 'C');
    LowercaseAbsent(rest, 'G');
    LowercaseAbsent(rest, 'T');
  }

  /** Analysing a generated record with its own label reports exactly the
      composition of the drawn bases, over `length` of them. */
  lemma AnalyzeGenerated(length: int, name: string, draws: seq<int>, offset: int)
    requires length > 0 && |draws| == length && 0 <= offset <= length && ValidDraws(draws)
    requires LabelAccepted(name) && NotAllNucleotides(name)
    ensures Generate(length, name, draws, offset).Success?
    ensures var dna := DrawBases(draws);
      var r := Analyze(Generate(length, name, draws, offset).value, name);
      && r.Composition?
      && r.counts == BaseCounts(multiset(dna)['A'], multiset(dna)['C'],
                                multiset(dna)['G'], multiset(dna)['T'], length)
  {
    var dna := DrawBases(draws);
    var record := Splice(dna, name, offset);
    assert Generate(length, name, draws, offset) == Success(record);
    RemoveSplicedName(dna, name, offset);
    AnalyzeLeavesBases(record, name);
  }

  /** A string of uppercase bases holds no lowercase letter. */
  lemma LowercaseAbsent(s: string, b: char)
    requires AllBases(s) && IsBase(b)
    ensures multiset(s)[ToLower(b)] == 0
  {
  }

  /** An unlabelled string of bases is analysed over all of its characters. */
  lemma AnalyzeBases(s: string)
    requires AllBases(s) && s != []
    ensures var r := Analyze(s, []);
      && r.Composition?
      && r.counts == BaseCounts(multiset(s)['A'], multiset(s)['C'],
                                multiset(s)['G'], multiset(s)['T'], |s|)
  {
    AnalyzeLeavesBases(s, []);
  }
}
