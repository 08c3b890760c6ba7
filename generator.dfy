/** The sequence generator of `generate_sequence`: input validation, the base
    sequence drawn from `dna_bases`, and the splice that embeds the label.
    The random source is not modelled: the draws of `random.choices` and the
    offset of `random.randint` are parameters. */
module SequenceGenerator {
  import opened Alphabet
  import opened Wrappers

  /** Why the shell would re-prompt instead of generating. */
  datatype InputError = NonPositiveLength | ForbiddenLabel

  /** `any(ch in "ATGC" for ch in user_name)`, scanned left to right. */
  function HasForbiddenLetter(name: string): (found: bool)
    ensures found <==> exists i :: 0 <= i < |name| && IsBase(name[i])
  {
    if name == [] then false
    else if IsBase(name[0]) then true
    else
      var rest := HasForbiddenLetter(name[1..]);
      assert forall i :: 1 <= i < |name| ==> name[i] == name[1..][i - 1];
      rest
  }

  /** The label check: accepted iff no character is an uppercase A, T, G or C. */
  function LabelAccepted(name: string): (ok: bool)
    ensures ok <==> forall i :: 0 <= i < |name| ==> !IsBase(name[i])
  {
    !HasForbiddenLetter(name)
  }

  /** Lowercase nucleotide letters are allowed in a label; uppercase ones are not. */
  lemma LabelCheckIsCaseSensitive()
    ensures LabelAccepted("gattaca") && LabelAccepted("bob")
    ensures !LabelAccepted("GATTACA") && !LabelAccepted("boT")
  {
    assert IsBase("GATTACA"[0]);
    assert IsBase("boT"[2]);
  }

  /** Each draw picks one of the four bases. */
  predicate ValidDraws(draws: seq<int>) {
    forall i :: 0 <= i < |draws| ==> 0 <= draws[i] < 4
  }

  /** `''.join(random.choices(dna_bases, k))` for the given picks. */
  function DrawBases(draws: seq<int>): (s: string)
    requires ValidDraws(draws)
    ensures |s| == |draws| && AllBases(s)
    ensures forall i :: 0 <= i < |draws| ==> s[i] == Bases[draws[i]]
  {
    if draws == [] then []
    else [Bases[draws[0]]] + DrawBases(draws[1..])
  }

  /** The pick that yields a given base. */
  function BaseIndex(ch: char): (d: int)
    requires IsBase(ch)
    ensures 0 <= d < 4 && Bases[d] == ch
  {
    if ch == 'A' then 0 else if ch == 'C' then 1 else if ch == 'G' then 2 else 3
  }

  /** The picks that yield a given base sequence. */
  function DrawsOf(s: string): (draws: seq<int>)
    requires AllBases(s)
    ensures |draws| == |s| && ValidDraws(draws)
  {
    if s == [] then [] else [BaseIndex(s[0])] + DrawsOf(s[1..])
  }

  /** Every base sequence can be drawn: `DrawsOf` is a right inverse of `DrawBases`,
      so the base sequences are exactly the strings over {A, C, G, T}. */
  lemma {:induction false} DrawBasesOfDrawsOf(s: string)
    requires AllBases(s)
    ensures DrawBases(DrawsOf(s)) == s
  {
    if s != [] {
      DrawBasesOfDrawsOf(s[1..]);
    }
  }

  /** `dna[:p] + name + dna[p:]`. */
  function Splice(dna: string, name: string, p: nat): (r: string)
    requires p <= |dna|
    ensures |r| == |dna| + |name|
    ensures r[..p] == dna[..p] && r[p..p + |name|] == name && r[p + |name|..] == dna[p..]
  {
    dna[..p] + name + dna[p..]
  }

  /** Cutting the label window back out of a spliced string gives the original. */
  lemma SpliceUndo(dna: string, name: string, p: nat)
    requires p <= |dna|
    ensures var r := Splice(dna, name, p); r[..p] + r[p + |name|..] == dna
  {
    var r := Splice(dna, name, p);
    assert dna == dna[..p] + dna[p..];
  }

  /** Both ends of the offset range are valid: 0 puts the label first, the
      length puts it last. */
  lemma SpliceAtEnds(dna: string, name: string)
    ensures Splice(dna, name, 0) == name + dna
    ensures Splice(dna, name, |dna|) == dna + name
  {
    assert dna[..0] == [] && dna[0..] == dna;
    assert dna[..|dna|] == dna && dna[|dna|..] == [];
  }

  /** `generate_sequence` without the I/O: check the length, check the label,
      draw the bases and splice the label in at `offset`. */
  function Generate(length: int, name: string, draws: seq<int>, offset: int): (r: Result<string, InputError>)
    requires length > 0 ==> |draws| == length && 0 <= offset <= length
    requires ValidDraws(draws)
    ensures r.Failure? <==> length <= 0 || !LabelAccepted(name)
    ensures r.Failure? ==> r.error == (if length <= 0 then NonPositiveLength else ForbiddenLabel)
    ensures r.Success? ==>
      && |r.value| == length + |name|
      && r.value[offset..offset + |name|] == name
      && r.value[..offset] + r.value[offset + |name|..] == DrawBases(draws)
      && AllBases(r.value[..offset]) && AllBases(r.value[offset + |name|..])
  {
    if length <= 0 then Failure(NonPositiveLength)
    else if !LabelAccepted(name) then Failure(ForbiddenLabel)
    else
      var dna := DrawBases(draws);
      SpliceUndo(dna, name, offset);
      Success(Splice(dna, name, offset))
  }
}
