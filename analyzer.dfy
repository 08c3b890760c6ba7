/** The composition analyzer of `print_sequence_stats`: strip every
    case-insensitive occurrence of the label, keep only nucleotide letters,
    uppercase them, count the four bases and compute exact percentages. */
module CompositionAnalyzer {
  import opened Alphabet

  /** The label occurs, ignoring case, at index `i` of `s`. */
  predicate OccursAt(s: string, name: string, i: int) {
    0 <= i && i + |name| <= |s| && SameIgnoringCase(s[i..i + |name|], name)
  }

  /** The label occurs somewhere in `s`, ignoring case. */
  predicate Occurs(s: string, name: string) {
    exists i :: 0 <= i <= |s| && OccursAt(s, name, i)
  }

  /** `re.compile(re.escape(name), re.IGNORECASE).sub('', s)`: a left-to-right
      scan that drops each leftmost, non-overlapping match and resumes right
      after it. An empty label matches only the empty string, so nothing is
      removed. */
  function RemoveName(s: string, name: string): (r: string)
    ensures |r| <= |s|
    ensures name == [] ==> r == s
    decreases |s|
  {
    if name == [] || s == [] then s
    else if |name| <= |s| && SameIgnoringCase(s[..|name|], name) then RemoveName(s[|name|..], name)
    else [s[0]] + RemoveName(s[1..], name)
  }

  /** Removal only deletes characters: what is left is a sub-multiset of the
      input. */
  lemma {:induction false} RemoveNameSubMultiset(s: string, name: string)
    ensures multiset(RemoveName(s, name)) <= multiset(s)
    decreases |s|
  {
    if name != [] && s != [] {
      if |name| <= |s| && SameIgnoringCase(s[..|name|], name) {
        RemoveNameSubMultiset(s[|name|..], name);
        assert s == s[..|name|] + s[|name|..];
      } else {
        RemoveNameSubMultiset(s[1..], name);
        assert s == [s[0]] + s[1..];
      }
    }
  }

  /** Where a match starts, removal drops it and scans on after it. */
  lemma RemoveNameDrop(s: string, name: string)
    requires name != [] && |name| <= |s| && SameIgnoringCase(s[..|name|], name)
    ensures RemoveName(s, name) == RemoveName(s[|name|..], name)
  {
  }

  /** Removing a label from a string that starts with it drops that copy. */
  lemma RemoveNameLeading(name: string, v: string)
    requires name != []
    ensures RemoveName(name + v, name) == RemoveName(v, name)
  {
    var s := name + v;
    assert s[..|name|] == name && s[|name|..] == v;
    SameIgnoringCaseReflexive(name);
  }

  /** Where no match starts, removal keeps the first character and scans on. */
  lemma RemoveNameKeep(s: string, name: string)
    requires s != [] && name != [] && !(|name| <= |s| && SameIgnoringCase(s[..|name|], name))
    ensures RemoveName(s, name) == [s[0]] + RemoveName(s[1..], name)
  {
  }

  /** No match starts at a character that differs from the label's first one. */
  lemma NoMatchAt(s: string, name: string)
    requires s != [] && name != [] && !SameLetter(s[0], name[0])
    ensures !(|name| <= |s| && SameIgnoringCase(s[..|name|], name))
  {
    if |name| <= |s| && SameIgnoringCase(s[..|name|], name) {
      assert false;
    }
  }

  /** A first character that differs from the label's first one, ignoring
      case, is kept. */
  lemma RemoveNameKeepsFirst(c: char, v: string, name: string)
    requires name != [] && !SameLetter(c, name[0])
    ensures RemoveName([c] + v, name) == [c] + RemoveName(v, name)
  {
    var s := [c] + v;
    assert s[0] == c && s[1..] == v;
    NoMatchAt(s, name);
    RemoveNameKeep(s, name);
  }

  /** A leading run of characters none of which matches the label's first
      character, ignoring case, is kept as it is. */
  lemma {:induction false} RemoveNameKeepsPrefix(u: string, w: string, name: string)
    requires name != []
    requires forall i :: 0 <= i < |u| ==> !SameLetter(u[i], name[0])
    ensures RemoveName(u + w, name) == u + RemoveName(w, name)
    decreases |u|
  {
    if u == [] {
      assert u + w == w;
    } else {
      var tail := u[1..];
      ConsAppend(u, w);
      RemoveNameKeepsFirst(u[0], tail + w, name);
      assert forall i :: 0 <= i < |tail| ==> tail[i] == u[i + 1];
      RemoveNameKeepsPrefix(tail, w, name);
      ConsAppend(u, RemoveName(w, name));
    }
  }

  /** A label written after text that never starts a match is stripped, and
      the text is kept. */
  lemma RemoveNameTrailing(u: string, name: string)
    requires name != []
    requires forall i :: 0 <= i < |u| ==> !SameLetter(u[i], name[0])
    ensures RemoveName(u + name, name) == u
  {
    RemoveNameKeepsPrefix(u, name, name);
    RemoveNameLeading(name, []);
    assert name + [] == name;
    assert u + [] == u;
  }

  /** Removal is the identity when the label does not occur, ignoring case. */
  lemma {:induction false} RemoveNameAbsent(s: string, name: string)
    requires !Occurs(s, name)
    ensures RemoveName(s, name) == s
    decreases |s|
  {
    if name != [] && s != [] {
      assert !OccursAt(s, name, 0);
      forall i | OccursAt(s[1..], name, i)
        ensures OccursAt(s, name, i + 1)
      {
        assert s[1..][i..i + |name|] == s[i + 1..i + 1 + |name|];
      }
      RemoveNameAbsent(s[1..], name);
    }
  }

  /** When a non-empty label occurs, ignoring case, removal deletes at least
      one whole copy of it. */
  lemma {:induction false} RemoveNamePresent(s: string, name: string)
    requires name != [] && Occurs(s, name)
    ensures |RemoveName(s, name)| + |name| <= |s|
    decreases |s|
  {
    var i :| 0 <= i <= |s| && OccursAt(s, name, i);
    if |name| <= |s| && SameIgnoringCase(s[..|name|], name) {
      RemoveNameDrop(s, name);
    } else {
      assert i != 0;
      assert s[1..][i - 1..i - 1 + |name|] == s[i..i + |name|];
      assert OccursAt(s[1..], name, i - 1);
      RemoveNamePresent(s[1..], name);
      RemoveNameKeep(s, name);
    }
  }

  /** Removal of a non-empty label changes the string exactly when the label
      occurs in it, ignoring case. */
  lemma RemoveNameChanges(s: string, name: string)
    requires name != []
    ensures RemoveName(s, name) != s <==> Occurs(s, name)
  {
    if Occurs(s, name) {
      RemoveNamePresent(s, name);
    } else {
      RemoveNameAbsent(s, name);
    }
  }

  /** A window matches a label exactly when it matches the label written in
      another case. */
  lemma MatchIgnoresCase(w: string, name: string, name': string)
    requires SameIgnoringCase(name, name')
    ensures SameIgnoringCase(w, name) <==> SameIgnoringCase(w, name')
  {
  }

  /** Removal does not depend on the case in which the label is given. */
  lemma {:induction false} RemoveNameIgnoresCase(s: string, name: string, name': string)
    requires SameIgnoringCase(name, name')
    ensures RemoveName(s, name) == RemoveName(s, name')
    decreases |s|
  {
    if name != [] && s != [] {
      if |name| <= |s| {
        MatchIgnoresCase(s[..|name|], name, name');
      }
      if |name| <= |s| && SameIgnoringCase(s[..|name|], name) {
        RemoveNameIgnoresCase(s[|name|..], name, name');
      } else {
        RemoveNameIgnoresCase(s[1..], name, name');
      }
    }
  }

  /** `[ch for ch in s if ch.upper() in 'ACGT']`. */
  function KeepNucleotides(s: string): (r: string)
    ensures |r| <= |s|
    ensures forall i :: 0 <= i < |r| ==> IsNucleotideLetter(r[i])
  {
    if s == [] then []
    else if IsNucleotideLetter(s[0]) then [s[0]] + KeepNucleotides(s[1..])
    else KeepNucleotides(s[1..])
  }

  /** `str.upper()` of a whole string: each character uppercased in place, so
      the result still matches the input ignoring case. */
  function UpperAll(s: string): (r: string)
    ensures |r| == |s| && forall i :: 0 <= i < |s| ==> r[i] == ToUpper(s[i])
    ensures SameIgnoringCase(r, s)
  {
    seq(|s|, i requires 0 <= i < |s| => ToUpper(s[i]))
  }

  /** The scrub of line 84: filter, then uppercase. No character outside
      ASCII uppercases to a piece of "ACGT", so the ASCII case mapping keeps
      exactly the characters the filter keeps. */
  function Scrub(s: string): (r: string)
    ensures |r| <= |s| && AllBases(r)
  {
    UpperAll(KeepNucleotides(s))
  }

  /** One step of the scrub: the first character contributes its uppercase
      form if it is a nucleotide letter, and nothing otherwise. */
  lemma ScrubCons(s: string)
    requires s != []
    ensures Scrub(s) == (if IsNucleotideLetter(s[0]) then [ToUpper(s[0])] else []) + Scrub(s[1..])
  {
    var k := KeepNucleotides(s[1..]);
    if IsNucleotideLetter(s[0]) {
      assert UpperAll([s[0]] + k) == [ToUpper(s[0])] + UpperAll(k);
    }
  }

  /** The scrub counts each base in both cases: its uppercase result holds as
      many copies of a base as the input held of that base in upper and
      lower case together. */
  lemma ScrubCounts(s: string, b: char)
    requires IsBase(b)
    ensures multiset(Scrub(s))[b] == multiset(s)[b] + multiset(s)[ToLower(b)]
  {
    UpperMatchesBase(b, b);
    UpperMatchesBase(ToLower(b), b);
    UpperCounts(KeepNucleotides(s), b);
    KeepCounts(s, b);
    KeepCounts(s, ToLower(b));
  }

  /** The filter keeps every nucleotide letter and drops everything else. */
  lemma {:induction false} KeepCounts(s: string, x: char)
    ensures multiset(KeepNucleotides(s))[x] == if IsNucleotideLetter(x) then multiset(s)[x] else 0
  {
    if s != [] {
      KeepCounts(s[1..], x);
      assert s == [s[0]] + s[1..];
    }
  }

  /** Counting in a string with one more character in front. */
  lemma ConsCount(x: char, rest: string, c: char)
    ensures multiset([x] + rest)[c] == (if x == c then 1 else 0) + multiset(rest)[c]
  {
  }

  /** Uppercasing a string uppercases its first character and then the rest. */
  lemma UpperAllCons(s: string)
    requires s != []
    ensures UpperAll(s) == [ToUpper(s[0])] + UpperAll(s[1..])
  {
  }

  /** Uppercasing turns both cases of a base into that base. */
  lemma {:induction false} UpperCounts(s: string, b: char)
    requires IsBase(b)
    ensures multiset(UpperAll(s))[b] == multiset(s)[b] + multiset(s)[ToLower(b)]
  {
    if s != [] {
      var ch, rest := s[0], s[1..];
      UpperCounts(rest, b);
      UpperMatchesBase(ch, b);
      assert s == [ch] + rest;
      UpperAllCons(s);
      ConsCount(ToUpper(ch), UpperAll(rest), b);
      ConsCount(ch, rest, b);
      ConsCount(ch, rest, ToLower(b));
    }
  }

  /** A kept character becomes the base `b` exactly when it is `b` in either
      case; a dropped character is neither. */
  lemma UpperMatchesBase(ch: char, b: char)
    requires IsBase(b)
    ensures ToUpper(ch) == b <==> ch == b || ch == ToLower(b)
    ensures !IsNucleotideLetter(ch) ==> ch != b && ch != ToLower(b)
    ensures ToLower(b) != b
  {
  }

  /** A string of uppercase bases passes the scrub unchanged. */
  lemma {:induction false} ScrubOfBases(s: string)
    requires AllBases(s)
    ensures Scrub(s) == s
  {
    if s != [] {
      ScrubCons(s);
      ScrubOfBases(s[1..]);
      assert s == [s[0]] + s[1..];
    }
  }

  /** The four counts and the denominator of lines 86-90. */
  datatype BaseCounts = BaseCounts(a: nat, c: nat, g: nat, t: nat, total: nat)

  /** Counts of A, C, G, T in `s` never exceed its length, and add up to it
      exactly when `s` holds bases only. */
  lemma {:induction false} CountsBound(s: string)
    ensures var m := multiset(s); m['A'] + m['C'] + m['G'] + m['T'] <= |s|
    ensures AllBases(s) ==> var m := multiset(s); m['A'] + m['C'] + m['G'] + m['T'] == |s|
  {
    if s != [] {
      CountsBound(s[1..]);
      assert s == [s[0]] + s[1..];
    }
  }

  /** `sequence_cleaned.count(...)` for each base, and `len(sequence_cleaned)`. */
  function CountBases(cleaned: string): (k: BaseCounts)
    ensures k.a == multiset(cleaned)['A'] && k.c == multiset(cleaned)['C']
    ensures k.g == multiset(cleaned)['G'] && k.t == multiset(cleaned)['T']
    ensures k.total == |cleaned|
    ensures k.a + k.c + k.g + k.t <= k.total && k.c + k.g <= k.total
    ensures AllBases(cleaned) ==> k.a + k.c + k.g + k.t == k.total
  {
    var m := multiset(cleaned);
    CountsBound(cleaned);
    BaseCounts(m['A'], m['C'], m['G'], m['T'], |cleaned|)
  }

  /** `(count / total) * 100` as an exact rational; the rounding to one
      decimal place is not modelled. */
  function Percent(count: nat, total: nat): (p: real)
    requires total > 0
    ensures p * total as real == 100.0 * count as real
    ensures 0.0 <= p && (count <= total ==> p <= 100.0)
  {
    var f := count as real / total as real;
    assert f * total as real == count as real;
    assert (f * 100.0) * total as real == (f * total as real) * 100.0;
    DivBounds(if count <= total then count as real else 0.0, total as real);
    f * 100.0
  }

  /** The share is the only number that, times the total, gives 100 times the
      count. */
  lemma PercentUnique(count: nat, total: nat, q: real)
    requires total > 0 && q * total as real == 100.0 * count as real
    ensures Percent(count, total) == q
  {
    var p := Percent(count, total);
    CancelPositive(p, q, total as real);
  }

  /** A positive factor cancels from both sides of an equation. */
  lemma CancelPositive(a: real, b: real, y: real)
    requires y > 0.0 && a * y == b * y
    ensures a == b
  {
  }

  /** Fractions over one denominator add up by their numerators. */
  lemma DivAdd(x: real, y: real, n: real)
    requires n > 0.0
    ensures x / n + y / n == (x + y) / n
  {
  }

  /** A fraction of a part of the denominator lies between 0 and 1. */
  lemma DivBounds(x: real, n: real)
    requires n > 0.0 && 0.0 <= x <= n
    ensures 0.0 <= x / n <= 1.0
    ensures x == n ==> x / n == 1.0
  {
  }

  /** Shares of parts that make up the whole add up to 100, a share of a part is
      between 0 and 100, and the C+G share is the sum of the two shares. */
  lemma PercentSum(a: nat, c: nat, g: nat, t: nat, total: nat)
    requires total > 0 && a + c + g + t == total
    ensures Percent(a, total) + Percent(c, total) + Percent(g, total) + Percent(t, total) == 100.0
    ensures Percent(c + g, total) == Percent(c, total) + Percent(g, total)
    ensures 0.0 <= Percent(c + g, total) <= 100.0
  {
    var n := total as real;
    var fa, fc, fg, ft := a as real / n, c as real / n, g as real / n, t as real / n;
    DivAdd(a as real, c as real, n);
    DivAdd((a + c) as real, g as real, n);
    DivAdd((a + c + g) as real, t as real, n);
    DivBounds(n, n);
    assert fa + fc + fg + ft == 1.0;
    DivAdd(c as real, g as real, n);
    DivBounds((c + g) as real, n);
  }

  /** What `print_sequence_stats` reports: nothing when no base survives the
      scrub, otherwise the counts and the five percentages. */
  datatype Stats =
    | NoStatistics
    | Composition(counts: BaseCounts, aPct: real, cPct: real, gPct: real, tPct: real, cgPct: real)

  /** The five percentages of lines 97-101 for counts that add up to a
      positive total. */
  function Shares(k: BaseCounts): (r: Stats)
    requires k.total > 0 && k.a + k.c + k.g + k.t == k.total
    ensures r.Composition? && r.counts == k
    ensures r.aPct == Percent(k.a, k.total) && r.cPct == Percent(k.c, k.total)
    ensures r.gPct == Percent(k.g, k.total) && r.tPct == Percent(k.t, k.total)
    ensures r.aPct + r.cPct + r.gPct + r.tPct == 100.0
    ensures r.cgPct == r.cPct + r.gPct
    ensures 0.0 <= r.cgPct <= 100.0
  {
    PercentSum(k.a, k.c, k.g, k.t, k.total);
    Composition(k, Percent(k.a, k.total), Percent(k.c, k.total), Percent(k.g, k.total),
                Percent(k.t, k.total), Percent(k.c + k.g, k.total))
  }

  /** How many characters of `s` are the base `b` in either case. */
  function LetterCount(s: string, b: char): nat {
    multiset(s)[b] + multiset(s)[ToLower(b)]
  }

  /** The counts of lines 86-90 on the scrub of `rest` are the counts of each
      base in either case in `rest`, over their sum. */
  lemma CountScrubbed(rest: string)
    ensures var a, c, g, t := LetterCount(rest, 'A'), LetterCount(rest, 'C'), LetterCount(rest, 'G'), LetterCount(rest, 'T');
      CountBases(Scrub(rest)) == BaseCounts(a, c, g, t, a + c + g + t)
  {
    ScrubCounts(rest, 'A');
    ScrubCounts(rest, 'C');
    ScrubCounts(rest, 'G');
    ScrubCounts(rest, 'T');
  }

  /** `print_sequence_stats(sequence, user_name)` without the printing: each
      base is counted, in either case, in what is left once the label is
      removed; with nothing counted there are no statistics. */
  function Analyze(sequence: string, name: string): (r: Stats)
    ensures var rest := RemoveName(sequence, name);
      var total := LetterCount(rest, 'A') + LetterCount(rest, 'C') + LetterCount(rest, 'G') + LetterCount(rest, 'T');
      && (r.NoStatistics? <==> total == 0)
      && (r.Composition? ==>
            && r.counts == BaseCounts(LetterCount(rest, 'A'), LetterCount(rest, 'C'),
                                      LetterCount(rest, 'G'), LetterCount(rest, 'T'), total)
            && total > 0
            && r == Shares(r.counts))
  {
    var rest := RemoveName(sequence, name);
    var k := CountBases(Scrub(rest));
    CountScrubbed(rest);
    if k.total == 0 then NoStatistics else Shares(k)
  }
}
