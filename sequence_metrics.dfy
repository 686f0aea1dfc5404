/**
 The sequence-metrics block of the BioBits dashboard: for one nucleotide
 sequence (the string held by a single FASTA record) it computes the length,
 the GC content as a percentage, and a five-entry table of literal,
 case-sensitive character counts.
 */
module SequenceMetrics {

  /** The only error the block can raise: the GC ratio divides by the length. */
  datatype MetricError = DivisionByZero

  datatype Result<T> = Ok(value: T) | Err(error: MetricError)

  /** What the dashboard shows for one sequence. */
  datatype Metrics = Metrics(length: nat, gcContent: real, distribution: map<string, int>)

  /** The keys of the nucleotide-distribution table, exactly as the dashboard spells them. */
  const DISTRIBUTION_KEYS: set<string> := {"A", "T", "G", "C", "Other"}

  /** The four characters that have their own entry; any other character is "Other". */
  predicate IsNucleotide(ch: char)
  {
    ch == 'A' || ch == 'T' || ch == 'G' || ch == 'C'
  }

  /** The table entry that a character is tallied under. */
  function KeyOf(ch: char): (k: string)
    ensures k in DISTRIBUTION_KEYS
    ensures k == "Other" <==> !IsNucleotide(ch)
    ensures IsNucleotide(ch) ==> k == [ch]
  {
    if ch == 'A' then "A"
    else if ch == 'T' then "T"
    else if ch == 'G' then "G"
    else if ch == 'C' then "C"
    else "Other"
  }

  /** Number of positions of `s` holding exactly `c`: what `str.count` returns for a one-character argument. */
  function Count(s: string, c: char): (n: nat)
    ensures n <= |s|
  {
    if s == [] then 0
    else (if s[0] == c then 1 else 0) + Count(s[1..], c)
  }

  /** `c` is counted zero times exactly when it does not occur. */
  lemma {:induction false} CountZero(s: string, c: char)
    ensures Count(s, c) == 0 <==> c !in s
  {
    if s != [] {
      CountZero(s[1..], c);
      assert s == [s[0]] + s[1..];
    }
  }

  /** Number of positions of `s` holding a character other than A, T, G or C. */
  function CountOther(s: string): (n: nat)
    ensures n <= |s|
  {
    if s == [] then 0
    else (if IsNucleotide(s[0]) then 0 else 1) + CountOther(s[1..])
  }

  /** Nothing is tallied as "Other" exactly when every character is one of A, T, G, C. */
  lemma {:induction false} CountOtherZero(s: string)
    ensures CountOther(s) == 0 <==> forall i :: 0 <= i < |s| ==> IsNucleotide(s[i])
  {
    if s != [] {
      CountOtherZero(s[1..]);
      assert forall i :: 1 <= i < |s| ==> s[i] == s[1..][i - 1];
    }
  }

  /** `Count` agrees with the multiplicity of `c` in the multiset of the characters of `s`. */
  lemma {:induction false} CountIsMultiplicity(s: string, c: char)
    ensures Count(s, c) == multiset(s)[c]
  {
    if s != [] {
      CountIsMultiplicity(s[1..], c);
      assert s == [s[0]] + s[1..];
      assert multiset(s) == multiset{s[0]} + multiset(s[1..]);
    }
  }

  /** Counting distributes over concatenation. */
  lemma {:induction false} CountAppend(s: string, t: string, c: char)
    ensures Count(s + t, c) == Count(s, c) + Count(t, c)
  {
    if s == [] {
      assert s + t == t;
    } else {
      assert (s + t)[1..] == s[1..] + t;
      CountAppend(s[1..], t, c);
    }
  }

  lemma {:induction false} CountOtherAppend(s: string, t: string)
    ensures CountOther(s + t) == CountOther(s) + CountOther(t)
  {
    if s == [] {
      assert s + t == t;
    } else {
      assert (s + t)[1..] == s[1..] + t;
      CountOtherAppend(s[1..], t);
    }
  }

  /**
   Every position of `s` holds exactly one of A, T, G, C or some other
   character, so the four literal counts and the count of the rest add up to
   the length.
   */
  lemma {:induction false} Partition(s: string)
    ensures Count(s, 'A') + Count(s, 'T') + Count(s, 'G') + Count(s, 'C') + CountOther(s) == |s|
  {
    if s != [] {
      Partition(s[1..]);
    }
  }

  /** The four nucleotide counts never exceed the length: they count disjoint characters. */
  lemma {:induction false} NucleotideCountsBounded(s: string)
    ensures Count(s, 'A') + Count(s, 'T') + Count(s, 'G') + Count(s, 'C') <= |s|
  {
    Partition(s);
  }

  /** G and C together fill the sequence exactly when every character is G or C. */
  lemma {:induction false} GcCountFull(s: string)
    ensures Count(s, 'G') + Count(s, 'C') <= |s|
    ensures Count(s, 'G') + Count(s, 'C') == |s| <==> forall i :: 0 <= i < |s| ==> s[i] == 'G' || s[i] == 'C'
  {
    if s != [] {
      GcCountFull(s[1..]);
      assert forall i :: 1 <= i < |s| ==> s[i] == s[1..][i - 1];
    }
  }

  /** G and C are absent together exactly when no character is G or C. */
  lemma GcCountEmpty(s: string)
    ensures Count(s, 'G') + Count(s, 'C') == 0 <==> forall i :: 0 <= i < |s| ==> s[i] != 'G' && s[i] != 'C'
  {
    CountZero(s, 'G');
    CountZero(s, 'C');
  }

  /**
   GC content, `100 * (count('G') + count('C')) / length`, as an exact real.
   An empty sequence makes the division fault; the model reports it as an error.
   */
  function GcContent(s: string): (r: Result<real>)
    ensures r.Err? <==> |s| == 0
    ensures r.Err? ==> r.error == DivisionByZero
    ensures r.Ok? ==> r.value * (|s| as real) == 100.0 * ((Count(s, 'G') + Count(s, 'C')) as real)
    ensures r.Ok? ==> 0.0 <= r.value <= 100.0
  {
    if |s| == 0 then Err(DivisionByZero)
    else
      GcCountFull(s);
      Ok(Percentage(Count(s, 'G') + Count(s, 'C'), |s|))
  }

  /** `100 * part / whole` for `part` a share of a positive `whole`. */
  function Percentage(part: nat, whole: nat): (p: real)
    requires 0 < whole
    requires part <= whole
    ensures p * (whole as real) == 100.0 * (part as real)
    ensures 0.0 <= p <= 100.0
    ensures p == 100.0 <==> part == whole
    ensures p == 0.0 <==> part == 0
  {
    var w := whole as real;
    var q := 100.0 * (part as real) / w;
    ScaledShare(part as real, w, q);
    q
  }

  /** A real `q` with `q * whole == 100 * part` lies in [0, 100], at the ends exactly when `part` does. */
  lemma ScaledShare(part: real, whole: real, q: real)
    requires 0.0 <= part <= whole && 0.0 < whole
    requires q * whole == 100.0 * part
    ensures 0.0 <= q <= 100.0
    ensures q == 100.0 <==> part == whole
    ensures q == 0.0 <==> part == 0.0
  {
  }

  /** For a non-empty sequence, GC content is 100 exactly when every character is G or C. */
  lemma GcContentFull(s: string)
    requires |s| > 0
    ensures GcContent(s) == Ok(100.0) <==> forall i :: 0 <= i < |s| ==> s[i] == 'G' || s[i] == 'C'
  {
    GcCountFull(s);
  }

  /** For a non-empty sequence, GC content is 0 exactly when no character is G or C. */
  lemma GcContentNone(s: string)
    requires |s| > 0
    ensures GcContent(s) == Ok(0.0) <==> forall i :: 0 <= i < |s| ==> s[i] != 'G' && s[i] != 'C'
  {
    GcCountEmpty(s);
  }

  /**
   The nucleotide-distribution table: the literal counts of A, T, G and C,
   and "Other" as the length minus their sum.
   */
  function Distribution(s: string): (m: map<string, int>)
    ensures m.Keys == DISTRIBUTION_KEYS
    ensures forall k :: k in m ==> 0 <= m[k] <= |s|
    ensures m["A"] + m["T"] + m["G"] + m["C"] + m["Other"] == |s|
    ensures m["Other"] == CountOther(s)
  {
    var a, t, g, c := Count(s, 'A'), Count(s, 'T'), Count(s, 'G'), Count(s, 'C');
    Partition(s);
    map["A" := a, "T" := t, "G" := g, "C" := c, "Other" := |s| - (a + t + g + c)]
  }

  /** Each entry of the table is a tally of its own characters over the sequence. */
  lemma DistributionEntries(s: string)
    ensures Distribution(s)["A"] == Count(s, 'A') && Distribution(s)["T"] == Count(s, 'T')
    ensures Distribution(s)["G"] == Count(s, 'G') && Distribution(s)["C"] == Count(s, 'C')
    ensures Distribution(s)["A"] == multiset(s)['A'] && Distribution(s)["T"] == multiset(s)['T']
    ensures Distribution(s)["G"] == multiset(s)['G'] && Distribution(s)["C"] == multiset(s)['C']
  {
    CountIsMultiplicity(s, 'A');
    CountIsMultiplicity(s, 'T');
    CountIsMultiplicity(s, 'G');
    CountIsMultiplicity(s, 'C');
  }

  /**
   Counting is literal and case-sensitive: appending one character raises
   exactly the entry that `KeyOf` names for it by one, so a lower-case
   `a`, `t`, `g`, `c` (or any other non-ACGT character) only raises "Other".
   */
  lemma AppendCharacter(s: string, ch: char)
    ensures forall k :: k in DISTRIBUTION_KEYS ==>
      Distribution(s + [ch])[k] == Distribution(s)[k] + (if k == KeyOf(ch) then 1 else 0)
  {
    AppendCounts(s, ch);
    DistributionEntries(s);
    DistributionEntries(s + [ch]);
    var d, e := Distribution(s), Distribution(s + [ch]);
    forall k | k in DISTRIBUTION_KEYS
      ensures e[k] == d[k] + (if k == KeyOf(ch) then 1 else 0)
    {
    }
  }

  /** The tallies of `s + [ch]` are those of `s` with the one for `ch` raised by one. */
  lemma AppendCounts(s: string, ch: char)
    ensures Count(s + [ch], 'A') == Count(s, 'A') + (if ch == 'A' then 1 else 0)
    ensures Count(s + [ch], 'T') == Count(s, 'T') + (if ch == 'T' then 1 else 0)
    ensures Count(s + [ch], 'G') == Count(s, 'G') + (if ch == 'G' then 1 else 0)
    ensures Count(s + [ch], 'C') == Count(s, 'C') + (if ch == 'C' then 1 else 0)
    ensures CountOther(s + [ch]) == CountOther(s) + (if IsNucleotide(ch) then 0 else 1)
  {
    CountAppend(s, [ch], 'A');
    CountAppend(s, [ch], 'T');
    CountAppend(s, [ch], 'G');
    CountAppend(s, [ch], 'C');
    CountOtherAppend(s, [ch]);
    assert [ch][1..] == [];
  }

  /** A sequence with no upper-case A, T, G or C is tallied entirely under "Other". */
  lemma NoNucleotidesAllOther(s: string)
    requires forall i :: 0 <= i < |s| ==> !IsNucleotide(s[i])
    ensures Distribution(s)["Other"] == |s|
    ensures Distribution(s)["A"] == 0 && Distribution(s)["T"] == 0
    ensures Distribution(s)["G"] == 0 && Distribution(s)["C"] == 0
  {
    DistributionEntries(s);
    CountZero(s, 'A');
    CountZero(s, 'T');
    CountZero(s, 'G');
    CountZero(s, 'C');
    Partition(s);
  }

  /**
   The whole block: length, GC content and distribution of one sequence.
   The division for GC content comes before the table is built, so an empty
   sequence ends the block with the division error and produces no table.
   */
  function Analyze(s: string): (r: Result<Metrics>)
    ensures r.Err? <==> |s| == 0
    ensures r.Err? ==> r.error == DivisionByZero
    ensures r.Ok? ==> r.value.length == |s|
    ensures r.Ok? ==> GcContent(s) == Ok(r.value.gcContent)
    ensures r.Ok? ==> r.value.distribution == Distribution(s)
    ensures r.Ok? ==> var d := r.value.distribution;
      d["A"] + d["T"] + d["G"] + d["C"] + d["Other"] == r.value.length
  {
    var seqLength := |s|;
    match GcContent(s)
    case Err(e) => Err(e)
    case Ok(gc) => Ok(Metrics(seqLength, gc, Distribution(s)))
  }

  /** The metrics depend only on how many of each character the sequence holds, not on their order. */
  lemma CompositionDetermines(s: string, t: string)
    requires multiset(s) == multiset(t)
    ensures Analyze(s) == Analyze(t)
  {
    assert |s| == |multiset(s)| == |multiset(t)| == |t|;
    CountIsMultiplicity(s, 'G');
    CountIsMultiplicity(t, 'G');
    CountIsMultiplicity(s, 'C');
    CountIsMultiplicity(t, 'C');
    OtherIsComposition(s, t);
    DistributionEntries(s);
    DistributionEntries(t);
  }

  lemma OtherIsComposition(s: string, t: string)
    requires multiset(s) == multiset(t)
    ensures CountOther(s) == CountOther(t)
  {
    Partition(s);
    Partition(t);
    CountIsMultiplicity(s, 'A');
    CountIsMultiplicity(t, 'A');
    CountIsMultiplicity(s, 'T');
    CountIsMultiplicity(t, 'T');
    CountIsMultiplicity(s, 'G');
    CountIsMultiplicity(t, 'G');
    CountIsMultiplicity(s, 'C');
    CountIsMultiplicity(t, 'C');
    assert |s| == |multiset(s)| == |multiset(t)| == |t|;
  }

  /** A record holding `ATGC`: four bases, half of them G or C, one of each in the table. */
  lemma ExampleBalanced()
    ensures Analyze("ATGC")
         == Ok(Metrics(4, 50.0, map["A" := 1, "T" := 1, "G" := 1, "C" := 1, "Other" := 0]))
  {
  }

  /** Soft-masked (lower-case) bases are not recognised: `gattaca` has GC content 0 and all seven go to "Other". */
  lemma ExampleLowerCase()
    ensures Analyze("gattaca")
         == Ok(Metrics(7, 0.0, map["A" := 0, "T" := 0, "G" := 0, "C" := 0, "Other" := 7]))
  {
  }
}
