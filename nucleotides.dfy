/** The nucleotide alphabet (the NUCS table) and the NUCFILT filter that
    deletes every other character from a fetched sequence. */
module Nucleotides {

  /** A key of NUCS: one of the upper-case letters A, G, C, T. */
  predicate IsNuc(c: char) {
    c == 'A' || c == 'G' || c == 'C' || c == 'T'
  }

  predicate IsNucSeq(s: string) {
    forall i :: 0 <= i < |s| ==> IsNuc(s[i])
  }

  /** The NUCS table: A=0, G=1, C=2, T=3. Letter is its inverse, so the
      table is a bijection between the four letters and the digits 0..3. */
  function Code(c: char): (d: nat)
    requires IsNuc(c)
    ensures d < 4 && Letter(d) == c
  {
    match c
    case 'A' => 0
    case 'G' => 1
    case 'C' => 2
    case 'T' => 3
  }

  function Letter(d: nat): (c: char)
    requires d < 4
    ensures IsNuc(c)
  {
    if d == 0 then 'A' else if d == 1 then 'G' else if d == 2 then 'C' else 'T'
  }

  lemma {:induction false} CodeOfLetter(d: nat)
    requires d < 4
    ensures Code(Letter(d)) == d
  {
  }

  /** The position of the first character that NUCS has no entry for. */
  function FirstBad(s: string): (p: nat)
    requires !IsNucSeq(s)
    ensures p < |s| && !IsNuc(s[p]) && IsNucSeq(s[..p])
    decreases |s|
  {
    if !IsNuc(s[0]) then 0
    else
      assert !IsNucSeq(s[1..]) by {
        var i :| 0 <= i < |s| && !IsNuc(s[i]);
        assert s[1..][i - 1] == s[i];
      }
      var p := 1 + FirstBad(s[1..]);
      assert forall i :: 0 < i < p ==> s[..p][i] == s[1..][..p - 1][i - 1];
      p
  }

  /** A position whose prefix is all nucleotides and which holds another
      character is the first bad position. */
  lemma {:induction false} FirstBadAt(s: string, p: nat)
    requires p < |s| && IsNucSeq(s[..p]) && !IsNuc(s[p])
    ensures !IsNucSeq(s) && FirstBad(s) == p
  {
    var q := FirstBad(s);
    assert forall i :: 0 <= i < p ==> s[..p][i] == s[i];
    assert forall i :: 0 <= i < q ==> s[..q][i] == s[i];
  }

  /** NUCFILT.sub("", s): delete every character that is not A, T, C or G.
      The match is case-sensitive, so lower-case bases are deleted too, and
      the kept characters close up (nothing is put in place of a gap). */
  function Filter(s: string): (r: string)
    ensures IsNucSeq(r) && |r| <= |s|
    decreases |s|
  {
    if s == [] then []
    else (if IsNuc(s[0]) then [s[0]] else []) + Filter(s[1..])
  }

  /** The filter works character by character, so it distributes over
      concatenation. */
  lemma {:induction false} FilterAppend(a: string, b: string)
    ensures Filter(a + b) == Filter(a) + Filter(b)
    decreases |a|
  {
    if a == [] {
      assert a + b == b;
    } else {
      var head := if IsNuc(a[0]) then [a[0]] else [];
      assert (a + b)[0] == a[0];
      assert (a + b)[1..] == a[1..] + b;
      assert Filter(a + b) == head + Filter(a[1..] + b);
      FilterAppend(a[1..], b);
      assert head + (Filter(a[1..]) + Filter(b)) == (head + Filter(a[1..])) + Filter(b);
    }
  }

  /** Each nucleotide keeps its number of occurrences and every other
      character is gone. */
  lemma {:induction false} FilterCounts(s: string, c: char)
    ensures multiset(Filter(s))[c] == if IsNuc(c) then multiset(s)[c] else 0
    decreases |s|
  {
    if s != [] {
      FilterCounts(s[1..], c);
      assert s == [s[0]] + s[1..];
    }
  }

  /** A sequence that is already all A/C/G/T passes unchanged. */
  lemma {:induction false} FilterKeepsNucSeq(s: string)
    requires IsNucSeq(s)
    ensures Filter(s) == s
    decreases |s|
  {
    if s != [] {
      assert IsNucSeq(s[1..]) by {
        forall i | 0 <= i < |s[1..]| ensures IsNuc(s[1..][i]) { assert s[1..][i] == s[i + 1]; }
      }
      FilterKeepsNucSeq(s[1..]);
    }
  }

  /** Filtering twice is filtering once. */
  lemma {:induction false} FilterIdempotent(s: string)
    ensures Filter(Filter(s)) == Filter(s)
  {
    FilterKeepsNucSeq(Filter(s));
  }

  /** The filter's output is exactly the input when, and only when, the
      input holds no other character. */
  lemma {:induction false} FilterIsIdentityIff(s: string)
    ensures Filter(s) == s <==> IsNucSeq(s)
  {
    if IsNucSeq(s) { FilterKeepsNucSeq(s); }
  }

  /** Filtering compacts rather than masks: "ACNGT" becomes "ACGT", and
      lower-case bases are deleted. */
  lemma {:induction false} FilterExamples()
    ensures Filter("ACNGT") == "ACGT"
    ensures Filter("acgT") == "T"
  {
    assert Filter("ACNGT") == "ACGT" by {
      FilterAppend("AC", "NGT");
      FilterAppend("N", "GT");
    }
    assert Filter("acgT") == "T" by {
      FilterAppend("acg", "T");
      FilterAppend("a", "cg");
      FilterAppend("c", "g");
    }
  }
}
