/** kmer_index: a k-mer over A, G, C, T read as a base-4 number whose FIRST
    character is the LEAST significant digit (not lexicographic order). */
module KmerEncoder {
  import opened Outcomes
  import opened Nucleotides

  function Pow4(n: nat): (r: nat)
    ensures r >= 1
  {
    if n == 0 then 1 else 4 * Pow4(n - 1)
  }

  /** The index the loop in kmer_index accumulates: the character at
      position pos contributes code << 2*pos, that is code * 4^pos. The
      definition peels the LAST character, as the loop adds it last. Every
      k-mer lands in [0, 4^k). */
  function Index(s: string): (r: nat)
    requires IsNucSeq(s)
    ensures r < Pow4(|s|)
    decreases |s|
  {
    if s == [] then 0
    else
      var n := |s| - 1;
      assert IsNucSeq(s[..n]) by {
        forall i | 0 <= i < n ensures IsNuc(s[..n][i]) { assert s[..n][i] == s[i]; }
      }
      var d := Code(s[n]);
      assert d * Pow4(n) <= 3 * Pow4(n);
      Index(s[..n]) + d * Pow4(n)
  }

  /** Appending a character adds its code times 4^|s|; the empty k-mer is 0.
      This is the defining equation of Index, stated for a caller; the
      digit order itself is the content of PrependDigit. */
  lemma {:induction false} AppendDigit(s: string, c: char)
    requires IsNucSeq(s) && IsNuc(c)
    ensures IsNucSeq(s + [c]) && Index(s + [c]) == Index(s) + Code(c) * Pow4(|s|)
    ensures Index([]) == 0
  {
    assert (s + [c])[..|s|] == s;
  }

  /** Equivalently, the first character is the least significant digit. */
  lemma {:induction false} PrependDigit(c: char, s: string)
    requires IsNuc(c) && IsNucSeq(s)
    ensures IsNucSeq([c] + s) && Index([c] + s) == Code(c) + 4 * Index(s)
    decreases |s|
  {
    var t := [c] + s;
    assert forall i :: 0 < i < |t| ==> t[i] == s[i - 1];
    if s != [] {
      var n := |s| - 1;
      assert IsNucSeq(s[..n]) by {
        forall i | 0 <= i < n ensures IsNuc(s[..n][i]) { assert s[..n][i] == s[i]; }
      }
      PrependDigit(c, s[..n]);
      assert t[..|t| - 1] == [c] + s[..n];
      assert t[|t| - 1] == s[n];
      calc {
        Index(t);
        Index([c] + s[..n]) + Code(s[n]) * Pow4(n + 1);
        Code(c) + 4 * Index(s[..n]) + Code(s[n]) * (4 * Pow4(n));
        Code(c) + 4 * (Index(s[..n]) + Code(s[n]) * Pow4(n));
        Code(c) + 4 * Index(s);
      }
    } else {
      assert t[..0] == [];
    }
  }

  /** Two k-mers of the same length with the same index are equal. */
  lemma {:induction false} IndexInjective(s: string, t: string)
    requires IsNucSeq(s) && IsNucSeq(t) && |s| == |t|
    requires Index(s) == Index(t)
    ensures s == t
    decreases |s|
  {
    if s != [] {
      var s', t' := s[1..], t[1..];
      NucSeqTail(s);
      NucSeqTail(t);
      assert s == [s[0]] + s';
      assert t == [t[0]] + t';
      PrependDigit(s[0], s');
      PrependDigit(t[0], t');
      LowDigit(Code(s[0]), Index(s'), Code(t[0]), Index(t'));
      assert s[0] == Letter(Code(s[0])) == t[0];
      IndexInjective(s', t');
    }
  }

  lemma {:induction false} NucSeqTail(s: string)
    requires s != [] && IsNucSeq(s)
    ensures IsNucSeq(s[1..])
  {
    forall i | 0 <= i < |s| - 1 ensures IsNuc(s[1..][i]) { assert s[1..][i] == s[i + 1]; }
  }

  /** A base-4 number splits uniquely into its lowest digit and the rest. */
  lemma {:induction false} LowDigit(d: nat, rest: nat, d': nat, rest': nat)
    requires d < 4 && d' < 4 && d + 4 * rest == d' + 4 * rest'
    ensures d == d' && rest == rest'
  {
  }

  /** The k-mer with a given index: the decoding direction of the bijection. */
  function Unindex(x: nat, k: nat): (s: string)
    requires x < Pow4(k)
    ensures |s| == k && IsNucSeq(s)
    decreases k
  {
    if k == 0 then []
    else
      var s := [Letter(x % 4)] + Unindex(x / 4, k - 1);
      assert forall i :: 0 < i < |s| ==> s[i] == Unindex(x / 4, k - 1)[i - 1];
      s
  }

  /** Every index in [0, 4^k) is reached: Index(Unindex(x, k)) == x. */
  lemma {:induction false} IndexOfUnindex(x: nat, k: nat)
    requires x < Pow4(k)
    ensures Index(Unindex(x, k)) == x
    decreases k
  {
    if k > 0 {
      var rest := Unindex(x / 4, k - 1);
      IndexOfUnindex(x / 4, k - 1);
      PrependDigit(Letter(x % 4), rest);
      CodeOfLetter(x % 4);
    }
  }

  /** And decoding an index gives back the k-mer, so Index is a bijection
      between the k-mers over A, G, C, T and [0, 4^k). */
  lemma {:induction false} UnindexOfIndex(s: string)
    requires IsNucSeq(s)
    ensures Unindex(Index(s), |s|) == s
  {
    IndexOfUnindex(Index(s), |s|);
    IndexInjective(Unindex(Index(s), |s|), s);
  }

  /** kmer_index(kmer). A character with no NUCS entry raises KeyError
      naming it, at the first such position. */
  method KmerIndex(kmer: string) returns (r: Result<nat>)
    ensures r.Ok? <==> IsNucSeq(kmer)
    ensures r.Ok? ==> r.value == Index(kmer) && r.value < Pow4(|kmer|)
    ensures r.Err? ==> r.error == InvalidNucleotide(kmer[FirstBad(kmer)])
  {
    var index := 0;
    var pos := 0;
    while pos < |kmer|
      invariant pos <= |kmer|
      invariant IsNucSeq(kmer[..pos])
      invariant index == Index(kmer[..pos])
    {
      var nuc := kmer[pos];
      if !IsNuc(nuc) {
        FirstBadAt(kmer, pos);
        return Err(InvalidNucleotide(nuc));
      }
      AppendDigit(kmer[..pos], nuc);
      assert kmer[..pos + 1] == kmer[..pos] + [nuc];
      index := index + Code(nuc) * Pow4(pos);
      pos := pos + 1;
    }
    assert kmer[..pos] == kmer;
    return Ok(index);
  }

  /** The digit order on small cases: AA=0, TT=15, GA=1, AG=4. */
  lemma {:induction false} IndexExamples()
    ensures Index("AA") == 0 && Index("TT") == 15
    ensures Index("GA") == 1 && Index("AG") == 4
  {
    assert "AA"[..1] == "A" && "TT"[..1] == "T" && "GA"[..1] == "G" && "AG"[..1] == "A";
  }
}
