/** kfeat: the k-mer histogram of one sequence. A window of length k slides
    over the sequence, each window's k-mer index is counted once, and the
    counts are optionally divided by the number of windows. */
module KFeat {
  import opened Outcomes
  import opened Nucleotides
  import opened KmerEncoder

  /** The number of windows the loop visits: len(seq) - k + 1 when that is
      positive, and none otherwise (range() of a non-positive number is empty).
      There is a window exactly when seq is at least k long, and the last one
      starts at len(seq) - k. */
  function Windows(s: string, k: nat): (n: nat)
    ensures n == 0 <==> |s| < k
    ensures n > 0 ==> (n - 1) + k == |s|
  {
    if |s| >= k then |s| - k + 1 else 0
  }

  /** seq[i:i+k], the window starting at i. */
  function Window(s: string, i: nat, k: nat): string
    requires i + k <= |s|
  {
    s[i..i + k]
  }

  /** The windows the loop visits are exactly those that fit: each lies
      inside seq and has length k, none is cut short at the end, and the
      last one ends at the end of seq. */
  lemma {:induction false} WindowsInBounds(s: string, k: nat)
    ensures Windows(s, k) == 0 <==> |s| < k
    ensures Windows(s, k) > 0 ==> Windows(s, k) - 1 + k == |s|
    ensures forall i :: 0 <= i < Windows(s, k) ==> i + k <= |s| && |Window(s, i, k)| == k
  {
  }

  lemma {:induction false} WindowAt(s: string, i: nat, k: nat, p: nat)
    requires i + k <= |s| && p < k
    ensures Window(s, i, k)[p] == s[i + p]
  {
  }

  /** The first m windows all lie inside s and hold only A, C, G, T. */
  predicate WindowsValid(s: string, k: nat, m: nat) {
    (m == 0 || m - 1 + k <= |s|) &&
    forall w :: 0 <= w < m ==> IsNucSeq(Window(s, w, k))
  }

  lemma {:induction false} ValidPrefix(s: string, k: nat, m: nat, m': nat)
    requires WindowsValid(s, k, m) && m' <= m
    ensures WindowsValid(s, k, m')
  {
    forall w | 0 <= w < m' ensures IsNucSeq(Window(s, w, k)) {
      assert w < m;
    }
  }

  lemma {:induction false} ValidExtend(s: string, k: nat, m: nat)
    requires WindowsValid(s, k, m) && m + k <= |s| && IsNucSeq(Window(s, m, k))
    ensures WindowsValid(s, k, m + 1)
  {
  }

  /** One more valid window adds one to the count of its k-mer's index. */
  lemma {:induction false} HistogramStep(s: string, k: nat, m: nat)
    requires WindowsValid(s, k, m) && m + k <= |s| && IsNucSeq(Window(s, m, k))
    ensures WindowsValid(s, k, m + 1)
    ensures var j := Index(Window(s, m, k));
            Histogram(s, k, m + 1) == Histogram(s, k, m)[j := Histogram(s, k, m)[j] + 1]
  {
    ValidExtend(s, k, m);
    ValidPrefix(s, k, m + 1, m);
  }

  /** Inside a valid window, every character is a nucleotide. */
  lemma {:induction false} ValidAt(s: string, k: nat, m: nat, w: nat, p: nat)
    requires WindowsValid(s, k, m) && w < m && p < k
    ensures w + p < |s| && IsNuc(s[w + p])
  {
    var win := Window(s, w, k);
    assert IsNucSeq(win);
    assert win[p] == s[w + p];
  }

  function Zeros(n: nat): (z: seq<nat>)
    ensures |z| == n && forall j :: 0 <= j < n ==> z[j] == 0
  {
    seq(n, _ => 0)
  }

  /** The counts after the first m windows: np.zeros(4 ** k) with one
      increment per window. Every increment is in bounds, because every
      window's index is below 4^k. */
  function Histogram(s: string, k: nat, m: nat): (h: seq<nat>)
    requires WindowsValid(s, k, m)
    ensures |h| == Pow4(k)
    decreases m
  {
    if m == 0 then Zeros(Pow4(k))
    else
      ValidPrefix(s, k, m, m - 1);
      var h := Histogram(s, k, m - 1);
      var j := Index(Window(s, m - 1, k));
      h[j := h[j] + 1]
  }

  /** The window starts among the first m whose k-mer has index j. */
  function WindowStarts(s: string, k: nat, m: nat, j: nat): set<nat>
    requires WindowsValid(s, k, m)
  {
    set w: nat | w < m && Index(Window(s, w, k)) == j
  }

  function Sum(c: seq<nat>): nat
    decreases |c|
  {
    if c == [] then 0 else c[0] + Sum(c[1..])
  }

  function SumReal(f: seq<real>): real
    decreases |f|
  {
    if f == [] then 0.0 else f[0] + SumReal(f[1..])
  }

  lemma {:induction false} SumZeros(n: nat)
    ensures Sum(Zeros(n)) == 0
    decreases n
  {
    if n > 0 {
      assert Zeros(n)[1..] == Zeros(n - 1);
      SumZeros(n - 1);
    }
  }

  lemma {:induction false} SumIncrement(h: seq<nat>, j: nat)
    requires j < |h|
    ensures Sum(h[j := h[j] + 1]) == Sum(h) + 1
    decreases |h|
  {
    if j > 0 {
      assert h[j := h[j] + 1][1..] == h[1..][j - 1 := h[1..][j - 1] + 1];
      SumIncrement(h[1..], j - 1);
    }
  }

  /** Entry j counts exactly the windows whose k-mer has index j. */
  lemma {:induction false} HistogramCounts(s: string, k: nat, m: nat, j: nat)
    requires WindowsValid(s, k, m) && j < Pow4(k)
    ensures Histogram(s, k, m)[j] == |WindowStarts(s, k, m, j)|
    decreases m
  {
    if m == 0 {
      assert WindowStarts(s, k, m, j) == {};
    } else {
      ValidPrefix(s, k, m, m - 1);
      HistogramCounts(s, k, m - 1, j);
      WindowStartsStep(s, k, m, j);
    }
  }

  lemma {:induction false} WindowStartsStep(s: string, k: nat, m: nat, j: nat)
    requires m > 0 && WindowsValid(s, k, m)
    ensures WindowsValid(s, k, m - 1)
    ensures var before := WindowStarts(s, k, m - 1, j);
            m - 1 !in before &&
            WindowStarts(s, k, m, j) ==
              if Index(Window(s, m - 1, k)) == j then before + {m - 1} else before
  {
    ValidPrefix(s, k, m, m - 1);
  }

  /** The counts add up to the number of windows. */
  lemma {:induction false} HistogramSum(s: string, k: nat, m: nat)
    requires WindowsValid(s, k, m)
    ensures Sum(Histogram(s, k, m)) == m
    decreases m
  {
    if m == 0 {
      SumZeros(Pow4(k));
    } else {
      ValidPrefix(s, k, m, m - 1);
      HistogramSum(s, k, m - 1);
      HistogramSumStep(s, k, m);
    }
  }

  lemma {:induction false} HistogramSumStep(s: string, k: nat, m: nat)
    requires m > 0 && WindowsValid(s, k, m) && WindowsValid(s, k, m - 1)
    requires Sum(Histogram(s, k, m - 1)) == m - 1
    ensures Sum(Histogram(s, k, m)) == m
  {
    assert IsNucSeq(Window(s, m - 1, k));
    HistogramStep(s, k, m - 1);
    SumIncrement(Histogram(s, k, m - 1), Index(Window(s, m - 1, k)));
  }

  /** The vector kfeat returns. Counts hold the raw histogram (normalize
      false); Frequencies the histogram divided by a positive window count.
      When normalize is true and there is no window, the source divides by
      zero or a negative number: numpy then gives NaN (0/0) or -0.0 in every
      entry, which Degenerate records without modelling the float values. */
  datatype FeatureVector =
    | Counts(counts: seq<nat>)
    | Frequencies(freqs: seq<real>)
    | Degenerate(size: nat, divisor: int)
  {
    function Size(): nat {
      match this
      case Counts(c) => |c|
      case Frequencies(f) => |f|
      case Degenerate(size, _) => size
    }
  }

  /** ret /= number_of_kmers, entry by entry. */
  function Divide(c: seq<nat>, d: real): (r: seq<real>)
    requires d > 0.0
    ensures |r| == |c| && forall j :: 0 <= j < |c| ==> r[j] == c[j] as real / d
    decreases |c|
  {
    if c == [] then [] else [c[0] as real / d] + Divide(c[1..], d)
  }

  lemma {:induction false} SumDivide(c: seq<nat>, d: real)
    requires d > 0.0
    ensures SumReal(Divide(c, d)) == Sum(c) as real / d
    decreases |c|
  {
    if c != [] {
      var t := Divide(c, d);
      assert t[1..] == Divide(c[1..], d);
      SumDivide(c[1..], d);
      AddQuotients(c[0] as real, Sum(c[1..]) as real, d);
    }
  }

  lemma {:induction false} AddQuotients(x: real, y: real, d: real)
    requires d > 0.0
    ensures x / d + y / d == (x + y) / d
  {
  }

  lemma {:induction false} DivideSelf(d: real)
    requires d > 0.0
    ensures d / d == 1.0
  {
  }

  /** The last step of kfeat: return the counts, or divide them by n. */
  function Finish(counts: seq<nat>, n: int, normalize: bool): FeatureVector {
    if !normalize then Counts(counts)
    else if n > 0 then Frequencies(Divide(counts, n as real))
    else Degenerate(|counts|, n)
  }

  /** If some window exists, every character lies in one of them. */
  lemma {:induction false} AllWindowsCoverSeq(s: string, k: nat)
    requires k > 0 && Windows(s, k) > 0 && WindowsValid(s, k, Windows(s, k))
    ensures IsNucSeq(s)
  {
    var n := Windows(s, k);
    forall x | 0 <= x < |s| ensures IsNuc(s[x]) {
      var w := if x < n then x else n - 1;
      ValidAt(s, k, n, w, x - w);
    }
  }

  lemma {:induction false} ValidWindowsOf(s: string, k: nat)
    requires Windows(s, k) == 0 || k == 0 || IsNucSeq(s)
    ensures WindowsValid(s, k, Windows(s, k))
  {
    forall w | 0 <= w < Windows(s, k) ensures IsNucSeq(Window(s, w, k)) {
      var win := Window(s, w, k);
      forall p | 0 <= p < k ensures IsNuc(win[p]) {
        assert win[p] == s[w + p];
      }
    }
  }

  /** When the windows before i are valid and window i is not, the character
      at which kmer_index fails inside window i is the first bad character
      of the whole sequence. */
  lemma {:induction false} FirstBadInWindow(s: string, k: nat, i: nat)
    requires WindowsValid(s, k, i) && i + k <= |s| && !IsNucSeq(Window(s, i, k))
    ensures k > 0 && !IsNucSeq(s)
    ensures FirstBad(s) == i + FirstBad(Window(s, i, k))
  {
    var q := FirstBad(Window(s, i, k));
    WindowAt(s, i, k, q);
    GoodPrefix(s, k, i, q);
    FirstBadAt(s, i + q);
  }

  /** The characters before window i, and the first q of window i when
      those are nucleotides, are all nucleotides. */
  lemma {:induction false} GoodPrefix(s: string, k: nat, i: nat, q: nat)
    requires WindowsValid(s, k, i) && i + k <= |s| && q < k
    requires IsNucSeq(Window(s, i, k)[..q])
    ensures IsNucSeq(s[..i + q])
  {
    var p := i + q;
    var win := Window(s, i, k);
    forall x | 0 <= x < p ensures IsNuc(s[..p][x]) {
      assert s[..p][x] == s[x];
      if x < i {
        ValidAt(s, k, i, x, 0);
      } else {
        assert win[..q][x - i] == s[x];
      }
    }
  }

  /** What kfeat(seq, k, normalize) returns or raises. A KeyError needs a
      window (so len(seq) >= k) of positive length holding a character
      outside A, C, G, T; with k = 0 every window is empty and indexes 0. */
  function Featurize(s: string, k: nat, normalize: bool): Result<FeatureVector> {
    var n := |s| - k + 1;
    if n > 0 && k > 0 && !IsNucSeq(s) then Err(InvalidNucleotide(s[FirstBad(s)]))
    else
      ValidWindowsOf(s, k);
      Ok(Finish(Histogram(s, k, Windows(s, k)), n, normalize))
  }

  /** kfeat(seq, k, normalize): ret is a fresh zero array of length 4^k
      that the loop increments in place. */
  method KFeat(s: string, k: nat, normalize: bool) returns (r: Result<FeatureVector>)
    ensures r == Featurize(s, k, normalize)
  {
    var ret := new nat[Pow4(k)](_ => 0);
    var n := |s| - k + 1;
    var windows := Windows(s, k);  // the number of passes of range(n)
    var i := 0;
    while i < windows
      invariant i <= windows
      invariant WindowsValid(s, k, i)
      invariant ret.Length == Pow4(k)
      invariant ret[..] == Histogram(s, k, i)
    {
      var window := Window(s, i, k);
      assert |window| == k;
      var index := KmerIndex(window);
      if index.Err? {
        FeaturizeBadWindow(s, k, i, normalize);
        return Err(index.error);
      }
      HistogramStep(s, k, i);
      ret[index.value] := ret[index.value] + 1;
      i := i + 1;
    }
    FeaturizeAllValid(s, k, normalize);
    r := Ok(Finish(ret[..], n, normalize));
  }

  /** The first window holding another character decides kfeat's error. */
  lemma {:induction false} FeaturizeBadWindow(s: string, k: nat, i: nat, normalize: bool)
    requires WindowsValid(s, k, i) && i + k <= |s| && !IsNucSeq(Window(s, i, k))
    ensures Featurize(s, k, normalize) ==
              Err(InvalidNucleotide(Window(s, i, k)[FirstBad(Window(s, i, k))]))
  {
    FirstBadInWindow(s, k, i);
    WindowAt(s, i, k, FirstBad(Window(s, i, k)));
  }

  /** Once every window is known to be valid, kfeat finishes the full
      histogram. */
  lemma {:induction false} FeaturizeAllValid(s: string, k: nat, normalize: bool)
    requires WindowsValid(s, k, Windows(s, k))
    ensures Featurize(s, k, normalize) == Ok(Finish(Histogram(s, k, Windows(s, k)), |s| - k + 1, normalize))
  {
    if |s| - k + 1 > 0 && k > 0 {
      AllWindowsCoverSeq(s, k);
    }
  }

  /** A successful result is the histogram over all windows, finished. */
  lemma {:induction false} FeaturizeOk(s: string, k: nat, normalize: bool)
    requires Featurize(s, k, normalize).Ok?
    ensures WindowsValid(s, k, Windows(s, k))
    ensures Featurize(s, k, normalize).value ==
              Finish(Histogram(s, k, Windows(s, k)), |s| - k + 1, normalize)
  {
    ValidWindowsOf(s, k);
  }

  /** kfeat raises exactly when some window holds a character outside
      A, C, G, T, and names the first such character of the sequence. */
  lemma {:induction false} FeaturizeFails(s: string, k: nat, normalize: bool)
    ensures Featurize(s, k, normalize).Err? <==> (k > 0 && |s| >= k && !IsNucSeq(s))
    ensures Featurize(s, k, normalize).Err? ==>
              !IsNucSeq(s) && Featurize(s, k, normalize).error == InvalidNucleotide(s[FirstBad(s)])
  {
  }

  /** Unnormalised, the result has 4^k entries, entry j counts the windows
      whose k-mer has index j, and the entries sum to max(0, len(seq) - k + 1). */
  lemma {:induction false} FeaturizeCounts(s: string, k: nat)
    requires Featurize(s, k, false).Ok?
    ensures WindowsValid(s, k, Windows(s, k))
    ensures Featurize(s, k, false).value.Counts?
    ensures var c := Featurize(s, k, false).value.counts;
            |c| == Pow4(k) && Sum(c) == Windows(s, k) &&
            forall j :: 0 <= j < Pow4(k) ==> c[j] == |WindowStarts(s, k, Windows(s, k), j)|
  {
    FeaturizeOk(s, k, false);
    HistogramSum(s, k, Windows(s, k));
    forall j | 0 <= j < Pow4(k)
      ensures Histogram(s, k, Windows(s, k))[j] == |WindowStarts(s, k, Windows(s, k), j)|
    {
      HistogramCounts(s, k, Windows(s, k), j);
    }
  }

  /** A sequence shorter than k has no window: all counts are zero, and the
      normalised result is the degenerate division by len(seq) - k + 1. */
  lemma {:induction false} FeaturizeShort(s: string, k: nat, normalize: bool)
    requires |s| < k
    ensures Featurize(s, k, normalize) ==
              if normalize then Ok(Degenerate(Pow4(k), |s| - k + 1))
              else Ok(Counts(Zeros(Pow4(k))))
  {
  }

  /** Normalised, with at least one window, entry j is count j over the
      number of windows, and the entries sum to 1. */
  lemma {:induction false} FeaturizeNormalized(s: string, k: nat)
    requires |s| >= k && Featurize(s, k, true).Ok?
    ensures Featurize(s, k, false).Ok? && Featurize(s, k, true).value.Frequencies?
    ensures var f := Featurize(s, k, true).value.freqs;
            var c := Featurize(s, k, false).value.counts;
            |f| == |c| == Pow4(k) && SumReal(f) == 1.0 &&
            forall j :: 0 <= j < |f| ==> f[j] == c[j] as real / Windows(s, k) as real
  {
    FeaturizeOk(s, k, true);
    FeaturizeOk(s, k, false);
    FeaturizeCounts(s, k);
    var n := Windows(s, k);
    var c := Histogram(s, k, n);
    var f := Divide(c, n as real);
    assert Featurize(s, k, true).value.freqs == f;
    assert Featurize(s, k, false).value.counts == c;
    SumDivide(c, n as real);
    var d := n as real;
    assert SumReal(f) == d / d;
    DivideSelf(d);
  }

  /** Every result, raw, normalised or degenerate, has 4^k entries. */
  lemma {:induction false} FeaturizeSize(s: string, k: nat, normalize: bool)
    requires Featurize(s, k, normalize).Ok?
    ensures Featurize(s, k, normalize).value.Size() == Pow4(k)
  {
  }
}
