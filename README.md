# k-mer featurisation of genomic regions, in Dafny

This project models the core of laytr's `kfeat` command (`laytr/kfeat.py`). The command turns a list of genomic regions into a matrix with one row per region. Row `i` is the k-mer histogram of region `i`'s reference sequence.

- **Encoder** (`kmer_index`): a k-mer over `A, G, C, T` is read as a base-4 number. The codes are A=0, G=1, C=2, T=3. The FIRST character is the LEAST significant digit.
- **Featuriser** (`kfeat`): a window of length `k` slides over the sequence. Each window increments one entry of a zero vector of length `4^k`. The counts can then be divided by the number of windows.
- **Filter** (`NUCFILT`): before counting, every character other than upper-case `A, T, C, G` is deleted. The remaining characters close up.
- **Glue**:
  - `get_features` fetches, filters and featurises one region.
  - `regions_to_kmers` maps that over the regions with a process pool and stacks the rows.
  - `iter_regions` parses one tab-separated line into a region.

Files and modules:

| file | module | models |
|---|---|---|
| `outcomes.dfy` | `Outcomes` | the exceptions as `Error` values; the fail-fast ordered map |
| `nucleotides.dfy` | `Nucleotides` | `NUCS`, `NUCFILT` |
| `kmer_index.dfy` | `KmerEncoder` | `kmer_index` |
| `kfeat.dfy` | `KFeat` | `kfeat` |
| `region_file.dfy` | `RegionFile` | the line parse inside `iter_regions` |
| `pipeline.dfy` | `Pipeline` | `get_features`, `pool.map`, `regions_to_kmers` |

How each part is modelled:

- **Imperative parts become methods with loops.**
  - `kmer_index` is a method with a loop that accumulates the index.
  - `kfeat` is a method. It allocates an array of `4^k` zeros and increments it in place inside a loop.
  - Each method is proved equal to a specification function: `Index` for the first, `Featurize` for the second.
- **Pure parts become functions.** This covers the filter, the composition, the line parse and the ordered map.
- **Exceptions become values.** Each exception the Python code raises is an `Err` value of a `Result`:
  - `KeyError` from a bad nucleotide;
  - a failed fetch;
  - `ValueError` from a short line, a bad integer or `Pool(0)`.

Behaviour of the code that a reader might not expect, which the model keeps as written:

- **Normalising with no window.** If the filtered sequence is shorter than `k` and `normalize` is true, the code divides by zero or by a negative number. numpy then yields NaN or -0.0 entries, not an all-zero vector. The model returns `Degenerate(4^k, divisor)` and claims no value for those entries.
- **Case sensitivity.** The filter is case-sensitive, so lower-case bases are deleted. Filtering closes the gaps, so a window can span a deleted `N`.
- **k = 0.** The code accepts `k = 0`. Every window is then empty and has index 0, and no `KeyError` can arise.
- **No regions.** An empty region list gives a 1 x 0 matrix, not a 0 x 4^k one. The cause is `np.vstack([result])`.
- **Which error is reported.** An invalid character is a `KeyError` naming the first bad character of the sequence. It is raised only when at least one window of positive length exists.

## Model

| member | source | states |
|---|---|---|
| `Outcomes.MapAll` | laytr/kfeat.py:78 | the fail-fast ordered map: f applied to each element in order, stopping at the first failure; a success has one value per element |
| `Outcomes.MapAllSpec` | laytr/kfeat.py:78 | an ordered map over a raising function succeeds iff every element succeeds; then its values are the per-element values, position by position; otherwise its error is that of the first failing element |
| `Nucleotides.Code` | laytr/kfeat.py:15 | the NUCS table sends each of A, G, C, T to a digit below 4, and the letter is recovered from the digit (the table is injective) |
| `Nucleotides.FirstBad` | laytr/kfeat.py:23-24 | the position of the first character NUCS has no key for: every earlier character is a nucleotide and this one is not |
| `Nucleotides.Filter` | laytr/kfeat.py:16 | NUCFILT.sub leaves only A, C, G, T and never lengthens the sequence |
| `Nucleotides.FilterAppend` | laytr/kfeat.py:16 | the filter acts character by character: filtering a concatenation is concatenating the filtered parts, so order is kept |
| `Nucleotides.FilterCounts` | laytr/kfeat.py:16 | each of A, C, G, T occurs as often after filtering as before; every other character (lower case included) occurs zero times |
| `Nucleotides.FilterKeepsNucSeq` | laytr/kfeat.py:16 | a sequence of A, C, G, T only passes the filter unchanged |
| `Nucleotides.FilterIsIdentityIff` | laytr/kfeat.py:16 | the filter leaves a sequence unchanged iff it holds only A, C, G, T |
| `Nucleotides.FilterIdempotent` | laytr/kfeat.py:56 | filtering twice equals filtering once |
| `Nucleotides.FilterExamples` | laytr/kfeat.py:56 | "ACNGT" filters to "ACGT" (compacted, not masked) and "acgT" to "T" (case-sensitive) |
| `KmerEncoder.Index` | laytr/kfeat.py:22-25 | the accumulated index of a k-mer over A, C, G, T lies in [0, 4^k) |
| `KmerEncoder.AppendDigit` | laytr/kfeat.py:22-24 | the character at position len(s) adds code * 4^len(s); the empty k-mer has index 0 (first character least significant) |
| `KmerEncoder.PrependDigit` | laytr/kfeat.py:22-24 | index(c + s) = code(c) + 4 * index(s) |
| `KmerEncoder.IndexInjective` | laytr/kfeat.py:18-25 | two k-mers of equal length with the same index are equal |
| `KmerEncoder.Unindex` | laytr/kfeat.py:18-25 | decoding an index below 4^k gives a k-mer of length k over A, C, G, T |
| `KmerEncoder.IndexOfUnindex` | laytr/kfeat.py:18-25 | every x in [0, 4^k) is the index of the k-mer decoded from it (the encoding is onto) |
| `KmerEncoder.UnindexOfIndex` | laytr/kfeat.py:18-25 | decoding a k-mer's index gives the k-mer back (with IndexOfUnindex: a bijection onto [0, 4^k)) |
| `KmerEncoder.KmerIndex` | laytr/kfeat.py:18-25 | kmer_index returns the index iff every character is A, C, G or T, and that index is below 4^k; otherwise it raises KeyError naming the first bad character |
| `KmerEncoder.IndexExamples` | laytr/kfeat.py:15-25 | AA = 0, TT = 15, GA = 1, AG = 4 |
| `KFeat.Windows` | laytr/kfeat.py:33-34 | the number of passes of range(len(seq) - k + 1): none exactly when seq is shorter than k, and otherwise the last window starts at len(seq) - k |
| `KFeat.WindowsInBounds` | laytr/kfeat.py:33-35 | the loop visits exactly the windows that fit: none when len(seq) < k, otherwise the last one ends at the end of seq, and every visited seq[i:i+k] has length exactly k |
| `KFeat.Histogram` | laytr/kfeat.py:32-35 | the counts after any number of valid windows have length 4^k, so every increment ret[kmer_index(...)] += 1 is in bounds |
| `KFeat.HistogramCounts` | laytr/kfeat.py:33-35 | entry j equals the number of window starts whose k-mer has index j |
| `KFeat.HistogramSum` | laytr/kfeat.py:33-35 | the counts sum to the number of windows visited |
| `KFeat.FirstBadInWindow` | laytr/kfeat.py:33-35 | when the windows before i are valid and window i is not, the character kmer_index fails on is the first bad character of the whole sequence |
| `KFeat.Divide` | laytr/kfeat.py:37-38 | ret /= n divides every entry by n and keeps the length |
| `KFeat.SumDivide` | laytr/kfeat.py:37-38 | the divided entries sum to the sum of the counts over n |
| `KFeat.Finish` | laytr/kfeat.py:37-39 | the last step of kfeat: the counts as they are, or divided by the window count when normalize is set (degenerate when that count is not positive) |
| `KFeat.Featurize` | laytr/kfeat.py:27-39 | what kfeat returns: KeyError naming the first bad character when a window of positive length holds one, otherwise the finished histogram over all windows |
| `KFeat.FeaturizeBadWindow` | laytr/kfeat.py:33-35 | the first window whose lookup fails names the first bad character of the whole sequence, which is kfeat's error |
| `KFeat.FeaturizeAllValid` | laytr/kfeat.py:32-39 | when every window is valid, kfeat returns the finished histogram over all windows |
| `KFeat.KFeat` | laytr/kfeat.py:27-39 | the method (zero array, loop of increments, optional division) returns exactly Featurize(seq, k, normalize), the KeyError case included |
| `KFeat.FeaturizeFails` | laytr/kfeat.py:33-35 | kfeat raises iff k > 0, len(seq) >= k and seq holds a character other than A, C, G, T, naming the first such character |
| `KFeat.FeaturizeCounts` | laytr/kfeat.py:32-35 | unnormalised: 4^k entries, entry j counts the windows with index j, entries sum to max(0, len(seq) - k + 1) |
| `KFeat.FeaturizeShort` | laytr/kfeat.py:32-38 | len(seq) < k: the loop does not run; raw counts are all zero; normalised, the result is the degenerate division by len(seq) - k + 1 |
| `KFeat.FeaturizeNormalized` | laytr/kfeat.py:37-38 | normalised with at least one window: entry j is count j over the window count, and the entries sum to 1 |
| `KFeat.FeaturizeSize` | laytr/kfeat.py:32-39 | every result has 4^k entries |
| `RegionFile.StripLeft` | laytr/kfeat.py:65 | lstrip returns a suffix whose removed prefix is all whitespace and which does not start with whitespace |
| `RegionFile.StripRight` | laytr/kfeat.py:65 | rstrip returns a prefix whose removed suffix is all whitespace and which does not end with whitespace |
| `RegionFile.Trim` | laytr/kfeat.py:65 | stripping both ends leaves a string no longer than the input with no blank at either end |
| `RegionFile.TrimIsMiddle` | laytr/kfeat.py:65 | what stripping keeps is exactly the middle of the input: every character before it and every character after it is blank, and it equals the input at each position from the first non-blank on |
| `RegionFile.Strip` | laytr/kfeat.py:65 | str.strip(): Trim over the str.isspace characters |
| `RegionFile.StripSurrounding` | laytr/kfeat.py:65 | stripping blanks before and after a string with non-blank ends gives that string |
| `RegionFile.StripTrailing` | laytr/kfeat.py:65 | strip() of a string with non-space ends followed by whitespace is that string |
| `RegionFile.Split` | laytr/kfeat.py:65 | split('\t') yields at least one field and no field holds a tab |
| `RegionFile.JoinSplit` | laytr/kfeat.py:65 | joining the fields of split('\t') with tabs gives the string back |
| `RegionFile.SplitJoin` | laytr/kfeat.py:65 | splitting the tab-join of tab-free fields gives the fields back |
| `RegionFile.SignedValue` | laytr/kfeat.py:67-68 | the value of stripped text made of an optional sign and at least one ASCII digit; nothing for any other text |
| `RegionFile.ParseInt` | laytr/kfeat.py:67-68 | int() fails only with ValueError naming the given text (for at most 4300 digits; the model has no digit limit); around the number it skips str.isspace characters except 28 to 31, as CPython does (ParseShow states the skipping on both sides, IntRejectsSeparator the exception) |
| `RegionFile.IntRejectsSeparator` | laytr/kfeat.py:65-67 | for every non-empty run of digits followed by one of the characters 28 to 31 (as in "5\x1c"), str.strip() removes that character but int() raises on the text, so the two whitespace sets differ |
| `RegionFile.ParseShow` | laytr/kfeat.py:67-68 | int() reads back the decimal form of any integer, sign included, preceded and followed by any whitespace int() skips |
| `RegionFile.ParseShowExact` | laytr/kfeat.py:67-68 | int(str(n)) == n for every integer n of at most 4300 digits; the model has no digit limit |
| `RegionFile.ParseLine` | laytr/kfeat.py:65-68 | one line, stripped and split on tabs: it parses iff there are at least three fields and int() accepts the second and third; fewer than three fields gives the unpacking ValueError with the field count; otherwise a bad start gives int()'s ValueError for the start, then a bad end for the end; a parsed region is (first field, int(second), int(third)), and its chromosome name holds no tab |
| `RegionFile.ParseFormatLine` | laytr/kfeat.py:64-69 | a line "chrom TAB start TAB end" plus trailing whitespace parses to that region, for a non-empty chromosome name without tabs and not starting with whitespace |
| `RegionFile.IterRegions` | laytr/kfeat.py:64-69 | iter_regions over the file's lines: ParseLine mapped in line order, stopping at the first bad line |
| `RegionFile.IterRegionsSpec` | laytr/kfeat.py:64-69 | iter_regions yields one region per line, in line order, iff every line parses; otherwise the first bad line's error |
| `Pipeline.GetFeatures` | laytr/kfeat.py:48-57 | get_features: fetch the region (lookup error when that fails), filter, and featurise |
| `Pipeline.GetFeaturesSpec` | laytr/kfeat.py:48-57 | get_features fails iff the fetch fails, and then with the lookup error, never an invalid nucleotide; otherwise it is the histogram of the filtered sequence, with 4^k entries |
| `Pipeline.GetFeaturesCountsSum` | laytr/kfeat.py:54-57 | unnormalised, a region's counts sum to max(0, len(filtered) - k + 1) |
| `Pipeline.FeaturesOf` | laytr/kfeat.py:76 | partial(get_features, ref_fn=reference, k=k) leaves normalize at its default True: each region fails only when its fetch fails, and its vector is never the raw counts and has 4^k entries |
| `Pipeline.ChunkSize` | laytr/kfeat.py:78 | pool.map's default chunk size is ceil(n / (4 * nproc)): zero only for no elements, and the smallest size whose 4 * nproc chunks cover n |
| `Pipeline.Chunks` | laytr/kfeat.py:78 | the tasks are non-empty slices of at most the chunk size that concatenate to the input in order |
| `Pipeline.MapChunks` | laytr/kfeat.py:78 | the task results put back by position equal the sequential map over the concatenated chunks, for any chunking |
| `Pipeline.PoolMap` | laytr/kfeat.py:77-78 | pool.map with nproc workers equals the sequential map (input order kept) |
| `Pipeline.VStack` | laytr/kfeat.py:81 | np.vstack([result]): one row per result, width that of the first row; an empty list gives a 1 x 0 array |
| `Pipeline.RegionsToKmers` | laytr/kfeat.py:71-82 | regions_to_kmers: ValueError for fewer than one worker, otherwise get_features with normalize True mapped by the pool and stacked |
| `Pipeline.RegionsToKmersSpec` | laytr/kfeat.py:71-82 | fails with InvalidWorkerCount(nproc) when nproc < 1; succeeds iff nproc >= 1 and every fetch succeeds; row i is get_features(regions[i]) with normalize True and 4^k entries; shape len(regions) x 4^k (1 x 0 when empty); a failure is the first failing region's lookup error |
| `Pipeline.WorkerCountIrrelevant` | laytr/kfeat.py:72-78 | any two valid worker counts give the same matrix, or the same error given the first-failure choice under "Left out" |

## Left out

- Reference access (`pysam.FastaFile(ref_fn)` and `fetch`, laytr/kfeat.py:55-56) is a foreign library. It is the function parameter `Reference`. All of its failures (unknown contig, bad coordinates, unreadable file) are one `ReferenceLookup` error. Whatever it returns for coordinates past a contig's end is its own business.
- `multiprocessing.Pool`, `close` and `join` (laytr/kfeat.py:77-80) are concurrency. Only what `pool.map` computes is modelled: chunks of ceil(n / (4 * nproc)) regions, reassembled by position. The default worker count for `nproc=None` is not modelled.
- Pipeline.RegionsToKmersSpec: when several regions fail with more than one worker, Python reports the error of the chunk that fails first in time. The model reports the first failing region in input order, which is what one worker does.
- Pipeline.WorkerCountIrrelevant: the equal errors follow from that same first-failure choice. With two failing regions and `nproc = 2`, each region is its own task, and Python may report the second region's error where one worker reports the first's. The matrix on success is independent of the worker count.
- Floating point (laytr/kfeat.py:32, 37-38):
  - Frequencies are exact `real` quotients, not float64 values.
  - Counts are `nat`, which float64 holds exactly up to 2^53 windows.
  - When `normalize` is true and there is no window, the NaN or -0.0 entries are recorded only as `Degenerate`.
- KFeat.Featurize: `np.zeros(4 ** k)` (laytr/kfeat.py:32) raises for large k: ValueError once 4^k is more than numpy can index (k = 32), and MemoryError as soon as 8 * 4^k bytes cannot be allocated. The model has no memory bound, so it accepts every k and returns 4^k entries; the same holds for `KFeat.KFeat` and `KFeat.FeaturizeSize`.
- A negative `k` is excluded by its type `nat`. In Python, `4 ** k` is then a float and `np.zeros` raises `TypeError`.
- `truvari.opt_gz_open` and the iteration over file lines (laytr/kfeat.py:63-64) are I/O. The lines are given as a sequence of strings, and the generator's laziness is not modelled.
- RegionFile.ParseInt: `int()` also accepts underscores between digits and non-ASCII decimal digits. The model rejects those with `NotAnInteger`. The whitespace it skips is modelled exactly: str.isspace minus characters 28 to 31. CPython 3.11 and later, and 3.9.14 and 3.10.7, refuse decimal text of more than 4300 digits with a ValueError that does not name the text; the model has no digit limit and accepts such text, because the limit is a run-time setting (`sys.set_int_max_str_digits`).
- RegionFile.ParseShow: holds in Python only for |n| below 10^4300 under the default digit limit; past it `str(n)` itself raises. The model has no such limit.
- RegionFile.ParseShowExact: the same digit limit applies; the model states the round trip for every integer.
- `kfeats` (laytr/kfeat.py:41-46) calls itself instead of `kfeat`, so it recurses without end on any list holding a non-empty string. A list of empty strings gives an array with one empty row per string. It computes nothing to model.
- `parse_args` and `kfeat_main` (laytr/kfeat.py:84-110) are the command line and `joblib.dump` persistence. `argparse` is never imported there, so that code cannot run.
