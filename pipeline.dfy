/** get_features and regions_to_kmers: fetch each region's sequence from
    the reference, filter it, featurise it, and stack the rows in region
    order. The reference and the worker pool are outside the model: the
    reference is a function parameter, and pool.map is modelled by what it
    computes, chunk by chunk, not by how the workers run. */
module Pipeline {
  import opened Outcomes
  import opened Nucleotides
  import opened KmerEncoder
  import opened KFeat
  import opened RegionFile

  /** pysam.FastaFile(ref_fn).fetch(chrom, start, end): the sequence of the
      region, or None when the reference cannot resolve it (the source then
      raises, and the batch fails). */
  type Reference = (string, int, int) -> Option<string>

  /** get_features(region, ref_fn, k, normalize): fetch, delete the
      characters other than A, T, C, G, featurise. */
  function GetFeatures(region: Region, fetch: Reference, k: nat, normalize: bool): Result<FeatureVector> {
    match fetch(region.chrom, region.start, region.end)
    case None => Err(ReferenceLookup(region.chrom, region.start, region.end))
    case Some(raw) => Featurize(Filter(raw), k, normalize)
  }

  /** The filter establishes what kmer_index needs: get_features fails only
      when the fetch fails, never with an invalid nucleotide, and otherwise
      returns the histogram of the FILTERED sequence, of length 4^k. */
  lemma {:induction false} GetFeaturesSpec(region: Region, fetch: Reference, k: nat, normalize: bool)
    ensures GetFeatures(region, fetch, k, normalize).Ok? <==> fetch(region.chrom, region.start, region.end).Some?
    ensures GetFeatures(region, fetch, k, normalize).Err? ==>
              GetFeatures(region, fetch, k, normalize).error == ReferenceLookup(region.chrom, region.start, region.end)
    ensures GetFeatures(region, fetch, k, normalize).Ok? ==>
              var s := Filter(fetch(region.chrom, region.start, region.end).value);
              WindowsValid(s, k, Windows(s, k)) &&
              GetFeatures(region, fetch, k, normalize).value ==
                Finish(Histogram(s, k, Windows(s, k)), |s| - k + 1, normalize) &&
              GetFeatures(region, fetch, k, normalize).value.Size() == Pow4(k)
  {
    match fetch(region.chrom, region.start, region.end)
    case None =>
    case Some(raw) =>
      var s := Filter(raw);
      FeaturizeFails(s, k, normalize);
      FeaturizeOk(s, k, normalize);
      FeaturizeSize(s, k, normalize);
  }

  /** Unnormalised, the counts of a region sum to the number of windows of
      its filtered sequence, max(0, len - k + 1). */
  lemma {:induction false} GetFeaturesCountsSum(region: Region, fetch: Reference, k: nat)
    requires fetch(region.chrom, region.start, region.end).Some?
    ensures GetFeatures(region, fetch, k, false).Ok? && GetFeatures(region, fetch, k, false).value.Counts?
    ensures var s := Filter(fetch(region.chrom, region.start, region.end).value);
            Sum(GetFeatures(region, fetch, k, false).value.counts) == Windows(s, k)
  {
    var s := Filter(fetch(region.chrom, region.start, region.end).value);
    FeaturizeFails(s, k, false);
    FeaturizeCounts(s, k);
  }

  /** partial(get_features, ref_fn=reference, k=k): normalize is not passed,
      so its default, True, applies. Each region's vector therefore fails
      only on the fetch, and is never the raw counts. */
  function FeaturesOf(fetch: Reference, k: nat): (f: Region -> Result<FeatureVector>)
    ensures forall region :: f(region).Ok? <==> fetch(region.chrom, region.start, region.end).Some?
    ensures forall region :: f(region).Ok? ==> !f(region).value.Counts? && f(region).value.Size() == Pow4(k)
  {
    NormalizedFeatures(fetch, k);
    region => GetFeatures(region, fetch, k, true)
  }

  lemma {:induction false} NormalizedFeatures(fetch: Reference, k: nat)
    ensures forall region: Region :: GetFeatures(region, fetch, k, true).Ok? <==>
              fetch(region.chrom, region.start, region.end).Some?
    ensures forall region: Region :: GetFeatures(region, fetch, k, true).Ok? ==>
              !GetFeatures(region, fetch, k, true).value.Counts? &&
              GetFeatures(region, fetch, k, true).value.Size() == Pow4(k)
  {
    forall region: Region
      ensures GetFeatures(region, fetch, k, true).Ok? <==> fetch(region.chrom, region.start, region.end).Some?
      ensures GetFeatures(region, fetch, k, true).Ok? ==>
                !GetFeatures(region, fetch, k, true).value.Counts? &&
                GetFeatures(region, fetch, k, true).value.Size() == Pow4(k)
    {
      GetFeaturesSpec(region, fetch, k, true);
    }
  }

  /** The chunk size pool.map picks when none is given: the list length
      divided by four times the number of workers, rounded up. */
  function ChunkSize(n: nat, nproc: nat): (size: nat)
    requires nproc >= 1
    ensures n == 0 <==> size == 0
    ensures n > 0 ==> (size - 1) * (4 * nproc) < n <= size * (4 * nproc)
  {
    var q := n / (4 * nproc);
    if n % (4 * nproc) != 0 then q + 1 else q
  }

  /** The elements of a sequence of sequences, in order. */
  function Concat<X>(xss: seq<seq<X>>): seq<X>
    decreases |xss|
  {
    if xss == [] then [] else xss[0] + Concat(xss[1..])
  }

  /** The tasks pool.map sends to the workers: consecutive, non-empty
      slices of at most size elements that together are the whole list. */
  function Chunks<X>(xs: seq<X>, size: nat): (chunks: seq<seq<X>>)
    requires size >= 1 || xs == []
    ensures Concat(chunks) == xs
    ensures forall i :: 0 <= i < |chunks| ==> 1 <= |chunks[i]| <= size
    decreases |xs|
  {
    if xs == [] then []
    else if |xs| <= size then
      assert Concat([xs]) == xs + Concat([]);
      [xs]
    else
      var rest := Chunks(xs[size..], size);
      var chunks := [xs[..size]] + rest;
      assert chunks[1..] == rest;
      assert xs[..size] + xs[size..] == xs;
      assert forall i :: 1 <= i < |chunks| ==> chunks[i] == rest[i - 1];
      chunks
  }

  /** The results of the tasks put back together by task position, failing
      with the first failed task's error. Whatever the chunking, this is
      the sequential map over the chunks' elements. */
  function MapChunks<X, Y>(f: X -> Result<Y>, chunks: seq<seq<X>>): (r: Result<seq<Y>>)
    ensures r == MapAll(f, Concat(chunks))
    decreases |chunks|
  {
    if chunks == [] then Ok([])
    else
      MapAllAppend(f, chunks[0], Concat(chunks[1..]));
      match MapAll(f, chunks[0])
      case Err(e) => Err(e)
      case Ok(ys) =>
        match MapChunks(f, chunks[1..])
        case Err(e) => Err(e)
        case Ok(zs) => Ok(ys + zs)
  }

  /** pool.map(f, xs) on a pool of nproc workers. It returns the results in
      input order whatever the number of workers: it is the sequential map. */
  function PoolMap<X, Y>(f: X -> Result<Y>, xs: seq<X>, nproc: nat): (r: Result<seq<Y>>)
    requires nproc >= 1
    ensures r == MapAll(f, xs)
  {
    MapChunks(f, Chunks(xs, ChunkSize(|xs|, nproc)))
  }

  /** What np.vstack([result]) builds: one row per result. The extra
      brackets make numpy read the list of rows as one array, so an empty
      list gives a 1 x 0 array rather than 0 x 4^k. */
  datatype Matrix = Matrix(height: nat, width: nat, rows: seq<FeatureVector>)

  function VStack(rows: seq<FeatureVector>): Matrix {
    if rows == [] then Matrix(1, 0, []) else Matrix(|rows|, rows[0].Size(), rows)
  }

  /** regions_to_kmers(regions, reference, k, nproc). */
  function RegionsToKmers(regions: seq<Region>, fetch: Reference, k: nat, nproc: int): Result<Matrix> {
    if nproc < 1 then Err(InvalidWorkerCount(nproc))
    else
      match PoolMap(FeaturesOf(fetch, k), regions, nproc)
      case Err(e) => Err(e)
      case Ok(rows) => Ok(VStack(rows))
  }

  /** The batch succeeds exactly when the pool can be made and every
      region's fetch succeeds. Row i is then get_features of region i, with
      normalize True, every row has 4^k entries, and the matrix is
      len(regions) x 4^k (1 x 0 for no regions). With fewer than one worker
      the pool cannot be made; otherwise a failure is the first failing
      region's lookup error. */
  lemma {:induction false} RegionsToKmersSpec(regions: seq<Region>, fetch: Reference, k: nat, nproc: int)
    ensures nproc < 1 ==> RegionsToKmers(regions, fetch, k, nproc) == Err(InvalidWorkerCount(nproc))
    ensures RegionsToKmers(regions, fetch, k, nproc).Ok? <==>
              nproc >= 1 && forall i :: 0 <= i < |regions| ==> GetFeatures(regions[i], fetch, k, true).Ok?
    ensures RegionsToKmers(regions, fetch, k, nproc).Ok? ==>
              var m := RegionsToKmers(regions, fetch, k, nproc).value;
              |m.rows| == |regions| &&
              (forall i :: 0 <= i < |regions| ==>
                 m.rows[i] == GetFeatures(regions[i], fetch, k, true).value && m.rows[i].Size() == Pow4(k)) &&
              (if regions == [] then m.height == 1 && m.width == 0
               else m.height == |regions| && m.width == Pow4(k))
    ensures nproc >= 1 && RegionsToKmers(regions, fetch, k, nproc).Err? ==>
              (exists i :: 0 <= i < |regions| && FeaturesOf(fetch, k)(regions[i]).Err?) &&
              var i := FirstFailure(FeaturesOf(fetch, k), regions);
              RegionsToKmers(regions, fetch, k, nproc).error ==
                ReferenceLookup(regions[i].chrom, regions[i].start, regions[i].end)
  {
    var f := FeaturesOf(fetch, k);
    if nproc >= 1 {
      MapAllSpec(f, regions);
      forall i | 0 <= i < |regions| ensures f(regions[i]) == GetFeatures(regions[i], fetch, k, true) {
        GetFeaturesSpec(regions[i], fetch, k, true);
      }
      if MapAll(f, regions).Err? {
        var i := FirstFailure(f, regions);
        GetFeaturesSpec(regions[i], fetch, k, true);
      }
    }
  }

  /** The number of workers changes nothing but whether the pool can be
      made: any two valid worker counts give the same matrix or error. */
  lemma {:induction false} WorkerCountIrrelevant(regions: seq<Region>, fetch: Reference, k: nat, n1: int, n2: int)
    requires n1 >= 1 && n2 >= 1
    ensures RegionsToKmers(regions, fetch, k, n1) == RegionsToKmers(regions, fetch, k, n2)
  {
  }
}
