/** Failure values of the featurisation pipeline, and the fail-fast map that
    every batch step (the region parser, the worker pool) is built on.
    Each Python exception that the pipeline can raise is one Error
    constructor; a raised exception is an Err result. */
module Outcomes {

  datatype Option<+T> = None | Some(value: T)

  /** What can go wrong, named after the exception the Python code raises. */
  datatype Error =
    /** KeyError from the NUCS lookup in kmer_index: a character outside A, G, C, T */
    | InvalidNucleotide(base: char)
    /** the reference cannot resolve the chromosome or coordinates (pysam fetch) */
    | ReferenceLookup(chrom: string, start: int, end: int)
    /** ValueError from unpacking data[:3]: the line has fewer than three fields */
    | TooFewFields(count: nat)
    /** ValueError from int(): the field is not a decimal integer */
    | NotAnInteger(text: string)
    /** ValueError from multiprocessing.Pool: fewer than one worker requested */
    | InvalidWorkerCount(nproc: int)

  datatype Result<+T> = Ok(value: T) | Err(error: Error)

  /** Applies f to every element in order and stops at the first failure,
      which is what a list comprehension (or pool.map) over a raising
      function does. */
  function MapAll<X, Y>(f: X -> Result<Y>, xs: seq<X>): (r: Result<seq<Y>>)
    ensures r.Ok? ==> |r.value| == |xs|
    decreases |xs|
  {
    if xs == [] then Ok([])
    else match f(xs[0])
      case Err(e) => Err(e)
      case Ok(y) =>
        match MapAll(f, xs[1..])
        case Err(e) => Err(e)
        case Ok(ys) => Ok([y] + ys)
  }

  /** The index of the first element on which f fails. */
  function FirstFailure<X, Y>(f: X -> Result<Y>, xs: seq<X>): (i: nat)
    requires exists j :: 0 <= j < |xs| && f(xs[j]).Err?
    ensures i < |xs| && f(xs[i]).Err?
    ensures forall j :: 0 <= j < i ==> f(xs[j]).Ok?
    decreases |xs|
  {
    if f(xs[0]).Err? then 0
    else
      var j :| 0 <= j < |xs| && f(xs[j]).Err?;
      assert f(xs[1..][j - 1]).Err?;
      1 + FirstFailure(f, xs[1..])
  }

  /** MapAll succeeds exactly when f succeeds on every element; it then
      returns f's values position by position, and otherwise the error of
      the first element on which f fails. */
  lemma {:induction false} MapAllSpec<X, Y>(f: X -> Result<Y>, xs: seq<X>)
    ensures MapAll(f, xs).Ok? <==> forall i :: 0 <= i < |xs| ==> f(xs[i]).Ok?
    ensures MapAll(f, xs).Ok? ==>
              |MapAll(f, xs).value| == |xs| &&
              forall i :: 0 <= i < |xs| ==> MapAll(f, xs).value[i] == f(xs[i]).value
    ensures MapAll(f, xs).Err? ==>
              (exists j :: 0 <= j < |xs| && f(xs[j]).Err?) &&
              MapAll(f, xs).error == f(xs[FirstFailure(f, xs)]).error
    decreases |xs|
  {
    if xs != [] {
      MapAllSpec(f, xs[1..]);
      if f(xs[0]).Ok? {
        if MapAll(f, xs[1..]).Err? {
          var j :| 0 <= j < |xs[1..]| && f(xs[1..][j]).Err?;
          assert f(xs[j + 1]).Err?;
          assert FirstFailure(f, xs) == 1 + FirstFailure(f, xs[1..]);
        }
        forall i | 0 <= i < |xs[1..]| ensures f(xs[i + 1]) == f(xs[1..][i]) { }
      } else {
        assert FirstFailure(f, xs) == 0;
      }
    }
  }

  /** Mapping a concatenation is mapping the two parts and concatenating,
      with a failure in the first part taking precedence. */
  lemma {:induction false} MapAllAppend<X, Y>(f: X -> Result<Y>, a: seq<X>, b: seq<X>)
    ensures MapAll(f, a + b) ==
              match MapAll(f, a)
              case Err(e) => Err(e)
              case Ok(ys) =>
                match MapAll(f, b)
                case Err(e) => Err(e)
                case Ok(zs) => Ok(ys + zs)
    decreases |a|
  {
    if a == [] {
      assert a + b == b;
      if MapAll(f, b).Ok? {
        assert [] + MapAll(f, b).value == MapAll(f, b).value;
      }
    } else {
      assert (a + b)[0] == a[0];
      assert (a + b)[1..] == a[1..] + b;
      MapAllAppend(f, a[1..], b);
      if f(a[0]).Ok? && MapAll(f, a[1..]).Ok? && MapAll(f, b).Ok? {
        var y, ys, zs := f(a[0]).value, MapAll(f, a[1..]).value, MapAll(f, b).value;
        assert [y] + (ys + zs) == ([y] + ys) + zs;
      }
    }
  }
}
