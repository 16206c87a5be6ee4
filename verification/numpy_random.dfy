/**
 * The two numpy `RandomState.choice` calls that the generator relies on.
 * The random stream is not modelled: each draw is an arbitrary value that
 * meets the guarantees numpy gives, picked with `:|`.
 */
module NumpyRandom {

  /** The errors numpy raises in the calls and indexing the generator does. */
  datatype NumpyError =
    | NegativeDimensions          // an array shape with a negative number of rows or columns
    | PopulationNotPositive       // choice from range(n) with n <= 0 when samples are asked for
    | SampleLargerThanPopulation  // choice without replacement of more values than range(n) holds
    | IndexOutOfBounds            // indexing a row past its end (IndexError)

  datatype Result<T> = Ok(value: T) | Err(error: NumpyError)

  /** No value occurs twice in `s`. */
  predicate Distinct(s: seq<int>) {
    forall i, j :: 0 <= i < j < |s| ==> s[i] != s[j]
  }

  /** The population `range(n)`, as a set. */
  function Population(n: nat): (r: set<int>)
    ensures |r| == n
    ensures forall x :: x in r <==> 0 <= x < n
  {
    if n == 0 then {} else Population(n - 1) + {n - 1}
  }

  /**
   * `choice(n, size=size, replace=False)`: `size` distinct members of
   * `range(n)`. numpy first refuses a population `n <= 0` when samples are
   * asked for, then any sample larger than the population.
   */
  method ChoiceWithoutReplacement(n: int, size: nat) returns (r: Result<seq<int>>)
    ensures r.Err? <==> size > n
    ensures r.Err? ==> r.error == if n <= 0 && size != 0 then PopulationNotPositive else SampleLargerThanPopulation
    ensures r.Ok? ==> |r.value| == size && Distinct(r.value)
    ensures r.Ok? ==> forall i :: 0 <= i < size ==> 0 <= r.value[i] < n
  {
    if n <= 0 && size != 0 {
      return Err(PopulationNotPositive);
    }
    if size > n {
      return Err(SampleLargerThanPopulation);
    }
    var pool := Population(n);
    var drawn: seq<int> := [];
    while |drawn| < size
      invariant |drawn| <= size
      invariant |pool| == n - |drawn|
      invariant forall x :: x in pool <==> 0 <= x < n && x !in drawn
      invariant forall i :: 0 <= i < |drawn| ==> 0 <= drawn[i] < n
      invariant Distinct(drawn)
    {
      assert pool != {};
      var x :| x in pool;
      drawn := drawn + [x];
      pool := pool - {x};
    }
    return Ok(drawn);
  }

  /** `choice([-1, 1], size=(rows, cols))`: a fresh table of spins. */
  method ChoiceOfSigns(rows: nat, cols: nat) returns (a: array2<int>)
    ensures fresh(a)
    ensures a.Length0 == rows && a.Length1 == cols
    ensures forall c, i :: 0 <= c < rows && 0 <= i < cols ==> a[c, i] == -1 || a[c, i] == 1
  {
    a := new int[rows, cols];
    for c := 0 to rows
      invariant forall c', i :: 0 <= c' < c && 0 <= i < cols ==> a[c', i] == -1 || a[c', i] == 1
    {
      for i := 0 to cols
        invariant forall c', i' :: 0 <= c' < c && 0 <= i' < cols ==> a[c', i'] == -1 || a[c', i'] == 1
        invariant forall i' :: 0 <= i' < i ==> a[c, i'] == -1 || a[c, i'] == 1
      {
        var s :| s in {-1, 1};
        a[c, i] := s;
      }
    }
  }
}
