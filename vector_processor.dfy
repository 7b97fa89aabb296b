/** The overflow-safe reduction applied to every vector.

    The elements are the unsigned 32-bit words of the declaration in
    Server/vector_processor.h:18, which is how every caller passes them.
    The definition in Server/vector_processor.cpp:4 takes `float` elements
    instead, so a word above 2^24 would be rounded to 24 significant bits
    before it is added; that rounding is not modelled. The `double`
    accumulator is modelled over unbounded integers: every value it takes
    stays below 2^31 + 2^32, where a `double` is exact. */
module VectorProcessing {
  import opened NetworkUtils

  const INT32_MAX: int := 2147483647

  function Sum(v: seq<u32>): nat
  {
    if v == [] then 0 else v[0] + Sum(v[1..])
  }

  lemma {:induction false} SumAppend(a: seq<u32>, b: seq<u32>)
    ensures Sum(a + b) == Sum(a) + Sum(b)
  {
    if a == [] {
      assert a + b == b;
    } else {
      assert (a + b)[1..] == a[1..] + b;
      SumAppend(a[1..], b);
    }
  }

  /** No prefix sums to more than the whole vector. */
  lemma SumPrefix(v: seq<u32>, k: nat)
    requires k <= |v|
    ensures Sum(v[..k]) <= Sum(v)
  {
    SumAppend(v[..k], v[k..]);
    assert v[..k] + v[k..] == v;
  }

  /** The value the server returns for a vector: its sum, capped at INT32_MAX. */
  function ClampedSum(v: seq<u32>): (r: int)
    ensures 0 <= r <= INT32_MAX
  {
    if Sum(v) > INT32_MAX then INT32_MAX else Sum(v)
  }

  /** Once the elements so far exceed INT32_MAX, nothing that follows changes
      the result. */
  lemma SaturationAbsorbs(v: seq<u32>, w: seq<u32>)
    requires Sum(v) > INT32_MAX
    ensures ClampedSum(v + w) == INT32_MAX
  {
    SumAppend(v, w);
  }

  /** `VectorProcessor::sumClamp`: adds the elements into a wide accumulator,
      clamps it at zero, and returns INT32_MAX as soon as it passes that
      bound. */
  method SumClamp(v: seq<u32>) returns (r: int)
    ensures r == ClampedSum(v)
    ensures 0 <= r <= INT32_MAX
  {
    var acc := 0;
    for i := 0 to |v|
      invariant 0 <= acc <= INT32_MAX
      invariant acc == Sum(v[..i])
    {
      SumAppend(v[..i], [v[i]]);
      assert v[..i + 1] == v[..i] + [v[i]];
      acc := acc + v[i];
      acc := if acc < 0 then 0 else acc;
      if acc > INT32_MAX {
        SumPrefix(v, i + 1);
        return INT32_MAX;
      }
    }
    assert v[..|v|] == v;
    r := if acc < 0 then 0 else if acc > INT32_MAX then INT32_MAX else acc;
  }

  /** The values the unit tests of `sumClamp` expect. */
  lemma SumClampExamples()
    ensures ClampedSum([]) == 0
    ensures ClampedSum([0, 0, 0]) == 0
    ensures ClampedSum([1, 2, 3]) == 6
    ensures ClampedSum([100, 200]) == 300
    ensures ClampedSum([4294967295]) == INT32_MAX
    ensures ClampedSum([2147483647, 1]) == INT32_MAX
    ensures ClampedSum([1073741824, 1073741824]) == INT32_MAX
    ensures ClampedSum([1073741824, 1073741824, 1]) == INT32_MAX
    ensures ClampedSum([4294967295, 4294967295]) == INT32_MAX
  {
    assert [1073741824, 1073741824, 1][1..] == [1073741824, 1];
  }
}
