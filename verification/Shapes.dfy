/** Multi-dimensional arrays and the flat lists they are sent as. */
module Shapes {
  import opened Primitives
  import opened Wire

  predicate AllNat(dims: seq<int>) { forall i | 0 <= i < |dims| :: dims[i] >= 0 }

  function Prod(dims: seq<int>): int { if dims == [] then 1 else dims[0] * Prod(dims[1..]) }

  /** An index into each dimension. */
  predicate InRange(path: seq<int>, dims: seq<int>) {
    && |path| == |dims|
    && (forall i | 0 <= i < |dims| :: 0 <= path[i] < dims[i])
  }

  /** The place of an element in row-major order. */
  function Offset(path: seq<int>, dims: seq<int>): int
    requires |path| == |dims|
  {
    if dims == [] then 0 else path[0] * Prod(dims[1..]) + Offset(path[1..], dims[1..])
  }

  lemma {:induction false} ProdIsNat(dims: seq<int>)
    requires AllNat(dims)
    ensures Prod(dims) >= 0
  {
    if dims != [] {
      assert AllNat(dims[1..]);
      ProdIsNat(dims[1..]);
    }
  }

  lemma OneLess(k: int, dims: seq<int>)
    requires k > 0 && AllNat(dims)
    ensures k * Prod(dims) == (k - 1) * Prod(dims) + Prod(dims)
    ensures 0 <= Prod(dims) <= k * Prod(dims)
  {
    ProdIsNat(dims);
    assert (k - 1) * Prod(dims) >= 0;
  }

  lemma NoDimensions()
    ensures Prod([]) == 1
  {
  }

  lemma ProdUnfolds(dims: seq<int>)
    requires dims != []
    ensures Prod(dims) == dims[0] * Prod(dims[1..])
  {
  }

  /** Row `i` of `d` rows of length `p`. */
  lemma Digits(i: int, d: int, p: int, o: int)
    requires 0 <= i < d && 0 <= o <= p
    ensures (i + 1) * p == i * p + p
    ensures 0 <= i * p <= i * p + o <= i * p + p <= d * p
  {
    assert (i + 1) * p + (d - 1 - i) * p == d * p;
    assert (d - 1 - i) * p >= 0;
  }

  /** Row-major order stays inside the list. */
  lemma {:induction false} OffsetInRange(path: seq<int>, dims: seq<int>)
    requires InRange(path, dims)
    ensures 0 <= Offset(path, dims) < Prod(dims)
  {
    hide Prod;
    if dims == [] {
      NoDimensions();
    } else {
      ProdUnfolds(dims);
      var p, o := Prod(dims[1..]), Offset(path[1..], dims[1..]);
      OffsetInRange(path[1..], dims[1..]);
      Digits(path[0], dims[0], p, o);
    }
  }

  /** The size the receiver accumulates is the product of the dimensions. */
  lemma {:induction false} SizeIsProduct(acc: int, dims: seq<Int32>)
    requires SizeFrom(acc, dims).Some?
    ensures SizeFrom(acc, dims).value == acc * Prod(dims)
    decreases |dims|
  {
    if dims != [] {
      SizeIsProduct(acc * dims[0], dims[1..]);
      assert acc * dims[0] * Prod(dims[1..]) == acc * (dims[0] * Prod(dims[1..]));
    }
  }
}
