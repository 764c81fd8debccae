/** Finite sums of products, accumulated in the order a running `sum += x * y` loop uses. */
module Sums {
  import opened Arith

  /** One product `left * right` that an inner-product loop adds to its running sum. The two factors
      are kept apart so that where each factor was read from stays visible. */
  datatype Term = Term(left: real, right: real)

  function Value(t: Term): real
  {
    t.left * t.right
  }

  /** `((acc + v0) + v1) + ... + v(n-1)`, where `vi` is the value of `ts[i]`: what a scalar
      accumulator holds after adding the terms one at a time, left to right. The last term is added
      last. */
  function Accumulate(acc: real, ts: seq<Term>): real
    decreases |ts|
  {
    if |ts| == 0 then acc else Accumulate(acc, ts[..|ts| - 1]) + Value(ts[|ts| - 1])
  }

  /** A sum started from `0`, as in `float sum = 0; for (...) sum += x * y;`. */
  function Sum(ts: seq<Term>): real
  {
    Accumulate(0.0, ts)
  }

  /** Accumulating a concatenation is accumulating the first part and then continuing with the
      second: splitting one loop into consecutive loops over the same accumulator changes nothing,
      not even the order of the additions. */
  lemma {:induction false} AccumulateAppend(acc: real, xs: seq<Term>, ys: seq<Term>)
    ensures Accumulate(acc, xs + ys) == Accumulate(Accumulate(acc, xs), ys)
    decreases |ys|
  {
    if |ys| == 0 {
      assert xs + ys == xs;
    } else {
      var init := ys[..|ys| - 1];
      assert (xs + ys)[..|xs + ys| - 1] == xs + init;
      assert (xs + ys)[|xs + ys| - 1] == ys[|ys| - 1];
      AccumulateAppend(acc, xs, init);
    }
  }

  /** Adding `n` copies of the product `a * b` adds `n * (a * b)`. */
  lemma {:induction false} AccumulateConstant(acc: real, ts: seq<Term>, a: real, b: real)
    requires forall j :: 0 <= j < |ts| ==> ts[j] == Term(a, b)
    ensures Accumulate(acc, ts) == acc + (|ts| as real) * (a * b)
    decreases |ts|
  {
    if |ts| > 0 {
      AccumulateConstant(acc, ts[..|ts| - 1], a, b);
    }
  }

  /** A sum of `n` copies of the product `a * b` is `n * (a * b)`. */
  lemma SumConstant(ts: seq<Term>, n: nat, a: real, b: real)
    requires |ts| == n
    requires forall j :: 0 <= j < |ts| ==> ts[j] == Term(a, b)
    ensures Sum(ts) == (n as real) * (a * b)
  {
    AccumulateConstant(0.0, ts, a, b);
  }

  /** Two sums of copies of the same product `a * b` agree exactly when they have as many terms or
      the product is zero. */
  lemma SumsOfCopies(xs: seq<Term>, ys: seq<Term>, a: real, b: real)
    requires forall j :: 0 <= j < |xs| ==> xs[j] == Term(a, b)
    requires forall j :: 0 <= j < |ys| ==> ys[j] == Term(a, b)
    ensures Sum(xs) == Sum(ys) <==> |xs| == |ys| || a * b == 0.0
  {
    SumConstant(xs, |xs|, a, b);
    SumConstant(ys, |ys|, a, b);
    var v, p, q := a * b, |xs| as real, |ys| as real;
    if p * v == q * v && v != 0.0 {
      assert (p - q) * v == 0.0;
    }
  }

  /** The same product with its factors exchanged. */
  function Swap(t: Term): (s: Term)
    ensures Value(s) == Value(t)
  {
    Term(t.right, t.left)
  }

  /** Exchanging the factors of every term changes no partial sum, since real multiplication
      commutes. */
  lemma {:induction false} AccumulateSwapped(acc: real, xs: seq<Term>, ys: seq<Term>)
    requires |xs| == |ys|
    requires forall j :: 0 <= j < |xs| ==> ys[j] == Swap(xs[j])
    ensures Accumulate(acc, ys) == Accumulate(acc, xs)
    decreases |xs|
  {
    if |xs| > 0 {
      var n := |xs| - 1;
      AccumulateSwapped(acc, xs[..n], ys[..n]);
      assert Value(ys[n]) == Value(xs[n]);
    }
  }

  /** Accumulating the terms from `lo` on is accumulating the chunk that starts at `lo` and then the
      rest. */
  lemma AccumulateChunk(acc: real, ts: seq<Term>, lo: nat, chunk: seq<Term>, hi: nat)
    requires lo + |chunk| == hi <= |ts|
    requires forall k :: 0 <= k < |chunk| ==> chunk[k] == ts[lo + k]
    ensures Accumulate(acc, ts[lo..]) == Accumulate(Accumulate(acc, chunk), ts[hi..])
  {
    assert chunk == ts[lo..hi];
    assert ts[lo..] == chunk + ts[hi..];
    AccumulateAppend(acc, chunk, ts[hi..]);
  }

  /** The `len` positions `base, base + stride, ..., base + (len - 1) * stride` all lie below `extent`. */
  predicate InExtent(len: nat, base: nat, stride: nat, extent: nat)
  {
    len == 0 || base + Mul(len - 1, stride) < extent
  }

  /** The terms `x[xBase + j * xStride] * y[yBase + j * yStride]` for `j < len`, in increasing `j`:
      what an inner-product loop over two strided operands adds up. */
  function Products(x: seq<real>, xBase: nat, xStride: nat,
                    y: seq<real>, yBase: nat, yStride: nat, len: nat): (r: seq<Term>)
    requires InExtent(len, xBase, xStride, |x|)
    requires InExtent(len, yBase, yStride, |y|)
    ensures |r| == len
  {
    seq(len, j requires 0 <= j < len =>
      MulMonotone(j, len - 1, xStride);
      MulMonotone(j, len - 1, yStride);
      Term(x[xBase + Mul(j, xStride)], y[yBase + Mul(j, yStride)]))
  }

  /** Where term `j` of a run of products reads its two factors. */
  lemma ProductsAt(x: seq<real>, xBase: nat, xStride: nat,
                   y: seq<real>, yBase: nat, yStride: nat, len: nat, j: nat)
    requires InExtent(len, xBase, xStride, |x|)
    requires InExtent(len, yBase, yStride, |y|)
    requires j < len
    ensures xBase + Mul(j, xStride) < |x| && yBase + Mul(j, yStride) < |y|
    ensures Products(x, xBase, xStride, y, yBase, yStride, len)[j]
         == Term(x[xBase + Mul(j, xStride)], y[yBase + Mul(j, yStride)])
  {
    MulMonotone(j, len - 1, xStride);
    MulMonotone(j, len - 1, yStride);
  }

  /** Swapping the two operands of an inner product swaps the factors of every term and leaves the
      sum unchanged. */
  lemma ProductsSwap(x: seq<real>, xBase: nat, xStride: nat,
                     y: seq<real>, yBase: nat, yStride: nat, len: nat)
    requires InExtent(len, xBase, xStride, |x|)
    requires InExtent(len, yBase, yStride, |y|)
    ensures Sum(Products(x, xBase, xStride, y, yBase, yStride, len))
         == Sum(Products(y, yBase, yStride, x, xBase, xStride, len))
  {
    var p := Products(x, xBase, xStride, y, yBase, yStride, len);
    var q := Products(y, yBase, yStride, x, xBase, xStride, len);
    forall j | 0 <= j < len
      ensures q[j] == Swap(p[j])
    {
      ProductsAt(x, xBase, xStride, y, yBase, yStride, len, j);
      ProductsAt(y, yBase, yStride, x, xBase, xStride, len, j);
    }
    AccumulateSwapped(0.0, p, q);
  }

  /** The first `n` terms of a longer run are the run of length `n`. */
  lemma ProductsPrefix(x: seq<real>, xBase: nat, xStride: nat,
                       y: seq<real>, yBase: nat, yStride: nat, n: nat, len: nat)
    requires n <= len
    requires InExtent(len, xBase, xStride, |x|)
    requires InExtent(len, yBase, yStride, |y|)
    ensures InExtent(n, xBase, xStride, |x|) && InExtent(n, yBase, yStride, |y|)
    ensures Products(x, xBase, xStride, y, yBase, yStride, len)[..n]
         == Products(x, xBase, xStride, y, yBase, yStride, n)
  {
    if n > 0 {
      MulMonotone(n - 1, len - 1, xStride);
      MulMonotone(n - 1, len - 1, yStride);
    }
    var p := Products(x, xBase, xStride, y, yBase, yStride, len);
    var q := Products(x, xBase, xStride, y, yBase, yStride, n);
    forall j | 0 <= j < n
      ensures p[j] == q[j]
    {
      ProductsAt(x, xBase, xStride, y, yBase, yStride, len, j);
      ProductsAt(x, xBase, xStride, y, yBase, yStride, n, j);
    }
  }
}
