/** Natural-number products and truncating division, used for all index arithmetic of the model.

    `Mul` and `Tiles` are defined by recursion, so the verifier treats a product or quotient of two
    variables as an opaque term and learns about it only from the lemmas of this module; the lemmas
    `MulIsProduct` and `TilesIsDivision` tie them to the built-in `*`, `/` and `%`. */
module Arith {

  /** `a * b`, as repeated addition. */
  function Mul(a: nat, b: nat): nat
    decreases a
  {
    if a == 0 then 0 else Mul(a - 1, b) + b
  }

  lemma {:induction false} MulIsProduct(a: nat, b: nat)
    ensures Mul(a, b) == a * b
    decreases a
  {
    if a > 0 {
      MulIsProduct(a - 1, b);
      assert (a - 1) * b + b == a * b;
    }
  }

  lemma MulSucc(a: nat, b: nat)
    ensures Mul(a + 1, b) == Mul(a, b) + b
  {
  }

  lemma MulComm(a: nat, b: nat)
    ensures Mul(a, b) == Mul(b, a)
  {
    MulIsProduct(a, b);
    MulIsProduct(b, a);
  }

  lemma MulUnits(a: nat)
    ensures Mul(a, 0) == 0 && Mul(0, a) == 0
    ensures Mul(a, 1) == a && Mul(1, a) == a
  {
    MulIsProduct(a, 0);
    MulIsProduct(a, 1);
  }

  /** `(a + b) * c == a * c + b * c` */
  lemma {:induction false} MulAddLeft(a: nat, b: nat, c: nat)
    ensures Mul(a + b, c) == Mul(a, c) + Mul(b, c)
    decreases b
  {
    if b > 0 {
      MulAddLeft(a, b - 1, c);
      assert Mul(a + b, c) == Mul(a + b - 1, c) + c;
    }
  }

  /** `a * c - b * c == (a - b) * c` */
  lemma MulSubLeft(a: nat, b: nat, c: nat)
    requires b <= a
    ensures Mul(a, c) == Mul(b, c) + Mul(a - b, c)
  {
    MulAddLeft(b, a - b, c);
  }

  lemma MulMonotone(a: nat, b: nat, c: nat)
    requires a <= b
    ensures Mul(a, c) <= Mul(b, c)
  {
    MulSubLeft(b, a, c);
  }

  /** `k / ts` for positive `ts`: how many whole tiles of width `ts` fit into `k`. */
  function Tiles(k: nat, ts: nat): nat
    requires ts > 0
    decreases k
  {
    if k < ts then 0 else 1 + Tiles(k - ts, ts)
  }

  /** `k % ts` for positive `ts`: what is left of `k` after the whole tiles. */
  function Rem(k: nat, ts: nat): nat
    requires ts > 0
    decreases k
  {
    if k < ts then k else Rem(k - ts, ts)
  }

  /** Every `k` splits into whole tiles and a remainder smaller than one tile. */
  lemma {:induction false} TilesRem(k: nat, ts: nat)
    requires ts > 0
    ensures k == Mul(Tiles(k, ts), ts) + Rem(k, ts)
    ensures Rem(k, ts) < ts
    decreases k
  {
    if k >= ts {
      TilesRem(k - ts, ts);
    }
  }

  /** The split into whole tiles and remainder is unique. */
  lemma {:induction false} TilesUnique(q: nat, r: nat, ts: nat)
    requires ts > 0 && r < ts
    ensures Tiles(Mul(q, ts) + r, ts) == q
    ensures Rem(Mul(q, ts) + r, ts) == r
    decreases q
  {
    if q > 0 {
      TilesUnique(q - 1, r, ts);
      assert Mul(q, ts) + r - ts == Mul(q - 1, ts) + r;
    }
  }

  /** `Tiles` and `Rem` are the truncating `/` and `%` of C on non-negative operands. */
  lemma TilesIsDivision(k: nat, ts: nat)
    requires ts > 0
    ensures Tiles(k, ts) == k / ts && Rem(k, ts) == k % ts
  {
    var q, r := k / ts, k % ts;
    assert k == q * ts + r && r < ts;
    MulIsProduct(q, ts);
    TilesUnique(q, r, ts);
  }

  /** Within one tile width, `q * ts + r` determines `q` and `r`. */
  lemma MulUnique(q: nat, r: nat, q': nat, r': nat, ts: nat)
    requires r < ts && r' < ts
    requires Mul(q, ts) + r == Mul(q', ts) + r'
    ensures q == q' && r == r'
  {
    TilesUnique(q, r, ts);
    TilesUnique(q', r', ts);
  }

  /** A position inside a dimension made of whole tiles lies in one of its tiles. */
  lemma TilesBelow(x: nat, dim: nat, ts: nat)
    requires ts > 0 && x < dim && Rem(dim, ts) == 0
    ensures Tiles(x, ts) < Tiles(dim, ts)
  {
    TilesRem(x, ts);
    TilesRem(dim, ts);
    if Tiles(dim, ts) <= Tiles(x, ts) {
      MulMonotone(Tiles(dim, ts), Tiles(x, ts), ts);
    }
  }
}
