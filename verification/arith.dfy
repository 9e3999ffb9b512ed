/** Products of naturals for the image-buffer models.

    `Mul(a, b)` is `a * b`, written as `a` additions of `b` so that the
    solver sees a plain function and proofs about buffer offsets use the
    few facts below rather than general nonlinear arithmetic. */
module Arith {
  /** `a` rows of `b` bytes each. */
  function Mul(a: nat, b: nat): nat
    decreases a
  {
    if a == 0 then 0 else Mul(a - 1, b) + b
  }

  lemma {:induction false} MulIsProduct(a: nat, b: nat)
    ensures Mul(a, b) == a * b
    decreases a
  {
    if a > 0 {
      MulIsProduct(a - 1, b);
      assert (a - 1) * b + b == a * b;
    }
  }

  /** More rows take at least as many bytes. */
  lemma {:induction false} MulMono(a: nat, a': nat, b: nat)
    requires a <= a'
    ensures Mul(a, b) <= Mul(a', b)
    decreases a'
  {
    if a < a' {
      MulMono(a, a' - 1, b);
    }
  }

  /** Longer rows take at least as many bytes. */
  lemma {:induction false} MulMonoRight(a: nat, b: nat, b': nat)
    requires b <= b'
    ensures Mul(a, b) <= Mul(a, b')
    decreases a
  {
    if a > 0 {
      MulMonoRight(a - 1, b, b');
    }
  }

  /** Byte `c` of row `r` lies before the end of row `rows - 1`. */
  lemma RowInside(r: nat, rows: nat, w: nat, c: nat)
    requires r < rows && c < w
    ensures Mul(r, w) + c < Mul(r + 1, w) <= Mul(rows, w)
  {
    MulMono(r + 1, rows, w);
  }
}
