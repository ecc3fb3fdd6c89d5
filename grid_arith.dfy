// Integer facts about row-major grid numbering, stated once so that the mesh
// proofs can call them: the product bounds and the uniqueness of quotient and
// remainder.

module GridArith {

  /** Multiplying by a natural number preserves order. */
  lemma MulMonotone(a: nat, b: nat, c: nat)
    requires a <= b
    ensures a * c <= b * c
  {
  }

  /** Division and remainder recover the row and column of a row-major number. */
  lemma DivModOf(q: nat, r: nat, d: nat)
    requires r < d
    ensures (q * d + r) / d == q
    ensures (q * d + r) % d == r
  {
    var t := q * d + r;
    var k, m := t / d, t % d;
    assert t == k * d + m;
    if k > q {
      MulMonotone(q + 1, k, d);
      assert false;
    } else if k < q {
      MulMonotone(k + 1, q, d);
      assert false;
    }
  }

  /** A row-major number below rows * width has a row below rows. */
  lemma RowBound(v: nat, width: nat, rows: nat)
    requires width > 0 && v < rows * width
    ensures v / width < rows
    ensures v % width < width
  {
  }
}
