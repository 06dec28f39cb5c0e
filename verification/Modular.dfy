/** Division with remainder, for wrapping indices and packed coordinates. */
module Modular {
  lemma MultiplesAreFar(d: int, m: int)
    requires m > 0
    ensures d >= 1 ==> d * m >= m
    ensures d <= -1 ==> d * m <= -m
  {
    if d >= 1 {
      assert (d - 1) * m >= 0;
    } else if d <= -1 {
      assert (-d - 1) * m >= 0;
    }
  }

  /** A quotient and a remainder below the modulus are the only ones. */
  lemma DivModUnique(a: int, q: int, r: int, m: int)
    requires m > 0 && a == q * m + r && 0 <= r < m
    ensures a / m == q && a % m == r
  {
    var d := a / m - q;
    assert a == (a / m) * m + a % m;
    assert d * m == r - a % m;
    MultiplesAreFar(d, m);
  }

  /** Stepping forward by less than one modulus moves to another residue. */
  lemma ResiduesDiffer(i: int, j: int, m: int)
    requires m > 0 && i < j < i + m
    ensures i % m != j % m
  {
    var q, r := i / m, i % m;
    assert i == q * m + r;
    if r + (j - i) < m {
      DivModUnique(j, q, r + (j - i), m);
    } else {
      assert (q + 1) * m == q * m + m;
      DivModUnique(j, q + 1, r + (j - i) - m, m);
    }
  }

  lemma ResidueRepeats(i: int, m: int)
    requires m > 0
    ensures (i + m) % m == i % m
  {
    assert (i / m + 1) * m == (i / m) * m + m;
    DivModUnique(i + m, i / m + 1, i % m, m);
  }

  /** Any window of m consecutive numbers meets every residue. */
  lemma ResidueReached(from: int, r: int, m: int) returns (i: int)
    requires 0 <= r < m
    ensures from <= i < from + m && i % m == r
  {
    var q, r0 := from / m, from % m;
    assert from == q * m + r0;
    if r0 <= r {
      i := from + (r - r0);
      DivModUnique(i, q, r, m);
    } else {
      i := from + (r - r0) + m;
      assert (q + 1) * m == q * m + m;
      DivModUnique(i, q + 1, r, m);
    }
  }
}
