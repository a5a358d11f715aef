/** Cell addressing of an n-by-n board stored as a flat sequence, and a few counting facts. */
module Grid {

  /** Both coordinates lie in [0, n). */
  predicate InBounds(n: int, row: int, col: int) {
    0 <= row < n && 0 <= col < n
  }

  /** The flat position of cell (row, col): the board stores cell `row + n*col`. */
  function Idx(n: int, row: int, col: int): (i: int)
    requires InBounds(n, row, col)
    ensures 0 <= i < n * n
  {
    MulMono(n, col, n - 1);
    row + n * col
  }

  /** Two in-bounds cells with the same flat position are the same cell. */
  lemma IdxInjective(n: int, r1: int, c1: int, r2: int, c2: int)
    requires InBounds(n, r1, c1) && InBounds(n, r2, c2)
    requires Idx(n, r1, c1) == Idx(n, r2, c2)
    ensures r1 == r2 && c1 == c2
  {
    if c1 < c2 {
      ColumnsApart(n, r1, c1, r2, c2);
    } else if c2 < c1 {
      ColumnsApart(n, r2, c2, r1, c1);
    }
  }

  /** A cell in a later column has a larger flat position. */
  lemma ColumnsApart(n: int, r1: int, c1: int, r2: int, c2: int)
    requires InBounds(n, r1, c1) && InBounds(n, r2, c2) && c1 < c2
    ensures Idx(n, r1, c1) < Idx(n, r2, c2)
  {
    var d := c2 - c1;
    MulMono(n, 1, d);
    assert n * c2 == n * c1 + n * d;
  }

  /** Multiplying by a natural number keeps the order of its factors. */
  lemma {:induction false} MulMono(n: int, a: int, b: int)
    requires n >= 0 && 0 <= a <= b
    decreases b - a
    ensures n * a <= n * b
  {
    if a < b {
      MulMono(n, a, b - 1);
      assert n * b == n * (b - 1) + n;
    }
  }

  /** Every flat position below n*n is the position of some in-bounds cell. */
  lemma IdxCover(n: int, i: int)
    requires n >= 1 && 0 <= i < n * n
    ensures InBounds(n, i % n, i / n) && Idx(n, i % n, i / n) == i
  {
  }

  /** A sequence without repeated elements has as many distinct elements as it has entries. */
  lemma {:induction false} DistinctCard<T>(s: seq<T>)
    requires forall i, j :: 0 <= i < j < |s| ==> s[i] != s[j]
    ensures |set x | x in s| == |s|
  {
    if |s| > 0 {
      DistinctCard(s[1..]);
      assert (set x | x in s) == {s[0]} + (set x | x in s[1..]);
      assert s[0] !in (set x | x in s[1..]);
    }
  }
}
