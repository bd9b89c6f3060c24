/** JavaScript's `Math.round` on real numbers, shared by the chart axis,
    the period targets and the colour opacity. */
module JsMath {
  /** `Math.round`: the nearest integer, halves rounded up. */
  function Round(x: real): int {
    (x + 0.5).Floor
  }

  lemma RoundMonotone(x: real, y: real)
    requires x <= y
    ensures Round(x) <= Round(y)
  {
  }

  lemma FloorBounds(x: real)
    ensures x.Floor as real <= x < x.Floor as real + 1.0
  {
  }

  /** The rounded value is within a half of `x`, and a whole number rounds
      to itself. */
  lemma RoundBounds(x: real)
    ensures x - 0.5 < Round(x) as real <= x + 0.5
    ensures x == x.Floor as real ==> Round(x) == x.Floor
  {
    FloorBounds(x + 0.5);
  }

  /** A whole number rounds to itself. */
  lemma RoundWhole(n: int)
    ensures Round(n as real) == n
  {
    assert (n as real).Floor == n;
    FloorBounds(n as real + 0.5);
  }
}
