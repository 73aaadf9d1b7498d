/**
 * The centered figurate number formulas. The centered k-gonal number c(k, n) counts the
 * points of a central point surrounded by n - 1 rings of k-gons, ring j holding k * j points.
 */
module Centered {

  /** centered_4: the centered square numbers. */
  function Centered4(n: int): int {
    n * n + (n - 1) * (n - 1)
  }

  /** centered_6: the centered hexagonal numbers, the difference of consecutive cubes. */
  function Centered6(n: int): int {
    n * n * n - (n - 1) * (n - 1) * (n - 1)
  }

  /** centered_10: the centered decagonal numbers. */
  function Centered10(n: int): int {
    5 * n * n - 5 * n + 1
  }

  /** The reference definition: one central point, then ring j of k * j points for j = 1 .. n - 1. */
  function CenteredPolygonal(k: int, n: nat): int
    requires n >= 1
  {
    if n == 1 then 1 else CenteredPolygonal(k, n - 1) + k * (n - 1)
  }

  lemma {:induction false} Centered4IsPolygonal(n: nat)
    requires n >= 1
    ensures Centered4(n) == CenteredPolygonal(4, n)
  {
    if n > 1 {
      Centered4IsPolygonal(n - 1);
      assert Centered4(n) == Centered4(n - 1) + 4 * (n - 1);
    }
  }

  lemma {:induction false} Centered6IsPolygonal(n: nat)
    requires n >= 1
    ensures Centered6(n) == CenteredPolygonal(6, n)
  {
    if n > 1 {
      Centered6IsPolygonal(n - 1);
      assert Centered6(n) == Centered6(n - 1) + 6 * (n - 1);
    }
  }

  lemma {:induction false} Centered10IsPolygonal(n: nat)
    requires n >= 1
    ensures Centered10(n) == CenteredPolygonal(10, n)
  {
    if n > 1 {
      Centered10IsPolygonal(n - 1);
      assert Centered10(n) == Centered10(n - 1) + 10 * (n - 1);
    }
  }

  /** With k positive, each ring adds points: the sequence starts at 1 and is strictly increasing. */
  lemma {:induction false} PolygonalIncreasing(k: int, m: nat, n: nat)
    requires k > 0 && 1 <= m < n
    ensures 1 <= CenteredPolygonal(k, m) < CenteredPolygonal(k, n)
    decreases n
  {
    if m == 1 && n == 2 {
    } else if m == n - 1 {
      PolygonalIncreasing(k, m - 1, m);
    } else {
      PolygonalIncreasing(k, m, n - 1);
    }
  }

  /** centered_4(n) = 2n^2 - 2n + 1 */
  lemma Centered4ClosedForm(n: int)
    ensures Centered4(n) == 2 * n * n - 2 * n + 1
  {
  }

  /** centered_6(n) = n^3 - (n - 1)^3 = 3n^2 - 3n + 1 */
  lemma Centered6ClosedForm(n: int)
    ensures Centered6(n) == 3 * n * n - 3 * n + 1
  {
  }

  /** Each formula yields 1 at n = 1 and strictly increases from there. */
  lemma Centered4Increasing(m: nat, n: nat)
    requires 1 <= m < n
    ensures Centered4(1) == 1 && 1 <= Centered4(m) < Centered4(n)
  {
    Centered4IsPolygonal(m);
    Centered4IsPolygonal(n);
    PolygonalIncreasing(4, m, n);
  }

  lemma Centered6Increasing(m: nat, n: nat)
    requires 1 <= m < n
    ensures Centered6(1) == 1 && 1 <= Centered6(m) < Centered6(n)
  {
    Centered6IsPolygonal(m);
    Centered6IsPolygonal(n);
    PolygonalIncreasing(6, m, n);
  }

  lemma Centered10Increasing(m: nat, n: nat)
    requires 1 <= m < n
    ensures Centered10(1) == 1 && 1 <= Centered10(m) < Centered10(n)
  {
    Centered10IsPolygonal(m);
    Centered10IsPolygonal(n);
    PolygonalIncreasing(10, m, n);
  }
}
