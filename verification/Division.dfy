/** Quotients and remainders by a variable, which the solver does not find by itself. */
module Division {
  lemma Grow(m: nat, d: int)
    ensures d >= 1 ==> m * d >= m
    ensures d <= -1 ==> m * d + m <= 0
  {}

  /** Quotient and remainder are unique. */
  lemma Unique(a: nat, m: nat, q: nat, r: nat)
    requires m > 0 && a == m * q + r && r < m
    ensures a / m == q && a % m == r
  {
    var d := a / m - q;
    assert m * d == m * (a / m) - m * q;
    Grow(m, d);
  }

  function Quot(a: nat, m: nat): nat
    requires m > 0
  {
    a / m
  }

  function Rem(a: nat, m: nat): (r: nat)
    requires m > 0
    ensures r < m
  {
    a % m
  }

  /** The first element of the unit-th run of m elements. */
  function Base(unit: nat, m: nat): nat { unit * m }

  lemma QuotRem(a: nat, m: nat)
    requires m > 0
    ensures a == Base(Quot(a, m), m) + Rem(a, m)
  {}
}
