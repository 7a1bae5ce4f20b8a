/** Types, constants and facts about integers and sets shared by the models. */
module Arith {
  type Byte = b: int | 0 <= b < 256

  datatype Option<+T> = None | Some(value: T)

  function Min(a: nat, b: nat): nat { if a < b then a else b }

  function Max(a: nat, b: nat): nat { if a < b then b else a }

  /** The remainder is the only representative in range. */
  lemma ModUnique(x: int, m: int, q: int, r: int)
    requires m > 0 && x == m * q + r && 0 <= r < m
    ensures x % m == r && x / m == q
  {
    assert m * (q - x / m) == x % m - r by { Distribute(m, q, x / m); }
    MultipleOutside(m, q - x / m);
  }

  lemma Distribute(m: int, a: int, b: int)
    ensures m * (a - b) == m * a - m * b
  {}

  lemma MultipleOutside(m: int, d: int)
    requires m > 0
    ensures d != 0 ==> m * d >= m || m * d <= -m
  {}

  lemma MulLe(a: nat, b: nat, c: nat)
    requires a <= b
    ensures a * c <= b * c
  {}

  lemma SubsetSize<T>(a: set<T>, b: set<T>)
    requires a <= b
    ensures |a| <= |b|
  { if a != {} { var x :| x in a; SubsetSize(a - {x}, b - {x}); } }
}
