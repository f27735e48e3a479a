/** What several parts share: optional values, bytes, the header of a block, and multiples. */
module Basics {

  datatype Option<T> = None | Some(value: T)

  type Byte = x: int | 0 <= x < 256

  type Bytes = seq<Byte>

  /** The page header and the block header, with which every block starts. */
  const HEADER_SIZE: nat := 36

  lemma Times(a: int, b: int, p: int)
    requires a <= b && p >= 0
    ensures a * p <= b * p
  {
  }

  lemma DivIs(n: int, p: int, q: int, r: int)
    requires p > 0 && n == q * p + r && 0 <= r < p
    ensures n / p == q && n % p == r
  {
    if n / p < q {
      Times(n / p + 1, q, p);
    } else if n / p > q {
      Times(q + 1, n / p, p);
    }
  }

  lemma ModIs(a: int, q: int)
    requires a > 0
    ensures (q * a) % a == 0
  {
    DivIs(q * a, a, q, 0);
  }

  /** Two multiples are a whole step apart. */
  lemma MultiplesApart(a: nat, x: nat, y: nat)
    requires a > 0 && x % a == 0 && y % a == 0 && x < y
    ensures x + a <= y
  {
    var i, j := x / a, y / a;
    assert x == a * i && y == a * j;
    assert j <= i ==> a * j <= a * i;
    assert a * (i + 1) <= a * j;
  }

  /** The least multiple that is not less. */
  function AlignUp(n: nat, a: nat): (r: nat)
    requires a > 0
    ensures n <= r < n + a && r % a == 0
  {
    assert ((n + a - 1) / a * a) % a == 0 by { ModIs(a, (n + a - 1) / a); }
    (n + a - 1) / a * a
  }
}
