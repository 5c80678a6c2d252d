/**
  Notions that several parts of the program share.
*/
module Common {

  datatype Option<T> = None | Some(value: T)

  ghost predicate Distinct<T>(s: seq<T>) {
    forall i, j :: 0 <= i < j < |s| ==> s[i] != s[j]
  }

  function Pow2(n: nat): (r: nat)
    ensures r >= 1
  {
    if n == 0 then 1 else 2 * Pow2(n - 1)
  }

  /** A position in a ring of `b` slots, at most once around. */
  function Wrap(i: nat, b: nat): (r: nat)
    requires 0 < b && i < 2 * b
    ensures r < b && r == i % b
  {
    if i < b then i else i - b
  }

  // --------------------------------------------------- quotients and remainders

  /** A quotient with a remainder in range is the quotient. */
  lemma DivIs(x: int, d: int, q: int, r: int)
    requires d > 0 && 0 <= r < d && x == q * d + r
    ensures x / d == q
  {
    var k := x / d - q;
    assert k * d == (x / d) * d - q * d;
    assert -d < k * d < d;
    assert k >= 1 ==> k * d >= d;
    assert k <= -1 ==> k * d <= -d;
  }

  /** The remainder by twice a number, from the half. */
  lemma ModStep(value: int, p: nat)
    requires p > 0
    ensures value % (2 * p) == 2 * (value / 2 % p) + value % 2
  {
    var h, r := value / 2 / p, value / 2 % p;
    assert value == (h * p + r) * 2 + value % 2;
    assert value == h * (2 * p) + (2 * r + value % 2);
    DivIs(value, 2 * p, h, 2 * r + value % 2);
  }
}
