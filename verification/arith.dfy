/** Small facts of integer arithmetic that the nonlinear solver does not
    find on its own. */
module Arith {

  lemma MulStep(a: int, n: int)
    ensures (a + 1) * n == a * n + n
  {
  }

  lemma MulSign(a: int, b: int)
    ensures a >= 0 && b >= 0 ==> a * b >= 0
    ensures a <= 0 && b >= 0 ==> a * b <= 0
  {
  }

  lemma SmallMultipleIsZero(k: int, n: int)
    requires 0 < n && -n < k * n < n
    ensures k == 0
  {
    MulStep(k - 1, n);
    MulSign(k - 1, n);
    MulStep(k, n);
    MulSign(k + 1, n);
  }

  /** Euclidean remainder is unique: q * n + s with s < n leaves s. */
  lemma ModOfMultiplePlus(q: nat, n: nat, s: nat)
    requires s < n
    ensures (q * n + s) % n == s
  {
    var x := q * n + s;
    var d := x / n;
    var r := x % n;
    assert (q - d) * n == r - s by { assert x == d * n + r; }
    SmallMultipleIsZero(q - d, n);
  }

  /** A remainder below the modulus is the number itself. */
  lemma ModBelow(y: nat, n: nat)
    ensures y < n ==> y % n == y
  {
    if y < n {
      ModOfMultiplePlus(0, n, y);
    }
  }

  /** Euclidean division is unique: q * n + s with s < n gives q. */
  lemma DivOfMultiplePlus(q: nat, n: nat, s: nat)
    requires s < n
    ensures (q * n + s) / n == q
  {
    ModOfMultiplePlus(q, n, s);
  }
}
