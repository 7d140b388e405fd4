/** The few facts about remainders that the models need. */
module Modular {

  const TWO_TO_THE_32: nat := 0x1_0000_0000

  /** The remainder, as a function of its own so that proofs can leave it closed. */
  function Wrap(a: int, n: nat): (r: nat)
    requires 0 < n
    ensures r < n
  {
    a % n
  }

  /** Positions with equal remainders stay so when both move on. */
  lemma WrapShift(a: int, b: int, i: int, n: nat)
    requires 0 < n && Wrap(a, n) == Wrap(b, n)
    ensures Wrap(a + i, n) == Wrap(b + i, n)
  {
    Shift(a, i, n);
    Shift(b, i, n);
  }

  lemma WrapWrap(a: int, n: nat)
    requires 0 < n
    ensures Wrap(Wrap(a, n), n) == Wrap(a, n)
  {
  }

  lemma Unique(a: int, n: nat, q: int, r: nat)
    requires 0 < n && r < n && a == n * q + r
    ensures a / n == q && a % n == r && Wrap(a, n) == r
  {
    var d := a / n - q;
    assert n * (a / n) + a % n == a;
    assert n * d == r - a % n by { assert n * d == n * (a / n) - n * q; }
    if d != 0 {
      Scale(n, if d > 0 then d else -d);
      assert false;
    }
  }

  lemma Scale(n: int, k: int)
    requires 0 < n && 0 < k
    ensures n <= n * k
    ensures n * -k == -(n * k)
    decreases k
  {
    if k > 1 {
      Scale(n, k - 1);
      assert n * k == n * (k - 1) + n;
    }
  }

  /** Reducing a term of a sum does not change the sum's remainder. */
  lemma Shift(a: int, i: int, n: nat)
    requires 0 < n
    ensures (a % n + i) % n == (a + i) % n
  {
    var q, s := a / n, a % n + i;
    assert n * q + a % n == a;
    assert a + i == n * (q + s / n) + s % n by {
      assert n * (s / n) + s % n == s;
      assert n * (q + s / n) == n * q + n * (s / n);
    }
    Unique(a + i, n, q + s / n, s % n);
  }

  /** Adding the modulus changes nothing. */
  lemma AddModulus(a: int, n: nat)
    requires 0 < n
    ensures (a + n) % n == a % n && Wrap(a + n, n) == Wrap(a, n)
  {
    assert n * (a / n) + a % n == a;
    assert n * (a / n + 1) == n * (a / n) + n;
    Unique(a + n, n, a / n + 1, a % n);
  }
}
