/** The arithmetic of the playback clock. */
module Clock {

  import Modular

  /** C's remainder, which takes the sign of the dividend. */
  function TruncatedMod(a: int, b: int): int
    requires 0 < b
  {
    if 0 <= a then a % b else -((-a) % b)
  }

  /** The quotient is rounded toward zero: the remainder is smaller than the divisor and has the
      dividend's sign. */
  lemma RoundsTowardZero(a: int, b: int) returns (quotient: int)
    requires 0 < b
    ensures var r := TruncatedMod(a, b);
            a == b * quotient + r && -b < r < b && (0 <= a ==> 0 <= r) && (a <= 0 ==> r <= 0)
  {
    var q, r := Divided(if 0 <= a then a else -a, b);
    TruncatedIs(a, b);
    hide TruncatedMod;
    quotient := if 0 <= a then q else -q;
    Opposite(b, q);
  }

  lemma Divided(m: nat, b: int) returns (q: int, r: int)
    requires 0 < b
    ensures m == b * q + r && 0 <= r < b && r == m % b
  {
    q, r := m / b, m % b;
  }

  lemma TruncatedIs(a: int, b: int)
    requires 0 < b
    ensures TruncatedMod(a, b) == if 0 <= a then a % b else -(-a % b)
  {
  }

  lemma Opposite(b: int, q: int)
    ensures b * -q == -(b * q)
  {
  }

  /** The clock's last two steps: truncated remainder, then one song's length added to a
      negative result. Together they are the mathematical remainder. */
  lemma FixedUpRemainder(a: int, length: nat)
    requires 0 < length
    ensures var r := TruncatedMod(a, length); (if r < 0 then r + length else r) == Modular.Wrap(a, length)
  {
    if a < 0 {
      var q, r := (-a) / length, (-a) % length;
      assert length * q + r == -a;
      if r == 0 {
        assert a == length * -q by { assert length * -q == -(length * q); }
        Modular.Unique(a, length, -q, 0);
      } else {
        assert length * (-q - 1) == -(length * q) - length;
        Modular.Unique(a, length, -q - 1, length - r);
      }
    }
  }

  /** A counter that is only kept modulo the song's length is as good as the count of all queued frames. */
  lemma CounterIsEnough(counter: nat, queued: nat, drift: int, length: nat)
    requires 0 < length && Modular.Wrap(counter, length) == Modular.Wrap(queued, length)
    ensures Modular.Wrap(counter - queued + drift, length) == Modular.Wrap(drift, length)
  {
    Modular.WrapShift(counter, queued, drift - queued, length);
  }

  /** A clock that runs ahead by a drift shows the right position exactly when the drift is a
      whole number of songs. */
  lemma DriftExactly(position: int, drift: int, length: nat)
    requires 0 < length
    ensures Modular.Wrap(position + drift, length) == Modular.Wrap(position, length)
            <==> Modular.Wrap(drift, length) == 0
  {
    var p, q, d, e := position % length, position / length, drift % length, drift / length;
    assert length * q + p == position && length * e + d == drift;
    assert length * (q + e) == length * q + length * e;
    if p + d < length {
      Modular.Unique(position + drift, length, q + e, p + d);
    } else {
      assert length * (q + e + 1) == length * (q + e) + length;
      Modular.Unique(position + drift, length, q + e + 1, p + d - length);
    }
  }

  lemma NoDrift(length: nat)
    requires 0 < length
    ensures Modular.Wrap(0, length) == 0
  {
  }

  /** The counter is a 32-bit word: adding a half and reducing it modulo the song's length is
      exact as long as the sum does not wrap, or the length divides two to the 32. */
  lemma CounterWrapExactly(counter: nat, half: nat, length: nat)
    requires 0 < length && counter < 0x1_0000_0000 && half < 0x1_0000_0000
    ensures (counter + half) % 0x1_0000_0000 % length == (counter + half) % length
            <==> counter + half < 0x1_0000_0000 || 0x1_0000_0000 % length == 0
  {
    if 0x1_0000_0000 <= counter + half {
      var wrapped := counter + half - 0x1_0000_0000;
      assert (counter + half) % 0x1_0000_0000 == wrapped;
      DriftExactly(wrapped, 0x1_0000_0000, length);
    }
  }

  /** A counter of 2^32 - 1 and one frame more, of a song of three frames. */
  lemma CounterWraps()
    ensures (0xFFFF_FFFF + 1) % 0x1_0000_0000 % 3 == 0 && (0xFFFF_FFFF + 1) % 3 == 1
  {
    Modular.Unique(0x1_0000_0000, 3, 0x5555_5555, 1);
  }
}
