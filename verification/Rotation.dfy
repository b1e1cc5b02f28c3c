/**
  * The 8-bit counter that turns over the addresses of a row, taken modulo their number.
  */
module Rotation {
  import opened Words
  import opened TickClock
  import opened DnsAddresses

  /** Look-up number `i`, with the counter at `c` before the first one, gives address `r` of `m`. */
  predicate Returns(c: Byte, m: nat, i: nat, r: nat)
    requires m > 0
  {
    Counter(c, i) % m == r
  }

  /** One of `m` look-ups does. */
  ghost predicate IsReturned(c: Byte, m: nat, r: nat)
    requires m > 0
  {
    exists i: nat :: i < m && Returns(c, m, i, r)
  }

  /** `m` look-ups in a row return all `m` addresses. */
  ghost predicate ReturnsAll(c: Byte, m: nat)
    requires m > 0
  {
    forall r: nat :: r < m ==> IsReturned(c, m, r)
  }

  lemma Remainder(x: nat, m: nat, q: int, e: nat)
    requires m > 0 && x == q * m + e && e < m
    ensures x % m == e
  {
    Divided(x, m);
    Ordered(q, x / m, m, x);
    Ordered(x / m, q, m, x);
  }

  lemma NoMultiple(m: nat, z: int, t: int)
    requires m > 0 && z * m == t
    ensures !(0 < t < m)
  {
    if z <= 0 {
      Scaled(z, 0, m);
    } else {
      Scaled(1, z, m);
    }
  }

  lemma CounterIs(c: Byte, i: nat)
    requires i <= 0x100
    ensures Counter(c, i) == if c + i < 0x100 then c + i else c + i - 0x100
  {
  }

  /** The look-up that gives address `r`, if the counter did not wrap. */
  lemma NextMultiple(c: Byte, m: nat, r: nat) returns (i: nat, q: int)
    requires 0 < m && r < m
    ensures i < m && c + i == q * m + r
  {
    Divided(c, m);
    var s := c % m;
    if r >= s {
      i, q := r - s, c / m;
    } else {
      i, q := r + m - s, c / m + 1;
      assert q * m == (c / m) * m + m;
    }
  }

  lemma AllReturned(c: Byte, m: nat)
    requires 0 < m <= 0x100 && (c + m <= 0x100 || 0x100 % m == 0)
    ensures ReturnsAll(c, m)
  {
    forall r: nat | r < m
      ensures IsReturned(c, m, r)
    {
      var i, q := NextMultiple(c, m, r);
      CounterIs(c, i);
      if c + i < 0x100 {
        Remainder(c + i, m, q, r);
      } else {
        Divided(0x100, m);
        assert (q - 0x100 / m) * m == q * m - (0x100 / m) * m;
        Remainder(c + i - 0x100, m, q - 0x100 / m, r);
      }
      assert Returns(c, m, i, r);
    }
  }

  /** An address that is not returned when the counter wraps in between. */
  function Missed(c: Byte, m: nat): nat
    requires 0 < m <= 0x100 < c + m
  {
    var e := 0x100 % m + (c + m - 0x100) - 1;
    if e < m then e else m - 1
  }

  lemma MultiplesApart(p: int, q: int, m: nat, t: int)
    requires 0 < t < m
    ensures p * m != q * m + t
  {
    assert (p - q) * m == p * m - q * m;
    NoMultiple(m, p - q, p * m - q * m);
  }

  /** `r` is the remainder of 256, and the counter wraps `k` look-ups before the last one. */
  lemma NotBeforeWrap(m: nat, r: nat, k: nat, e: nat, j: nat, p: int, q: int)
    requires 0 < r < m && 1 <= k < m && 1 <= j <= m - k
    requires e == if r + k - 1 < m then r + k - 1 else m - 1
    ensures p * m + r != q * m + e + j
  {
    MultiplesApart(p, q, m, e + j - r);
  }

  lemma NotReturned(c: Byte, m: nat, i: nat)
    requires 0 < m <= 0x100 < c + m && 0x100 % m != 0 && i < m
    ensures !Returns(c, m, i, Missed(c, m))
  {
    CounterIs(c, i);
    Divided(0x100, m);
    Divided(Counter(c, i), m);
    var e, k, q := Missed(c, m), c + m - 0x100, Counter(c, i) / m;
    if c + i < 0x100 {
      NotBeforeWrap(m, 0x100 % m, k, e, 0x100 - (c + i), 0x100 / m, q);
    } else if Returns(c, m, i, e) {
      NotSmall(c + i - 0x100, m, q, e);
    }
  }

  /** A number below `e` does not leave the remainder `e`. */
  lemma NotSmall(x: nat, m: nat, q: int, e: nat)
    requires m > 0 && x == q * m + e && e < m
    ensures x >= e
  {
    if q < 0 {
      Scaled(q, -1, m);
    } else {
      Scaled(0, q, m);
    }
  }

  /** `m` look-ups in a row return each of `m` addresses if and only if the counter does not wrap
      behind the first and in front of the last one, or `m` is a power of two. */
  lemma ReturnsAllExactly(c: Byte, m: nat)
    requires 0 < m <= 0x100
    ensures ReturnsAll(c, m) <==> c + m <= 0x100 || 0x100 % m == 0
  {
    if c + m <= 0x100 || 0x100 % m == 0 {
      AllReturned(c, m);
    } else {
      var e := Missed(c, m);
      forall i: nat | i < m
        ensures !Returns(c, m, i, e)
      {
        NotReturned(c, m, i);
      }
      assert !IsReturned(c, m, e);
    }
  }

  /** Of three addresses one is left out when the counter wraps. */
  lemma OneOfThreeMissed()
    ensures !ReturnsAll(254, 3)
  {
    ReturnsAllExactly(254, 3);
  }
}
