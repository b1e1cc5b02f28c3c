/**
  * The clock of the DNS cache: seconds computed from a 32-bit counter of ticks, and how long
  * the difference of two of them is an age.
  */
module TickClock {
  import opened Words

  /** The number of ticks after which the counter starts again. */
  const ROUND := 0x1_0000_0000

  /** `xTaskGetTickCount() / configTICK_RATE_HZ`, `ticks` ticks after the start. */
  function Seconds(ticks: nat, rate: nat): Word32
    requires rate > 0
  {
    Quotient(Wrap32(ticks), rate);
    Wrap32(ticks) / rate
  }

  /** The difference of two times in seconds, in 32 bits. */
  function Difference(later: Word32, earlier: Word32): Word32 {
    Wrap32(ROUND + later - earlier)
  }

  // ---------------------------------------------------------------------------
  // Quotients.
  // ---------------------------------------------------------------------------

  lemma Divided(a: nat, rate: nat)
    requires rate > 0
    ensures a == (a / rate) * rate + a % rate && 0 <= a % rate < rate
  {
  }

  lemma Scaled(p: int, q: int, rate: nat)
    requires p <= q
    ensures p * rate <= q * rate
  {
  }

  lemma Quotient(a: nat, rate: nat)
    requires rate > 0
    ensures 0 <= a / rate <= a
  {
    var q, rest := a / rate, a % rate;
    Divided(a, rate);
    if q < 0 {
      Scaled(q, -1, rate);
    } else {
      assert q * rate == q + q * (rate - 1);
      Scaled(0, q, rate - 1);
    }
  }

  /** Quotients keep the order. */
  lemma Ordered(p: int, q: int, rate: nat, b: int)
    requires rate > 0 && p * rate <= b < q * rate + rate
    ensures p <= q
  {
    if p > q {
      assert (q + 1) * rate == q * rate + rate;
      Scaled(q + 1, p, rate);
    }
  }

  /** Less than `ttl` whole seconds, and a rest. */
  lemma WithRest(q: int, rest: int, rate: nat, ttl: nat)
    requires rest < rate && q < ttl
    ensures q * rate + rest < ttl * rate
  {
    assert (q + 1) * rate == q * rate + rate;
    Scaled(q + 1, ttl, rate);
  }

  // ---------------------------------------------------------------------------
  // Ages.
  // ---------------------------------------------------------------------------

  /** The counter did not start again between the times `a` and `b`. */
  lemma SameRound(a: nat, b: nat, rate: nat, ttl: nat)
    requires rate > 0 && a <= b < ROUND
    requires 0 <= a / rate < ROUND && 0 <= b / rate < ROUND && Difference(b / rate, a / rate) < ttl
    ensures b - a < ttl * rate
  {
    var p, q := a / rate, b / rate;
    Divided(a, rate);
    Divided(b, rate);
    Ordered(p, q, rate, b);
    assert Difference(q, p) == q - p;
    assert (q - p) * rate == q * rate - p * rate;
    WithRest(q - p, b % rate - a % rate, rate, ttl);
  }

  /** It did, and at least `rate` ticks are missing to a whole round. */
  lemma NextRound(a: nat, b: nat, rate: nat, ttl: nat)
    requires rate > 0 && b + rate <= a < ROUND
    requires 0 <= a / rate < ROUND && 0 <= b / rate < ROUND && Difference(b / rate, a / rate) < ttl
    ensures ROUND + b - a < ttl * rate
  {
    var p, q := a / rate, b / rate;
    Divided(a, rate);
    Divided(b, rate);
    assert (q + 1) * rate == q * rate + rate;
    Ordered(q + 1, p, rate, a);
    var age := ROUND + q - p;
    assert Difference(q, p) == age;
    assert age * rate == ROUND * rate + q * rate - p * rate;
    WithRest(age, b % rate - a % rate, rate, ttl);
  }

  lemma AfterGap(stored: nat, gap: nat)
    requires gap < ROUND
    ensures var a, b := Wrap32(stored), Wrap32(stored + gap); b == a + gap || b == a + gap - ROUND
  {
  }

  /** An age that is less than the time to live is right if less than a round has passed, by at
      least one second. */
  lemma ToldApart(stored: nat, gap: nat, rate: nat, ttl: nat)
    requires 0 < rate && gap + rate <= ROUND
    requires Difference(Seconds(stored + gap, rate), Seconds(stored, rate)) < ttl
    ensures gap < ttl * rate
  {
    AfterGap(stored, gap);
    var a, b := Wrap32(stored), Wrap32(stored + gap);
    Quotient(a, rate);
    Quotient(b, rate);
    if b == a + gap {
      SameRound(a, b, rate, ttl);
    } else {
      NextRound(a, b, rate, ttl);
    }
  }

  // ---------------------------------------------------------------------------
  // Wrong ages.
  // ---------------------------------------------------------------------------

  /** The time at which something is stored whose age is wrong `gap` ticks later. */
  function BadTime(gap: nat, rate: nat): nat
    requires rate > 0
  {
    if gap < ROUND then rate - 1 else 0
  }

  lemma FirstSecond(ticks: nat, rate: nat)
    requires rate > 0 && Wrap32(ticks) < rate
    ensures Seconds(ticks, rate) == 0
  {
    var q := Wrap32(ticks) / rate;
    Divided(Wrap32(ticks), rate);
    Quotient(Wrap32(ticks), rate);
    Ordered(q, 0, rate, Wrap32(ticks));
  }

  /** What was stored `gap` ticks ago seems to be younger than `ttl` seconds, and is not. */
  predicate Misjudged(stored: nat, gap: nat, rate: nat, ttl: nat)
    requires rate > 0
  {
    Difference(Seconds(stored + gap, rate), Seconds(stored, rate)) < ttl && gap >= ttl * rate
  }

  lemma Mistaken(gap: nat, rate: nat) returns (ttl: nat)
    requires 0 < rate <= 0x8000_0000 && gap + rate > ROUND
    ensures Misjudged(BadTime(gap, rate), gap, rate, ttl)
  {
    var stored := BadTime(gap, rate);
    FirstSecond(stored, rate);
    var later := Seconds(stored + gap, rate);
    assert Difference(later, Seconds(stored, rate)) == later;
    ttl := later + 1;
    assert ttl * rate == later * rate + rate;
    if gap < ROUND {
      FirstSecond(stored + gap, rate);
    } else {
      Divided(Wrap32(gap), rate);
      assert Wrap32(gap) <= gap - ROUND;
    }
  }

  /** For every tick rate, ages are right after a gap, whenever something was stored, if and only
      if the gap is shorter than a round of the counter, by at least one second. */
  lemma ReliableExactly(gap: nat, rate: nat)
    requires 0 < rate <= 0x8000_0000
    ensures gap + rate <= ROUND <==> forall stored: nat, ttl: nat :: !Misjudged(stored, gap, rate, ttl)
  {
    if gap + rate <= ROUND {
      forall stored: nat, ttl: nat
        ensures !Misjudged(stored, gap, rate, ttl)
      {
        if Misjudged(stored, gap, rate, ttl) {
          ToldApart(stored, gap, rate, ttl);
        }
      }
    } else {
      var ttl := Mistaken(gap, rate);
    }
  }
}
