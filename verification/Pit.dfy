/** The interval timer of pit.c: ticks, milliseconds and the divisor, with 32-bit and 16-bit wrap. */
module Pit {
  import opened Words

  const PIT_FREQUENCY := 1193180
  const DIVISOR_RANGE := 0x1_0000

  /** The time in milliseconds that pit_get_time_ms computes from a tick count. */
  function TimeMs(ticks: word, frequency: nat): int
    requires frequency > 0
  {
    ticks * 1000 % WORD / frequency
  }

  /** The ticks pit_sleep_ms waits for. */
  function SleepTicks(ms: word, frequency: nat): (k: nat) {
    ms * frequency % WORD / 1000
  }

  /** The 16-bit divisor programmed for a frequency. */
  function Divisor(frequency: nat): nat
    requires frequency > 0
  {
    PIT_FREQUENCY / frequency % DIVISOR_RANGE
  }

  class Timer {
    var systemTicks: word
    var currentFrequency: nat
    /** What the timer chip was last told. */
    var divisor: nat

    ghost predicate Valid()
      reads this
    {
      0 < currentFrequency <= PIT_FREQUENCY && divisor == Divisor(currentFrequency)
    }

    /** pit_init */
    constructor ()
      ensures Valid() && systemTicks == 0 && currentFrequency == 100 && divisor == 11931
    {
      systemTicks := 0;
      currentFrequency := 100;
      divisor := PIT_FREQUENCY / 100;
    }

    /** pit_handler */
    method Handler()
      modifies this`systemTicks
      ensures systemTicks == (old(systemTicks) + 1) % WORD
    {
      systemTicks := (systemTicks + 1) % WORD;
    }

    /** pit_set_frequency: a frequency the chip cannot have is ignored. */
    method SetFrequency(frequency: word)
      requires Valid()
      modifies this`currentFrequency, this`divisor
      ensures Valid()
      ensures currentFrequency == if 1 <= frequency <= PIT_FREQUENCY then frequency else old(currentFrequency)
    {
      if frequency < 1 || frequency > PIT_FREQUENCY {
        return;
      }
      divisor := PIT_FREQUENCY / frequency % DIVISOR_RANGE;
      currentFrequency := frequency;
    }

    /** pit_get_time_ms */
    method GetTimeMs() returns (ms: int)
      requires Valid()
      ensures ms == TimeMs(systemTicks, currentFrequency)
    {
      ms := systemTicks * 1000 % WORD / currentFrequency;
    }

    /** pit_sleep_ms: it returns on the first tick that reaches its target. Without 32-bit wrap the
        clock then shows at most ms more than before, and less than 1000 / frequency + 1 short of it. */
    method SleepMs(ms: word)
      requires Valid()
      modifies this`systemTicks
      ensures var target := (old(systemTicks) + SleepTicks(ms, currentFrequency)) % WORD;
              systemTicks == if old(systemTicks) < target then target else old(systemTicks)
      ensures var f := currentFrequency;
              NoWrap(old(systemTicks), ms, f) ==>
                SleptFor(TimeMs(systemTicks, f) - TimeMs(old(systemTicks), f), ms, f)
    {
      hide NoWrap, SleptFor, TimeMs, SleepTicks;
      if NoWrap(systemTicks, ms, currentFrequency) {
        SleepBounds(systemTicks, ms, currentFrequency);
      }
      var target := (systemTicks + SleepTicks(ms, currentFrequency)) % WORD;
      while systemTicks < target
        invariant systemTicks == old(systemTicks) || old(systemTicks) < systemTicks <= target
        decreases target - systemTicks
      {
        Handler();
      }
    }
  }

  /** diff <= ms and diff > ms - 1000 / f - 1, in whole numbers. */
  predicate SleptFor(diff: int, ms: int, f: int) {
    diff <= ms && (ms - diff - 1) * f < 1000
  }

  /** Neither the product, nor the target, nor its milliseconds leave 32 bits. */
  predicate NoWrap(t: word, ms: word, f: nat) {
    ms * f < WORD && (t + ms * f / 1000) * 1000 < WORD
  }

  lemma SleepBounds(t: word, ms: word, f: nat)
    requires 0 < f && NoWrap(t, ms, f)
    ensures (t + SleepTicks(ms, f)) % WORD == t + SleepTicks(ms, f)
    ensures SleptFor(TimeMs((t + SleepTicks(ms, f)) % WORD, f) - TimeMs(t, f), ms, f)
  {
    SleepTicksUnwrapped(t, ms, f);
    SleptForTicks(t, SleepTicks(ms, f), ms, f);
  }

  lemma SleepTicksUnwrapped(t: word, ms: word, f: nat)
    requires 0 < f && NoWrap(t, ms, f)
    ensures var k := SleepTicks(ms, f);
            k * 1000 <= ms * f < k * 1000 + 1000 && (t + k) * 1000 < WORD && (t + k) % WORD == t + k
  {
    var p: nat := ms * f;
    assert p % WORD == p;
  }

  lemma TimeUnwrapped(t: word, f: nat)
    requires 0 < f && t * 1000 < WORD
    ensures TimeMs(t, f) == t * 1000 / f
  {
    assert t * 1000 % WORD == t * 1000;
  }

  lemma SleptForTicks(t: word, k: nat, ms: word, f: nat)
    requires 0 < f && k * 1000 <= ms * f < k * 1000 + 1000 && (t + k) * 1000 < WORD
    ensures t + k < WORD && SleptFor(TimeMs(t + k, f) - TimeMs(t, f), ms, f)
  {
    hide SleptFor, TimeMs;
    TimeUnwrapped(t, f);
    TimeUnwrapped(t + k, f);
    RoundedGap(t * 1000, k * 1000, ms, f);
    assert (t + k) * 1000 == t * 1000 + k * 1000;
  }

  /** Two quotients by f whose numerators differ by at most ms * f, and by more than ms * f - 1000. */
  lemma RoundedGap(a: int, d: int, ms: int, f: int)
    requires f > 0 && 0 <= a && ms * f - 1000 < d <= ms * f
    ensures SleptFor((a + d) / f - a / f, ms, f)
  {
    var q, r := a / f, a % f;
    var q', r' := (a + d) / f, (a + d) % f;
    assert q * f + r == a && q' * f + r' == a + d;
    MulDiff(q', q, f);
    var diff := q' - q;
    assert diff * f == d + r - r';
    if diff > ms {
      MulDiff(diff, ms, f);
      MulAtLeast(diff - ms, f);
    }
    MulDiff(ms, diff, f);
    MulDiff(ms - diff, 1, f);
  }

  /** The clock reading is the number of milliseconds exactly as long as ticks * 1000 fits 32 bits. */
  lemma TimeExact(t: word, f: nat)
    requires 0 < f <= PIT_FREQUENCY
    ensures TimeMs(t, f) == t * 1000 / f <==> t * 1000 < WORD
  {
    WrapShowsInQuotient(t * 1000, f);
  }

  /** The sleep is computed right exactly when ms * frequency fits 32 bits. */
  lemma SleepTicksExact(ms: word, f: nat)
    requires 0 < f <= PIT_FREQUENCY
    ensures SleepTicks(ms, f) == ms * f / 1000 <==> ms * f < WORD
  {
    assert 0 <= ms * f;
    WrapShowsInQuotient(ms * f, 1000);
  }

  lemma WrapShowsInQuotient(x: nat, f: nat)
    requires 0 < f <= PIT_FREQUENCY
    ensures x % WORD / f == x / f <==> x < WORD
  {
    if x >= WORD {
      var y := x % WORD;
      var q, q' := x / f, y / f;
      assert y + WORD <= x;
      assert q * f + x % f == x && q' * f + y % f == y;
      MulDiff(q, q', f);
      assert (q - q') * f > 0;
    }
  }

  /** Wrapped or not, the clock and the sleep are rounded down from the low 32 bits of their products,
      and the divisor is the low 16 bits of the rounded-down quotient of 1193180. */
  lemma LowBitsRead(t: word, ms: word, f: nat)
    requires 0 < f <= PIT_FREQUENCY
    ensures TimeMs(t, f) * f <= t * 1000 % 0x1_0000_0000 < TimeMs(t, f) * f + f
    ensures SleepTicks(ms, f) * 1000 <= ms * f % 0x1_0000_0000 < SleepTicks(ms, f) * 1000 + 1000
    ensures exists q: nat, h: nat ::
              q * f <= 1193180 < q * f + f && q == h * 0x1_0000 + Divisor(f) && Divisor(f) < 0x1_0000
  {
    RoundedDown(t * 1000 % WORD, f);
    RoundedDown(ms * f % WORD, 1000);
    RoundedDown(PIT_FREQUENCY, f);
    var q: nat := PIT_FREQUENCY / f;
    var h: nat := q / DIVISOR_RANGE;
    assert q == h * 0x1_0000 + Divisor(f);
  }

  lemma RoundedDown(x: nat, d: nat)
    requires d > 0
    ensures x / d * d <= x < x / d * d + d
  {
    assert x / d * d + x % d == x;
  }

  /** The programmed divisor is the rounded-down quotient exactly from 19 Hz up; below, 16 bits are
      not enough. */
  lemma DivisorExact(f: nat)
    requires 1 <= f <= PIT_FREQUENCY
    ensures var d := Divisor(f); f * d <= PIT_FREQUENCY < f * (d + 1) <==> f >= 19
  {
    var q := PIT_FREQUENCY / f;
    assert q * f + PIT_FREQUENCY % f == PIT_FREQUENCY;
    if f >= 19 {
      if q > 65535 {
        Product(q, 65536, f, 19);
      }
      assert Divisor(f) == q;
    } else {
      if q <= 65535 {
        Product(65535, q, 18, f);
      }
      assert Divisor(f) + 1 <= q;
      Product(q, Divisor(f) + 1, f, f);
    }
  }

  lemma Product(a: nat, a': nat, b: nat, b': nat)
    requires a >= a' && b >= b'
    ensures a * b >= a' * b'
  {
    assert a * b >= a' * b >= a' * b';
  }
}
