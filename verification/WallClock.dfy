/** The wall clock of the HAL: reset time plus elapsed ticks. Reading uses a 64-bit product, setting a
    32-bit one. */
module WallClock {
  import opened Words

  const US: nat := 1000000

  datatype Time = Time(sec: int, usec: int)

  function Total(t: Time): int {
    t.sec * US + t.usec
  }

  predicate Normal(t: Time) {
    0 <= t.usec < US
  }

  /** Whole microseconds in a tick, as the code computes them. */
  function Unit(rate: nat): nat
    requires rate > 0
  {
    US / rate
  }

  function Micros64(nticks: nat, rate: nat): nat
    requires rate > 0
  {
    nticks * Unit(rate) % US
  }

  function Micros32(nticks: nat, rate: nat): nat
    requires rate > 0
  {
    nticks * Unit(rate) % U32 % US
  }

  /** Before the normalising loops. */
  function Raw(reset: Time, nticks: nat, rate: nat): Time
    requires rate > 0
  {
    Time(reset.sec + nticks / rate, reset.usec + Micros64(nticks, rate))
  }

  /** What the loops make of a time: a moment before zero with a negative microsecond part becomes
      zero, everything else is carried into range. */
  function Normalised(t: Time): Time {
    if t.usec < 0 && Total(t) < 0 then Time(0, 0)
    else Time(Total(t) / US, Total(t) % US)
  }

  function Reading(reset: Time, nticks: nat, rate: nat): Time
    requires rate > 0
  {
    Normalised(Raw(reset, nticks, rate))
  }

  function ResetFor(t: Time, nticks: nat, rate: nat): Time
    requires rate > 0
  {
    Time(t.sec - nticks / rate, t.usec - Micros32(nticks, rate))
  }

  const ENOTSUP: int := 134

  class Clock {
    var tickRate: u32
    var nticks: u32
    var resettime: Time
    var timezone: (int, int)

    constructor (tickRate: u32)
      ensures this.tickRate == tickRate && nticks == 0 && resettime == Time(0, 0) && timezone == (0, 0)
    {
      this.tickRate, nticks, resettime, timezone := tickRate, 0, Time(0, 0), (0, 0);
    }

    method SetTimeOfDay(t: Time, tz: (int, int)) returns (rc: int)
      modifies this`resettime, this`timezone
      ensures tickRate == 0 ==> rc == -1 && resettime == old(resettime) && timezone == old(timezone)
      ensures tickRate != 0 ==> rc == 0 && resettime == ResetFor(t, nticks, tickRate) && timezone == tz
    {
      if tickRate == 0 {
        return -1;
      }
      resettime := Time(t.sec - nticks / tickRate, t.usec - nticks * (US / tickRate) % U32 % US);
      timezone := tz;
      rc := 0;
    }

    method GetTimeOfDay() returns (rc: int, t: Time, tz: (int, int))
      ensures tickRate == 0 ==> rc == -134
      ensures tickRate != 0 ==> rc == 0 && t == Reading(resettime, nticks, tickRate) && tz == timezone
    {
      t, tz := Time(0, 0), timezone;
      if tickRate == 0 {
        return -ENOTSUP, t, tz;
      }
      var sec := resettime.sec + nticks / tickRate;
      var usec := resettime.usec + nticks * (US / tickRate) % US;
      ghost var raw := Raw(resettime, nticks, tickRate);
      while usec < 0
        invariant Total(Time(sec, usec)) == Total(raw)
        invariant raw.usec >= 0 ==> usec >= 0
        invariant raw.usec < 0 ==> usec < US
        invariant raw.usec >= 0 ==> usec == raw.usec
        invariant raw.usec < 0 && usec >= 0 ==> sec >= 0
        decreases sec, -usec
      {
        if sec <= 0 {
          sec := 0;
          usec := 0;
          assert Total(raw) < 0;
          return 0, Time(0, 0), timezone;
        } else {
          sec := sec - 1;
          usec := usec + US;
        }
      }
      while usec >= US
        invariant Total(Time(sec, usec)) == Total(raw) && usec >= 0
        invariant raw.usec < 0 ==> sec >= 0
      {
        sec := sec + 1;
        usec := usec - US;
      }
      assert raw.usec < 0 ==> Total(raw) >= 0;
      t := Time(sec, usec);
      rc := 0;
    }
  }

  // ----- the reading is linear in the ticks

  lemma TicksSplit(n: nat, q: nat, r: nat, rate: nat, u: nat)
    requires n == q * rate + r && rate * u == US
    ensures n * u == q * US + r * u
  {
    calc {
      n * u;
      (q * rate + r) * u;
      q * rate * u + r * u;
      { assert q * rate * u == q * (rate * u); }
      q * US + r * u;
    }
  }

  lemma MulBelow(r: nat, rate: nat, u: nat)
    requires r < rate && rate * u == US
    ensures 0 <= r * u < US
  {
    MulNonneg(r, u);
    assert u > 0;
    MulNonneg(rate - r - 1, u);
    assert (rate - r - 1) * u == rate * u - r * u - u;
  }

  /** With a rate that divides a second, a reading is the reset time plus the elapsed microseconds. */
  lemma RawIsLinear(reset: Time, nticks: nat, rate: nat)
    requires rate > 0 && US % rate == 0
    ensures Total(Raw(reset, nticks, rate)) == Total(reset) + nticks * Unit(rate)
  {
    var u := Unit(rate);
    assert US == rate * u;
    var q, r := nticks / rate, nticks % rate;
    assert nticks == q * rate + r;
    TicksSplit(nticks, q, r, rate, u);
    MulBelow(r, rate, u);
    ModIsUnique(nticks * u, q, r * u, US);
  }

  /** The reading a moment before zero is clipped to: only with a negative microsecond part. */
  predicate Clipped(reset: Time, nticks: nat, rate: nat)
    requires rate > 0
  {
    Raw(reset, nticks, rate).usec < 0 && Total(reset) + nticks * Unit(rate) < 0
  }

  /** For every reset time, a negative one included: the reading is in range, and it is the reset time plus
      the elapsed microseconds exactly unless it is clipped, when it is zero. It never is clipped from the
      moment zero on. */
  lemma ReadingIsResetPlusElapsed(reset: Time, nticks: nat, rate: nat)
    requires rate > 0 && US % rate == 0
    ensures var r, elapsed := Reading(reset, nticks, rate), nticks * (1000000 / rate);
            && 0 <= r.usec < 1000000
            && (r.sec * 1000000 + r.usec == reset.sec * 1000000 + reset.usec + elapsed
                <==> !Clipped(reset, nticks, rate))
            && (Clipped(reset, nticks, rate) ==> r == Time(0, 0))
            && (reset.sec * 1000000 + reset.usec + elapsed >= 0 ==> !Clipped(reset, nticks, rate))
  {
    RawIsLinear(reset, nticks, rate);
  }

  /** The condition on the rate is necessary: otherwise a whole second of ticks is misread. */
  lemma LinearIffRateDivides(reset: Time, rate: nat)
    requires rate > 0
    ensures (forall n: nat :: Total(Raw(reset, n, rate)) == Total(reset) + n * Unit(rate)) <==> US % rate == 0
  {
    if US % rate == 0 {
      forall n: nat ensures Total(Raw(reset, n, rate)) == Total(reset) + n * Unit(rate) {
        RawIsLinear(reset, n, rate);
      }
    } else {
      var u := Unit(rate);
      assert US == u * rate + US % rate;
      assert rate * u == u * rate;
      MulNonneg(rate, u);
      ModIsUnique(rate * u, 0, rate * u, US);
      ModIsUnique(rate, 1, 0, rate);
      assert Total(Raw(reset, rate, rate)) == Total(reset) + US + rate * u;
    }
  }

  lemma UnitIsPositive(rate: nat)
    requires rate > 0 && US % rate == 0
    ensures Unit(rate) > 0
  {
    assert US == rate * Unit(rate);
  }

  lemma MulStrict(a: nat, b: nat, m: nat)
    requires a < b && m > 0
    ensures a * m < b * m
  {}

  /** Between two resets and two wraps of the counter the clock runs strictly forward from every moment
      that is not clipped; from a clipped one exactly to moments after zero. */
  lemma ClockRunsForward(reset: Time, n1: nat, n2: nat, rate: nat)
    requires rate > 0 && US % rate == 0 && n1 < n2
    ensures Total(Reading(reset, n1, rate)) < Total(Reading(reset, n2, rate))
       <==> !Clipped(reset, n1, rate) || Total(reset) + n2 * Unit(rate) > 0
  {
    ReadingIsResetPlusElapsed(reset, n1, rate);
    ReadingIsResetPlusElapsed(reset, n2, rate);
    UnitIsPositive(rate);
    MulStrict(n1, n2, Unit(rate));
  }

  // ----- setting and reading back

  lemma AddMultiple(x: nat, j: nat)
    ensures (x + j * US) % US == x % US
  {
    ModIsUnique(x + j * US, x / US + j, x % US, US);
  }

  lemma SameRemainder(a: nat, b: nat, d: int)
    requires a % US == b % US && d == a / US - b / US
    ensures a - b == d * US
  {}

  /** 12659 * 2^26 - 54369991 * 5^6 == 1. */
  lemma CoprimeFactor(k: int, d: int)
    requires k * U32 == d * US
    ensures k % 15625 == 0
  {
    assert k * 67108864 == d * 15625;
    assert k == 15625 * (12659 * d - 54369991 * k);
  }

  lemma SameRemainderIff(p: nat)
    ensures p % U32 % US == p % US <==> p / U32 % 15625 == 0
  {
    var q, r := p / U32, p % U32;
    var h, k := q / 15625, q % 15625;
    // 15625 * 2^32 == 2^26 * 10^6
    assert p == (k * U32 + r) + (h * 67108864) * US;
    AddMultiple(k * U32 + r, h * 67108864);
    if (k * U32 + r) % US == r % US {
      var d := (k * U32 + r) / US - r / US;
      SameRemainder(k * U32 + r, r, d);
      CoprimeFactor(k, d);
    }
  }

  /** The 32-bit product loses a multiple of 2^32, which is harmless exactly when it is also a multiple
      of 10^6, that is, when the lost count is a multiple of 5^6. */
  lemma ProductsAgreeIff(nticks: nat, rate: nat)
    requires rate > 0
    ensures Micros32(nticks, rate) == Micros64(nticks, rate) <==> nticks * Unit(rate) / U32 % 15625 == 0
  {
    MulNonneg(nticks, Unit(rate));
    SameRemainderIff(nticks * Unit(rate));
  }

  /** Setting the time and reading it on the same tick returns the time set exactly when the products
      agree, or when the time set is zero and the difference is negative, which is clipped to zero. */
  lemma SetThenGetIff(t: Time, nticks: nat, rate: nat)
    requires rate > 0 && Normal(t) && t.sec >= 0
    ensures Reading(ResetFor(t, nticks, rate), nticks, rate) == t <==>
              || nticks * (1000000 / rate) / 0x1_0000_0000 % 15625 == 0
              || (t == Time(0, 0) && Micros64(nticks, rate) < Micros32(nticks, rate))
  {
    ProductsAgreeIff(nticks, rate);
    var raw := Raw(ResetFor(t, nticks, rate), nticks, rate);
    assert raw == Time(t.sec, t.usec + Micros64(nticks, rate) - Micros32(nticks, rate));
  }

  /** At 1000 ticks a second the first failure comes after 4294968 ticks, some 72 minutes: ten seconds and a
      half are read back 967296 microseconds late. */
  lemma SetThenGetFails()
    ensures var t := Time(10, 500000);
            Reading(ResetFor(t, 4294968, 1000), 4294968, 1000) == Time(11, 467296)
  {
    var t := Time(10, 500000);
    assert Micros32(4294968, 1000) == 704;
    assert Micros64(4294968, 1000) == 968000;
    assert Raw(ResetFor(t, 4294968, 1000), 4294968, 1000) == Time(10, 1467296);
  }

  /** In particular below 2^32 microseconds since reset the round trip is exact, and at rates of 64
      ticks a second or more never beyond. */
  lemma ExactBelow32Bits(nticks: u32, rate: nat)
    requires rate >= 64
    ensures nticks * Unit(rate) / U32 % 15625 == 0 <==> nticks * Unit(rate) < U32
  {
    var u := Unit(rate);
    assert u * rate <= US;
    assert u <= 15625 by { if u > 15625 { MulMono(64, rate, u); } }
    MulNonneg(nticks, u);
    MulNonneg(U32 - 1 - nticks, u);
    assert (U32 - 1 - nticks) * u == U32 * u - u - nticks * u;
    assert nticks * u / U32 < 15625 || u == 0;
  }
}
