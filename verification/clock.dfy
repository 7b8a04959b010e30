/** src/posix_clock.c: the tick counter read as a timespec. */
module Clock {
  import opened Machine
  import opened Timespecs

  /** The clock's reading after `ticks` ticks, on the mathematical integers. */
  function Reading(hz: int, ticks: nat): (ts: Timespec)
    requires TickRate(hz)
    ensures Valid(ts) && Nanos(ts) == ticks * Npt(hz) && ts.sec >= 0
  {
    var nanos := ticks * Npt(hz);
    DivModBounds(nanos, NANOSECONDS_PER_SECOND);
    Timespec(nanos / NANOSECONDS_PER_SECOND, nanos % NANOSECONDS_PER_SECOND)
  }

  /** The product that clock_gettime forms never leaves int64, whatever the 32-bit counter holds. */
  lemma ClockFitsInt64(hz: int, ticks: Unsigned)
    requires TickRate(hz)
    ensures InInt64(ticks * Npt(hz))
  {
    var b := Npt(hz);
    MulMonotone(0, ticks, b);
    MulMonotone(ticks, UINT_MAX, b);
  }

  /** A reading of the 32-bit counter has fewer than 2^32 seconds. */
  lemma ReadingSeconds(hz: int, ticks: Unsigned)
    requires TickRate(hz)
    ensures Reading(hz, ticks).sec < U32
  {
    var sec := Reading(hz, ticks).sec;
    MulMonotone(Npt(hz), NANOSECONDS_PER_SECOND, ticks);
    assert Npt(hz) * ticks == ticks * Npt(hz);
    assert sec * NANOSECONDS_PER_SECOND <= ticks * Npt(hz);
    assert sec <= ticks;
  }

  /** clock_gettime. */
  method ClockGettime(hz: int, tmrTicks: Unsigned, tp: Ptr<Timespec>) returns (ret: int, tp': Ptr<Timespec>)
    requires TickRate(hz)
    ensures tp.Null? ==> ret == -1 && tp' == Null
    ensures tp.Ref? ==> ret == 0 && tp' == Ref(Reading(hz, tmrTicks))
  {
    if tp == Null {
      return -1, tp;
    }
    var ticks: int := tmrTicks;
    ClockFitsInt64(hz, tmrTicks);
    var ts := Nano2Timespec(ticks * Npt(hz));
    ValidIsCanonical(ts, Reading(hz, tmrTicks));
    return 0, Ref(ts);
  }

  /**
   Converting the reading back loses exactly the whole ticks that fit in the residue of the
   seconds read; so the drift times NANOSECONDS_PER_TICK stays within seconds * residue.
   */
  lemma RoundTripDrift(hz: int, ticks: nat)
    requires TickRate(hz)
    ensures var ts := Reading(hz, ticks);
            var back := TickCount(hz, ts);
            && back == ticks - (ts.sec * Residue(hz)) / Npt(hz)
            && 0 <= (ticks - back) * Npt(hz) <= ts.sec * Residue(hz)
  {
    var ts := Reading(hz, ticks);
    var back, b := TickCount(hz, ts), Npt(hz);
    TickSandwich(hz, ts);
    assert (ticks - back) * b == ticks * b - back * b;
    assert ts.sec * Residue(hz) == Residue(hz) * ts.sec >= 0;
    DivUnique(ts.sec * Residue(hz), b, ticks - back);
    if ticks - back <= -1 {
      MulMonotone(ticks - back, -1, b);
    }
  }

  /** One reading survives the round trip precisely when its seconds have lost less than a tick. */
  lemma RoundTripExactIff(hz: int, ticks: nat)
    requires TickRate(hz)
    ensures TickCount(hz, Reading(hz, ticks)) == ticks <==> Reading(hz, ticks).sec * Residue(hz) < Npt(hz)
  {
    RoundTripDrift(hz, ticks);
    var lost, b := Reading(hz, ticks).sec * Residue(hz), Npt(hz);
    assert lost >= 0;
    DivModBounds(lost, b);
    if lost / b >= 1 {
      MulMonotone(1, lost / b, b);
    } else if lost / b <= -1 {
      MulMonotone(lost / b, -1, b);
    }
  }

  /** What the 32-bit counter reads n ticks after it read `now`. */
  function After(hz: int, now: Unsigned, n: Unsigned): Timespec
    requires TickRate(hz)
  {
    Reading(hz, ToUnsigned(now + n))
  }

  /** All readings of the 32-bit counter survive it precisely when the tick rate divides a second. */
  lemma RoundTripAllIff(hz: int)
    requires TickRate(hz)
    ensures (forall ticks: Unsigned :: TickCount(hz, Reading(hz, ticks)) == ticks) <==> Residue(hz) == 0
  {
    if Residue(hz) == 0 {
      forall ticks: Unsigned
        ensures TickCount(hz, Reading(hz, ticks)) == ticks
      {
        RoundTripExactIff(hz, ticks);
      }
    } else {
      // After 10^9 ticks the clock reads Npt(hz) seconds, whose residue is a tick or more.
      var ticks: Unsigned := NANOSECONDS_PER_SECOND;
      ValidIsCanonical(Reading(hz, ticks), Timespec(Npt(hz), 0));
      MulMonotone(1, Residue(hz), Npt(hz));
      assert Residue(hz) * Npt(hz) == Npt(hz) * Residue(hz);
      RoundTripExactIff(hz, ticks);
      assert TickCount(hz, Reading(hz, ticks)) != ticks;
    }
  }

  /** Later readings are worth strictly more. */
  lemma ReadingsOrdered(hz: int, t0: nat, t1: nat)
    requires TickRate(hz)
    ensures t0 < t1 <==> TimespecCmp(Ref(Reading(hz, t0)), Ref(Reading(hz, t1))) < 0
  {
    var b := Npt(hz);
    if t0 < t1 {
      MulMonotone(t0 + 1, t1, b);
      assert (t0 + 1) * b == t0 * b + b;
    } else {
      MulMonotone(t1, t0, b);
    }
  }

  lemma ReadingAdds(hz: int, t: nat, n: nat)
    requires TickRate(hz)
    ensures Nanos(Reading(hz, t + n)) == Nanos(Reading(hz, t)) + n * Npt(hz)
  {
    assert (t + n) * Npt(hz) == t * Npt(hz) + n * Npt(hz);
  }

  /** A turn of the counter takes the clock back, to before where it was. */
  lemma AfterWraps(hz: int, now: Unsigned, n: Unsigned)
    requires TickRate(hz)
    ensures Nanos(After(hz, now, n))
            == Nanos(Reading(hz, now)) + n * Npt(hz) - if now + n < U32 then 0 else U32 * Npt(hz)
    ensures now + n >= U32 ==> Nanos(After(hz, now, n)) < Nanos(Reading(hz, now))
  {
    ReadingAdds(hz, now, n);
    if now + n >= U32 {
      var t := now + n - U32;
      assert ToUnsigned(now + n) == t;
      ReadingAdds(hz, t, U32);
      ReadingAdds(hz, t, now - t);
      MulMonotone(1, now - t, Npt(hz));
    }
  }

  /** The deadline `abs` is not past when the counter reads `now`, and is few enough ticks off. */
  predicate Converts(hz: int, abs: Timespec, now: Unsigned)
    requires TickRate(hz)
  {
    Valid(abs) && ConvertAbsolute(hz, abs, Reading(hz, now)).ret == OK
  }

  /** The ticks a wait for `abs` lasts. */
  function WaitTicks(hz: int, abs: Timespec, now: Unsigned): (n: Unsigned)
    requires TickRate(hz) && Converts(hz, abs, now)
    ensures n == TickCount(hz, Difference(abs, Reading(hz, now)))
    ensures ConvertAbsolute(hz, abs, Reading(hz, now)).ticks == Some(n)
  {
    DeadlineSandwich(hz, abs, Reading(hz, now));
    ConvertAbsolute(hz, abs, Reading(hz, now)).ticks.value
  }

  /** The ticks of a duration exceed it by the rounding of its fraction less the residue of its seconds. */
  lemma TickExcess(hz: int, d: Timespec)
    requires TickRate(hz)
    ensures TickCount(hz, d) * Npt(hz) - Nanos(d)
            == CeilDiv(d.nsec, Npt(hz)) * Npt(hz) - d.nsec - Residue(hz) * d.sec
  {
    var b, c := Npt(hz), CeilDiv(d.nsec, Npt(hz));
    SecondInTicks(hz);
    assert (hz * d.sec + c) * b == (hz * b) * d.sec + c * b;
    assert (hz * b) * d.sec == NANOSECONDS_PER_SECOND * d.sec - Residue(hz) * d.sec;
  }

  lemma ResidueOfSeconds(hz: int, sec: int)
    requires TickRate(hz) && sec >= 0
    ensures Residue(hz) * sec >= 0
  {
  }

  /**
   The promise of a timed wait, across the clock and the conversion: a caller who reads the clock, waits the
   converted number of ticks and reads it again is short of its deadline by at most the residue of the whole
   seconds waited for, and past it by less than a tick; or off by a whole turn of the counter if it wraps.
   */
  lemma WaitReachesDeadline(hz: int, abs: Timespec, now: Unsigned)
    requires TickRate(hz) && Converts(hz, abs, now)
    ensures var n := WaitTicks(hz, abs, now);
            var short := Residue(hz) * Difference(abs, Reading(hz, now)).sec;
            var turn := if now + n < U32 then 0 else U32 * Npt(hz);
            && Nanos(abs) - short - turn <= Nanos(After(hz, now, n)) < Nanos(abs) - short - turn + Npt(hz)
            && short >= 0
  {
    var d := Difference(abs, Reading(hz, now));
    assert d.sec >= 0 by { DeadlineSandwich(hz, abs, Reading(hz, now)); }
    CeilDivBounds(d.nsec, Npt(hz));
    TickExcess(hz, d);
    AfterWraps(hz, now, WaitTicks(hz, abs, now));
    ResidueOfSeconds(hz, d.sec);
  }

  /** Once the converted ticks have passed, the clock has reached the deadline. */
  predicate NotEarly(hz: int, abs: Timespec, now: Unsigned)
    requires TickRate(hz) && Converts(hz, abs, now)
  {
    Nanos(After(hz, now, WaitTicks(hz, abs, now))) >= Nanos(abs)
  }

  /** Rounding the fraction of a second up makes good the residue of the whole seconds. */
  predicate RoundingCovers(hz: int, d: Timespec)
    requires TickRate(hz)
  {
    CeilDiv(d.nsec, Npt(hz)) * Npt(hz) - d.nsec >= Residue(hz) * d.sec
  }

  /**
   Exactly when one wait is not early: the counter does not wrap before it ends, and its rounding covers the
   residue.
   */
  lemma NotEarlyIff(hz: int, abs: Timespec, now: Unsigned)
    requires TickRate(hz) && Converts(hz, abs, now)
    ensures NotEarly(hz, abs, now)
            <==> now + WaitTicks(hz, abs, now) < U32 && RoundingCovers(hz, Difference(abs, Reading(hz, now)))
  {
    assert Nanos(abs) >= Nanos(Reading(hz, now)) by { DeadlineSandwich(hz, abs, Reading(hz, now)); }
    AfterWraps(hz, now, WaitTicks(hz, abs, now));
    TickExcess(hz, Difference(abs, Reading(hz, now)));
  }

  /** Where the last of the ticks leaves the clock: the rounding decides, and it is never a tick or more too late. */
  lemma LastTickReaches(hz: int, abs: Timespec, now: Unsigned)
    requires TickRate(hz) && Converts(hz, abs, now)
    ensures var end := Nanos(Reading(hz, now + WaitTicks(hz, abs, now)));
            && (end >= Nanos(abs) <==> RoundingCovers(hz, Difference(abs, Reading(hz, now))))
            && end < Nanos(abs) + Npt(hz)
  {
    var d := Difference(abs, Reading(hz, now));
    assert d.sec >= 0 by { DeadlineSandwich(hz, abs, Reading(hz, now)); }
    ReadingAdds(hz, now, WaitTicks(hz, abs, now));
    TickExcess(hz, d);
    CeilDivBounds(d.nsec, Npt(hz));
    ResidueOfSeconds(hz, d.sec);
  }

  lemma ReadingsApart(hz: int, t: nat, t': nat)
    requires TickRate(hz)
    ensures t < t' ==> Nanos(Reading(hz, t)) <= Nanos(Reading(hz, t')) - Npt(hz)
    ensures t <= t' ==> Nanos(Reading(hz, t)) <= Nanos(Reading(hz, t'))
  {
    if t <= t' {
      ReadingAdds(hz, t, t' - t);
      MulMonotone(if t < t' then 1 else 0, t' - t, Npt(hz));
    }
  }

  /** After fewer ticks the clock is before the deadline; after as many or more, it is not if the rounding covers. */
  lemma TicksReach(hz: int, abs: Timespec, now: Unsigned, k: nat)
    requires TickRate(hz) && Converts(hz, abs, now)
    ensures var n := WaitTicks(hz, abs, now);
            var covers := RoundingCovers(hz, Difference(abs, Reading(hz, now)));
            && (k < n ==> Nanos(Reading(hz, now + k)) < Nanos(abs))
            && (k == n && !covers ==> Nanos(Reading(hz, now + k)) < Nanos(abs))
            && (k >= n && covers ==> Nanos(Reading(hz, now + k)) >= Nanos(abs))
  {
    var n := WaitTicks(hz, abs, now);
    LastTickReaches(hz, abs, now);
    ReadingsApart(hz, now + k, now + n);
    ReadingsApart(hz, now + n, now + k);
  }

  lemma BootReading(hz: int)
    requires TickRate(hz)
    ensures Reading(hz, 0) == Timespec(0, 0)
  {
    ValidIsCanonical(Reading(hz, 0), Timespec(0, 0));
  }

  lemma WholeSecondCounts(hz: int, d: Timespec)
    requires TickRate(hz) && d.nsec == 0 && d.sec == 1
    ensures CeilDiv(0, Npt(hz)) == 0 && TickCount(hz, d) == hz
  {
    CeilDivUnique(0, Npt(hz), 0);
  }

  lemma FittingCountConverts(hz: int, abs: Timespec, cur: Timespec, n: Unsigned)
    requires TickRate(hz) && Valid(abs) && Valid(cur) && Nanos(abs) >= Nanos(cur)
    requires TickCount(hz, Difference(abs, cur)) == n
    ensures ConvertAbsolute(hz, abs, cur) == Conversion(OK, Some(n))
  {
  }

  lemma SecondCounts(hz: int)
    requires TickRate(hz)
    ensures CeilDiv(0, Npt(hz)) == 0 && TickCount(hz, Timespec(1, 0)) == hz
    ensures ConvertAbsolute(hz, Timespec(1, 0), Timespec(0, 0)) == Conversion(OK, Some(hz))
  {
    assert Difference(Timespec(1, 0), Timespec(0, 0)) == Timespec(1, 0);
    WholeSecondCounts(hz, Timespec(1, 0));
    FittingCountConverts(hz, Timespec(1, 0), Timespec(0, 0), hz);
  }

  /** One second from boot converts to tmr_hz ticks. */
  lemma SecondConverts(hz: int)
    requires TickRate(hz)
    ensures Difference(Timespec(1, 0), Reading(hz, 0)) == Timespec(1, 0) && CeilDiv(0, Npt(hz)) == 0
    ensures Converts(hz, Timespec(1, 0), 0) && WaitTicks(hz, Timespec(1, 0), 0) == hz
  {
    BootReading(hz);
    SecondCounts(hz);
  }

  /** A deadline of 2^32 ticks at boot is not past, but too far off for the conversion. */
  lemma TooLongDeadline(hz: int)
    requires TickRate(hz)
    ensures Valid(TooLong(hz)) && Difference(TooLong(hz), Reading(hz, 0)) == TooLong(hz)
    ensures TickCount(hz, Difference(TooLong(hz), Reading(hz, 0))) == U32
    ensures ConvertAbsolute(hz, TooLong(hz), Reading(hz, 0)) == Conversion(EINVAL, Some(0))
  {
    TooLongIsCutToZero(hz);
    BootReading(hz);
  }

  /** Waits that end before the counter wraps are never early, precisely when the tick rate divides a second. */
  lemma NeverEarlyIffDivides(hz: int)
    requires TickRate(hz)
    ensures (forall abs, now: Unsigned ::
               Converts(hz, abs, now) && now + WaitTicks(hz, abs, now) < U32 ==> NotEarly(hz, abs, now))
            <==> Residue(hz) == 0
  {
    if Residue(hz) == 0 {
      forall abs, now: Unsigned | Converts(hz, abs, now) && now + WaitTicks(hz, abs, now) < U32
        ensures NotEarly(hz, abs, now)
      {
        WaitReachesDeadline(hz, abs, now);
      }
    } else {
      SecondConverts(hz);
      NotEarlyIff(hz, Timespec(1, 0), 0);
      assert !NotEarly(hz, Timespec(1, 0), 0);
    }
  }

  lemma OneTickConverts(hz: int, d: Timespec)
    requires TickRate(hz) && Valid(d) && Nanos(d) == Npt(hz)
    ensures TickCount(hz, d) == 1
  {
    var b := Npt(hz);
    SecondInTicks(hz);
    if b == NANOSECONDS_PER_SECOND {
      ValidIsCanonical(d, Timespec(1, 0));
      if hz >= 2 { MulMonotone(2, hz, b); }
      NanosecondTicks(hz, 0);
    } else {
      ValidIsCanonical(d, Timespec(0, b));
      CeilDivUnique(b, b, 1);
    }
  }

  /** Across a wrap the promise fails at every tick rate: a wait of one tick from the last value of the counter. */
  lemma WrapIsEarly(hz: int)
    requires TickRate(hz)
    ensures var abs := Reading(hz, U32);
            && Converts(hz, abs, UINT_MAX) && WaitTicks(hz, abs, UINT_MAX) == 1
            && Nanos(After(hz, UINT_MAX, 1)) == 0 && !NotEarly(hz, abs, UINT_MAX)
  {
    var abs := Reading(hz, U32);
    ReadingAdds(hz, UINT_MAX, 1);
    OneTickConverts(hz, Difference(abs, Reading(hz, UINT_MAX)));
    DeadlineSandwich(hz, abs, Reading(hz, UINT_MAX));
    AfterWraps(hz, UINT_MAX, 1);
    ReadingAdds(hz, 0, U32);
  }
}
