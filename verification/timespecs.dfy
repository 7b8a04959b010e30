/** src/utils.c: comparison, subtraction and tick conversion of `struct timespec`. */
module Timespecs {
  import opened Machine

  datatype Timespec = Timespec(sec: int, nsec: int)

  /** The tick rates for which NANOSECONDS_PER_TICK is a usable divisor. */
  predicate TickRate(hz: int) {
    1 <= hz <= NANOSECONDS_PER_SECOND
  }

  /** NANOSECONDS_PER_TICK, a truncated quotient. */
  function Npt(hz: int): (n: int)
    requires TickRate(hz)
    ensures 1 <= n <= NANOSECONDS_PER_SECOND
  {
    DivModBounds(NANOSECONDS_PER_SECOND, hz);
    var q := NANOSECONDS_PER_SECOND / hz;
    assert q >= 1 by {
      if q <= 0 { MulMonotone(q, 0, hz); }
    }
    assert q <= NANOSECONDS_PER_SECOND by { MulMonotone(1, hz, q); }
    q
  }

  /** The nanoseconds per second that the truncation in NANOSECONDS_PER_TICK loses. */
  function Residue(hz: int): (r: int)
    requires TickRate(hz)
    ensures 0 <= r < hz
  {
    NANOSECONDS_PER_SECOND % hz
  }

  lemma SecondInTicks(hz: int)
    requires TickRate(hz)
    ensures hz * Npt(hz) + Residue(hz) == NANOSECONDS_PER_SECOND
  {
    DivModBounds(NANOSECONDS_PER_SECOND, hz);
  }

  predicate Valid(ts: Timespec) {
    0 <= ts.nsec < NANOSECONDS_PER_SECOND
  }

  /** What a timespec is worth, valid or not. */
  function Nanos(ts: Timespec): int {
    ts.sec * NANOSECONDS_PER_SECOND + ts.nsec
  }

  function Sign(x: int): int {
    if x > 0 then 1 else if x < 0 then -1 else 0
  }

  /** validate_timespec accepts exactly the timespecs whose seconds are the whole seconds of what they are worth. */
  function ValidateTimespec(p: Ptr<Timespec>): (ok: bool)
    ensures ok <==> p.Ref? && p.val.sec == Nanos(p.val) / NANOSECONDS_PER_SECOND
  {
    if p == Null then false else p.val.nsec >= 0 && p.val.nsec < NANOSECONDS_PER_SECOND
  }

  /** The order of the fields, seconds first. */
  predicate Before(x: Timespec, y: Timespec) {
    x.sec < y.sec || (x.sec == y.sec && x.nsec < y.nsec)
  }

  /** The field-by-field comparison, with a null pointer before all: on valid timespecs, total nanoseconds compared. */
  function TimespecCmp(x: Ptr<Timespec>, y: Ptr<Timespec>): (ret: int)
    ensures x.Ref? && y.Ref? && Valid(x.val) && Valid(y.val) ==> ret == Sign(Nanos(x.val) - Nanos(y.val))
    ensures x.Ref? && y.Ref? ==> (ret < 0 <==> Before(x.val, y.val)) && (ret > 0 <==> Before(y.val, x.val))
    ensures ret == 0 <==> x == y
    ensures ret < 0 && !(x.Ref? && y.Ref?) <==> x.Null? && y.Ref?
    ensures -1 <= ret <= 1
  {
    if x == Null && y == Null then 0
    else if y == Null then 1
    else if x == Null then -1
    else if x.val.sec > y.val.sec then 1
    else if x.val.sec < y.val.sec then -1
    else if x.val.nsec > y.val.nsec then 1
    else if x.val.nsec < y.val.nsec then -1
    else 0
  }

  /** The difference with at most one second borrowed. */
  function Difference(x: Timespec, y: Timespec): (d: Timespec)
    ensures Nanos(d) == Nanos(x) - Nanos(y)
    ensures Valid(x) && Valid(y) ==> Valid(d)
    ensures d.sec == x.sec - y.sec - if x.nsec < y.nsec then 1 else 0
  {
    if x.nsec >= y.nsec then Timespec(x.sec - y.sec, x.nsec - y.nsec)
    else Timespec(x.sec - y.sec - 1, x.nsec - y.nsec + NANOSECONDS_PER_SECOND)
  }

  /** timespec_sub: 1 when x precedes y, -1 on a bad argument, otherwise 0 and the difference. */
  method TimespecSub(x: Ptr<Timespec>, y: Ptr<Timespec>, result: Ptr<Timespec>)
    returns (ret: int, result': Ptr<Timespec>)
    ensures x.Null? || y.Null? || result.Null? ==> ret == -1 && result' == result
    ensures x.Ref? && y.Ref? && result.Ref? && TimespecCmp(x, y) < 0 ==> ret == 1 && result' == result
    ensures x.Ref? && y.Ref? && result.Ref? && TimespecCmp(x, y) >= 0 ==>
              result' == Ref(Difference(x.val, y.val)) && ret == (if result'.val.nsec < 0 then -1 else 0)
    ensures x.Ref? && y.Ref? && result.Ref? && Valid(x.val) && Valid(y.val) ==>
              if Nanos(x.val) < Nanos(y.val) then ret == 1
              else ret == 0 && Valid(result'.val) && Nanos(result'.val) == Nanos(x.val) - Nanos(y.val)
  {
    ret := 0;
    result' := result;
    if result == Null || x == Null || y == Null {
      ret := -1;
    }
    if ret == 0 {
      var cmp := TimespecCmp(x, y);
      if cmp == -1 {
        ret := 1;
      } else if cmp == 0 {
        result' := Ref(Timespec(0, 0));
      } else {
        var sec := x.val.sec - y.val.sec;
        var nsec := x.val.nsec - y.val.nsec;
        if nsec < 0 {
          sec := sec - 1;
          nsec := nsec + NANOSECONDS_PER_SECOND;
        }
        if nsec < 0 {
          ret := -1;
        }
        result' := Ref(Timespec(sec, nsec));
      }
    }
  }

  /** The mathematical tick count of a timespec, before the range checks and the cast. */
  function TickCount(hz: int, ts: Timespec): int
    requires TickRate(hz)
  {
    hz * ts.sec + CeilDiv(ts.nsec, Npt(hz))
  }

  /** The int64 arithmetic of timespec2ticks has no overflow. */
  predicate TicksFit(hz: int, ts: Timespec)
    requires TickRate(hz)
  {
    Valid(ts) ==> InInt64(hz * ts.sec) && InInt64(TickCount(hz, ts))
  }

  lemma NanosecondTicks(hz: int, nsec: int)
    requires TickRate(hz) && 0 <= nsec < NANOSECONDS_PER_SECOND
    ensures 0 <= CeilDiv(nsec, Npt(hz)) <= nsec
    ensures nsec == 0 <==> CeilDiv(nsec, Npt(hz)) == 0
  {
    var b := Npt(hz);
    var c := CeilDiv(nsec, b);
    CeilDivBounds(nsec, b);
    MulMonotone(1, b, nsec);
    assert b * nsec == nsec * b && (nsec + 1) * b == nsec * b + b;
    if c < 0 { MulMonotone(c, -1, b); }
    if c > nsec { MulMonotone(nsec + 1, c, b); }
    if nsec == 0 && c >= 1 { MulMonotone(1, c, b); }
  }

  /** With a 32-bit time_t, signed or not, the int64 arithmetic never overflows. */
  lemma NarrowSecondsFit(hz: int, ts: Timespec)
    requires TickRate(hz) && -U32 <= ts.sec < U32
    ensures TicksFit(hz, ts)
  {
    if Valid(ts) {
      MulMonotone(ts.sec, U32, hz);
      MulMonotone(-U32, ts.sec, hz);
      assert ts.sec * hz == hz * ts.sec;
      NanosecondTicks(hz, ts.nsec);
    }
  }

  /** What abs_timespec2ticks and timespec2ticks report: a code, and the ticks when they write them. */
  datatype Conversion = Conversion(ret: Errno, ticks: Option<Unsigned>)

  /** timespec2ticks on a timespec that is present: the cast is written even when the code is EINVAL. */
  function ConvertRelative(hz: int, ts: Timespec): Conversion
    requires TickRate(hz)
  {
    if !Valid(ts) then Conversion(EINVAL, None)
    else
      var n := TickCount(hz, ts);
      Conversion(if 0 <= n <= UINT_MAX then OK else EINVAL, Some(ToUnsigned(n)))
  }

  /** abs_timespec2ticks on arguments that are present. */
  function ConvertAbsolute(hz: int, abs: Timespec, cur: Timespec): Conversion
    requires TickRate(hz)
  {
    if TimespecCmp(Ref(abs), Ref(cur)) < 0 then Conversion(ETIMEDOUT, None)
    else if Difference(abs, cur).nsec < 0 then Conversion(EINVAL, None)
    else ConvertRelative(hz, Difference(abs, cur))
  }

  /** The content of an output variable after a conversion that may leave it alone. */
  function Written(c: Conversion, before: Unsigned): Unsigned {
    if c.ticks.Some? then c.ticks.value else before
  }

  /** timespec2ticks. */
  method Timespec2Ticks(hz: int, ts: Ptr<Timespec>, result: Ptr<Unsigned>)
    returns (ret: Errno, result': Ptr<Unsigned>)
    requires TickRate(hz)
    requires ts.Ref? ==> TicksFit(hz, ts.val)
    ensures ts.Null? || result.Null? ==> ret == EINVAL && result' == result
    ensures ts.Ref? && result.Ref? ==>
              var c := ConvertRelative(hz, ts.val);
              ret == c.ret && result' == Ref(Written(c, result.val))
  {
    ret := OK;
    result' := result;
    if ts == Null || result == Null {
      ret := EINVAL;
    } else if !ValidateTimespec(ts) {
      ret := EINVAL;
    }
    if ret == OK {
      var totalTicks: int := hz * ts.val.sec;
      var nanos := TruncDiv(ts.val.nsec, Npt(hz)) + (if TruncMod(ts.val.nsec, Npt(hz)) != 0 then 1 else 0);
      TruncRoundsUp(ts.val.nsec, Npt(hz));
      totalTicks := totalTicks + nanos;
      assert InInt64(totalTicks);
      if totalTicks < 0 {
        ret := EINVAL;
      } else if totalTicks > UINT_MAX {
        ret := EINVAL;
      }
      result' := Ref(ToUnsigned(totalTicks));
    }
  }

  /** abs_timespec2ticks. */
  method AbsTimespec2Ticks(hz: int, abs: Ptr<Timespec>, cur: Ptr<Timespec>, result: Ptr<Unsigned>)
    returns (ret: Errno, result': Ptr<Unsigned>)
    requires TickRate(hz)
    requires abs.Ref? && cur.Ref? ==> TicksFit(hz, Difference(abs.val, cur.val))
    ensures abs.Null? || cur.Null? || result.Null? ==> ret == EINVAL && result' == result
    ensures abs.Ref? && cur.Ref? && result.Ref? ==>
              var c := ConvertAbsolute(hz, abs.val, cur.val);
              ret == c.ret && result' == Ref(Written(c, result.val))
  {
    ret := OK;
    result' := result;
    var diff := Ref(Timespec(0, 0));
    if abs == Null || cur == Null || result == Null {
      ret := EINVAL;
    }
    if ret == OK {
      var sub;
      sub, diff := TimespecSub(abs, cur, diff);
      if sub == 1 {
        ret := ETIMEDOUT;
      } else if sub == -1 {
        ret := EINVAL;
      }
    }
    if ret == OK {
      ret, result' := Timespec2Ticks(hz, diff, result);
    }
  }

  /** nano2timespec: a valid timespec worth the source, whatever its sign. */
  method Nano2Timespec(source: int) returns (dest: Timespec)
    requires InInt64(source)
    ensures Valid(dest) && Nanos(dest) == source
  {
    var sec := TruncDiv(source, NANOSECONDS_PER_SECOND);
    var nsec := TruncMod(source, NANOSECONDS_PER_SECOND);
    if nsec < 0 {
      var carry := TruncDiv(nsec, NANOSECONDS_PER_SECOND) + 1;
      sec := sec - carry;
      nsec := nsec + carry * NANOSECONDS_PER_SECOND;
    }
    dest := Timespec(sec, nsec);
  }

  /** A valid timespec is determined by its worth. */
  lemma ValidIsCanonical(x: Timespec, y: Timespec)
    requires Valid(x) && Valid(y) && Nanos(x) == Nanos(y)
    ensures x == y
  {
    DivUnique(Nanos(x), NANOSECONDS_PER_SECOND, x.sec);
    DivUnique(Nanos(x), NANOSECONDS_PER_SECOND, y.sec);
  }

  // ----- what the tick count means -----

  /** The count is the duration in ticks of NANOSECONDS_PER_TICK, rounded up, less the residue of each second. */
  lemma TickSandwich(hz: int, ts: Timespec)
    requires TickRate(hz)
    ensures var n := TickCount(hz, ts);
            var target := Nanos(ts) - Residue(hz) * ts.sec;
            target <= n * Npt(hz) < target + Npt(hz)
  {
    var b, c := Npt(hz), CeilDiv(ts.nsec, Npt(hz));
    CeilDivBounds(ts.nsec, b);
    SecondInTicks(hz);
    calc {
      TickCount(hz, ts) * b;
      (hz * ts.sec) * b + c * b;
      { assert (hz * ts.sec) * b == (hz * b) * ts.sec; }
      (NANOSECONDS_PER_SECOND - Residue(hz)) * ts.sec + c * b;
      NANOSECONDS_PER_SECOND * ts.sec - Residue(hz) * ts.sec + c * b;
    }
  }

  /** n is the least number of ticks whose clock time reaches `nanos`. */
  ghost predicate LeastReaching(hz: int, n: int, nanos: int)
    requires TickRate(hz)
  {
    n * Npt(hz) >= nanos && forall m: int :: m < n ==> m * Npt(hz) < nanos
  }

  lemma SandwichIsLeast(hz: int, n: int, nanos: int)
    requires TickRate(hz) && nanos <= n * Npt(hz) < nanos + Npt(hz)
    ensures LeastReaching(hz, n, nanos)
  {
    forall m: int | m < n
      ensures m * Npt(hz) < nanos
    {
      MulMonotone(m, n - 1, Npt(hz));
      assert (n - 1) * Npt(hz) == n * Npt(hz) - Npt(hz);
    }
  }

  lemma RelativeSandwich(hz: int, d: Timespec)
    requires TickRate(hz) && Valid(d) && Nanos(d) >= 0
    ensures d.sec >= 0 && TickCount(hz, d) >= 0
    ensures var target := Nanos(d) - Residue(hz) * d.sec;
            target <= TickCount(hz, d) * Npt(hz) < target + Npt(hz)
    ensures Residue(hz) == 0 ==> LeastReaching(hz, TickCount(hz, d), Nanos(d))
  {
    TickSandwich(hz, d);
    NanosecondTicks(hz, d.nsec);
    MulMonotone(0, d.sec, hz);
    assert d.sec * hz == hz * d.sec;
    if Residue(hz) == 0 {
      SandwichIsLeast(hz, TickCount(hz, d), Nanos(d));
    }
  }

  /** abs_timespec2ticks on two valid times. */
  lemma DeadlineSandwich(hz: int, abs: Timespec, cur: Timespec)
    requires TickRate(hz) && Valid(abs) && Valid(cur)
    ensures ConvertAbsolute(hz, abs, cur).ret == ETIMEDOUT <==> Nanos(abs) < Nanos(cur)
    ensures Nanos(abs) >= Nanos(cur) ==>
              var d := Difference(abs, cur);
              var c := ConvertAbsolute(hz, abs, cur);
              var target := Nanos(abs) - Nanos(cur) - Residue(hz) * d.sec;
              && d.sec >= 0
              && (c.ret == OK <==> TickCount(hz, d) <= UINT_MAX)
              && (c.ret == OK ==>
                    && c.ticks == Some(TickCount(hz, d))
                    && target <= c.ticks.value * Npt(hz) < target + Npt(hz)
                    && (Residue(hz) == 0 ==> LeastReaching(hz, c.ticks.value, Nanos(abs) - Nanos(cur))))
  {
    if Nanos(abs) >= Nanos(cur) {
      RelativeSandwich(hz, Difference(abs, cur));
    }
  }

  /** timespec2ticks on any timespec: its code, and what it writes. */
  lemma RelativeCodes(hz: int, ts: Timespec)
    requires TickRate(hz)
    ensures var c := ConvertRelative(hz, ts);
            && (c.ret == OK || c.ret == EINVAL)
            && (c.ret == OK <==> Valid(ts) && 0 <= TickCount(hz, ts) <= UINT_MAX)
            && (c.ticks.Some? <==> Valid(ts))
            && (c.ticks.Some? ==> (TickCount(hz, ts) - c.ticks.value) % U32 == 0)
            && (c.ret == OK ==> c.ticks == Some(TickCount(hz, ts)))
  {
  }

  /**
   abs_timespec2ticks on any deadline, at a valid time: only the difference is checked, so a deadline with nanoseconds
   out of range is taken at its worth as long as they are less than a second away from the clock's.
   */
  lemma DeadlineCodes(hz: int, abs: Timespec, cur: Timespec)
    requires TickRate(hz) && Valid(cur)
    ensures var c := ConvertAbsolute(hz, abs, cur);
            var near := cur.nsec - NANOSECONDS_PER_SECOND <= abs.nsec < cur.nsec + NANOSECONDS_PER_SECOND;
            var n := TickCount(hz, Difference(abs, cur));
            && (c.ret == ETIMEDOUT <==> Before(abs, cur))
            && (!Before(abs, cur) ==>
                  && (c.ret == OK <==> near && 0 <= n <= UINT_MAX)
                  && (c.ret == OK || c.ret == EINVAL)
                  && (c.ticks.Some? <==> near)
                  && (near ==> (n - c.ticks.value) % U32 == 0))
            && (Before(abs, cur) ==> c.ticks == None)
  {
    RelativeCodes(hz, Difference(abs, cur));
  }

  lemma TicksBelowSecond(hz: int, d: Timespec)
    requires TickRate(hz) && Valid(d) && d.sec == 0
    ensures 0 <= TickCount(hz, d) < NANOSECONDS_PER_SECOND
  {
    NanosecondTicks(hz, d.nsec);
  }

  /** So at every tick rate, whenever the clock is not at a whole second, some invalid deadline is accepted. */
  lemma InvalidDeadlineAccepted(hz: int, cur: Timespec)
    requires TickRate(hz) && Valid(cur) && cur.nsec > 0
    ensures var abs := Timespec(cur.sec, NANOSECONDS_PER_SECOND);
            !Valid(abs) && ConvertAbsolute(hz, abs, cur).ret == OK
  {
    var abs := Timespec(cur.sec, NANOSECONDS_PER_SECOND);
    DeadlineCodes(hz, abs, cur);
    TicksBelowSecond(hz, Difference(abs, cur));
  }

  /** The rounding is exact on every duration precisely when the tick rate divides a second. */
  lemma LeastTickIffDivides(hz: int)
    requires TickRate(hz)
    ensures (forall ts :: Valid(ts) ==> LeastReaching(hz, TickCount(hz, ts), Nanos(ts))) <==> Residue(hz) == 0
  {
    if Residue(hz) == 0 {
      forall ts | Valid(ts)
        ensures LeastReaching(hz, TickCount(hz, ts), Nanos(ts))
      {
        TickSandwich(hz, ts);
        SandwichIsLeast(hz, TickCount(hz, ts), Nanos(ts));
      }
    } else {
      var second := Timespec(1, 0);
      SecondInTicks(hz);
      NanosecondTicks(hz, 0);
      assert Valid(second) && !LeastReaching(hz, TickCount(hz, second), Nanos(second));
    }
  }

  /**
   Measured in real ticks of 1/hz second the count is never short: n ticks last n * 10^9 / hz
   nanoseconds, which is at least the duration asked for, at every tick rate.
   */
  lemma NeverShortInRealTime(hz: int, ts: Timespec)
    requires TickRate(hz) && Valid(ts)
    ensures TickCount(hz, ts) * NANOSECONDS_PER_SECOND >= Nanos(ts) * hz
  {
    var b, c := Npt(hz), CeilDiv(ts.nsec, Npt(hz));
    CeilDivBounds(ts.nsec, b);
    NanosecondTicks(hz, ts.nsec);
    SecondInTicks(hz);
    assert c * NANOSECONDS_PER_SECOND >= ts.nsec * hz by {
      assert c * NANOSECONDS_PER_SECOND == (c * b) * hz + c * Residue(hz);
      MulMonotone(ts.nsec, c * b, hz);
      assert c * Residue(hz) >= 0;
    }
    assert (hz * ts.sec) * NANOSECONDS_PER_SECOND == (ts.sec * NANOSECONDS_PER_SECOND) * hz;
  }

  ghost predicate MonotoneTicks(hz: int)
    requires TickRate(hz)
  {
    forall x, y :: Valid(x) && Valid(y) && Nanos(x) <= Nanos(y) ==> TickCount(hz, x) <= TickCount(hz, y)
  }

  /** A fraction of a second never needs more ticks than a second has, precisely when the residue is at most 1. */
  lemma FractionBelowSecond(hz: int)
    requires TickRate(hz)
    ensures CeilDiv(NANOSECONDS_PER_SECOND - 1, Npt(hz)) <= hz <==> Residue(hz) <= 1
  {
    var b, c := Npt(hz), CeilDiv(NANOSECONDS_PER_SECOND - 1, Npt(hz));
    CeilDivBounds(NANOSECONDS_PER_SECOND - 1, b);
    SecondInTicks(hz);
    if c <= hz {
      MulMonotone(c, hz, b);
    } else {
      MulMonotone(hz + 1, c, b);
      assert (hz + 1) * b == hz * b + b;
    }
  }

  lemma TicksOrdered(hz: int, x: Timespec, y: Timespec)
    requires TickRate(hz) && Residue(hz) <= 1
    requires Valid(x) && Valid(y) && Nanos(x) <= Nanos(y)
    ensures TickCount(hz, x) <= TickCount(hz, y)
  {
    var b := Npt(hz);
    if x.sec == y.sec {
      CeilDivMonotone(x.nsec, y.nsec, b);
    } else {
      assert x.sec + 1 <= y.sec;
      CeilDivMonotone(x.nsec, NANOSECONDS_PER_SECOND - 1, b);
      FractionBelowSecond(hz);
      NanosecondTicks(hz, y.nsec);
      MulMonotone(x.sec + 1, y.sec, hz);
      assert (x.sec + 1) * hz == hz * x.sec + hz && y.sec * hz == hz * y.sec;
    }
  }

  /** A longer time never converts to fewer ticks, precisely when 10^9 mod tmr_hz is 0 or 1. */
  lemma MonotoneIffSmallResidue(hz: int)
    requires TickRate(hz)
    ensures MonotoneTicks(hz) <==> Residue(hz) <= 1
  {
    FractionBelowSecond(hz);
    if Residue(hz) <= 1 {
      forall x, y | Valid(x) && Valid(y) && Nanos(x) <= Nanos(y)
        ensures TickCount(hz, x) <= TickCount(hz, y)
      {
        TicksOrdered(hz, x, y);
      }
    } else {
      var x, y := Timespec(0, NANOSECONDS_PER_SECOND - 1), Timespec(1, 0);
      NanosecondTicks(hz, 0);
      assert Valid(x) && Valid(y) && Nanos(x) <= Nanos(y);
      assert TickCount(hz, y) < TickCount(hz, x);
    }
  }

  lemma RealTimeExcess(hz: int, ts: Timespec)
    requires TickRate(hz)
    ensures var c := CeilDiv(ts.nsec, Npt(hz));
            TickCount(hz, ts) * NANOSECONDS_PER_SECOND - Nanos(ts) * hz
            == (c * Npt(hz) - ts.nsec) * hz + c * Residue(hz)
  {
    var b, c := Npt(hz), CeilDiv(ts.nsec, Npt(hz));
    SecondInTicks(hz);
    assert (hz * ts.sec + c) * NANOSECONDS_PER_SECOND
        == (ts.sec * NANOSECONDS_PER_SECOND) * hz + c * NANOSECONDS_PER_SECOND;
    assert c * (hz * b + Residue(hz)) == (c * b) * hz + c * Residue(hz);
    assert (c * b - ts.nsec) * hz == (c * b) * hz - ts.nsec * hz;
  }

  /** In real ticks the count lasts less than a tick longer than the duration asked for. */
  ghost predicate TightInRealTime(hz: int, ts: Timespec)
    requires TickRate(hz)
  {
    TickCount(hz, ts) * NANOSECONDS_PER_SECOND < Nanos(ts) * hz + NANOSECONDS_PER_SECOND
  }

  lemma SmallResidueIsTight(hz: int, ts: Timespec)
    requires TickRate(hz) && Residue(hz) <= 1 && Valid(ts)
    ensures TightInRealTime(hz, ts)
  {
    var b, c := Npt(hz), CeilDiv(ts.nsec, Npt(hz));
    RealTimeExcess(hz, ts);
    CeilDivBounds(ts.nsec, b);
    CeilDivMonotone(ts.nsec, NANOSECONDS_PER_SECOND - 1, b);
    FractionBelowSecond(hz);
    SecondInTicks(hz);
    MulMonotone(c * b - ts.nsec, b - 1, hz);
    assert (b - 1) * hz == hz * b - hz;
    assert c * Residue(hz) <= hz * Residue(hz) by { MulMonotone(c, hz, Residue(hz)); }
  }

  /** One nanosecond more than a second's worth of ticks takes one tick more than a second has. */
  lemma LargeResidueIsLoose(hz: int)
    requires TickRate(hz) && Residue(hz) >= 2
    ensures var ts := Timespec(0, hz * Npt(hz) + 1);
            Valid(ts) && !TightInRealTime(hz, ts)
  {
    var b := Npt(hz);
    SecondInTicks(hz);
    assert (hz + 1) * b == hz * b + b;
    assert hz * b >= 0;
    CeilDivUnique(hz * b + 1, b, hz + 1);
    RealTimeExcess(hz, Timespec(0, hz * b + 1));
    assert (b - 1) * hz == hz * b - hz;
    MulMonotone(2, Residue(hz), hz + 1);
    assert Residue(hz) * (hz + 1) == (hz + 1) * Residue(hz);
  }

  /** Every count is less than a tick too long in real time, precisely when 10^9 mod tmr_hz is 0 or 1. */
  lemma TightIffSmallResidue(hz: int)
    requires TickRate(hz)
    ensures (forall ts :: Valid(ts) ==> TightInRealTime(hz, ts)) <==> Residue(hz) <= 1
  {
    if Residue(hz) <= 1 {
      forall ts | Valid(ts)
        ensures TightInRealTime(hz, ts)
      {
        SmallResidueIsTight(hz, ts);
      }
    } else {
      LargeResidueIsLoose(hz);
      assert !TightInRealTime(hz, Timespec(0, hz * Npt(hz) + 1));
    }
  }

  // ----- times before the epoch -----

  /** The ticks of a fraction of a second are fewer than two seconds have. */
  lemma FractionBelowTwoSeconds(hz: int, nsec: int)
    requires TickRate(hz) && 0 <= nsec < NANOSECONDS_PER_SECOND
    ensures CeilDiv(nsec, Npt(hz)) < 2 * hz
  {
    var b, c := Npt(hz), CeilDiv(nsec, Npt(hz));
    CeilDivBounds(nsec, b);
    SecondInTicks(hz);
    assert (2 * hz) * b == 2 * (hz * b);
    MulMonotone(0, hz - 1, b - 1);
    assert (hz - 1) * (b - 1) == hz * b - hz - b + 1;
    if c >= 2 * hz {
      MulMonotone(2 * hz, c, b);
    }
  }

  lemma FractionReachesIff(hz: int, nsec: int)
    requires TickRate(hz)
    ensures CeilDiv(nsec, Npt(hz)) >= hz <==> nsec > (hz - 1) * Npt(hz)
  {
    var b, c := Npt(hz), CeilDiv(nsec, Npt(hz));
    CeilDivBounds(nsec, b);
    assert (hz - 1) * b == hz * b - b;
    if c >= hz {
      MulMonotone(hz, c, b);
    } else {
      MulMonotone(c, hz - 1, b);
    }
  }

  /**
   Exactly which times before the epoch are accepted: those of the last second whose fraction rounds up to a whole
   second of ticks or more.
   */
  lemma NegativeAcceptedIff(hz: int, ts: Timespec)
    requires TickRate(hz) && Valid(ts) && Nanos(ts) < 0
    ensures ConvertRelative(hz, ts).ret == OK <==> ts.sec == -1 && ts.nsec > (hz - 1) * Npt(hz)
  {
    FractionBelowTwoSeconds(hz, ts.nsec);
    FractionReachesIff(hz, ts.nsec);
    if ts.sec <= -2 {
      MulMonotone(ts.sec, -2, hz);
      assert ts.sec * hz == hz * ts.sec;
    }
  }

  /** So some time before the epoch converts without an error at every tick rate but one tick per nanosecond. */
  lemma NegativeTimesRejectedIff(hz: int)
    requires TickRate(hz)
    ensures (forall ts :: Valid(ts) && Nanos(ts) < 0 ==> ConvertRelative(hz, ts).ret == EINVAL)
            <==> hz == NANOSECONDS_PER_SECOND
  {
    SecondInTicks(hz);
    assert (hz - 1) * Npt(hz) == hz * Npt(hz) - Npt(hz);
    if hz == NANOSECONDS_PER_SECOND {
      forall ts | Valid(ts) && Nanos(ts) < 0
        ensures ConvertRelative(hz, ts).ret == EINVAL
      {
        NegativeAcceptedIff(hz, ts);
      }
    } else {
      var ts := Timespec(-1, NANOSECONDS_PER_SECOND - 1);
      NegativeAcceptedIff(hz, ts);
      assert Valid(ts) && Nanos(ts) < 0 && ConvertRelative(hz, ts).ret == OK;
    }
  }

  // ----- tick counts as timespecs -----

  predicate IsZero(ts: Timespec) {
    ts.sec == 0 && ts.nsec == 0
  }

  /** The encoding of a tick count that timer_gettime uses. */
  function Encode(hz: int, n: nat): Timespec
    requires TickRate(hz)
  {
    Timespec(n / hz, (n % hz) * Npt(hz))
  }

  lemma FractionRoundTrip(hz: int, rest: int)
    requires TickRate(hz) && 0 <= rest < hz
    ensures 0 <= rest * Npt(hz) < NANOSECONDS_PER_SECOND
    ensures CeilDiv(rest * Npt(hz), Npt(hz)) == rest
    ensures rest * Npt(hz) == 0 <==> rest == 0
  {
    var b := Npt(hz);
    SecondInTicks(hz);
    MulMonotone(0, rest, b);
    MulMonotone(rest, hz - 1, b);
    assert (hz - 1) * b == hz * b - b;
    CeilDivUnique(rest * b, b, rest);
    if rest >= 1 { MulMonotone(1, rest, b); }
  }

  /** The encoding of timer_gettime is valid and converts back to the same tick count at every tick rate. */
  lemma EncodeRoundTrip(hz: int, n: nat)
    requires TickRate(hz)
    ensures Valid(Encode(hz, n)) && TickCount(hz, Encode(hz, n)) == n
    ensures IsZero(Encode(hz, n)) <==> n == 0
  {
    DivModBounds(n, hz);
    FractionRoundTrip(hz, n % hz);
    assert hz * (n / hz) == (n / hz) * hz;
    if n != 0 && n / hz == 0 {
      assert n == n % hz;
    }
  }

  /** It is the longest valid time of at most so many ticks. */
  lemma EncodeIsLongest(hz: int, n: nat, ts: Timespec)
    requires TickRate(hz) && Valid(ts) && TickCount(hz, ts) <= n
    ensures Nanos(ts) <= Nanos(Encode(hz, n))
  {
    var b, sec := Npt(hz), n / hz;
    EncodeRoundTrip(hz, n);
    DivModBounds(n, hz);
    CeilDivBounds(ts.nsec, b);
    NanosecondTicks(hz, ts.nsec);
    assert ts.sec * hz == hz * ts.sec && (sec + 1) * hz == sec * hz + hz;
    if ts.sec > sec {
      MulMonotone(sec + 1, ts.sec, hz);
    } else if ts.sec == sec {
      MulMonotone(CeilDiv(ts.nsec, b), n % hz, b);
    }
  }

  /** A time of 2^32 ticks, the first that an unsigned cannot hold. */
  function TooLong(hz: int): Timespec
    requires TickRate(hz)
  {
    Encode(hz, U32)
  }

  /** At every tick rate a valid time is cut to no ticks at all, with an error. */
  lemma TooLongIsCutToZero(hz: int)
    requires TickRate(hz)
    ensures Valid(TooLong(hz)) && !IsZero(TooLong(hz)) && TooLong(hz).sec >= 0 && TickCount(hz, TooLong(hz)) == U32
    ensures ConvertRelative(hz, TooLong(hz)) == Conversion(EINVAL, Some(0))
  {
    EncodeRoundTrip(hz, U32);
    DivModBounds(U32, hz);
    if U32 / hz < 0 {
      MulMonotone(U32 / hz, -1, hz);
    }
  }
}
