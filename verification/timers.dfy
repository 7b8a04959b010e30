/** src/posix_timer.c: interval timers over the wrapping tick counter. */
module Timers {
  import opened Machine
  import opened Timespecs
  import opened Clock

  datatype Itimerspec = Itimerspec(interval: Timespec, value: Timespec)

  /** timer_settime's result: 0, -1 with errno set, or an error number returned as it is. */
  datatype SetResult = Zero | MinusOne(errno: Errno) | Code(ret: Errno)

  /**
   `now` counts ticks since boot and never wraps; the code sees only `ticks`. `fired` holds the instants at
   which the notification function ran; it runs only when the event asks for SIGEV_THREAD.
   */
  datatype State = State(now: nat, ticks: Unsigned, expire: Unsigned, active: bool, period: Unsigned,
                         notify: bool, fired: seq<nat>)

  /** The RTOS contract of tmr_on. */
  function TmrOn(s: State, n: Unsigned): State {
    s.(expire := ToUnsigned(s.ticks + n), active := true)
  }

  /** timer_do. */
  function TimerDo(s: State): State {
    var s' := if s.period > 0 then TmrOn(s, s.period) else s;
    if s.notify then s'.(fired := s.fired + [s.now]) else s'
  }

  /** The RTOS contract of a tick: an active timer whose tick has come is taken off and its callback runs. */
  function Tick(s: State): State {
    var s' := s.(now := s.now + 1, ticks := ToUnsigned(s.ticks + 1));
    if s'.active && s'.ticks == s'.expire then TimerDo(s'.(active := false)) else s'
  }

  /** timer_gettime. */
  function Report(hz: int, s: State): Itimerspec
    requires TickRate(hz)
  {
    Itimerspec(Encode(hz, s.period),
               if s.active then Encode(hz, ToUnsigned(s.expire - s.ticks)) else Timespec(0, 0))
  }

  /** The delay, in ticks, that timer_settime arms for a value that is not zero, and its return code. */
  function FirstDelay(hz: int, s: State, absolute: bool, value: Timespec): (Errno, Unsigned)
    requires TickRate(hz)
  {
    if absolute then
      var c := ConvertAbsolute(hz, value, Reading(hz, s.ticks));
      if c.ret == OK then (OK, Written(c, 0))
      else if c.ret == ETIMEDOUT then (OK, 0)
      else (c.ret, 0)
    else (OK, Written(ConvertRelative(hz, value), 0))
  }

  function PeriodOf(hz: int, interval: Timespec): Unsigned
    requires TickRate(hz)
  {
    if IsZero(interval) then 0 else Written(ConvertRelative(hz, interval), 0)
  }

  /** timer_settime. */
  function AfterSetTime(hz: int, s: State, absolute: bool, v: Itimerspec): (SetResult, State)
    requires TickRate(hz)
  {
    if IsZero(v.value) then (Zero, s.(active := false))
    else if !Valid(v.interval) || !Valid(v.value) then (MinusOne(EINVAL), s)
    else
      var (ret, delay) := FirstDelay(hz, s, absolute, v.value);
      var s' := s.(active := false, period := PeriodOf(hz, v.interval));
      (if ret == OK then Zero else Code(ret), if delay == 0 then TimerDo(s') else TmrOn(s', delay))
  }

  function AfterTicks(s: State, k: nat): State
    decreases k
  {
    if k == 0 then s else AfterTicks(Tick(s), k - 1)
  }

  /** A POSIX timer together with the RTOS timer and the tick counter it runs on. */
  class PosixTimer {
    ghost var now: nat
    ghost var fired: seq<nat>
    var ticks: Unsigned
    var expire: Unsigned
    var active: bool
    var period: Unsigned
    var notify: bool

    ghost function View(): State
      reads this
    {
      State(now, ticks, expire, active, period, notify, fired)
    }

    /** timer_create, for an event that is not SIGEV_SIGNAL, at the boot of the tick counter or later. */
    constructor (notify: bool, ghost now: nat, ticks: Unsigned)
      requires ticks == ToUnsigned(now)
      ensures View() == State(now, ticks, expire, false, 0, notify, [])
    {
      this.now, this.fired := now, [];
      this.ticks, this.expire, this.active := ticks, 0, false;
      this.period, this.notify := 0, notify;
    }

    method TurnOn(n: Unsigned)
      modifies this
      ensures View() == TmrOn(old(View()), n)
    {
      expire := (ticks + n) % U32;
      active := true;
    }

    method Do()
      modifies this
      ensures View() == TimerDo(old(View()))
    {
      if period > 0 {
        TurnOn(period);
      }
      if notify {
        fired := fired + [now];
      }
    }

    method TickOnce()
      modifies this
      ensures View() == Tick(old(View()))
    {
      now := now + 1;
      ticks := (ticks + 1) % U32;
      if active && ticks == expire {
        active := false;
        Do();
      }
    }

    method GetTime(hz: int) returns (value: Itimerspec)
      requires TickRate(hz)
      ensures value == Report(hz, View())
    {
      var left := (expire - ticks) % U32;
      var remaining := Timespec(0, 0);
      if active {
        remaining := Timespec(left / hz, (left % hz) * Npt(hz));
      }
      value := Itimerspec(Timespec(period / hz, (period % hz) * Npt(hz)), remaining);
    }

    method SetTime(hz: int, absolute: bool, v: Itimerspec, ovalue: Ptr<Itimerspec>)
      returns (result: SetResult, ovalue': Ptr<Itimerspec>)
      requires TickRate(hz)
      requires TicksFit(hz, v.interval) && TicksFit(hz, v.value)
      requires TicksFit(hz, Difference(v.value, Reading(hz, ticks)))
      modifies this
      ensures (result, View()) == AfterSetTime(hz, old(View()), absolute, v)
      ensures ovalue' == if ovalue.Null? then Null else Ref(Report(hz, old(View())))
    {
      result := Zero;
      ovalue' := ovalue;
      if !IsZero(v.value) {
        if !ValidateTimespec(Ref(v.interval)) || !ValidateTimespec(Ref(v.value)) {
          result := MinusOne(EINVAL);
        }
      }
      if ovalue != Null {
        var reported := GetTime(hz);
        ovalue' := Ref(reported);
      }
      if result == Zero {
        active := false;
      }
      if result == Zero && !IsZero(v.value) {
        var newPeriod: Ptr<Unsigned> := Ref(0);
        if !IsZero(v.interval) {
          var _, converted := Timespec2Ticks(hz, Ref(v.interval), newPeriod);
          newPeriod := converted;
        }
        period := newPeriod.val;
        var next: Ptr<Unsigned> := Ref(0);
        if absolute {
          var _, cur := ClockGettime(hz, ticks, Ref(Timespec(0, 0)));
          var ret;
          ret, next := AbsTimespec2Ticks(hz, Ref(v.value), cur, next);
          if ret != OK {
            next := Ref(0);
            if ret != ETIMEDOUT {
              result := Code(ret);
            }
          }
        } else {
          var _, converted := Timespec2Ticks(hz, Ref(v.value), next);
          next := converted;
        }
        if next.val == 0 {
          Do();
        } else {
          TurnOn(next.val);
        }
      }
    }

    /** Any number of ticks with no call in between. */
    method RunTicks(k: nat)
      modifies this
      ensures View() == AfterTicks(old(View()), k)
    {
      var i := 0;
      while i < k
        invariant 0 <= i <= k
        invariant AfterTicks(View(), k - i) == AfterTicks(old(View()), k)
      {
        TickOnce();
        i := i + 1;
      }
    }
  }

  // ----- what the states mean -----

  /** What every reachable state keeps: the counter is the time modulo 2^32, and an armed timer is not due now. */
  predicate WellFormed(s: State) {
    s.ticks == ToUnsigned(s.now) && (s.active ==> s.expire != s.ticks)
  }

  function Left(s: State): Unsigned {
    ToUnsigned(s.expire - s.ticks)
  }

  predicate Armed(s: State, left: int, period: Unsigned) {
    WellFormed(s) && s.active && s.period == period && 1 <= left < U32 && Left(s) == left
  }

  /** The number of expirations in k ticks of a timer with the given first delay and period. */
  function Expirations(delay: nat, period: nat, k: nat): nat {
    if k < delay then 0
    else if period == 0 then 1
    else 1 + (k - delay) / period
  }

  /** count instants, the first at `first`, each `period` after the one before. */
  function Instants(first: nat, period: nat, count: nat): (ts: seq<nat>)
    ensures |ts| == count && forall i :: 0 <= i < count ==> ts[i] == first + i * period
  {
    seq(count, i requires 0 <= i => first + i * period)
  }

  lemma TmrOnArms(s: State, n: Unsigned)
    requires s.ticks == ToUnsigned(s.now) && n > 0
    ensures Armed(TmrOn(s, n), n, s.period)
  {
  }

  /** The wrapping difference falls by one with each tick and ends where the counter meets the expiry. */
  lemma LeftFalls(expire: Unsigned, ticks: Unsigned)
    requires expire != ticks
    ensures ToUnsigned(expire - ToUnsigned(ticks + 1)) == ToUnsigned(expire - ticks) - 1
    ensures ToUnsigned(ticks + 1) == expire <==> ToUnsigned(expire - ticks) == 1
  {
    assert ToUnsigned(expire - ticks) == if expire > ticks then expire - ticks else expire - ticks + U32;
    assert ToUnsigned(ticks + 1) == if ticks == UINT_MAX then 0 else ticks + 1;
  }

  /** A tick moves the counter as it moves the time. */
  lemma TickMovesTime(s: State)
    requires s.ticks == ToUnsigned(s.now)
    ensures Tick(s).ticks == ToUnsigned(s.ticks + 1) == ToUnsigned(Tick(s).now)
    ensures Tick(s).now == s.now + 1 && Tick(s).notify == s.notify && Tick(s).period == s.period
  {
  }

  /** A tick that is not the last brings an armed timer one tick closer. */
  lemma WaitingTick(s: State, left: int, period: Unsigned)
    requires Armed(s, left, period) && left > 1
    ensures Armed(Tick(s), left - 1, period) && Tick(s).fired == s.fired
  {
    TickMovesTime(s);
    LeftFalls(s.expire, s.ticks);
    assert Tick(s).active && Tick(s).expire == s.expire;
  }

  /** The last one makes it expire, and re-arms it when it is periodic. */
  lemma ExpiringTick(s: State, period: Unsigned)
    requires Armed(s, 1, period)
    ensures Tick(s).fired == s.fired + (if s.notify then [s.now + 1] else [])
    ensures if period > 0 then Armed(Tick(s), period, period) else WellFormed(Tick(s)) && !Tick(s).active
  {
    TickMovesTime(s);
    LeftFalls(s.expire, s.ticks);
    var due := s.(now := s.now + 1, ticks := ToUnsigned(s.ticks + 1), active := false);
    assert Tick(s) == TimerDo(due);
    if period > 0 {
      TmrOnArms(due, period);
    }
  }

  lemma {:induction false} DisarmedRun(s: State, k: nat)
    requires !s.active
    ensures AfterTicks(s, k).fired == s.fired && !AfterTicks(s, k).active
    decreases k
  {
    if k > 0 {
      DisarmedRun(Tick(s), k - 1);
    }
  }

  lemma OnePeriodLess(period: nat, k: nat)
    requires period > 0 && k > 0
    ensures Expirations(1, period, k) == 1 + Expirations(period, period, k - 1)
  {
    if k - 1 < period {
      DivUnique(k - 1, period, 0);
    } else {
      var q := (k - 1 - period) / period;
      DivModBounds(k - 1 - period, period);
      assert (q + 1) * period == q * period + period;
      DivUnique(k - 1, period, q + 1);
    }
  }

  lemma InstantsShift(first: nat, period: nat, count: nat)
    ensures Instants(first, period, count + 1) == [first] + Instants(first + period, period, count)
  {
    var shifted := [first] + Instants(first + period, period, count);
    forall i | 0 <= i < count + 1
      ensures Instants(first, period, count + 1)[i] == shifted[i]
    {
      assert (i - 1) * period == i * period - period;
    }
  }

  /** A timer armed with `delay` ticks left expires at delay, delay + period, delay + 2 * period and so on. */
  lemma {:induction false} ArmedRun(s: State, delay: int, period: Unsigned, k: nat)
    requires Armed(s, delay, period) && s.notify
    ensures AfterTicks(s, k).fired == s.fired + Instants(s.now + delay, period, Expirations(delay, period, k))
    decreases k
  {
    if k > 0 {
      var s' := Tick(s);
      TickMovesTime(s);
      if delay > 1 {
        WaitingTick(s, delay, period);
        ArmedRun(s', delay - 1, period, k - 1);
      } else if period > 0 {
        ExpiringTick(s, period);
        OnePeriodLess(period, k);
        ArmedRun(s', period, period, k - 1);
        InstantsShift(s.now + 1, period, Expirations(period, period, k - 1));
      } else {
        ExpiringTick(s, period);
        DisarmedRun(s', k - 1);
        assert Instants(s.now + 1, 0, 1) == [s.now + 1];
      }
    }
  }

  /**
   Whole runs: after a timer_settime that arms with a first delay f and a period p, in any number of ticks the
   notifications are exactly those at f, f + p, f + 2p, ... (once when p is 0). A first delay of 0, which an
   absolute time already past gives, notifies at once.
   */
  lemma NotificationTimes(hz: int, s: State, absolute: bool, v: Itimerspec, k: nat)
    requires TickRate(hz) && WellFormed(s) && s.notify && !IsZero(v.value)
    requires !AfterSetTime(hz, s, absolute, v).0.MinusOne?
    ensures var (_, delay) := FirstDelay(hz, s, absolute, v.value);
            var period := PeriodOf(hz, v.interval);
            AfterTicks(AfterSetTime(hz, s, absolute, v).1, k).fired
            == s.fired + Instants(s.now + delay, period, Expirations(delay, period, k))
  {
    var (_, delay) := FirstDelay(hz, s, absolute, v.value);
    var period := PeriodOf(hz, v.interval);
    var s' := AfterSetTime(hz, s, absolute, v).1;
    var stopped := s.(active := false, period := period);
    if delay > 0 {
      TmrOnArms(stopped, delay);
      ArmedRun(s', delay, period, k);
    } else if period > 0 {
      TmrOnArms(stopped, period);
      assert s'.fired == s.fired + [s.now];
      ArmedRun(s', period, period, k);
      OnePeriodLess(period, k + 1);
      assert Expirations(0, period, k) == Expirations(1, period, k + 1);
      InstantsShift(s.now, period, Expirations(period, period, k));
    } else {
      DisarmedRun(s', k);
      assert Instants(s.now, 0, 1) == [s.now];
    }
  }

  /** Zero means disarm, and so does a zero value with any interval: no later tick notifies. */
  lemma DisarmSilences(hz: int, s: State, absolute: bool, v: Itimerspec, k: nat)
    requires TickRate(hz) && IsZero(v.value)
    ensures AfterSetTime(hz, s, absolute, v).0 == Zero
    ensures AfterTicks(AfterSetTime(hz, s, absolute, v).1, k).fired == s.fired
  {
    DisarmedRun(AfterSetTime(hz, s, absolute, v).1, k);
  }

  lemma {:induction false} AfterTicksTime(s: State, k: nat)
    requires s.ticks == ToUnsigned(s.now)
    ensures AfterTicks(s, k).now == s.now + k && AfterTicks(s, k).ticks == ToUnsigned(s.now + k)
    decreases k
  {
    if k > 0 {
      TickMovesTime(s);
      AfterTicksTime(Tick(s), k - 1);
    }
  }

  /** What the clock reads k ticks after a call of timer_settime. */
  function ClockAfter(hz: int, s: State, absolute: bool, v: Itimerspec, k: nat): Timespec
    requires TickRate(hz)
  {
    Reading(hz, AfterTicks(AfterSetTime(hz, s, absolute, v).1, k).ticks)
  }

  /** In k ticks an absolute timer has notified if and only if the clock has reached the time it was set to. */
  predicate Prompt(hz: int, s: State, v: Itimerspec, k: nat)
    requires TickRate(hz)
  {
    AfterTicks(AfterSetTime(hz, s, true, v).1, k).fired != s.fired
    <==> Nanos(ClockAfter(hz, s, true, v, k)) >= Nanos(v.value)
  }

  /** An absolute timer is set without an error, and the counter does not wrap in the k ticks that follow. */
  predicate SetWithinTurn(hz: int, s: State, v: Itimerspec, k: nat)
    requires TickRate(hz)
  {
    && WellFormed(s) && s.notify && !IsZero(v.value)
    && AfterSetTime(hz, s, true, v).0 == Zero && s.ticks + k < U32
  }

  lemma SomeExpiration(first: nat, delay: nat, period: nat, k: nat, before: seq<nat>)
    ensures before + Instants(first, period, Expirations(delay, period, k)) != before <==> k >= delay
  {
    if k >= delay && period > 0 && (k - delay) / period < 0 {
      MulMonotone((k - delay) / period, -1, period);
    }
    assert |before + Instants(first, period, Expirations(delay, period, k))|
        == |before| + Expirations(delay, period, k);
  }

  /** Such a timer has notified once its first delay has passed. */
  lemma NotifiedIff(hz: int, s: State, v: Itimerspec, k: nat)
    requires TickRate(hz) && SetWithinTurn(hz, s, v, k)
    ensures AfterTicks(AfterSetTime(hz, s, true, v).1, k).fired != s.fired <==> k >= FirstDelay(hz, s, true, v.value).1
  {
    NotificationTimes(hz, s, true, v, k);
    var delay := FirstDelay(hz, s, true, v.value).1;
    SomeExpiration(s.now + delay, delay, PeriodOf(hz, v.interval), k, s.fired);
  }

  lemma TurnOfCounter(now: nat, k: nat)
    requires ToUnsigned(now) + k < U32
    ensures ToUnsigned(now + k) == ToUnsigned(now) + k
  {
  }

  lemma ClockWithinTurn(hz: int, s: State, v: Itimerspec, k: nat)
    requires TickRate(hz) && SetWithinTurn(hz, s, v, k)
    ensures ClockAfter(hz, s, true, v, k) == Reading(hz, s.ticks + k)
  {
    var s' := AfterSetTime(hz, s, true, v).1;
    assert s'.now == s.now && s'.ticks == s.ticks;
    AfterTicksTime(s', k);
    TurnOfCounter(s.now, k);
  }

  /** The delay of an absolute timer is the number of ticks to its time, or 0 when that is past. */
  lemma DelayIsWait(hz: int, s: State, value: Timespec)
    requires TickRate(hz) && Valid(value) && FirstDelay(hz, s, true, value).0 == OK
    ensures FirstDelay(hz, s, true, value).1
            == if Converts(hz, value, s.ticks) then WaitTicks(hz, value, s.ticks) else 0
    ensures !Converts(hz, value, s.ticks) ==> Nanos(value) < Nanos(Reading(hz, s.ticks))
  {
    DeadlineSandwich(hz, value, Reading(hz, s.ticks));
  }

  lemma PromptWithinTurn(hz: int, s: State, v: Itimerspec, k: nat)
    requires TickRate(hz) && SetWithinTurn(hz, s, v, k)
    ensures Prompt(hz, s, v, k)
            <==> (k >= FirstDelay(hz, s, true, v.value).1 <==> Nanos(Reading(hz, s.ticks + k)) >= Nanos(v.value))
  {
    NotifiedIff(hz, s, v, k);
    ClockWithinTurn(hz, s, v, k);
  }

  /**
   Exactly when one absolute timer notifies first on the very tick on which the clock reaches its time, while the
   counter does not wrap: if it is due in that turn of the counter, its rounding covers the residue.
   */
  lemma TimerPromptIff(hz: int, s: State, v: Itimerspec)
    requires TickRate(hz) && SetWithinTurn(hz, s, v, 0)
    ensures (forall k: nat :: SetWithinTurn(hz, s, v, k) ==> Prompt(hz, s, v, k))
            <==> (Converts(hz, v.value, s.ticks) && s.ticks + WaitTicks(hz, v.value, s.ticks) < U32
                  ==> RoundingCovers(hz, Difference(v.value, Reading(hz, s.ticks))))
  {
    DelayIsWait(hz, s, v.value);
    var covers := RoundingCovers(hz, Difference(v.value, Reading(hz, s.ticks)));
    if Converts(hz, v.value, s.ticks) && s.ticks + WaitTicks(hz, v.value, s.ticks) < U32 && !covers {
      var n := WaitTicks(hz, v.value, s.ticks);
      PromptWithinTurn(hz, s, v, n);
      TicksReach(hz, v.value, s.ticks, n);
      assert SetWithinTurn(hz, s, v, n) && !Prompt(hz, s, v, n);
    } else {
      forall k: nat | SetWithinTurn(hz, s, v, k)
        ensures Prompt(hz, s, v, k)
      {
        PromptWithinTurn(hz, s, v, k);
        if Converts(hz, v.value, s.ticks) {
          TicksReach(hz, v.value, s.ticks, k);
        } else {
          ReadingAdds(hz, s.ticks, k);
          MulMonotone(0, k, Npt(hz));
        }
      }
    }
  }

  /** A timer set at boot to one second later. */
  lemma OneSecondTimer(hz: int, s: State, v: Itimerspec)
    requires TickRate(hz)
    requires s == State(0, 0, 0, false, 0, true, []) && v == Itimerspec(Timespec(0, 0), Timespec(1, 0))
    ensures SetWithinTurn(hz, s, v, 0)
  {
    assert FirstDelay(hz, s, true, v.value) == (OK, hz) by {
      BootReading(hz);
      SecondCounts(hz);
    }
  }

  /** So all absolute timers do precisely when tmr_hz divides a second. */
  lemma AbsoluteTimerPromptIff(hz: int)
    requires TickRate(hz)
    ensures (forall s, v, k: nat :: SetWithinTurn(hz, s, v, k) ==> Prompt(hz, s, v, k)) <==> Residue(hz) == 0
  {
    if Residue(hz) == 0 {
      forall s, v, k: nat | SetWithinTurn(hz, s, v, k)
        ensures Prompt(hz, s, v, k)
      {
        CeilDivBounds(Difference(v.value, Reading(hz, s.ticks)).nsec, Npt(hz));
        TimerPromptIff(hz, s, v);
      }
    } else {
      var s := State(0, 0, 0, false, 0, true, []);
      var v := Itimerspec(Timespec(0, 0), Timespec(1, 0));
      OneSecondTimer(hz, s, v);
      SecondConverts(hz);
      assert !RoundingCovers(hz, Difference(v.value, Reading(hz, s.ticks)));
      TimerPromptIff(hz, s, v);
    }
  }

  /** The ticks that a timer should let pass first: those of a relative time, or those up to an absolute one. */
  function DelayAsked(hz: int, s: State, absolute: bool, value: Timespec): int
    requires TickRate(hz)
  {
    if !absolute then TickCount(hz, value)
    else if Nanos(value) < Nanos(Reading(hz, s.ticks)) then 0
    else TickCount(hz, Difference(value, Reading(hz, s.ticks)))
  }

  /**
   The first delay is the one asked for precisely when that fits in an unsigned. Otherwise a relative delay is cut to
   its low 32 bits and an absolute time too far off notifies at once; only the latter is reported.
   */
  lemma DelayExactIff(hz: int, s: State, absolute: bool, value: Timespec)
    requires TickRate(hz) && Valid(value)
    ensures FirstDelay(hz, s, absolute, value).1 == DelayAsked(hz, s, absolute, value)
            <==> 0 <= DelayAsked(hz, s, absolute, value) <= UINT_MAX
    ensures FirstDelay(hz, s, absolute, value).0 == OK
            <==> !absolute || DelayAsked(hz, s, absolute, value) <= UINT_MAX
    ensures FirstDelay(hz, s, absolute, value).0 != OK ==> FirstDelay(hz, s, absolute, value) == (EINVAL, 0)
    ensures !absolute ==> (TickCount(hz, value) - FirstDelay(hz, s, absolute, value).1) % U32 == 0
  {
    RelativeCodes(hz, value);
    if absolute && Nanos(value) >= Nanos(Reading(hz, s.ticks)) {
      var d := Difference(value, Reading(hz, s.ticks));
      assert TickCount(hz, d) >= 0 by { RelativeSandwich(hz, d); }
    }
  }

  /**
   The period is the interval's tick count precisely when that fits in an unsigned, and the timer is periodic
   precisely when the count is not a multiple of 2^32: an interval of exactly 2^32 ticks makes it expire once.
   */
  lemma PeriodExactIff(hz: int, interval: Timespec)
    requires TickRate(hz) && Valid(interval)
    ensures PeriodOf(hz, interval) == TickCount(hz, interval) <==> 0 <= TickCount(hz, interval) <= UINT_MAX
    ensures (TickCount(hz, interval) - PeriodOf(hz, interval)) % U32 == 0
    ensures PeriodOf(hz, interval) == 0 <==> TickCount(hz, interval) % U32 == 0
  {
    NanosecondTicks(hz, interval.nsec);
    assert IsZero(interval) ==> TickCount(hz, interval) == 0;
  }

  /**
   What timer_settime returns: -1 with EINVAL, and then nothing has changed, exactly if the timer is not being disarmed
   and the interval or the value is invalid; EINVAL itself exactly for an absolute time too far off; otherwise 0, an
   absolute time already past included.
   */
  lemma SetTimeResult(hz: int, s: State, absolute: bool, v: Itimerspec)
    requires TickRate(hz)
    ensures var (ret, s') := AfterSetTime(hz, s, absolute, v);
            var refused := !IsZero(v.value) && (!Valid(v.interval) || !Valid(v.value));
            var distant := absolute && Nanos(v.value) >= Nanos(Reading(hz, s.ticks))
                           && TickCount(hz, Difference(v.value, Reading(hz, s.ticks))) > UINT_MAX;
            && (ret == MinusOne(EINVAL) <==> refused)
            && (ret == MinusOne(EINVAL) ==> s' == s)
            && (ret == Code(EINVAL) <==> !refused && !IsZero(v.value) && distant)
            && (ret == Zero || ret == MinusOne(EINVAL) || ret == Code(EINVAL))
  {
    if Valid(v.value) {
      DelayExactIff(hz, s, absolute, v.value);
    }
  }

  /** At every tick rate an interval of 2^32 ticks makes a timer that notifies once and never again. */
  lemma TooLongIntervalExpiresOnce(hz: int, s: State, value: Timespec, k: nat)
    requires TickRate(hz) && WellFormed(s) && s.notify && Valid(value) && !IsZero(value)
    ensures var delay := FirstDelay(hz, s, false, value).1;
            var (ret, s') := AfterSetTime(hz, s, false, Itimerspec(TooLong(hz), value));
            && ret == Zero && !IsZero(TooLong(hz))
            && AfterTicks(s', k).fired == s.fired + if k < delay then [] else [s.now + delay]
  {
    TooLongIsCutToZero(hz);
    NotificationTimes(hz, s, false, Itimerspec(TooLong(hz), value), k);
    var delay := FirstDelay(hz, s, false, value).1;
    assert Instants(s.now + delay, 0, 1) == [s.now + delay];
  }

  /** And a first delay of 2^32 ticks notifies at once, with an error if it is asked for as an absolute time at boot. */
  lemma TooLongDelayNotifiesAtOnce(hz: int, s: State, absolute: bool)
    requires TickRate(hz) && s.ticks == 0 && s.notify
    ensures DelayAsked(hz, s, absolute, TooLong(hz)) == U32
    ensures var (ret, s') := AfterSetTime(hz, s, absolute, Itimerspec(Timespec(0, 0), TooLong(hz)));
            && ret == (if absolute then Code(EINVAL) else Zero)
            && s'.fired == s.fired + [s.now] && !s'.active
  {
    TooLongIsCutToZero(hz);
    TooLongDeadline(hz);
    BootReading(hz);
  }

  // ----- reports -----

  /** The clock's and the timer's encodings agree on every count precisely when the tick rate divides a second. */
  lemma EncodingsAgreeIff(hz: int)
    requires TickRate(hz)
    ensures (forall n: Unsigned :: Encode(hz, n) == Reading(hz, n)) <==> Residue(hz) == 0
  {
    SecondInTicks(hz);
    if Residue(hz) == 0 {
      forall n: Unsigned
        ensures Encode(hz, n) == Reading(hz, n)
      {
        EncodeRoundTrip(hz, n);
        DivModBounds(n, hz);
        assert ((n / hz) * hz + n % hz) * Npt(hz) == (n / hz) * (hz * Npt(hz)) + (n % hz) * Npt(hz);
        ValidIsCanonical(Encode(hz, n), Reading(hz, n));
      }
    } else {
      var n: Unsigned := hz;
      DivUnique(n, hz, 1);
      assert Encode(hz, n).sec == 1;
      assert Nanos(Reading(hz, n)) < NANOSECONDS_PER_SECOND;
    }
  }

  /** The wrapping difference of expiry and counter is the time to the next notification. */
  lemma LeftIsTrue(s: State, k: nat)
    requires WellFormed(s) && s.active && s.notify
    ensures 1 <= Left(s)
    ensures k < Left(s) ==> AfterTicks(s, k).fired == s.fired
    ensures AfterTicks(s, Left(s)).fired == s.fired + [s.now + Left(s)]
  {
    var n := Left(s);
    LeftFalls(s.expire, s.ticks);
    ArmedRun(s, n, s.period, n);
    if s.period > 0 { DivUnique(0, s.period, 0); }
    assert Instants(s.now + n, s.period, 1) == [s.now + n];
    if k < n {
      ArmedRun(s, n, s.period, k);
    }
  }

  /** In a well-formed armed state the time reported is the time to the next expiration, across wraps of the counter. */
  lemma ReportIsTrue(hz: int, s: State, k: nat)
    requires TickRate(hz) && WellFormed(s) && s.active && s.notify
    ensures var n := TickCount(hz, Report(hz, s).value);
            && 1 <= n < U32
            && (k < n ==> AfterTicks(s, k).fired == s.fired)
            && AfterTicks(s, n).fired == s.fired + [s.now + n]
    ensures TickCount(hz, Report(hz, s).interval) == s.period
  {
    EncodeRoundTrip(hz, Left(s));
    EncodeRoundTrip(hz, s.period);
    LeftIsTrue(s, k);
  }

  /** A timer that is not armed is reported with no time left, and with the period it has. */
  lemma DisarmedReport(hz: int, s: State)
    requires TickRate(hz) && !s.active
    ensures IsZero(Report(hz, s).value) && TickCount(hz, Report(hz, s).interval) == s.period
  {
    EncodeRoundTrip(hz, s.period);
  }

  /** Disarming changes nothing in the report but the time left, whatever interval it is given. */
  lemma DisarmKeepsPeriod(hz: int, s: State, absolute: bool, v: Itimerspec)
    requires TickRate(hz) && IsZero(v.value)
    ensures var s' := AfterSetTime(hz, s, absolute, v).1;
            && IsZero(Report(hz, s').value) && Report(hz, s').interval == Report(hz, s).interval
            && s' == s.(active := false)
  {
    DisarmedReport(hz, AfterSetTime(hz, s, absolute, v).1);
  }

  /** What timer_settime hands back for an armed timer re-arms it, or any other, with the same ticks left and period. */
  lemma SaveRestore(hz: int, saved: State, s: State)
    requires TickRate(hz) && WellFormed(saved) && saved.active && WellFormed(s)
    ensures var (ret, s') := AfterSetTime(hz, s, false, Report(hz, saved));
            ret == Zero && Armed(s', Left(saved), saved.period) && s'.fired == s.fired
  {
    var n := Left(saved);
    EncodeRoundTrip(hz, n);
    EncodeRoundTrip(hz, saved.period);
    assert ConvertRelative(hz, Encode(hz, n)) == Conversion(OK, Some(n));
    assert PeriodOf(hz, Encode(hz, saved.period)) == saved.period;
    TmrOnArms(s.(active := false, period := saved.period), n);
  }

  // ----- runs of calls and ticks -----

  datatype Op = TickOp | SetOp(absolute: bool, v: Itimerspec)

  function Run(hz: int, s: State, ops: seq<Op>): State
    requires TickRate(hz)
    decreases ops
  {
    if ops == [] then s
    else
      var s' := match ops[0]
        case TickOp => Tick(s)
        case SetOp(absolute, v) => AfterSetTime(hz, s, absolute, v).1;
      Run(hz, s', ops[1..])
  }

  lemma TickKeepsWellFormed(s: State)
    requires WellFormed(s)
    ensures WellFormed(Tick(s))
  {
    TickMovesTime(s);
    if s.active && Left(s) > 1 {
      WaitingTick(s, Left(s), s.period);
    } else if s.active {
      ExpiringTick(s, s.period);
    }
  }

  lemma {:induction false} RunKeepsWellFormed(hz: int, s: State, ops: seq<Op>)
    requires TickRate(hz) && WellFormed(s)
    ensures WellFormed(Run(hz, s, ops))
    decreases ops
  {
    if ops != [] {
      match ops[0] {
        case TickOp =>
          TickKeepsWellFormed(s);
          RunKeepsWellFormed(hz, Tick(s), ops[1..]);
        case SetOp(absolute, v) =>
          var s' := AfterSetTime(hz, s, absolute, v).1;
          if !IsZero(v.value) && Valid(v.interval) && Valid(v.value) {
            var stopped := s.(active := false, period := PeriodOf(hz, v.interval));
            var delay := FirstDelay(hz, s, absolute, v.value).1;
            if delay > 0 {
              TmrOnArms(stopped, delay);
            } else if stopped.period > 0 {
              TmrOnArms(stopped, stopped.period);
            }
          }
          RunKeepsWellFormed(hz, s', ops[1..]);
      }
    }
  }

  /** The same timer for an event that asks for no notification. */
  function Silent(s: State, fired: seq<nat>): State {
    s.(notify := false, fired := fired)
  }

  lemma SilentTick(s: State, fired: seq<nat>)
    ensures Tick(Silent(s, fired)) == Silent(Tick(s), fired)
  {
  }

  lemma SilentSet(hz: int, s: State, absolute: bool, v: Itimerspec, fired: seq<nat>)
    requires TickRate(hz)
    ensures AfterSetTime(hz, Silent(s, fired), absolute, v).1 == Silent(AfterSetTime(hz, s, absolute, v).1, fired)
  {
    assert FirstDelay(hz, Silent(s, fired), absolute, v.value) == FirstDelay(hz, s, absolute, v.value);
  }

  /** Over every run such a timer keeps the same time as one that notifies, and never notifies. */
  lemma {:induction false} SilentRun(hz: int, s: State, ops: seq<Op>, fired: seq<nat>)
    requires TickRate(hz)
    ensures Run(hz, Silent(s, fired), ops) == Silent(Run(hz, s, ops), fired)
    decreases ops
  {
    if ops != [] {
      match ops[0] {
        case TickOp =>
          SilentTick(s, fired);
          SilentRun(hz, Tick(s), ops[1..], fired);
        case SetOp(absolute, v) =>
          SilentSet(hz, s, absolute, v, fired);
          SilentRun(hz, AfterSetTime(hz, s, absolute, v).1, ops[1..], fired);
      }
    }
  }

  /** So the report is true in every state that calls and ticks can lead to. */
  lemma ReachableReportIsTrue(hz: int, s: State, ops: seq<Op>, k: nat)
    requires TickRate(hz) && WellFormed(s)
    requires var s' := Run(hz, s, ops); s'.active && s'.notify
    ensures var s' := Run(hz, s, ops);
            var n := TickCount(hz, Report(hz, s').value);
            && 1 <= n < U32
            && (k < n ==> AfterTicks(s', k).fired == s'.fired)
            && AfterTicks(s', n).fired == s'.fired + [s'.now + n]
  {
    RunKeepsWellFormed(hz, s, ops);
    ReportIsTrue(hz, Run(hz, s, ops), k);
  }
}
