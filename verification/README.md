# A verified model of libposix

libposix maps the POSIX threading API (IEEE Std 1003.1-2017) onto a small RTOS. This project models its barrier,
condition variable, semaphore deadlines, clock, interval timers, message-queue registry and the time arithmetic they
share, and proves what they promise: for every number of threads, every schedule, every tick rate from 1 to 10^9
and every run of calls. Where a promise is false of the code, the code is kept and the exact condition is proved.

`dafny verify dfyconfig.toml` checks everything.

| file | models | main results |
|---|---|---|
| `barriers.dfy` | `src/posix_pthread_barrier.c` | safety, exactly one serial thread, termination, token accounting |
| `condvars.dfy`, `condvar_calls.dfy`, `condvar_witnesses.dfy` | `src/posix_pthread_cond.c` | conservation law, no lost wakeup from call to return, bounded spurious wakeups, no deadlock |
| `timespecs.dfy`, `clock.dfy` | `src/utils.c`, `clock_gettime` | exact tick conversion, drift, when it is monotone and when it is early |
| `semaphores.dfy` | `src/posix_semaphore.c` | deadlines met, `sem_trywait` never blocks, tokens conserved |
| `timers.dfy` | `src/posix_timer.c` | notification times over whole runs, true remaining time, save and restore |
| `message_queues.dfy` | `src/posix_mqueue.c` | registry safety, order-independent free, where queues are lost |
| `machine.dfy`, `counting.dfy` | C arithmetic, sums over threads | helpers |

## How it is modelled

- **Concurrency.** A barrier or condition variable is a state with one program counter per thread. `Next` is one
  line of one thread; a run is any sequence of such steps, each enabled when it is taken. Unlocked reads, `sem_post` and
  the `waiting--` that follows it, and a timeout and its later decrement are separate steps. The classes `PthreadBarrier` and
  `PthreadCond` hold the source's fields, and their methods execute the same lines in place. Increments made with
  the inner mutex held are single steps.
- **RTOS contracts, assumed.** A mutex has an owner; `sem_get` takes a token atomically, at once if there is one, and blocks at
  most its number of ticks; `sem_post_n(n)` adds n tokens for n >= 0 and leaves any number of them for n < 0;
  `tmr_on(n)` sets `expire` to the tick counter plus n modulo
  2^32; a timer is taken off before its callback runs on the tick that equals `expire`. A timed condition wait may time
  out at any moment, tokens or not, which covers every timing. Semaphore values are unbounded naturals.
- **Negative broadcasts.** A broadcast can find `waiting` negative and post that number. `CondVars.Drift` adds up, over a run, how
  far such posts were from taking back exactly -waiting tokens; it is 0 without them. A run is `Mild` if each takes back at
  most that many (one that does nothing, or adds tokens, is mild); only results about wakeups ask for it.
- **Time.** `tmr_hz` is any value in 1..10^9. `Npt` is NANOSECONDS_PER_TICK, 10^9 / tmr_hz truncated, and `Residue` is
  r = 10^9 mod tmr_hz. C's truncating `/` and `%` are written out; casts to `unsigned` are explicit; `TicksFit`
  says that the int64 arithmetic has no overflow, which holds whenever the seconds fit in 32 bits. Seconds themselves are
  unbounded: `time_t` is assumed wide enough for the subtraction and the cast of seconds.
- **History.** `expired`, `posts`, `zeroReturns`, `now` and `fired` record what happened; no modelled code reads them.

## What the code does not do

- The tick count of a longer time can be smaller: it is monotone only if r <= 1 (`Timespecs.MonotoneIffSmallResidue`).
- A timed wait can end before its deadline on the library's own clock, the 32-bit `tmr_ticks`: by up to r nanoseconds for each
  second waited, and by a whole turn of the counter if it wraps during the wait. `Clock.NotEarlyIff` gives the exact
  condition for each wait. Waits without a wrap are all on time iff r = 0 (`Clock.NeverEarlyIffDivides`); across a wrap the promise
  fails at every tick rate (`Clock.WrapIsEarly`: at tmr_hz = 1000, counter 2^32 - 1 and deadline 4294967.296 s, one tick
  later the clock reads 0). In real time a count of whole tick periods, counted from the last tick, is never short
  (`Timespecs.NeverShortInRealTime`); it is always less than a tick too long iff r <= 1 (`Timespecs.TightIffSmallResidue`).
- An absolute timer due before the counter wraps is early on that clock iff the rounding falls short (`Timers.TimerPromptIff`).
- Some times before the epoch are accepted at every tick rate but 10^9 (`Timespecs.NegativeTimesRejectedIff`): exactly those of
  the last second whose fraction rounds up to tmr_hz ticks or more (`Timespecs.NegativeAcceptedIff`).
- `src/utils.h` lines 71-72 and `src/posix_mqueue.c` line 68 keep EINVAL for invalid parameters; a valid deadline further off
  than 2^32 - 1 ticks also gives EINVAL from `sem_timedwait`, ETIMEDOUT from a queue, and an immediate notification from a
  timer (`Semaphores.FailureCodes`, `MessageQueues.GetTickTimeout`, `Timers.DelayExactIff`). At every tick rate a deadline of
  2^32 ticks at boot does so (`Semaphores.TooLongIsInvalid`, `MessageQueues.TooLongTimesOut`, `Timers.TooLongDelayNotifiesAtOnce`).
- `pthread_cond_timedwait` does not validate its deadline, and the conversion checks only the difference: unless the clock stands at
  a whole second, some deadline with nanoseconds out of range is accepted (`Timespecs.InvalidDeadlineAccepted`,
  `Timespecs.DeadlineCodes`).
- A timer interval of 2^32 ticks, or a multiple, becomes period 0: the timer expires once (`Timers.PeriodExactIff`,
  `Timers.TooLongIntervalExpiresOnce`).
- `waiting` is documented (`include/hcos_types.h` line 88) as the number of waiting threads; with nobody inside a call it
  can be -m for every m (`CondVarWitnesses.WaitingCanBeNegative`).
- POSIX has a signal unblock one of the threads blocked at the time. A token is always left (`CondVars.SignalLosesNoWakeup`)
  and always lets some call out (`CondVarCalls.SignalCallWakes`), one of those inside if fewer waits join meanwhile than there are
  tokens for them (`CondVars.SignalWakesInsider`); waits that join later can take them instead, for every number of tokens
  (`CondVarWitnesses.InsiderAlwaysLeavesIff`, `CondVarWitnesses.LateWaitTakesToken`).
- A statically initialised condition variable is all zero, so every call on it returns EINVAL (`CondVars.PthreadCond.CallWait`).
- A queue that was never unlinked is freed by the second close that finds at most one descriptor open
  (`MessageQueues.PersistsWithoutUnlink`), and `mq_open` never registers the queue it creates
  (`MessageQueues.CreatedQueuesAreNeverFound`).

## Model

| member | source | states |
|---|---|---|
| Barriers.PthreadBarrier.Init | src/posix_pthread_barrier.c:33-47 | a count of 0 is refused and changes nothing; otherwise the barrier is empty, with no token and a free mutex |
| Barriers.PthreadBarrier.Step | src/posix_pthread_barrier.c:49-64 | each line, run in place, is one step of the interleaving model; the line that takes a token returns PTHREAD_BARRIER_SERIAL_THREAD for ticket 1 and 0 for any other, the refusal returns EINVAL, and no other line returns |
| Barriers.PthreadBarrier.RunToEnd | src/posix_pthread_barrier.c:49-64 | a scheduler that lets any call that can move take a step stops, and stops with the barrier completed, or with all calls blocked when they are too few |
| Barriers.StepKeepsTickets | src/posix_pthread_barrier.c:52-58 | every step keeps: the admitted calls are as many as `cur_thread`, and each of 1..cur_thread is held by exactly one of them |
| Barriers.StepKeepsCalls | src/posix_pthread_barrier.c:52-62 | every step keeps: posting happens only when the barrier is full, and the holder of the last ticket does not reach the semaphore without posting, although line 59 reads without the mutex |
| Barriers.StepKeepsTokens | src/posix_pthread_barrier.c:59-62 | every step keeps: tokens plus calls past the semaphore are threshold times the posts |
| Barriers.StepKeepsMutex | src/posix_pthread_barrier.c:52-58 | the locked lines exclude each other |
| Barriers.NobodyPassesEarly | src/posix_pthread_barrier.c:52-63 | in no reachable state has a call got past the semaphore before `count` calls were admitted |
| Barriers.TokenAccounting | src/posix_pthread_barrier.c:53-62 | in every reachable state tokens + passed = count * posts; no post before the barrier fills, 1 to count posts once the admitted have returned; tokens <= count^2; never more than count successes |
| Barriers.TokenBoundIsAttained | src/posix_pthread_barrier.c:59-62 | for every threshold a schedule exists that leaves count^2 tokens at once, so the bound is exact |
| Barriers.TicketsAreDistinct | src/posix_pthread_barrier.c:57-63 | tickets drawn are exactly 1..cur_thread, no two calls share one, at most one call is serial in any reachable state |
| Barriers.StuckOutcome | src/posix_pthread_barrier.c:49-64 | a state of the invariant in which nothing can move is a completed barrier (one return of the serial value, count - 1 of 0, the rest EINVAL) or, with too few calls, all blocked at an empty semaphore |
| Barriers.LastTicketPosts | src/posix_pthread_barrier.c:57-61 | a full barrier whose admitted calls are at or past the semaphore has at least one post |
| Barriers.MaximalRuns | src/posix_pthread_barrier.c:49-64 | every maximal run of n >= count calls ends with one return of PTHREAD_BARRIER_SERIAL_THREAD, count - 1 returns of 0 and n - count of EINVAL; with n < count, with all n blocked |
| Barriers.FirstAdmittedIsSerial | src/posix_pthread_barrier.c:57-63 | in every run the first call to be admitted returns PTHREAD_BARRIER_SERIAL_THREAD, if it returns, and every other that succeeds returns 0 |
| Barriers.RunsAreBounded | src/posix_pthread_barrier.c:49-64 | every run of n calls has at most 7n steps |
| CondVars.PthreadCond.Init | src/posix_pthread_cond.c:78-91 | ENOMEM for a null pointer; otherwise the condition variable is initialised, with nobody waiting and no token |
| CondVars.PthreadCond.CallWait | src/posix_pthread_cond.c:109-128 | a call before initialisation returns EINVAL; a deadline that does not convert ends the call with its code; neither changes anything; otherwise the wait begins, timed iff a deadline was given |
| CondVars.PthreadCond.CallWake | src/posix_pthread_cond.c:53-60 | signal and broadcast before initialisation return EINVAL and change nothing |
| CondVars.PthreadCond.WaitStep | src/posix_pthread_cond.c:128-138 | each line of a wait, run in place, is one step of the interleaving model; only the relock after a token returns, with 0 and the user's mutex held |
| CondVars.PthreadCond.TimeoutStep | src/posix_pthread_cond.c:139-146 | the same for the timeout branch, which returns ETIMEDOUT with the user's mutex held |
| CondVars.PthreadCond.Expire | src/posix_pthread_cond.c:136-141 | only a timed wait that is at the semaphore enters the timeout branch |
| CondVars.PthreadCond.SignalStep | src/posix_pthread_cond.c:97-106 | the same for signal, its two reads, its post and its decrement being separate steps |
| CondVars.PthreadCond.BroadcastStep | src/posix_pthread_cond.c:58-70 | the same for broadcast, also when it finds `waiting` negative and posts that number |
| CondVars.StepSurplus | src/posix_pthread_cond.c:60-68 | every step of every thread keeps waiting + tokens = calls inside + in flight, except that a post of a negative number adds what it leaves beyond taking back -waiting tokens |
| CondVars.StepKeepsFloor | src/posix_pthread_cond.c:58-146 | every step keeps waiting >= -(timeout decrements made) and waiting > calls inside - n for n > 0 threads |
| CondVars.StepKeepsCalls | src/posix_pthread_cond.c:97-105 | between its check and its decrement a signal keeps `waiting` positive, and a broadcast the number it posted, whatever the others do |
| CondVars.StepKeepsUser | src/posix_pthread_cond.c:128-146 | every step keeps: a wait holds the user's mutex up to its release and from the timeout's relock on, and does not in between |
| CondVarCalls.WaitReturnsLocked | src/posix_pthread_cond.c:134-146 | in every reachable state, a step that ends a wait, by a token or by a timeout, leaves its caller holding the user's mutex |
| CondVars.StepKeepsMux | src/posix_pthread_cond.c:97-146 | the lines under the inner mutex exclude each other |
| CondVars.Conservation | src/posix_pthread_cond.c:60-146 | in every reachable state waiting + tokens = calls inside + in flight + drift, the drift being 0 unless a broadcast posted a negative number; with the inner mutex free nothing is in flight |
| CondVars.SignalLosesNoWakeup | src/posix_pthread_cond.c:93-107 | whenever a step ends a signal's being undecided, whatever it has read, with a call inside, a token is available right afterwards; if that step added none there is one for each call inside |
| CondVarCalls.SignalCall | src/posix_pthread_cond.c:93-107 | from call to return, in every run, a signal posts one token and takes one off `waiting`, or does neither and then there was a token for every call inside at some moment of the call |
| CondVarCalls.SignalCallWakes | src/posix_pthread_cond.c:93-150 | a signal called while a call is inside lets one out by the time the system rests, and one of those inside then if no wait joins from the call on |
| CondVarCalls.SignalAlone | src/posix_pthread_cond.c:93-107 | with no interference a signal is one line, without the mutex, when `waiting` is not positive, and otherwise six that turn one of `waiting` into a token |
| CondVars.BroadcastWakesAll | src/posix_pthread_cond.c:60-68 | when broadcast clears `waiting` there are exactly as many tokens as calls inside, plus the drift |
| CondVarCalls.BroadcastCall | src/posix_pthread_cond.c:53-70 | from call to return, in every run, a broadcast passes a moment with `waiting` 0 and exactly one token per call inside, plus the drift; without negative posts it posts what it takes off `waiting` |
| CondVarCalls.BroadcastCallWakes | src/posix_pthread_cond.c:53-150 | by the time the system rests as many calls are let out as were inside when broadcast was called, at most as many are inside as joined since, and if none joined each call that was inside has been let out |
| CondVarCalls.BroadcastAlone | src/posix_pthread_cond.c:53-70 | with no interference a broadcast is four lines that turn all of `waiting` into tokens |
| CondVarCalls.WaitCall | src/posix_pthread_cond.c:109-150 | from call to return, in every run, a wait ends with the user's mutex held, having counted itself and taken one token, or, only if it has a deadline, counted and uncounted itself and taken none |
| CondVarCalls.WaitAlone | src/posix_pthread_cond.c:128-138 | with no interference a wait is four lines that count it and give the mutex up, and two that take a token and the mutex back |
| CondVarCalls.TimeoutAlone | src/posix_pthread_cond.c:139-146 | with no interference a timeout is four lines that take the mutex back and uncount the call |
| CondVars.SignalUnderMutexWakes | src/posix_pthread_cond.c:128-132 | for a signaller holding the user's mutex every other thread that called a wait and was not woken is counted, so the signal leaves a token |
| CondVars.TokensLetCallsOut | src/posix_pthread_cond.c:134-146 | every continuation that comes to rest lets out at least as many calls as there are tokens, or as are inside |
| CondVars.SignalLetsOneOut | src/posix_pthread_cond.c:93-150 | a signal made while a call is inside lets at least one out by the time the system rests, whatever happens in between |
| CondVars.BroadcastLetsAllOut | src/posix_pthread_cond.c:53-150 | by the time the system rests at least as many calls are let out as were inside when broadcast cleared `waiting`, at most as many are left inside as have joined since, and if none has joined each call that was inside has been let out |
| CondVars.SignalWakesInsider | src/posix_pthread_cond.c:93-150 | if fewer waits join before the system is at rest than there are tokens after the signal decides (counted up to the calls inside if a negative post follows), a call that was inside then is let out |
| CondVarWitnesses.InsiderAlwaysLeavesIff | src/posix_pthread_cond.c:93-150 | that bound is exact: right after a signal's post or at rest, with untimed calls blocked and some thread outside, some blocked call is let out in every continuation that rests with at most k joins and no negative post iff k is less than the tokens |
| CondVarWitnesses.LateWaitsTakeTokens | src/posix_pthread_cond.c:128-138 | for any number of tokens, as many waits by one thread that was outside come and go and leave every blocked call blocked |
| CondVarWitnesses.LateWaitTakesToken | src/posix_pthread_cond.c:128-138 | such a state is reachable: a run comes to rest with the only call the signal posted for still blocked, its token taken by a wait that began later |
| CondVars.SpuriousWakeupsBounded | src/posix_pthread_cond.c:97-146 | in every reachable state of n threads without drift, waiting >= -T and tokens <= calls inside + T, T being the timeout decrements made; and however large T, waiting > calls inside - n and tokens < n; drift adds to the bounds on tokens only |
| CondVars.UntimedRunsAreExact | src/posix_pthread_cond.c:84-107 | without timed waits `waiting` is never negative, tokens never exceed calls inside, and with nobody inside both are 0 again |
| CondVarWitnesses.WaitingCanBeNegative | src/posix_pthread_cond.c:58-146 | for every m, m + 1 threads reach waiting = -m with m spare tokens after m timeout decrements, nobody inside: `waiting` is not the number of waiters, and all four bounds on `waiting` and tokens are exact |
| CondVars.QuietShape | src/posix_pthread_cond.c:53-150 | the calls do not deadlock: when none can go on, the inner mutex is free and each waits at an empty semaphore or for a user's mutex held outside the calls |
| CondVars.QuietIsExact | src/posix_pthread_cond.c:53-150 | at rest with the user's mutex free waiting + tokens = blocked calls + drift; if calls are blocked no token is pending, so without drift `waiting` is exactly their number |
| CondVars.CallsAreBounded | src/posix_pthread_cond.c:53-150 | the lines run are at most nine for each wait, signal or broadcast begun and those left in calls under way |
| Timespecs.ValidateTimespec | src/utils.c:220-233 | true exactly of a timespec that is present and whose seconds are the whole seconds of what it is worth, before the epoch too |
| Timespecs.TimespecCmp | src/utils.c:150-176 | on valid timespecs it is the sign of the difference in total nanoseconds; on any it orders seconds first, a null pointer before all |
| Timespecs.Difference | src/utils.c:200-212 | the borrowed difference is worth exactly the difference, and is valid when both arguments are |
| Timespecs.TimespecSub | src/utils.c:178-218 | on valid arguments 1 iff x is before y, otherwise 0 and a valid timespec worth exactly the difference; -1 only on a null or a difference that stays negative; the output is written only when x is not before y |
| Timespecs.Timespec2Ticks | src/utils.c:87-131 | EINVAL and nothing written for null or invalid arguments; otherwise the rounded-up count modulo 2^32 is written, with 0 iff it fits |
| Timespecs.AbsTimespec2Ticks | src/utils.c:57-85 | null arguments, a past deadline, a bad difference and a conversion error are told apart, and the output is written only by the conversion |
| Timespecs.Nano2Timespec | src/utils.c:133-148 | for every int64, negative ones included, the result is valid and worth exactly the source |
| Timespecs.NarrowSecondsFit | src/utils.c:101-112 | with a 32-bit time_t the int64 arithmetic cannot overflow |
| Timespecs.TickSandwich | src/utils.c:101-112 | for every tick rate and timespec worth D with s seconds, D - r*s <= n*NPT < D - r*s + NPT |
| Timespecs.DeadlineSandwich | src/utils.c:57-85 | ETIMEDOUT exactly when the deadline is past; otherwise 0 iff the count fits, and then the sandwich holds and, if r = 0, the count is the least that reaches the deadline |
| Timespecs.RelativeCodes | src/utils.c:87-131 | 0 iff valid and the count is in 0..2^32 - 1, otherwise EINVAL; written iff valid, congruent to the count modulo 2^32 |
| Timespecs.DeadlineCodes | src/utils.c:57-85 | for any deadline at a valid time: ETIMEDOUT iff it is before; otherwise 0 iff its nanoseconds are less than a second away from the clock's and the count fits, EINVAL if not |
| Timespecs.InvalidDeadlineAccepted | src/utils.c:57-85 | at every tick rate and clock reading not at a whole second an invalid deadline converts with 0 |
| Timespecs.LeastTickIffDivides | src/utils.c:101-112 | the count is the least that reaches the duration, for all valid durations, iff tmr_hz divides 10^9 |
| Timespecs.NeverShortInRealTime | include/time.h:67 | n ticks of 1/tmr_hz second, counted in whole periods, last at least the duration converted, at every tick rate |
| Timespecs.TightIffSmallResidue | include/time.h:67 | they last less than a tick longer, for all valid durations, iff 10^9 mod tmr_hz <= 1 |
| Timespecs.LargeResidueIsLoose | include/time.h:67 | otherwise one nanosecond more than tmr_hz * NPT takes a tick or more too long |
| Timespecs.MonotoneIffSmallResidue | src/utils.c:101-112 | the count before the cast is monotone over all valid timespecs iff 10^9 mod tmr_hz <= 1 |
| Timespecs.NegativeTimesRejectedIff | src/utils.c:114-127 | all valid times before the epoch give EINVAL iff tmr_hz = 10^9 |
| Timespecs.NegativeAcceptedIff | src/utils.c:101-127 | a valid time before the epoch is accepted iff its seconds are -1 and its nanoseconds exceed (tmr_hz - 1) * NPT |
| Timespecs.EncodeRoundTrip | src/posix_timer.c:243-253 | timer_gettime's encoding of any tick count is valid, zero only for 0 ticks, and converts back exactly, at every tick rate |
| Timespecs.EncodeIsLongest | src/posix_timer.c:243-253 | it is the longest valid time of at most that many ticks |
| Timespecs.TooLongIsCutToZero | src/utils.c:114-130 | at every tick rate a time of 2^32 ticks converts with EINVAL and 0 is written |
| Clock.ClockFitsInt64 | src/posix_clock.c:82-83 | ticks * NPT stays in int64 for every 32-bit counter value |
| Clock.ClockGettime | src/posix_clock.c:77-86 | -1 for a null pointer; otherwise a valid timespec worth ticks * NPT |
| Clock.RoundTripDrift | src/posix_clock.c:77-86 | converting a reading of t ticks back gives t - (sec * r) / NPT, so the loss times NPT is between 0 and sec * r |
| Clock.RoundTripExactIff | src/posix_clock.c:77-86 | a reading converts back to its ticks iff sec * r < NPT |
| Clock.RoundTripAllIff | src/posix_clock.c:77-86 | all readings of the 32-bit counter do iff tmr_hz divides 10^9 |
| Clock.ReadingsOrdered | src/posix_clock.c:77-86 | timespec_cmp orders readings as their ticks |
| Clock.WaitReachesDeadline | src/utils.c:57-85 | after the converted ticks the clock, read from the 32-bit counter, is within r nanoseconds per second waited before the deadline and less than a tick past that; less a whole turn of the counter if it wraps |
| Clock.NotEarlyIff | src/utils.c:57-85 | one wait has reached its deadline on the clock iff the counter does not wrap before it ends and rounding the fraction of a second up makes good r nanoseconds for each second waited |
| Clock.NeverEarlyIffDivides | src/utils.c:57-85 | no wait that ends before the counter wraps is early on the clock iff tmr_hz divides 10^9 |
| Clock.WrapIsEarly | src/posix_clock.c:77-86 | at every tick rate a wait of one tick from the last value of the counter is early: its deadline converts, and the clock reads 0 afterwards |
| Semaphores.SemGetConserves | src/posix_semaphore.c:69-78 | a blocked call and the posts that reach it conserve tokens |
| Semaphores.SemGetDuration | src/posix_semaphore.c:69-78 | a bounded wait that fails has let exactly its ticks pass; one that succeeds, no more than them |
| Semaphores.Semaphore.Init | src/posix_semaphore.c:35-42 | the semaphore starts at the value given |
| Semaphores.Semaphore.Get | src/posix_semaphore.c:69-78 | the loop over what other threads do while the call is blocked has the outcome, value and history of the contract |
| Semaphores.Semaphore.TimedWait | src/posix_semaphore.c:44-81 | 0 exactly if the call took a token, still blocked exactly if neither a token nor the end of its time came; after a timeout EINVAL or ETIMEDOUT; and what it leaves in the semaphore |
| Semaphores.Semaphore.TryWait | src/posix_semaphore.c:83-92 | for every tick count, 0 included, it returns at once; 0 iff a token was there and was taken, otherwise EAGAIN and nothing changed |
| Semaphores.Semaphore.Wait | src/posix_semaphore.c:94-97 | it can only return 0 |
| Semaphores.TryWaitBound | src/posix_semaphore.c:83-92 | the deadline (0,0) becomes a wait of 0 ticks whatever the clock reads |
| Semaphores.FailureCodes | src/posix_semaphore.c:44-81 | a wait with a deadline returns 0 iff it took a token and fails iff its time ran out, with no token; errno is EINVAL iff the timespec is invalid or the deadline more than 2^32 - 1 ticks off, and ETIMEDOUT otherwise |
| Semaphores.BoundOfDeadline | src/posix_semaphore.c:46-68 | it blocks for ever iff there is no deadline, not at all for an invalid or past one, otherwise its tick count, modulo 2^32 when that does not fit |
| Semaphores.TooLongIsInvalid | src/posix_semaphore.c:44-81 | at every tick rate a valid deadline of 2^32 ticks at boot ends a wait without a token at once with EINVAL |
| Semaphores.TimeoutMeetsDeadline | src/posix_semaphore.c:44-81 | when a timed wait gives up, exactly its ticks have passed and the clock has reached the deadline less r nanoseconds per second waited, and less a whole turn if its counter wrapped meanwhile; a past deadline waits no tick |
| Semaphores.RunConserves | src/posix_semaphore.c:44-97 | over every run of posts, waits, timed waits and trywaits, value = initial + posts - waits that return 0, the run's own counted by their results |
| Timers.PosixTimer.constructor | src/posix_timer.c:129-136 | a new timer is disarmed with period 0 |
| Timers.PosixTimer.TickOnce | src/posix_timer.c:71-104 | a tick that meets `expire` disarms and runs the callback, which re-arms a periodic timer and notifies under SIGEV_THREAD |
| Timers.PosixTimer.GetTime | src/posix_timer.c:235-256 | remaining time 0 when disarmed, otherwise the wrapping difference encoded; and the period |
| Timers.PosixTimer.SetTime | src/posix_timer.c:153-233 | every branch: disarm, invalid value, relative, absolute, past and too distant; the old setting is handed back even when the call fails |
| Timers.PosixTimer.RunTicks | src/posix_timer.c:71-104 | any number of ticks in place is the model's iteration |
| Timers.LeftFalls | src/posix_timer.c:238 | the wrapping difference falls by one with each tick and is 1 exactly when the next tick expires the timer |
| Timers.ArmedRun | src/posix_timer.c:71-104 | an armed timer expires at delay + k * period for each k, once when the period is 0, and at no other time |
| Timers.NotificationTimes | src/posix_timer.c:153-233 | after any timer_settime that arms, the notifications in any number of ticks are exactly at f, f + p, f + 2p, ...; at once first for a time already past |
| Timers.DisarmSilences | src/posix_timer.c:174-178 | after a zero value no tick notifies |
| Timers.DisarmKeepsPeriod | src/posix_timer.c:174-178 | and nothing changes in timer_gettime's report but the time left, which is 0 |
| Timers.SetTimeResult | src/posix_timer.c:161-232 | -1 with EINVAL, and no change, iff not disarming and the interval or value is invalid; EINVAL returned iff an absolute time is too far off; otherwise 0, for a past time too |
| Timers.TimerPromptIff | src/posix_timer.c:192-215 | an absolute timer set without an error has, in any number of ticks before the counter wraps, notified exactly when the clock has reached its time, iff its rounding covers the residue or it is past or not due in that turn of the counter |
| Timers.AbsoluteTimerPromptIff | src/posix_timer.c:192-215 | all absolute timers do iff tmr_hz divides 10^9 |
| Timers.DelayExactIff | src/posix_timer.c:190-230 | the delay armed is the one asked for iff that fits in an unsigned; too distant an absolute time notifies at once with EINVAL, a relative one is cut modulo 2^32 silently |
| Timers.PeriodExactIff | src/posix_timer.c:179-186 | the period is the interval's tick count modulo 2^32, so the count itself iff that fits in an unsigned, and 0 iff it is a multiple of 2^32 |
| Timers.TooLongIntervalExpiresOnce | src/posix_timer.c:179-186 | at every tick rate a timer with an interval of 2^32 ticks notifies once in any number of ticks |
| Timers.TooLongDelayNotifiesAtOnce | src/posix_timer.c:190-230 | at every tick rate a first delay of 2^32 ticks at boot notifies at once and leaves the timer off: with 0 if relative, EINVAL if absolute |
| Timers.EncodingsAgreeIff | src/posix_timer.c:243-253 | the encodings of clock_gettime and timer_gettime agree on all ticks iff tmr_hz divides 10^9 |
| Timers.ReportIsTrue | src/posix_timer.c:235-256 | the time reported for an armed timer is the time in which it next notifies, across wraps of the counter |
| Timers.DisarmedReport | src/posix_timer.c:246-253 | a timer that is not armed is reported with no time left, and with its period |
| Timers.RunKeepsWellFormed | src/posix_timer.c:71-233 | every run of ticks and timer_settime calls keeps the counter in step with time and an armed timer not due now |
| Timers.SilentRun | src/posix_timer.c:71-233 | over every run a timer without notification keeps the same time as one with it, and never notifies |
| Timers.ReachableReportIsTrue | src/posix_timer.c:235-256 | so the report is true in every reachable armed state |
| Timers.SaveRestore | src/posix_timer.c:161-256 | what timer_settime hands back for an armed timer, given later to a relative timer_settime, restores the same ticks left and period, at every tick rate |
| MessageQueues.PlaceOfMqd | src/posix_mqueue.c:149-159 | the first entry with the descriptor, or none if there is none |
| MessageQueues.PlaceOfName | src/posix_mqueue.c:161-171 | the first entry with the name, or none if there is none |
| MessageQueues.Registry.Extract | src/posix_mqueue.c:149-159 | the walk of the list finds that entry |
| MessageQueues.Registry.Find | src/posix_mqueue.c:161-171 | the walk of the list finds that entry |
| MessageQueues.Registry.Delete | src/posix_mqueue.c:173-177 | the entry is off the list and its descriptor freed, the others in their order |
| MessageQueues.Registry.Close | src/posix_mqueue.c:179-207 | EBADF for an unknown descriptor; otherwise one count less, and at 0 the entry is freed if marked and marked if not |
| MessageQueues.Registry.Unlink | src/posix_mqueue.c:449-491 | a bad name, an unknown name, an entry with no descriptor (freed) and one with some (marked) |
| MessageQueues.Registry.Open | src/posix_mqueue.c:228-311 | the error cases, ENOENT without memory among them, and an existing entry's 16-bit count incremented with its wrap |
| MessageQueues.CloseResult | src/posix_mqueue.c:179-207 | 0 iff the descriptor is listed, otherwise EBADF and no change |
| MessageQueues.UnlinkResult | src/posix_mqueue.c:449-491 | ENAMETOOLONG iff the name lacks its slash or has more than 65 characters, ENOENT iff a good name is not listed, 0 iff it is; no change on failure |
| MessageQueues.OpenResult | src/posix_mqueue.c:228-311 | EINVAL, EEXIST, ENOENT, a new queue or the descriptor of the first queue of that name, each exactly when; only the last changes the registry, by one more in that queue's count modulo 2^16 |
| MessageQueues.StepIsLocal | src/posix_mqueue.c:179-491 | a call changes only the queue it concerns, and frees exactly the queue it removes |
| MessageQueues.RunKeepsWellFormed | src/posix_mqueue.c:179-491 | over every run from a well-formed registry descriptors stay distinct, names unique, nothing is freed twice, and no lookup finds a freed descriptor |
| MessageQueues.RunIsLocal | src/posix_mqueue.c:179-491 | a listed queue is freed by a run exactly if it no longer is found, and never comes back |
| MessageQueues.FreedOnlyAtZero | src/posix_mqueue.c:185-205 | a queue is freed by an unlink with no descriptor open or by a close of the last one when marked |
| MessageQueues.FreedAtLast | src/posix_mqueue.c:185-205 | a queue awaiting c closes, and an unlink unless it has had one, is freed iff all have been made |
| MessageQueues.OrderIndependentFree | src/posix_mqueue.c:463-488 | in every interleaving of c >= 1 closes and one unlink, with calls on other queues in between, the queue is freed exactly at the last of the c + 1 and exactly once |
| MessageQueues.PersistsWithoutUnlink | src/posix_mqueue.c:187-197 | without an unlink a queue survives a run iff at most one close finds at most one descriptor open (none if it was already marked) |
| MessageQueues.ReopenedQueueIsLost | src/posix_mqueue.c:187-197 | close, open, close frees a queue that nobody unlinked |
| MessageQueues.OpenProtectsIff | src/posix_mqueue.c:267-270 | a queue just opened survives an unlink iff its count was below 65535 |
| MessageQueues.CreatedQueuesAreNeverFound | src/posix_mqueue.c:271-306 | from the initial empty list no run of calls registers a queue: every close gives EBADF, every unlink ENOENT |
| MessageQueues.GetTickTimeout | src/posix_mqueue.c:71-106 | no wait for a non-blocking queue, WAIT without a deadline, EINVAL iff the deadline is invalid, ETIMEDOUT iff it is past or more than 2^32 - 1 ticks off, otherwise its ticks |
| MessageQueues.TooLongTimesOut | src/posix_mqueue.c:71-106 | at every tick rate a deadline of 2^32 ticks at boot, in the future, is reported as ETIMEDOUT |

## Left out

- RTOS internals (scheduler, mutex, semaphore, `mq_put`, `mq_get`, timer wheel): hcos/*.h is not part of this model; the contracts assumed are listed above.
- The value of the RTOS constant WAIT, which a finite deadline could convert to: waiting forever is kept apart from every tick count.
- What `sem_post_n` of a negative number does: it belongs to the RTOS, so any outcome is allowed; the results about wakeups hold on runs where it takes back at most that many tokens (`CondVars.Mild`).
- A condition wait whose release of the user's mutex fails: `waiting` stays incremented (src/posix_pthread_cond.c:130-135); holding the mutex is a precondition.
- Range of `int waiting` and of semaphore counters: modelled as unbounded.
- Re-use of a barrier: the code never resets `cur_thread`, so there is one generation.
- MessageQueues.Registry.Open: whether there is memory is a parameter; does not model the registry's mutex, which is left locked when there is none (src/posix_mqueue.c:285-300), so calls that would block on it are not excluded.
- MessageQueues.OrderIndependentFree: starts from an arbitrary well-formed registry, since no call of the code ever registers a queue.
- Timers.NotificationTimes: does not model a notification function that itself calls timer_settime, nor the thread that notification attributes create.
- Timers.AbsoluteTimerPromptIff: speaks of the ticks up to the next wrap of the clock's counter, where the clock jumps back; the notification times over any number of ticks are those of Timers.NotificationTimes.
- Range of `time_t`: a 32-bit one could overflow in timespec_sub and in nano2timespec's cast; seconds are unbounded here.
- Message transfer, buffers, sizes, alignment and attributes of queues: the storage belongs to the RTOS.
- Thread creation, exit and join, and the user mutex's timed and try locks: their results depend on RTOS calls whose results the code drops or on unset variables.
- `clock_nanosleep`, `nanosleep`, `sleep`, `usleep`, `time`, `clock`, `strftime`, attribute getters and setters, scheduling wrappers: finite or single expressions.
