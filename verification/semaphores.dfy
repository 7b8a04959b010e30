/** src/posix_semaphore.c: deadlines on a counting semaphore. */
module Semaphores {
  import opened Machine
  import opened Timespecs
  import opened Clock

  /**
   What the rest of the system does while a call is blocked in the RTOS: a tick passes, a post
   wakes this call, or a post wakes another waiter.
   */
  datatype Env = Tick | PostHere | PostOther

  datatype Outcome = Taken | TimedOut | Blocked

  /** `used` counts the environment's events that went by before the call returned. */
  datatype Got = Got(outcome: Outcome, val: nat, used: nat)

  function OneTickLess(wait: Timeout): Timeout
    requires wait != Ticks(0)
  {
    if wait.Forever? then Forever else Ticks(wait.n - 1)
  }

  /** The RTOS contract of sem_get: take a token at once, or block for at most `wait`. */
  function SemGet(val: nat, wait: Timeout, env: seq<Env>): (g: Got)
    ensures g.used <= |env|
    decreases env
  {
    if val > 0 then Got(Taken, val - 1, 0)
    else if wait == Ticks(0) then Got(TimedOut, 0, 0)
    else if env == [] then Got(Blocked, 0, 0)
    else
      var g := match env[0]
        case Tick => SemGet(0, OneTickLess(wait), env[1..])
        case PostHere => SemGet(1, wait, env[1..])
        case PostOther => SemGet(0, wait, env[1..]);
      Got(g.outcome, g.val, g.used + 1)
  }

  function CountOf(env: seq<Env>, e: Env): nat {
    if env == [] then 0 else (if env[0] == e then 1 else 0) + CountOf(env[1..], e)
  }

  /** Tokens are conserved: a post that wakes this call leaves a token exactly when the call has not taken it. */
  lemma {:induction false} SemGetConserves(val: nat, wait: Timeout, env: seq<Env>)
    ensures var g := SemGet(val, wait, env);
            g.val + (if g.outcome == Taken then 1 else 0) == val + CountOf(env[..g.used], PostHere)
    decreases env
  {
    if val == 0 && wait != Ticks(0) && env != [] {
      var rest := match env[0] case Tick => OneTickLess(wait) case _ => wait;
      var woken := if env[0] == PostHere then 1 else 0;
      SemGetConserves(woken, rest, env[1..]);
      var g := SemGet(val, wait, env);
      assert env[..g.used][1..] == env[1..][..g.used - 1];
    }
  }

  /** A bounded wait that ends without a token has seen exactly its ticks, and no other wait sees more. */
  lemma {:induction false} SemGetDuration(val: nat, n: Unsigned, env: seq<Env>)
    ensures var g := SemGet(val, Ticks(n), env);
            && (g.outcome == TimedOut ==> CountOf(env[..g.used], Tick) == n)
            && (g.outcome == Blocked ==> g.used == |env| && CountOf(env, Tick) < n)
            && (g.outcome == Taken ==> CountOf(env[..g.used], Tick) <= n)
    decreases env
  {
    if val == 0 && n != 0 && env != [] {
      var rest: Unsigned := if env[0] == Tick then n - 1 else n;
      SemGetDuration(if env[0] == PostHere then 1 else 0, rest, env[1..]);
      var g := SemGet(val, Ticks(n), env);
      assert env[..g.used][1..] == env[1..][..g.used - 1];
    }
  }

  /** How long sem_timedwait lets the RTOS block, and the code it keeps for errno. */
  datatype Bound = Bound(ret: Errno, wait: Timeout)

  function WaitBound(hz: int, abs: Ptr<Timespec>, now: Unsigned): Bound
    requires TickRate(hz)
  {
    if abs == Null then Bound(OK, Forever)
    else if !Valid(abs.val) then Bound(EINVAL, Ticks(0))
    else
      var c := ConvertAbsolute(hz, abs.val, Reading(hz, now));
      Bound(c.ret, Ticks(if c.ret == ETIMEDOUT then 0 else Written(c, 0)))
  }

  datatype WaitResult = Zero | Failed(errno: Errno) | StillBlocked

  function ResultOf(b: Bound, outcome: Outcome): WaitResult {
    match outcome
    case Taken => Zero
    case TimedOut => Failed(if b.ret == OK then ETIMEDOUT else b.ret)
    case Blocked => StillBlocked
  }

  /** A semaphore's value with the posts made on it and the calls that took a token from it, by any thread. */
  datatype History = History(val: nat, posts: nat, zeroReturns: nat)

  /** One call of sem_get, counting its own zero return and what the other threads do while it is blocked. */
  function ApplyWait(h: History, wait: Timeout, env: seq<Env>): History {
    var g := SemGet(h.val, wait, env);
    var others := CountOf(env[..g.used], PostOther);
    History(g.val,
            h.posts + CountOf(env[..g.used], PostHere) + others,
            h.zeroReturns + others + (if g.outcome == Taken then 1 else 0))
  }

  /** The history after one event of the environment, and the bound that is left of the wait. */
  function AfterEvent(h: History, e: Env): History {
    match e
    case Tick => h
    case PostHere => h.(val := h.val + 1, posts := h.posts + 1)
    case PostOther => h.(posts := h.posts + 1, zeroReturns := h.zeroReturns + 1)
  }

  function LeftAfter(wait: Timeout, e: Env): Timeout
    requires wait != Ticks(0)
  {
    if e == Tick then OneTickLess(wait) else wait
  }

  /** The environment's event and the rest of a blocked call make up the whole call. */
  lemma BlockedStep(h: History, wait: Timeout, env: seq<Env>)
    requires h.val == 0 && wait != Ticks(0) && env != []
    ensures var h', wait' := AfterEvent(h, env[0]), LeftAfter(wait, env[0]);
            && ApplyWait(h, wait, env) == ApplyWait(h', wait', env[1..])
            && var g := SemGet(h'.val, wait', env[1..]);
               SemGet(0, wait, env) == Got(g.outcome, g.val, g.used + 1)
  {
    var g := SemGet(0, wait, env);
    assert env[..g.used][1..] == env[1..][..g.used - 1];
  }

  /** A call that has a token, no time left, or no further event to wait for. */
  lemma ReturnStep(h: History, wait: Timeout, env: seq<Env>)
    requires h.val > 0 || wait == Ticks(0) || env == []
    ensures h.val > 0 ==>
              SemGet(h.val, wait, env) == Got(Taken, h.val - 1, 0)
              && ApplyWait(h, wait, env) == h.(val := h.val - 1, zeroReturns := h.zeroReturns + 1)
    ensures h.val == 0 ==>
              SemGet(h.val, wait, env) == Got(if wait == Ticks(0) then TimedOut else Blocked, 0, 0)
              && ApplyWait(h, wait, env) == h
  {
    assert env[..0] == [];
  }

  const EPOCH := Timespec(0, 0)

  lemma EpochFits(hz: int, now: Unsigned)
    requires TickRate(hz)
    ensures TicksFit(hz, Difference(EPOCH, Reading(hz, now)))
  {
    ReadingSeconds(hz, now);
    NarrowSecondsFit(hz, Difference(EPOCH, Reading(hz, now)));
  }

  /** The deadline 0 is a wait of no ticks whatever the clock reads, the instant of boot included. */
  lemma TryWaitBound(hz: int, now: Unsigned)
    requires TickRate(hz)
    ensures WaitBound(hz, Ref(EPOCH), now).wait == Ticks(0)
    ensures WaitBound(hz, Ref(EPOCH), now).ret == if now == 0 then OK else ETIMEDOUT
  {
    ReadingsOrdered(hz, 0, now);
    ValidIsCanonical(Reading(hz, 0), EPOCH);
    if now == 0 {
      assert Difference(EPOCH, EPOCH) == EPOCH;
      NanosecondTicks(hz, 0);
      assert TickCount(hz, EPOCH) == 0;
    }
  }

  lemma {:induction false} ForeverNeverTimesOut(val: nat, env: seq<Env>)
    ensures SemGet(val, Forever, env).outcome != TimedOut
    decreases env
  {
    if val == 0 && env != [] {
      ForeverNeverTimesOut(if env[0] == PostHere then 1 else 0, env[1..]);
    }
  }

  /** The RTOS semaphore behind `sem_t`, with counts of the posts made and of the calls that returned 0. */
  class Semaphore {
    var val: nat
    ghost var posts: nat
    ghost var zeroReturns: nat

    ghost function Now(): History
      reads this
    {
      History(val, posts, zeroReturns)
    }

    /** sem_init_posix. */
    method Init(value: nat)
      modifies this
      ensures Now() == History(value, 0, 0)
    {
      val := value;
      posts, zeroReturns := 0, 0;
    }

    /** sem_post. */
    method Post()
      modifies this
      ensures Now() == History(old(val) + 1, old(posts) + 1, old(zeroReturns))
    {
      val := val + 1;
      posts := posts + 1;
    }

    /** What the rest of the system does while a call is blocked. */
    method See(e: Env)
      modifies this
      ensures Now() == AfterEvent(old(Now()), e)
    {
      match e {
        case Tick =>
        case PostHere =>
          val := val + 1;
          posts := posts + 1;
        case PostOther =>
          posts := posts + 1;
          zeroReturns := zeroReturns + 1;
      }
    }

    /** sem_get, with the other threads' posts and successful waits as they happen during the call. */
    method Get(wait: Timeout, env: seq<Env>) returns (outcome: Outcome, used: nat)
      modifies this
      ensures SemGet(old(val), wait, env) == Got(outcome, val, used)
      ensures Now() == ApplyWait(old(Now()), wait, env)
    {
      used := 0;
      var left := wait;
      while val == 0 && left != Ticks(0) && used < |env|
        invariant used <= |env|
        invariant var g := SemGet(val, left, env[used..]);
                  SemGet(old(val), wait, env) == Got(g.outcome, g.val, g.used + used)
        invariant ApplyWait(Now(), left, env[used..]) == ApplyWait(old(Now()), wait, env)
        decreases |env| - used
      {
        assert env[used..][1..] == env[used + 1..];
        BlockedStep(Now(), left, env[used..]);
        See(env[used]);
        left := LeftAfter(left, env[used]);
        used := used + 1;
      }
      ReturnStep(Now(), left, env[used..]);
      if val > 0 {
        val := val - 1;
        zeroReturns := zeroReturns + 1;
        outcome := Taken;
      } else if left == Ticks(0) {
        outcome := TimedOut;
      } else {
        outcome := Blocked;
      }
    }

    /** sem_timedwait. */
    method TimedWait(hz: int, now: Unsigned, abs: Ptr<Timespec>, env: seq<Env>)
      returns (result: WaitResult, used: nat)
      requires TickRate(hz)
      requires abs.Ref? ==> TicksFit(hz, Difference(abs.val, Reading(hz, now)))
      modifies this
      ensures var b := WaitBound(hz, abs, now);
              var g := SemGet(old(val), b.wait, env);
              && result == ResultOf(b, g.outcome) && used == g.used
              && (result == Zero <==> g.outcome == Taken)
              && (result == StillBlocked <==> g.outcome == Blocked)
              && (g.outcome == TimedOut ==> result == Failed(if b.ret == EINVAL then EINVAL else ETIMEDOUT))
      ensures Now() == ApplyWait(old(Now()), WaitBound(hz, abs, now).wait, env)
    {
      var ret := OK;
      var sleep := Forever;
      if abs != Null {
        if !ValidateTimespec(abs) {
          sleep := Ticks(0);
          ret := EINVAL;
        } else {
          var _, cur := ClockGettime(hz, now, Ref(EPOCH));
          var ticks;
          ret, ticks := AbsTimespec2Ticks(hz, abs, cur, Ref(0));
          sleep := Ticks(ticks.val);
          if ret == ETIMEDOUT {
            sleep := Ticks(0);
          }
        }
      }
      var outcome;
      outcome, used := Get(sleep, env);
      match outcome {
        case Taken =>
          result := Zero;
        case TimedOut =>
          if ret == OK {
            result := Failed(ETIMEDOUT);
          } else {
            result := Failed(ret);
          }
        case Blocked =>
          result := StillBlocked;
      }
    }

    /** sem_trywait, which waits for the deadline 0 and never blocks. */
    method TryWait(hz: int, now: Unsigned, env: seq<Env>) returns (result: WaitResult, used: nat)
      requires TickRate(hz)
      modifies this
      ensures used == 0
      ensures result == if old(val) > 0 then Zero else Failed(EAGAIN)
      ensures Now() == if old(val) > 0 then History(old(val) - 1, old(posts), old(zeroReturns) + 1) else old(Now())
    {
      EpochFits(hz, now);
      TryWaitBound(hz, now);
      result, used := TimedWait(hz, now, Ref(EPOCH), env);
      if result == Failed(ETIMEDOUT) {
        result := Failed(EAGAIN);
      }
    }

    /** sem_wait, which can only return with a token. */
    method Wait(hz: int, now: Unsigned, env: seq<Env>) returns (result: WaitResult, used: nat)
      requires TickRate(hz)
      modifies this
      ensures result == Zero || result == StillBlocked
      ensures SemGet(old(val), Forever, env) == Got(if result == Zero then Taken else Blocked, val, used)
      ensures Now() == ApplyWait(old(Now()), Forever, env)
    {
      ForeverNeverTimesOut(val, env);
      result, used := TimedWait(hz, now, Null, env);
    }
  }

  /**
   What a wait with a deadline returns: 0 exactly if the call took a token; it fails exactly if its time ran out. Then
   errno is EINVAL for an invalid timespec, but also for a valid deadline further off than an unsigned tick count
   reaches; ETIMEDOUT otherwise.
   */
  lemma FailureCodes(hz: int, abs: Timespec, now: Unsigned, val: nat, env: seq<Env>)
    requires TickRate(hz)
    ensures var b := WaitBound(hz, Ref(abs), now);
            var g := SemGet(val, b.wait, env);
            var r := ResultOf(b, g.outcome);
            && (r == Zero <==> g.outcome == Taken)
            && (r.Failed? <==> g.outcome == TimedOut)
            && (r.Failed? ==>
              && val == 0
              && (r.errno == EINVAL <==>
                    !Valid(abs) || (Nanos(abs) >= Nanos(Reading(hz, now))
                                    && TickCount(hz, Difference(abs, Reading(hz, now))) > UINT_MAX))
              && (r.errno == EINVAL || r.errno == ETIMEDOUT))
  {
    if Valid(abs) {
      DeadlineSandwich(hz, abs, Reading(hz, now));
    }
  }

  /**
   How long a wait may block: for ever without a deadline, not at all for an invalid or a past one, and otherwise for
   the deadline's tick count or, when that does not fit in an unsigned, for what is left of it modulo 2^32.
   */
  lemma BoundOfDeadline(hz: int, abs: Ptr<Timespec>, now: Unsigned)
    requires TickRate(hz)
    ensures var wait := WaitBound(hz, abs, now).wait;
            && (wait == Forever <==> abs == Null)
            && (abs.Ref? && (!Valid(abs.val) || Nanos(abs.val) < Nanos(Reading(hz, now))) ==> wait == Ticks(0))
            && (abs.Ref? && Valid(abs.val) && Nanos(abs.val) >= Nanos(Reading(hz, now)) ==>
                  var n := TickCount(hz, Difference(abs.val, Reading(hz, now)));
                  (n - wait.n) % U32 == 0 && (n <= UINT_MAX ==> wait.n == n))
  {
    if abs.Ref? && Valid(abs.val) {
      DeadlineCodes(hz, abs.val, Reading(hz, now));
      DeadlineSandwich(hz, abs.val, Reading(hz, now));
    }
  }

  /** At every tick rate a valid deadline of 2^32 ticks at boot ends the wait at once with EINVAL. */
  lemma TooLongIsInvalid(hz: int, env: seq<Env>)
    requires TickRate(hz)
    ensures var b := WaitBound(hz, Ref(TooLong(hz)), 0);
            var g := SemGet(0, b.wait, env);
            Valid(TooLong(hz)) && ResultOf(b, g.outcome) == Failed(EINVAL) && g.used == 0
  {
    TooLongDeadline(hz);
  }

  /**
   A timed wait whose deadline converts gives up only after exactly its ticks. The clock is then short of the
   deadline by at most the residue of the whole seconds waited, and a whole turn if its counter wrapped meanwhile;
   so it has reached the deadline when tmr_hz divides a second and the counter did not wrap.
   */
  lemma TimeoutMeetsDeadline(hz: int, abs: Timespec, now: Unsigned, val: nat, env: seq<Env>)
    requires TickRate(hz) && Valid(abs)
    ensures var cur := Reading(hz, now);
            var b := WaitBound(hz, Ref(abs), now);
            var g := SemGet(val, b.wait, env);
            var elapsed := CountOf(env[..g.used], Tick);
            var turn := if now + elapsed < U32 then 0 else U32 * Npt(hz);
            && (g.outcome == TimedOut && b.ret == OK ==>
                  && Converts(hz, abs, now) && elapsed == WaitTicks(hz, abs, now)
                  && Nanos(After(hz, now, elapsed)) >= Nanos(abs) - Residue(hz) * Difference(abs, cur).sec - turn
                  && (Residue(hz) == 0 && now + elapsed < U32 ==> NotEarly(hz, abs, now)))
            && (g.outcome == TimedOut && b.ret == ETIMEDOUT ==> elapsed == 0 && Nanos(cur) > Nanos(abs))
  {
    var b := WaitBound(hz, Ref(abs), now);
    DeadlineSandwich(hz, abs, Reading(hz, now));
    SemGetDuration(val, b.wait.n, env);
    if b.ret == OK {
      WaitReachesDeadline(hz, abs, now);
    }
  }

  // ----- whole runs -----

  datatype Op =
    | PostOp
    | TimedWaitOp(abs: Ptr<Timespec>, now: Unsigned, env: seq<Env>)
    | TryWaitOp(now: Unsigned, env: seq<Env>)

  /** What one call does to the semaphore. */
  function Apply(hz: int, h: History, op: Op): History
    requires TickRate(hz)
  {
    match op
    case PostOp => History(h.val + 1, h.posts + 1, h.zeroReturns)
    case TimedWaitOp(abs, now, env) => ApplyWait(h, WaitBound(hz, abs, now).wait, env)
    case TryWaitOp(now, env) => ApplyWait(h, WaitBound(hz, Ref(EPOCH), now).wait, env)
  }

  function Run(hz: int, h: History, ops: seq<Op>): History
    requires TickRate(hz)
    decreases ops
  {
    if ops == [] then h else Run(hz, Apply(hz, h, ops[0]), ops[1..])
  }

  /** How one of the run's own waits ends, and what the others do while it is blocked. */
  function WaitOf(hz: int, h: History, abs: Ptr<Timespec>, now: Unsigned, env: seq<Env>): (WaitResult, seq<Env>)
    requires TickRate(hz)
  {
    var b := WaitBound(hz, abs, now);
    var g := SemGet(h.val, b.wait, env);
    (ResultOf(b, g.outcome), env[..g.used])
  }

  /** The posts of one call and of the others during it. */
  function PostsOf(hz: int, h: History, op: Op): nat
    requires TickRate(hz)
  {
    if op.PostOp? then 1
    else
      var (_, seen) := WaitOf(hz, h, if op.TimedWaitOp? then op.abs else Ref(EPOCH), op.now, op.env);
      CountOf(seen, PostHere) + CountOf(seen, PostOther)
  }

  /** The results 0: this call's own, if that is its result, and those of the others it sees posts go to. */
  function ZerosOf(hz: int, h: History, op: Op): nat
    requires TickRate(hz)
  {
    if op.PostOp? then 0
    else
      var (result, seen) := WaitOf(hz, h, if op.TimedWaitOp? then op.abs else Ref(EPOCH), op.now, op.env);
      (if result == Zero then 1 else 0) + CountOf(seen, PostOther)
  }

  function Posts(hz: int, h: History, ops: seq<Op>): nat
    requires TickRate(hz)
    decreases ops
  {
    if ops == [] then 0 else PostsOf(hz, h, ops[0]) + Posts(hz, Apply(hz, h, ops[0]), ops[1..])
  }

  function Zeros(hz: int, h: History, ops: seq<Op>): nat
    requires TickRate(hz)
    decreases ops
  {
    if ops == [] then 0 else ZerosOf(hz, h, ops[0]) + Zeros(hz, Apply(hz, h, ops[0]), ops[1..])
  }

  lemma StepConserves(hz: int, h: History, op: Op)
    requires TickRate(hz)
    ensures Apply(hz, h, op).val == h.val + PostsOf(hz, h, op) - ZerosOf(hz, h, op)
    ensures Apply(hz, h, op).posts == h.posts + PostsOf(hz, h, op)
    ensures Apply(hz, h, op).zeroReturns == h.zeroReturns + ZerosOf(hz, h, op)
  {
    if !op.PostOp? {
      var abs := if op.TimedWaitOp? then op.abs else Ref(EPOCH);
      SemGetConserves(h.val, WaitBound(hz, abs, op.now).wait, op.env);
    }
  }

  /**
   Over every run of posts, waits, timed waits and trywaits the value is the initial one plus the posts less the waits
   that return 0, the run's own counted by what they return; and the counts kept in the history are these.
   */
  lemma {:induction false} RunConserves(hz: int, h: History, ops: seq<Op>)
    requires TickRate(hz)
    ensures Run(hz, h, ops).val == h.val + Posts(hz, h, ops) - Zeros(hz, h, ops)
    ensures Run(hz, h, ops).posts == h.posts + Posts(hz, h, ops)
    ensures Run(hz, h, ops).zeroReturns == h.zeroReturns + Zeros(hz, h, ops)
    decreases ops
  {
    if ops != [] {
      StepConserves(hz, h, ops[0]);
      RunConserves(hz, Apply(hz, h, ops[0]), ops[1..]);
    }
  }
}
