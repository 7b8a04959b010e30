/**
 src/posix_pthread_cond.c: the condition variable. Every line that touches a shared field is a step of its own;
 any number of threads interleave waits, timed waits, signals and broadcasts, with and without the user's mutex.
 */
module CondVars {
  import opened Machine
  import opened Counting
  import opened Timespecs
  import opened Clock

  /** Where a thread stands: outside every call, or the line of the call that it is about to execute. */
  datatype Pc =
    | Idle
    // pthread_cond_timedwait
    | WLock(timed: bool)     // lock cond->mux
    | WInc(timed: bool)      // waiting++
    | WUnlock(timed: bool)   // unlock cond->mux
    | WDrop(timed: bool)     // unlock the user's mutex
    | WGet(timed: bool)      // sem_get
    | WRelock                // a token was taken: relock the user's mutex and return 0
    | TRelock                // timed out: relock the user's mutex
    | TLock                  // lock cond->mux
    | TDec                   // waiting--
    | TUnlock                // unlock cond->mux and return ETIMEDOUT
    // pthread_cond_signal
    | SRead                  // read waiting without the mutex
    | SLock
    | SCheck                 // read waiting again
    | SPost                  // sem_post
    | SDec                   // waiting--
    | SUnlock
    // pthread_cond_broadcast
    | BLock
    | BPost                  // sem_post_n(waiting)
    | BClear(posted: int)    // waiting = 0
    | BUnlock

  /**
   `mux` is cond->mux and `user` the mutex the callers wait with, each with its owner. `expired` counts the
   decrements made by timed-out waits; no code reads it.
   */
  datatype State = State(waiting: int, tokens: nat, mux: Option<nat>, user: Option<nat>, expired: nat,
                         threads: seq<Pc>)

  /**
   What a thread does: its next line, a timeout, a post of a negative number of tokens that leaves `left` of them,
   the start of a call, or a lock or unlock of the user's mutex outside the calls.
   */
  datatype Act =
    | Go
    | Expire
    | PostNegative(left: nat)
    | CallWait(timed: bool)
    | CallWaitRefused
    | CallSignal
    | CallBroadcast
    | AppLock
    | AppUnlock

  datatype Event = Event(t: nat, act: Act)

  /** A thread at its next line is not blocked there, and what the line does is known. */
  predicate CanGo(s: State, pc: Pc) {
    match pc
    case Idle => false
    case WLock(_) => s.mux == None
    case TLock => s.mux == None
    case SLock => s.mux == None
    case BLock => s.mux == None
    case WGet(_) => s.tokens > 0
    case WRelock => s.user == None
    case TRelock => s.user == None
    case BPost => s.waiting >= 0
    case _ => true
  }

  /**
   A wait is called with the user's mutex held; a timed wait at the semaphore may time out at any moment; and a
   broadcast that finds `waiting` negative may leave any number of tokens, the RTOS not saying how many.
   */
  predicate Enabled(s: State, e: Event) {
    e.t < |s.threads| &&
    var pc := s.threads[e.t];
    match e.act
    case Go => CanGo(s, pc)
    case Expire => pc == WGet(true)
    case PostNegative(_) => pc.BPost? && s.waiting < 0
    case CallWait(_) => pc.Idle? && s.user == Some(e.t)
    case CallWaitRefused => pc.Idle? && s.user == Some(e.t)
    case CallSignal => pc.Idle?
    case CallBroadcast => pc.Idle?
    case AppLock => pc.Idle? && s.user == None
    case AppUnlock => pc.Idle? && s.user == Some(e.t)
  }

  function At(s: State, t: nat, pc: Pc): State
    requires t < |s.threads|
  {
    s.(threads := s.threads[t := pc])
  }

  /** The line that thread t executes. */
  function Line(s: State, t: nat): State
    requires t < |s.threads| && CanGo(s, s.threads[t])
  {
    match s.threads[t]
    case WLock(timed) => At(s, t, WInc(timed)).(mux := Some(t))
    case WInc(timed) => At(s, t, WUnlock(timed)).(waiting := s.waiting + 1)
    case WUnlock(timed) => At(s, t, WDrop(timed)).(mux := None)
    case WDrop(timed) => At(s, t, WGet(timed)).(user := None)
    case WGet(_) => At(s, t, WRelock).(tokens := s.tokens - 1)
    case WRelock => At(s, t, Idle).(user := Some(t))
    case TRelock => At(s, t, TLock).(user := Some(t))
    case TLock => At(s, t, TDec).(mux := Some(t))
    case TDec => At(s, t, TUnlock).(waiting := s.waiting - 1, expired := s.expired + 1)
    case TUnlock => At(s, t, Idle).(mux := None)
    case SRead => At(s, t, if s.waiting > 0 then SLock else Idle)
    case SLock => At(s, t, SCheck).(mux := Some(t))
    case SCheck => At(s, t, if s.waiting > 0 then SPost else SUnlock)
    case SPost => At(s, t, SDec).(tokens := s.tokens + 1)
    case SDec => At(s, t, SUnlock).(waiting := s.waiting - 1)
    case SUnlock => At(s, t, Idle).(mux := None)
    case BLock => At(s, t, BPost).(mux := Some(t))
    case BPost => At(s, t, BClear(s.waiting)).(tokens := s.tokens + s.waiting)
    case BClear(_) => At(s, t, BUnlock).(waiting := 0)
    case BUnlock => At(s, t, Idle).(mux := None)
  }

  function Next(s: State, e: Event): State
    requires Enabled(s, e)
  {
    match e.act
    case Go => Line(s, e.t)
    case Expire => At(s, e.t, TRelock)
    case PostNegative(left) => At(s, e.t, BClear(s.waiting)).(tokens := left)
    case CallWait(timed) => At(s, e.t, WLock(timed))
    case CallWaitRefused => s
    case CallSignal => At(s, e.t, SRead)
    case CallBroadcast => At(s, e.t, BLock)
    case AppLock => s.(user := Some(e.t))
    case AppUnlock => s.(user := None)
  }

  /** pthread_cond_init, with n threads about. */
  function Initial(n: nat): State {
    State(0, 0, None, None, 0, seq(n, _ => Idle))
  }

  /** The lines at which a wait holds the user's mutex. */
  predicate HoldsUser(pc: Pc) {
    pc.WLock? || pc.WInc? || pc.WUnlock? || pc.WDrop? || pc.TLock? || pc.TDec? || pc.TUnlock?
  }

  // ----- the code over its fields -----

  class PthreadCond {
    var inited: bool
    var waiting: int
    var cond: nat
    var mux: Option<nat>
    var user: Option<nat>
    var threads: seq<Pc>
    ghost var expired: nat

    ghost function View(): State
      reads this
    {
      State(waiting, cond, mux, user, expired, threads)
    }

    /** pthread_cond_init, with n threads about. */
    static method Init(cond: PthreadCond?, n: nat) returns (ret: Errno)
      modifies if cond == null then {} else {cond}
      ensures cond == null ==> ret == ENOMEM
      ensures cond != null ==> ret == OK && cond.inited && cond.View() == Initial(n)
    {
      ret := OK;
      if cond == null {
        ret := ENOMEM;
      }
      if ret == OK {
        cond.inited := true;
        cond.mux := None;
        cond.cond := 0;
        cond.waiting := 0;
        cond.user, cond.threads, cond.expired := None, seq(n, _ => Idle), 0;
      }
    }

    /** pthread_cond_timedwait up to its first lock: a deadline that does not convert ends the call at once. */
    method CallWait(t: nat, hz: int, now: Unsigned, abstime: Ptr<Timespec>) returns (ret: Option<Errno>)
      requires Enabled(View(), Event(t, AppUnlock)) && TickRate(hz)
      requires abstime.Ref? ==> TicksFit(hz, Difference(abstime.val, Reading(hz, now)))
      modifies this
      ensures inited == old(inited)
      ensures ret == if !inited then Some(EINVAL)
                     else if abstime.Null? || ConvertAbsolute(hz, abstime.val, Reading(hz, now)).ret == OK then None
                     else Some(ConvertAbsolute(hz, abstime.val, Reading(hz, now)).ret)
      ensures View() == Next(old(View()), Event(t, if ret.None? then Act.CallWait(abstime.Ref?) else CallWaitRefused))
      ensures ret.Some? ==> View() == old(View())
    {
      if !inited {
        return Some(EINVAL);
      }
      var code := OK;
      if abstime != Null {
        var _, cur := ClockGettime(hz, now, Ref(Timespec(0, 0)));
        var sleepTicks;
        code, sleepTicks := AbsTimespec2Ticks(hz, abstime, cur, Ref(0));
      }
      if code != OK {
        return Some(code);
      }
      threads := threads[t := WLock(abstime != Null)];
      return None;
    }

    /** pthread_cond_signal and pthread_cond_broadcast up to their first access to the shared fields. */
    method CallWake(t: nat, all: bool) returns (ret: Option<Errno>)
      requires Enabled(View(), Event(t, CallSignal))
      modifies this
      ensures inited == old(inited)
      ensures ret == if inited then None else Some(EINVAL)
      ensures View() == if inited then Next(old(View()), Event(t, if all then CallBroadcast else CallSignal))
                        else old(View())
    {
      if !inited {
        return Some(EINVAL);
      }
      threads := threads[t := if all then BLock else SRead];
      return None;
    }

    /** The timed wait of thread t times out in sem_get. */
    method Expire(t: nat)
      requires Enabled(View(), Event(t, Act.Expire))
      modifies this
      ensures inited == old(inited)
      ensures View() == Next(old(View()), Event(t, Act.Expire))
    {
      threads := threads[t := TRelock];
    }

    /** The next line of pthread_cond_timedwait in thread t. */
    method WaitStep(t: nat) returns (ret: Option<Errno>)
      requires t < |threads| && CanGo(View(), threads[t])
      requires threads[t].WLock? || threads[t].WInc? || threads[t].WUnlock? || threads[t].WDrop? || threads[t].WGet?
               || threads[t].WRelock?
      modifies this
      ensures inited == old(inited)
      ensures View() == Line(old(View()), t)
      ensures ret.Some? ==> user == Some(t)
      ensures ret == if threads[t].Idle? then Some(OK) else None
    {
      var next: Pc;
      match threads[t] {
        case WLock(timed) =>
          mux := Some(t);
          next := WInc(timed);
        case WInc(timed) =>
          waiting := waiting + 1;
          next := WUnlock(timed);
        case WUnlock(timed) =>
          mux := None;
          next := WDrop(timed);
        case WDrop(timed) =>
          user := None;
          next := WGet(timed);
        case WGet(_) =>
          cond := cond - 1;
          next := WRelock;
        case WRelock =>
          user := Some(t);
          next := Idle;
      }
      threads := threads[t := next];
      ret := None;
      if next == Idle {
        ret := Some(OK);
      }
    }

    /** The next line of the timeout branch in thread t. */
    method TimeoutStep(t: nat) returns (ret: Option<Errno>)
      requires t < |threads| && CanGo(View(), threads[t])
      requires threads[t].TRelock? || threads[t].TLock? || threads[t].TDec? || threads[t].TUnlock?
      modifies this
      ensures inited == old(inited)
      ensures View() == Line(old(View()), t)
      ensures old(HoldsUser(threads[t]) ==> user == Some(t)) && ret.Some? ==> user == Some(t)
      ensures ret == if threads[t].Idle? then Some(ETIMEDOUT) else None
    {
      var next: Pc;
      match threads[t] {
        case TRelock =>
          user := Some(t);
          next := TLock;
        case TLock =>
          mux := Some(t);
          next := TDec;
        case TDec =>
          waiting := waiting - 1;
          expired := expired + 1;
          next := TUnlock;
        case TUnlock =>
          mux := None;
          next := Idle;
      }
      threads := threads[t := next];
      ret := None;
      if next == Idle {
        ret := Some(ETIMEDOUT);
      }
    }

    /** The next line of pthread_cond_signal in thread t. */
    method SignalStep(t: nat) returns (ret: Option<Errno>)
      requires t < |threads| && CanGo(View(), threads[t])
      requires threads[t].SRead? || threads[t].SLock? || threads[t].SCheck? || threads[t].SPost? || threads[t].SDec?
               || threads[t].SUnlock?
      modifies this
      ensures inited == old(inited)
      ensures View() == Line(old(View()), t)
      ensures ret == if threads[t].Idle? then Some(OK) else None
    {
      var next: Pc;
      match threads[t] {
        case SRead =>
          next := Idle;
          if waiting > 0 {
            next := SLock;
          }
        case SLock =>
          mux := Some(t);
          next := SCheck;
        case SCheck =>
          next := SUnlock;
          if waiting > 0 {
            next := SPost;
          }
        case SPost =>
          cond := cond + 1;
          next := SDec;
        case SDec =>
          waiting := waiting - 1;
          next := SUnlock;
        case SUnlock =>
          mux := None;
          next := Idle;
      }
      threads := threads[t := next];
      ret := None;
      if next == Idle {
        ret := Some(OK);
      }
    }

    /** The next line of pthread_cond_broadcast in thread t; `left` is what a post of a negative number leaves. */
    method BroadcastStep(t: nat, left: nat) returns (ret: Option<Errno>)
      requires t < |threads| && (CanGo(View(), threads[t]) || Enabled(View(), Event(t, PostNegative(left))))
      requires threads[t].BLock? || threads[t].BPost? || threads[t].BClear? || threads[t].BUnlock?
      modifies this
      ensures inited == old(inited)
      ensures View() == if old(threads[t].BPost? && waiting < 0) then Next(old(View()), Event(t, PostNegative(left)))
                        else Line(old(View()), t)
      ensures ret == if threads[t].Idle? then Some(OK) else None
    {
      var next: Pc;
      match threads[t] {
        case BLock =>
          mux := Some(t);
          next := BPost;
        case BPost =>
          cond := if waiting >= 0 then cond + waiting else left;
          next := BClear(waiting);
        case BClear(_) =>
          waiting := 0;
          next := BUnlock;
        case BUnlock =>
          mux := None;
          next := Idle;
      }
      threads := threads[t := next];
      ret := None;
      if next == Idle {
        ret := Some(OK);
      }
    }
  }

  // ----- runs -----

  ghost predicate Follows(s: State, run: seq<Event>)
    decreases run
  {
    run == [] || (Enabled(s, run[0]) && Follows(Next(s, run[0]), run[1..]))
  }

  ghost function Exec(s: State, run: seq<Event>): State
    requires Follows(s, run)
    decreases run
  {
    if run == [] then s else Exec(Next(s, run[0]), run[1..])
  }

  // ----- the invariant -----

  predicate HoldsMux(pc: Pc) {
    pc.WInc? || pc.WUnlock? || pc.TDec? || pc.TUnlock? || pc.SCheck? || pc.SPost? || pc.SDec? || pc.SUnlock?
    || pc.BPost? || pc.BClear? || pc.BUnlock?
  }

  predicate GaveUpUser(pc: Pc) {
    pc.WGet? || pc.WRelock? || pc.TRelock?
  }

  /** W: has incremented `waiting` and has neither taken a token nor done the timeout decrement. */
  function Inside(pc: Pc): int {
    if pc.WUnlock? || pc.WDrop? || pc.WGet? || pc.TRelock? || pc.TLock? || pc.TDec? then 1 else 0
  }

  /** What has been posted and not yet subtracted from `waiting`. */
  function InFlight(pc: Pc): int {
    match pc
    case SDec => 1
    case BClear(n) => n
    case _ => 0
  }

  ghost predicate MuxInv(s: State) {
    && (s.mux.Some? ==> s.mux.value < |s.threads|)
    && forall t :: 0 <= t < |s.threads| ==> (HoldsMux(s.threads[t]) <==> s.mux == Some(t))
  }

  /** Thread t's hold on the user's mutex is as its place in the call says. */
  predicate UserHeld(s: State, t: nat)
    requires t < |s.threads|
  {
    (HoldsUser(s.threads[t]) ==> s.user == Some(t)) && (GaveUpUser(s.threads[t]) ==> s.user != Some(t))
  }

  ghost predicate UserInv(s: State) {
    (s.user.Some? ==> s.user.value < |s.threads|) && forall t: nat :: t < |s.threads| ==> UserHeld(s, t)
  }

  predicate CallInv(s: State, pc: Pc) {
    && (pc.SPost? || pc.SDec? ==> s.waiting > 0)
    && (pc.BClear? ==> pc.posted == s.waiting)
  }

  ghost predicate CallsInv(s: State) {
    forall t :: 0 <= t < |s.threads| ==> CallInv(s, s.threads[t])
  }

  /** How far `waiting` can fall: one for each timeout decrement, and fewer than |threads| below the calls inside. */
  ghost predicate FloorInv(s: State) {
    && s.waiting + s.expired >= 0
    && (s.threads != [] ==> s.waiting + |s.threads| > Sum(s.threads, Inside))
  }

  ghost predicate Inv(s: State) {
    MuxInv(s) && UserInv(s) && CallsInv(s) && FloorInv(s)
  }

  /** What the conservation law says is 0. */
  ghost function Surplus(s: State): int {
    s.waiting + s.tokens - Sum(s.threads, Inside) - Sum(s.threads, InFlight)
  }

  lemma InitialInv(n: nat)
    ensures Inv(Initial(n)) && Surplus(Initial(n)) == 0
  {
    SumConstant(Initial(n).threads, Inside, 0);
    SumConstant(Initial(n).threads, InFlight, 0);
  }

  lemma StepMovesOnly(s: State, e: Event)
    requires Enabled(s, e)
    ensures |Next(s, e).threads| == |s.threads|
    ensures Next(s, e).threads == s.threads[e.t := Next(s, e).threads[e.t]]
  {
  }

  lemma StepKeepsMux(s: State, e: Event)
    requires MuxInv(s) && Enabled(s, e)
    ensures MuxInv(Next(s, e))
  {
    assert HoldsMux(s.threads[e.t]) <==> s.mux == Some(e.t);
  }

  lemma LineOfUser(s: State, t: nat)
    requires t < |s.threads| && CanGo(s, s.threads[t]) && UserHeld(s, t)
    ensures var s' := Line(s, t);
            && |s'.threads| == |s.threads| && UserHeld(s', t)
            && (s'.user == s.user || (s.user == None && s'.user == Some(t)) || (s.user == Some(t) && s'.user == None))
  {
  }

  /** A step keeps to its thread's hold on the user's mutex, and takes the mutex from nobody else. */
  lemma StepOfUser(s: State, e: Event)
    requires Enabled(s, e) && UserHeld(s, e.t)
    ensures var s' := Next(s, e);
            && |s'.threads| == |s.threads| && UserHeld(s', e.t)
            && (s'.user == s.user || (s.user == None && s'.user == Some(e.t))
                || (s.user == Some(e.t) && s'.user == None))
  {
    if e.act.Go? {
      LineOfUser(s, e.t);
    }
  }

  lemma StepKeepsUser(s: State, e: Event)
    requires UserInv(s) && Enabled(s, e)
    ensures UserInv(Next(s, e))
  {
    var s' := Next(s, e);
    StepMovesOnly(s, e);
    assert UserHeld(s, e.t);
    StepOfUser(s, e);
    forall i: nat | i < |s'.threads|
      ensures UserHeld(s', i)
    {
      assert UserHeld(s, i);
    }
  }

  lemma StepKeepsCalls(s: State, e: Event)
    requires MuxInv(s) && CallsInv(s) && Enabled(s, e)
    ensures CallsInv(Next(s, e))
  {
    var s' := Next(s, e);
    assert CallInv(s, s.threads[e.t]);
    assert HoldsMux(s.threads[e.t]) <==> s.mux == Some(e.t);
    forall i | 0 <= i < |s'.threads|
      ensures CallInv(s', s'.threads[i])
    {
      assert CallInv(s, s.threads[i]);
      assert HoldsMux(s.threads[i]) <==> s.mux == Some(i);
    }
  }

  lemma StepMovesOne(s: State, e: Event)
    requires Enabled(s, e)
    ensures var s' := Next(s, e);
            && |s'.threads| == |s.threads|
            && Sum(s'.threads, Inside) == Sum(s.threads, Inside) - Inside(s.threads[e.t]) + Inside(s'.threads[e.t])
            && Sum(s'.threads, InFlight)
               == Sum(s.threads, InFlight) - InFlight(s.threads[e.t]) + InFlight(s'.threads[e.t])
  {
    StepMovesOnly(s, e);
    var pc := Next(s, e).threads[e.t];
    SumUpdate(s.threads, e.t, pc, Inside);
    SumUpdate(s.threads, e.t, pc, InFlight);
  }

  /** A step that lowers `waiting` counts its decrement or leaves no less than 0, and its thread does not join. */
  lemma StepLowers(s: State, e: Event)
    requires Enabled(s, e) && CallInv(s, s.threads[e.t])
    ensures var s' := Next(s, e);
            var joined := Inside(s'.threads[e.t]) - Inside(s.threads[e.t]);
            && (s.waiting + s.expired >= 0 ==> s'.waiting + s'.expired >= 0)
            && (s'.waiting - s.waiting >= joined
                || (s'.waiting >= 0 && Inside(s.threads[e.t]) == 0 && Inside(s'.threads[e.t]) == 0))
  {
  }

  lemma StepKeepsFloor(s: State, e: Event)
    requires CallsInv(s) && FloorInv(s) && Enabled(s, e)
    ensures FloorInv(Next(s, e))
  {
    StepMovesOne(s, e);
    assert CallInv(s, s.threads[e.t]);
    StepLowers(s, e);
    if Inside(s.threads[e.t]) == 0 {
      SumBelowLength(s.threads, Inside, e.t);
    }
  }

  /** What a step takes away from the conservation law: nothing, but for a post of a negative number. */
  function Deviation(s: State, e: Event): int {
    if e.act.PostNegative? then e.act.left - (s.tokens + s.waiting) else 0
  }

  /** The same of the stepping thread's own share of the law. */
  lemma StepBalances(s: State, e: Event)
    requires Enabled(s, e) && CallInv(s, s.threads[e.t])
    ensures var s' := Next(s, e);
            var pc, pc' := s.threads[e.t], s'.threads[e.t];
            s'.waiting + s'.tokens - Inside(pc') - InFlight(pc')
            == s.waiting + s.tokens - Inside(pc) - InFlight(pc) + Deviation(s, e)
  {
  }

  /**
   The law is kept by every step of every thread, except that a negative post adds what it leaves beyond taking
   -waiting tokens back; so such a post keeps it exactly if it takes back just that many.
   */
  lemma StepSurplus(s: State, e: Event)
    requires CallsInv(s) && Enabled(s, e)
    ensures Surplus(Next(s, e)) == Surplus(s) + Deviation(s, e)
  {
    StepMovesOne(s, e);
    assert CallInv(s, s.threads[e.t]);
    StepBalances(s, e);
  }

  lemma StepKeepsInv(s: State, e: Event)
    requires Inv(s) && Enabled(s, e)
    ensures Inv(Next(s, e)) && |Next(s, e).threads| == |s.threads|
  {
    StepKeepsMux(s, e);
    StepKeepsUser(s, e);
    StepKeepsCalls(s, e);
    StepKeepsFloor(s, e);
    StepMovesOne(s, e);
  }

  /** The deviations of a run add up. */
  ghost function Drift(s: State, run: seq<Event>): int
    requires Follows(s, run)
    decreases run
  {
    if run == [] then 0 else Deviation(s, run[0]) + Drift(Next(s, run[0]), run[1..])
  }

  lemma {:induction false} RunKeepsInv(s: State, run: seq<Event>)
    requires Inv(s) && Follows(s, run)
    ensures Inv(Exec(s, run)) && |Exec(s, run).threads| == |s.threads|
    ensures Surplus(Exec(s, run)) == Surplus(s) + Drift(s, run)
    decreases run
  {
    if run != [] {
      StepKeepsInv(s, run[0]);
      StepSurplus(s, run[0]);
      RunKeepsInv(Next(s, run[0]), run[1..]);
    }
  }

  /** What every reachable state keeps. */
  lemma ReachableInv(n: nat, run: seq<Event>)
    requires Follows(Initial(n), run)
    ensures var s := Exec(Initial(n), run);
            Inv(s) && |s.threads| == n && Surplus(s) == Drift(Initial(n), run)
  {
    InitialInv(n);
    RunKeepsInv(Initial(n), run);
  }

  /** What is in flight is the mutex holder's; it is `waiting`, or 1 with `waiting` positive, or nothing. */
  lemma FlightBound(s: State)
    requires MuxInv(s) && CallsInv(s)
    ensures var flight := Sum(s.threads, InFlight);
            && (s.mux == None ==> flight == 0)
            && (s.mux.Some? ==> flight == InFlight(s.threads[s.mux.value]))
            && (flight == 0 || flight == s.waiting || (flight == 1 && s.waiting > 0))
            && (flight != 0 ==> Sum(s.threads, Inside) < |s.threads|)
  {
    forall i | 0 <= i < |s.threads|
      ensures s.mux != Some(i) ==> InFlight(s.threads[i]) == 0
    {
      assert HoldsMux(s.threads[i]) <==> s.mux == Some(i);
    }
    if s.mux.Some? {
      SumSingle(s.threads, InFlight, s.mux.value);
      assert CallInv(s, s.threads[s.mux.value]);
      if InFlight(s.threads[s.mux.value]) != 0 {
        SumBelowLength(s.threads, Inside, s.mux.value);
      }
    } else {
      SumConstant(s.threads, InFlight, 0);
    }
  }

  // ----- what is asked of negative posts -----

  /** Every post of a negative number takes back at most that many tokens, as one that does nothing does. */
  ghost predicate Mild(s: State, run: seq<Event>)
    requires Follows(s, run)
    decreases run
  {
    run == [] || (Deviation(s, run[0]) >= 0 && Mild(Next(s, run[0]), run[1..]))
  }

  ghost predicate NoNegativePosts(run: seq<Event>) {
    forall i :: 0 <= i < |run| ==> !run[i].act.PostNegative?
  }

  lemma {:induction false} MildDrift(s: State, run: seq<Event>)
    requires Follows(s, run)
    ensures Mild(s, run) ==> Drift(s, run) >= 0
    ensures NoNegativePosts(run) ==> Mild(s, run) && Drift(s, run) == 0
    decreases run
  {
    if run != [] {
      MildDrift(Next(s, run[0]), run[1..]);
      if NoNegativePosts(run) {
        assert !run[0].act.PostNegative?;
        assert forall i :: 0 <= i < |run[1..]| ==> run[1..][i] == run[i + 1];
      }
    }
  }

  // ----- the results, for any number of threads and every interleaving -----

  /**
   The conservation law, in every state that any run of any n threads can reach, with `waiting` negative or not:
   it is off by the drift of the run's negative posts, so by nothing when there are none.
   */
  lemma Conservation(n: nat, run: seq<Event>)
    requires Follows(Initial(n), run)
    ensures var s := Exec(Initial(n), run);
            && s.waiting + s.tokens
               == Sum(s.threads, Inside) + Sum(s.threads, InFlight) + Drift(Initial(n), run)
            && (s.mux == None ==> s.waiting + s.tokens == Sum(s.threads, Inside) + Drift(Initial(n), run))
            && (NoNegativePosts(run) ==> Drift(Initial(n), run) == 0)
  {
    ReachableInv(n, run);
    FlightBound(Exec(Initial(n), run));
    MildDrift(Initial(n), run);
  }

  /** In a signal that has neither posted nor given up. */
  predicate Undecided(pc: Pc) {
    pc.SRead? || pc.SLock? || pc.SCheck? || pc.SPost?
  }

  /** A signal decides with the step that ends this, whatever it has read. */
  predicate SignalDecides(s: State, e: Event) {
    Enabled(s, e) && Undecided(s.threads[e.t]) && !Undecided(Next(s, e).threads[e.t])
  }

  /**
   No lost wakeup: when a signal decides while at least one call is inside, a token is there right afterwards; a
   signal that decides without adding a token leaves one for every call inside.
   */
  lemma SignalLosesNoWakeup(n: nat, run: seq<Event>, e: Event)
    requires Follows(Initial(n), run) && Mild(Initial(n), run) && SignalDecides(Exec(Initial(n), run), e)
    ensures var s := Exec(Initial(n), run);
            var s' := Next(s, e);
            && (Sum(s.threads, Inside) >= 1 ==> s'.tokens >= 1)
            && (s'.tokens <= s.tokens ==> s'.tokens >= Sum(s.threads, Inside))
            && Sum(s'.threads, Inside) == Sum(s.threads, Inside)
  {
    ReachableInv(n, run);
    MildDrift(Initial(n), run);
    FlightBound(Exec(Initial(n), run));
    StepMovesOne(Exec(Initial(n), run), e);
  }

  /** When a broadcast clears `waiting`, there is exactly one token for every call inside, and the drift besides. */
  lemma BroadcastWakesAll(n: nat, run: seq<Event>, t: nat)
    requires Follows(Initial(n), run) && Enabled(Exec(Initial(n), run), Event(t, Go))
    requires Exec(Initial(n), run).threads[t].BClear?
    ensures var s' := Next(Exec(Initial(n), run), Event(t, Go));
            s'.waiting == 0 && s'.tokens == Sum(s'.threads, Inside) + Drift(Initial(n), run)
  {
    ReachableInv(n, run);
    var s := Exec(Initial(n), run);
    StepKeepsInv(s, Event(t, Go));
    StepSurplus(s, Event(t, Go));
    assert HoldsMux(s.threads[t]);
    FlightBound(Next(s, Event(t, Go)));
  }

  /** Called a wait and has not been woken from it yet. */
  predicate Asleep(pc: Pc) {
    pc.WLock? || pc.WInc? || pc.WUnlock? || pc.WDrop? || pc.WGet? || pc.TRelock? || pc.TLock? || pc.TDec?
  }

  /**
   The promise to a caller that changes the predicate under the user's mutex: every other thread that has called a
   wait and has not been woken is already counted, because the increment comes before the mutex is released. So
   if there is one, a signal made with the mutex held leaves a token.
   */
  lemma SignalUnderMutexWakes(n: nat, run: seq<Event>, e: Event, sleeper: nat)
    requires Follows(Initial(n), run) && Mild(Initial(n), run) && SignalDecides(Exec(Initial(n), run), e)
    requires var s := Exec(Initial(n), run);
             s.user == Some(e.t) && sleeper < |s.threads| && Asleep(s.threads[sleeper])
    ensures Inside(Exec(Initial(n), run).threads[sleeper]) == 1
    ensures Next(Exec(Initial(n), run), e).tokens >= 1
  {
    ReachableInv(n, run);
    var s := Exec(Initial(n), run);
    assert sleeper != e.t;
    assert UserHeld(s, sleeper);
    SumAtLeast(s.threads, Inside);
    SignalLosesNoWakeup(n, run, e);
  }

  /**
   Spurious wakeups are bounded: there is at most one surplus token for each decrement a timed-out wait has made,
   and however many of them there were, fewer tokens than threads.
   */
  lemma SpuriousWakeupsBounded(n: nat, run: seq<Event>)
    requires Follows(Initial(n), run)
    ensures var s := Exec(Initial(n), run);
            && s.waiting + s.expired >= 0
            && s.tokens <= Sum(s.threads, Inside) + s.expired + Drift(Initial(n), run)
            && (n > 0 ==> s.waiting > Sum(s.threads, Inside) - n && s.tokens < n + Drift(Initial(n), run))
  {
    ReachableInv(n, run);
    FlightBound(Exec(Initial(n), run));
  }

  ghost predicate NoTimedWaits(run: seq<Event>) {
    forall i :: 0 <= i < |run| ==> run[i].act != CallWait(true)
  }

  predicate UntimedPc(pc: Pc) {
    && !pc.TRelock? && !pc.TLock? && !pc.TDec? && !pc.TUnlock?
    && (pc.WLock? || pc.WInc? || pc.WUnlock? || pc.WDrop? || pc.WGet? ==> !pc.timed)
  }

  ghost predicate Untimed(s: State) {
    s.expired == 0 && forall t :: 0 <= t < |s.threads| ==> UntimedPc(s.threads[t])
  }

  lemma LineStaysUntimed(s: State, t: nat)
    requires t < |s.threads| && CanGo(s, s.threads[t]) && UntimedPc(s.threads[t])
    ensures var s' := Line(s, t);
            |s'.threads| == |s.threads| && UntimedPc(s'.threads[t]) && s'.expired == s.expired
  {
  }

  lemma UntimedStep(s: State, e: Event)
    requires Untimed(s) && s.waiting + s.expired >= 0 && Enabled(s, e) && e.act != CallWait(true)
    ensures Untimed(Next(s, e)) && Deviation(s, e) == 0
  {
    StepMovesOnly(s, e);
    assert UntimedPc(s.threads[e.t]);
    if e.act.Go? {
      LineStaysUntimed(s, e.t);
    }
  }

  lemma {:induction false} UntimedRun(s: State, run: seq<Event>)
    requires Untimed(s) && Inv(s) && Follows(s, run) && NoTimedWaits(run)
    ensures Untimed(Exec(s, run)) && Drift(s, run) == 0
    decreases run
  {
    if run != [] {
      assert run[0].act != CallWait(true);
      UntimedStep(s, run[0]);
      StepKeepsInv(s, run[0]);
      UntimedRun(Next(s, run[0]), run[1..]);
    }
  }

  /**
   Without timed waits `waiting` is never negative, no token is spare, and a condition variable with nobody inside
   is back as it began.
   */
  lemma UntimedRunsAreExact(n: nat, run: seq<Event>)
    requires Follows(Initial(n), run) && NoTimedWaits(run)
    ensures var s := Exec(Initial(n), run);
            && s.waiting >= 0
            && s.tokens <= Sum(s.threads, Inside)
            && (s.mux == None && Sum(s.threads, Inside) == 0 ==> s.waiting == 0 && s.tokens == 0)
  {
    InitialInv(n);
    UntimedRun(Initial(n), run);
    SpuriousWakeupsBounded(n, run);
    Conservation(n, run);
  }

  // ----- progress -----

  /** No thread can take another step of the call it is in. */
  ghost predicate Quiet(s: State) {
    forall t: nat ::
      !Enabled(s, Event(t, Go)) && !Enabled(s, Event(t, Expire)) && !Enabled(s, Event(t, PostNegative(0)))
  }

  /** At rest with the user's mutex free. */
  ghost predicate AtRest(s: State) {
    Quiet(s) && s.user == None
  }

  function Blocked(pc: Pc): int {
    if pc == WGet(false) then 1 else 0
  }

  lemma HolderCanGo(s: State)
    requires MuxInv(s) && s.mux.Some?
    ensures Enabled(s, Event(s.mux.value, Go)) || Enabled(s, Event(s.mux.value, PostNegative(0)))
  {
    assert HoldsMux(s.threads[s.mux.value]);
  }

  /**
   The calls do not deadlock among themselves. When none can go on, the inner mutex is free, and every call waits
   at the empty semaphore or for a user's mutex that the application holds outside any call.
   */
  lemma QuietShape(s: State)
    requires Inv(s) && Quiet(s)
    ensures s.mux == None
    ensures forall t :: 0 <= t < |s.threads| ==>
              var pc := s.threads[t];
              || pc.Idle?
              || (pc == WGet(false) && s.tokens == 0)
              || ((pc.WRelock? || pc.TRelock?) && s.user.Some? && s.threads[s.user.value].Idle?)
  {
    if s.mux.Some? {
      HolderCanGo(s);
    }
    forall t: nat | t < |s.threads|
      ensures var pc := s.threads[t];
              pc.Idle? || (pc == WGet(false) && s.tokens == 0) || ((pc.WRelock? || pc.TRelock?) && s.user.Some?)
    {
      assert !Enabled(s, Event(t, Go)) && !Enabled(s, Event(t, Expire)) && !Enabled(s, Event(t, PostNegative(0)));
    }
    if s.user.Some? {
      var holder := s.user.value;
      assert UserHeld(s, holder);
    }
  }

  /** At rest the calls inside are those blocked at the semaphore, and if there are any it is empty. */
  lemma RestShape(s: State)
    requires Inv(s) && AtRest(s)
    ensures s.mux == None
    ensures Sum(s.threads, Inside) == Sum(s.threads, Blocked)
    ensures Sum(s.threads, Inside) > 0 ==> s.tokens == 0
  {
    QuietShape(s);
    SumOrdered(s.threads, Inside, Blocked);
    SumOrdered(s.threads, Blocked, Inside);
    if Sum(s.threads, Blocked) != 0 {
      var t := SumWitness(s.threads, Blocked);
    }
  }

  /**
   Then, with the user's mutex free and no drift, `waiting` and the semaphore account exactly for the calls still
   blocked: if there are any, no wakeup is pending and `waiting` is their number, so the next signal finds one.
   */
  lemma QuietIsExact(n: nat, run: seq<Event>)
    requires Follows(Initial(n), run) && AtRest(Exec(Initial(n), run))
    ensures var s := Exec(Initial(n), run);
            var blocked := Sum(s.threads, Blocked);
            && s.waiting + s.tokens == blocked + Drift(Initial(n), run)
            && (blocked > 0 ==> s.tokens == 0 && s.waiting == blocked + Drift(Initial(n), run))
  {
    ReachableInv(n, run);
    RestShape(Exec(Initial(n), run));
    FlightBound(Exec(Initial(n), run));
  }

  /** A bound on the lines a thread has left in its call. */
  function Remaining(pc: Pc): int {
    match pc
    case Idle => 0
    case WLock(_) => 9
    case WInc(_) => 8
    case WUnlock(_) => 7
    case WDrop(_) => 6
    case WGet(_) => 5
    case WRelock => 1
    case TRelock => 4
    case TLock => 3
    case TDec => 2
    case TUnlock => 1
    case SRead => 6
    case SLock => 5
    case SCheck => 4
    case SPost => 3
    case SDec => 2
    case SUnlock => 1
    case BLock => 4
    case BPost => 3
    case BClear(_) => 2
    case BUnlock => 1
  }

  predicate Internal(e: Event) {
    e.act.Go? || e.act.Expire? || e.act.PostNegative?
  }

  predicate Begins(e: Event) {
    e.act.CallWait? || e.act.CallSignal? || e.act.CallBroadcast?
  }

  function CountInternal(run: seq<Event>): nat {
    if run == [] then 0 else (if Internal(run[0]) then 1 else 0) + CountInternal(run[1..])
  }

  /** The calls that a run begins. */
  function CountCalls(run: seq<Event>): nat {
    if run == [] then 0 else (if Begins(run[0]) then 1 else 0) + CountCalls(run[1..])
  }

  lemma LineShortens(s: State, t: nat)
    requires t < |s.threads| && CanGo(s, s.threads[t])
    ensures |Line(s, t).threads| == |s.threads| && Remaining(Line(s, t).threads[t]) < Remaining(s.threads[t])
  {
  }

  lemma StepShortens(s: State, e: Event)
    requires Enabled(s, e)
    ensures |Next(s, e).threads| == |s.threads|
    ensures Remaining(Next(s, e).threads[e.t])
            <= Remaining(s.threads[e.t]) + if Internal(e) then -1 else if Begins(e) then 9 else 0
  {
    if e.act.Go? {
      LineShortens(s, e.t);
    }
  }

  lemma RemainingFalls(s: State, e: Event)
    requires Enabled(s, e)
    ensures Sum(Next(s, e).threads, Remaining)
            <= Sum(s.threads, Remaining) + if Internal(e) then -1 else if Begins(e) then 9 else 0
  {
    StepMovesOnly(s, e);
    StepShortens(s, e);
    SumUpdate(s.threads, e.t, Next(s, e).threads[e.t], Remaining);
  }

  /** The calls take at most nine lines each: a run without new calls comes to rest. */
  lemma {:induction false} CallsAreBounded(s: State, run: seq<Event>)
    requires Follows(s, run)
    ensures CountInternal(run) + Sum(Exec(s, run).threads, Remaining)
            <= Sum(s.threads, Remaining) + 9 * CountCalls(run)
    decreases run
  {
    if run != [] {
      RemainingFalls(s, run[0]);
      CallsAreBounded(Next(s, run[0]), run[1..]);
    }
  }

  // ----- a wakeup that was not lost arrives -----

  /** Thread t joins the calls counted in W: it increments `waiting`. */
  predicate Joins(s: State, e: Event) {
    Enabled(s, e) && e.act.Go? && s.threads[e.t].WInc?
  }

  /** Thread t leaves them: it takes a token, or decrements after its timeout. */
  predicate Exits(s: State, e: Event) {
    Enabled(s, e) && e.act.Go? && (s.threads[e.t].WGet? || s.threads[e.t].TDec?)
  }

  ghost function CountJoins(s: State, run: seq<Event>): nat
    requires Follows(s, run)
    decreases run
  {
    if run == [] then 0 else (if Joins(s, run[0]) then 1 else 0) + CountJoins(Next(s, run[0]), run[1..])
  }

  ghost function CountExits(s: State, run: seq<Event>): nat
    requires Follows(s, run)
    decreases run
  {
    if run == [] then 0 else (if Exits(s, run[0]) then 1 else 0) + CountExits(Next(s, run[0]), run[1..])
  }

  /** Thread t leaves at some step of the run. */
  ghost predicate LetsOut(s: State, run: seq<Event>, t: nat)
    requires Follows(s, run)
    decreases run
  {
    run != [] && ((Exits(s, run[0]) && run[0].t == t) || LetsOut(Next(s, run[0]), run[1..], t))
  }

  /** The tokens that calls inside can still take, counted up to the number of those calls. */
  ghost function Wakeable(s: State): int {
    if s.tokens <= Sum(s.threads, Inside) then s.tokens else Sum(s.threads, Inside)
  }

  /** The calls inside change by the joins and the exits and by nothing else. */
  lemma {:induction false} InsideBalance(s: State, run: seq<Event>)
    requires Follows(s, run)
    ensures Sum(Exec(s, run).threads, Inside)
            == Sum(s.threads, Inside) + CountJoins(s, run) - CountExits(s, run)
    decreases run
  {
    if run != [] {
      StepMovesOne(s, run[0]);
      InsideBalance(Next(s, run[0]), run[1..]);
    }
  }

  lemma WakeableStep(s: State, e: Event)
    requires Inv(s) && Surplus(s) >= 0 && Enabled(s, e) && Deviation(s, e) >= 0
    ensures Wakeable(Next(s, e)) >= Wakeable(s) - if Exits(s, e) then 1 else 0
  {
    StepMovesOne(s, e);
    FlightBound(s);
    assert CallInv(s, s.threads[e.t]);
    assert HoldsMux(s.threads[e.t]) <==> s.mux == Some(e.t);
  }

  lemma {:induction false} ExitsCover(s: State, run: seq<Event>)
    requires Inv(s) && Surplus(s) >= 0 && Follows(s, run) && Mild(s, run)
    ensures Wakeable(Exec(s, run)) >= Wakeable(s) - CountExits(s, run)
    decreases run
  {
    if run != [] {
      WakeableStep(s, run[0]);
      StepKeepsInv(s, run[0]);
      StepSurplus(s, run[0]);
      ExitsCover(Next(s, run[0]), run[1..]);
    }
  }

  lemma {:induction false} ExitsCoverTokens(s: State, run: seq<Event>)
    requires CallsInv(s) && MuxInv(s) && Follows(s, run) && NoNegativePosts(run)
    ensures Exec(s, run).tokens >= s.tokens - CountExits(s, run)
    decreases run
  {
    if run != [] {
      assert !run[0].act.PostNegative?;
      StepKeepsMux(s, run[0]);
      StepKeepsCalls(s, run[0]);
      ExitsCoverTokens(Next(s, run[0]), run[1..]);
    }
  }

  /** Every continuation that comes to rest lets out a call for each token there is, or as many as are inside. */
  lemma TokensLetCallsOut(s: State, run: seq<Event>)
    requires Inv(s) && Surplus(s) >= 0 && Follows(s, run) && Mild(s, run) && AtRest(Exec(s, run))
    ensures CountExits(s, run) >= Wakeable(s)
  {
    RunKeepsInv(s, run);
    ExitsCover(s, run);
    RestShape(Exec(s, run));
    SumAtLeast(Exec(s, run).threads, Inside);
  }

  /** A call inside that is not let out is still inside. */
  lemma {:induction false} InsideStays(s: State, run: seq<Event>, t: nat)
    requires Follows(s, run) && t < |s.threads| && Inside(s.threads[t]) == 1 && !LetsOut(s, run, t)
    ensures |Exec(s, run).threads| == |s.threads| && Inside(Exec(s, run).threads[t]) == 1
    decreases run
  {
    if run != [] {
      InsideStays(Next(s, run[0]), run[1..], t);
    }
  }

  lemma {:induction false} LengthKept(s: State, run: seq<Event>)
    requires Follows(s, run)
    ensures |Exec(s, run).threads| == |s.threads|
    decreases run
  {
    if run != [] {
      LengthKept(Next(s, run[0]), run[1..]);
    }
  }

  /** If more calls leave than join, one of those inside at the start is among them. */
  lemma InsiderLeaves(s: State, run: seq<Event>) returns (t: nat)
    requires Follows(s, run) && CountExits(s, run) > CountJoins(s, run)
    ensures t < |s.threads| && Inside(s.threads[t]) == 1 && LetsOut(s, run, t)
  {
    var r := Exec(s, run);
    InsideBalance(s, run);
    if t' :| 0 <= t' < |s.threads| && Inside(s.threads[t']) == 1 && LetsOut(s, run, t') {
      t := t';
    } else {
      LengthKept(s, run);
      forall i | 0 <= i < |s.threads|
        ensures Inside(s.threads[i]) <= Inside(r.threads[i])
      {
        if Inside(s.threads[i]) == 1 {
          InsideStays(s, run, i);
        }
      }
      SumPointwise(s.threads, r.threads, Inside);
      assert false;
    }
  }

  /**
   A signal made while a call is inside lets at least one out by the time the system is at rest, whatever happens in
   between.
   */
  lemma SignalLetsOneOut(n: nat, run: seq<Event>, e: Event, after: seq<Event>)
    requires Follows(Initial(n), run) && Mild(Initial(n), run) && SignalDecides(Exec(Initial(n), run), e)
    requires Sum(Exec(Initial(n), run).threads, Inside) >= 1
    requires var s' := Next(Exec(Initial(n), run), e);
             Follows(s', after) && Mild(s', after) && AtRest(Exec(s', after))
    ensures CountExits(Next(Exec(Initial(n), run), e), after) >= 1
  {
    ReachableInv(n, run);
    MildDrift(Initial(n), run);
    StepKeepsInv(Exec(Initial(n), run), e);
    StepSurplus(Exec(Initial(n), run), e);
    SignalLosesNoWakeup(n, run, e);
    TokensLetCallsOut(Next(Exec(Initial(n), run), e), after);
  }

  /** Fewer joins than tokens: at rest more calls have left than joined, if any was inside. */
  lemma TokensOrInsiders(s: State, run: seq<Event>)
    requires Inv(s) && Surplus(s) >= 0 && Follows(s, run) && Mild(s, run) && AtRest(Exec(s, run))
    requires Sum(s.threads, Inside) >= 1
    requires CountJoins(s, run) < if NoNegativePosts(run) then s.tokens else Wakeable(s)
    ensures CountExits(s, run) > CountJoins(s, run)
  {
    TokensLetCallsOut(s, run);
    if NoNegativePosts(run) {
      RunKeepsInv(s, run);
      ExitsCoverTokens(s, run);
      InsideBalance(s, run);
      RestShape(Exec(s, run));
    }
  }

  /**
   The standard's promise, that a signal unblocks one of the threads blocked at the time, is kept as long as fewer
   waits join than there are tokens for the calls inside: one of those inside when the signal decided is let out.
   */
  lemma SignalWakesInsider(n: nat, run: seq<Event>, e: Event, after: seq<Event>) returns (t: nat)
    requires Follows(Initial(n), run) && Mild(Initial(n), run) && SignalDecides(Exec(Initial(n), run), e)
    requires Sum(Exec(Initial(n), run).threads, Inside) >= 1
    requires var s' := Next(Exec(Initial(n), run), e);
             && Follows(s', after) && Mild(s', after) && AtRest(Exec(s', after))
             && CountJoins(s', after) < if NoNegativePosts(after) then s'.tokens else Wakeable(s')
    ensures t < |Exec(Initial(n), run).threads| && Inside(Exec(Initial(n), run).threads[t]) == 1
    ensures LetsOut(Next(Exec(Initial(n), run), e), after, t)
  {
    ReachableInv(n, run);
    MildDrift(Initial(n), run);
    var s' := Next(Exec(Initial(n), run), e);
    StepKeepsInv(Exec(Initial(n), run), e);
    StepSurplus(Exec(Initial(n), run), e);
    StepMovesOne(Exec(Initial(n), run), e);
    TokensLetCallsOut(s', after);
    TokensOrInsiders(s', after);
    t := InsiderLeaves(s', after);
  }

  /**
   A broadcast lets out as many calls as are inside when it clears `waiting`. At rest at most as many are left inside
   as have joined since; so if none has, each call that was inside has been let out.
   */
  lemma BroadcastLetsAllOut(n: nat, run: seq<Event>, t: nat, after: seq<Event>)
    requires Follows(Initial(n), run) && Mild(Initial(n), run) && Enabled(Exec(Initial(n), run), Event(t, Go))
    requires Exec(Initial(n), run).threads[t].BClear?
    requires var s' := Next(Exec(Initial(n), run), Event(t, Go));
             Follows(s', after) && Mild(s', after) && AtRest(Exec(s', after))
    ensures var s' := Next(Exec(Initial(n), run), Event(t, Go));
            && CountExits(s', after) >= Sum(s'.threads, Inside)
            && Sum(Exec(s', after).threads, Inside) <= CountJoins(s', after)
            && (CountJoins(s', after) == 0 ==>
                  forall i: nat :: i < |s'.threads| && Inside(s'.threads[i]) == 1 ==> LetsOut(s', after, i))
  {
    ReachableInv(n, run);
    MildDrift(Initial(n), run);
    var s' := Next(Exec(Initial(n), run), Event(t, Go));
    StepKeepsInv(Exec(Initial(n), run), Event(t, Go));
    StepSurplus(Exec(Initial(n), run), Event(t, Go));
    BroadcastWakesAll(n, run, t);
    TokensLetCallsOut(s', after);
    InsideBalance(s', after);
    if CountJoins(s', after) == 0 {
      forall i: nat | i < |s'.threads| && Inside(s'.threads[i]) == 1
        ensures LetsOut(s', after, i)
      {
        if !LetsOut(s', after, i) {
          InsideStays(s', after, i);
          SumAtLeast(Exec(s', after).threads, Inside);
        }
      }
    }
  }
}
