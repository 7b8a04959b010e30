/**
 src/posix_pthread_barrier.c: the one-shot barrier. Every line of pthread_barrier_wait that touches shared state
 is a step of its own, and any number of calls interleave their steps in any order.
 */
module Barriers {
  import opened Machine
  import opened Counting

  const SERIAL_THREAD: int := -2

  /** Where a call of pthread_barrier_wait stands: the line it is about to execute, or its return. */
  datatype Pc =
    | Lock                                  // lock the mutex
    | Check                                 // has the barrier filled?
    | Reject                                // unlock and return EINVAL
    | Admit                                 // cur = ++b->cur_thread
    | Unlock(ticket: Unsigned)
    | Test(ticket: Unsigned)                // read cur_thread without the mutex
    | Post(ticket: Unsigned)                // post threshold tokens
    | Take(ticket: Unsigned, posted: bool)  // sem_get
    | Returned(ticket: Unsigned, posted: bool)
    | Refused

  /** The shared fields, and the calls in progress. A call is named by its index in `calls`. */
  datatype State = State(threshold: Unsigned, curThread: Unsigned, tokens: nat, owner: Option<nat>, calls: seq<Pc>)

  predicate Enabled(s: State, t: nat) {
    t < |s.calls| &&
    match s.calls[t]
    case Lock => s.owner == None
    case Take(_, _) => s.tokens > 0
    case Returned(_, _) => false
    case Refused => false
    case _ => true
  }

  /** The step that call t takes. */
  function Next(s: State, t: nat): State
    requires Enabled(s, t)
  {
    match s.calls[t]
    case Lock => s.(owner := Some(t), calls := s.calls[t := Check])
    case Check => s.(calls := s.calls[t := if s.curThread >= s.threshold then Reject else Admit])
    case Reject => s.(owner := None, calls := s.calls[t := Refused])
    case Admit =>
      var cur := ToUnsigned(s.curThread + 1);
      s.(curThread := cur, calls := s.calls[t := Unlock(cur)])
    case Unlock(k) => s.(owner := None, calls := s.calls[t := Test(k)])
    case Test(k) => s.(calls := s.calls[t := if s.curThread >= s.threshold then Post(k) else Take(k, false)])
    case Post(k) => s.(tokens := s.tokens + s.threshold, calls := s.calls[t := Take(k, true)])
    case Take(k, posted) => s.(tokens := s.tokens - 1, calls := s.calls[t := Returned(k, posted)])
  }

  datatype Return = Success(value: int) | Failed(errno: Errno)

  /** What pthread_barrier_wait returns; the ticket is held in an `int`. */
  function ReturnValue(pc: Pc): Return
    requires pc.Returned? || pc.Refused?
  {
    if pc.Refused? then Failed(EINVAL)
    else if ToInt32(pc.ticket) == 1 then Success(SERIAL_THREAD)
    else Success(0)
  }

  /** A barrier initialised with `count` and n calls about to begin. */
  function Initial(count: Unsigned, n: nat): State {
    State(count, 0, 0, None, seq(n, _ => Lock))
  }

  // ----- runs -----

  /** Each call in the schedule can take a step when its turn comes. */
  ghost predicate Follows(s: State, schedule: seq<nat>)
    decreases schedule
  {
    schedule == [] || (Enabled(s, schedule[0]) && Follows(Next(s, schedule[0]), schedule[1..]))
  }

  ghost function Exec(s: State, schedule: seq<nat>): State
    requires Follows(s, schedule)
    decreases schedule
  {
    if schedule == [] then s else Exec(Next(s, schedule[0]), schedule[1..])
  }

  lemma ExecCons(s: State, t: nat, rest: seq<nat>)
    requires Enabled(s, t) && Follows(Next(s, t), rest)
    ensures Follows(s, [t] + rest) && Exec(s, [t] + rest) == Exec(Next(s, t), rest)
  {
    assert ([t] + rest)[1..] == rest;
  }

  lemma {:induction false} ExecAppend(s: State, first: seq<nat>, second: seq<nat>)
    requires Follows(s, first) && Follows(Exec(s, first), second)
    ensures Follows(s, first + second) && Exec(s, first + second) == Exec(Exec(s, first), second)
    decreases first
  {
    if first == [] {
      assert first + second == second;
    } else {
      assert (first + second)[1..] == first[1..] + second;
      ExecAppend(Next(s, first[0]), first[1..], second);
    }
  }

  lemma ExecExtends(s: State, schedule: seq<nat>, t: nat)
    requires Follows(s, schedule) && Enabled(Exec(s, schedule), t)
    ensures Follows(s, schedule + [t]) && Exec(s, schedule + [t]) == Next(Exec(s, schedule), t)
  {
    ExecCons(Exec(s, schedule), t, []);
    assert [t] + [] == [t];
    ExecAppend(s, schedule, [t]);
  }

  /** No call can move. */
  ghost predicate Stuck(s: State) {
    forall t: nat :: !Enabled(s, t)
  }

  // ----- the invariant -----

  predicate HoldsMutex(pc: Pc) {
    pc.Check? || pc.Reject? || pc.Admit? || pc.Unlock?
  }

  predicate HasTicket(pc: Pc) {
    pc.Unlock? || pc.Test? || pc.Post? || pc.Take? || pc.Returned?
  }

  predicate HasPosted(pc: Pc) {
    (pc.Take? || pc.Returned?) && pc.posted
  }

  function Admitted(pc: Pc): int {
    if HasTicket(pc) then 1 else 0
  }

  function Posted(pc: Pc): int {
    if HasPosted(pc) then 1 else 0
  }

  function Passed(pc: Pc): int {
    if pc.Returned? then 1 else 0
  }

  function Refusal(pc: Pc): int {
    if pc.Refused? then 1 else 0
  }

  /** Has returned this. */
  function Gave(r: Return): Pc -> int {
    (pc: Pc) => if (pc.Returned? || pc.Refused?) && ReturnValue(pc) == r then 1 else 0
  }

  function HoldsTicket(k: int): Pc -> int {
    pc => if HasTicket(pc) && pc.ticket == k then 1 else 0
  }

  predicate CallInv(s: State, pc: Pc) {
    && (pc.Admit? ==> s.curThread < s.threshold)
    && (pc.Reject? || pc.Refused? || pc.Post? || HasPosted(pc) ==> s.curThread == s.threshold)
    && (HasTicket(pc) ==> 1 <= pc.ticket <= s.curThread)
    && ((pc.Take? || pc.Returned?) && pc.ticket == s.threshold ==> pc.posted)
  }

  ghost predicate MutexInv(s: State) {
    && (s.owner.Some? ==> s.owner.value < |s.calls|)
    && forall t :: 0 <= t < |s.calls| ==> (HoldsMutex(s.calls[t]) <==> s.owner == Some(t))
  }

  ghost predicate CallsInv(s: State) {
    && 0 < s.threshold
    && s.curThread <= s.threshold
    && forall t :: 0 <= t < |s.calls| ==> CallInv(s, s.calls[t])
  }

  ghost predicate TicketsInv(s: State) {
    && Sum(s.calls, Admitted) == s.curThread
    && forall k :: Sum(s.calls, HoldsTicket(k)) == if 1 <= k <= s.curThread then 1 else 0
  }

  ghost predicate TokensInv(s: State) {
    s.tokens + Sum(s.calls, Passed) == s.threshold * Sum(s.calls, Posted)
  }

  ghost predicate Inv(s: State) {
    MutexInv(s) && CallsInv(s) && TicketsInv(s) && TokensInv(s)
  }

  lemma InitialInv(count: Unsigned, n: nat)
    requires count > 0
    ensures Inv(Initial(count, n))
  {
    var s := Initial(count, n);
    SumConstant(s.calls, Admitted, 0);
    SumConstant(s.calls, Passed, 0);
    SumConstant(s.calls, Posted, 0);
    forall k
      ensures Sum(s.calls, HoldsTicket(k)) == 0
    {
      SumConstant(s.calls, HoldsTicket(k), 0);
    }
  }

  lemma StepKeepsMutex(s: State, t: nat)
    requires MutexInv(s) && Enabled(s, t)
    ensures MutexInv(Next(s, t))
  {
    assert HoldsMutex(s.calls[t]) <==> s.owner == Some(t);
  }

  /** Only the holder of the mutex changes the count, so what the others know of it stays true. */
  lemma StepKeepsCalls(s: State, t: nat)
    requires MutexInv(s) && CallsInv(s) && Enabled(s, t)
    ensures CallsInv(Next(s, t))
  {
    var s' := Next(s, t);
    assert CallInv(s, s.calls[t]);
    forall i | 0 <= i < |s'.calls|
      ensures CallInv(s', s'.calls[i])
    {
      assert CallInv(s, s.calls[i]);
      assert HoldsMutex(s.calls[i]) <==> s.owner == Some(i);
    }
  }

  lemma StepKeepsTickets(s: State, t: nat)
    requires CallsInv(s) && TicketsInv(s) && Enabled(s, t)
    ensures TicketsInv(Next(s, t))
  {
    var s' := Next(s, t);
    assert CallInv(s, s.calls[t]);
    SumUpdate(s.calls, t, s'.calls[t], Admitted);
    forall k
      ensures Sum(s'.calls, HoldsTicket(k)) == if 1 <= k <= s'.curThread then 1 else 0
    {
      SumUpdate(s.calls, t, s'.calls[t], HoldsTicket(k));
    }
  }

  lemma StepKeepsTokens(s: State, t: nat)
    requires TokensInv(s) && Enabled(s, t)
    ensures TokensInv(Next(s, t))
  {
    var s' := Next(s, t);
    SumUpdate(s.calls, t, s'.calls[t], Passed);
    SumUpdate(s.calls, t, s'.calls[t], Posted);
    assert s.threshold * (Sum(s.calls, Posted) + 1) == s.threshold * Sum(s.calls, Posted) + s.threshold;
  }

  lemma StepKeepsInv(s: State, t: nat)
    requires Inv(s) && Enabled(s, t)
    ensures Inv(Next(s, t)) && |Next(s, t).calls| == |s.calls| && Next(s, t).threshold == s.threshold
  {
    StepKeepsMutex(s, t);
    StepKeepsCalls(s, t);
    StepKeepsTickets(s, t);
    StepKeepsTokens(s, t);
  }

  lemma {:induction false} RunKeepsInv(s: State, schedule: seq<nat>)
    requires Inv(s) && Follows(s, schedule)
    ensures var s' := Exec(s, schedule);
            Inv(s') && |s'.calls| == |s.calls| && s'.threshold == s.threshold
    decreases schedule
  {
    if schedule != [] {
      StepKeepsInv(s, schedule[0]);
      RunKeepsInv(Next(s, schedule[0]), schedule[1..]);
    }
  }

  // ----- progress -----

  /** A bound on the steps a call has left. */
  function Remaining(pc: Pc): int {
    match pc
    case Lock => 7
    case Check => 6
    case Admit => 5
    case Unlock(_) => 4
    case Test(_) => 3
    case Post(_) => 2
    case Take(_, _) => 1
    case Reject => 1
    case Returned(_, _) => 0
    case Refused => 0
  }

  lemma StepsRunOut(s: State, t: nat)
    requires Enabled(s, t)
    ensures 0 <= Sum(Next(s, t).calls, Remaining) < Sum(s.calls, Remaining)
  {
    SumUpdate(s.calls, t, Next(s, t).calls[t], Remaining);
    SumAtLeast(Next(s, t).calls, Remaining);
  }

  /** Every run is finite: n calls take at most 7 n steps between them. */
  lemma {:induction false} RunsAreBounded(s: State, schedule: seq<nat>)
    requires Follows(s, schedule)
    ensures |schedule| + Sum(Exec(s, schedule).calls, Remaining) <= Sum(s.calls, Remaining)
    ensures |schedule| <= 7 * |s.calls|
    decreases schedule
  {
    SumOrdered(s.calls, Remaining, pc => 7);
    SumConstant(s.calls, pc => 7, 7);
    SumAtLeast(Exec(s, schedule).calls, Remaining);
    if schedule != [] {
      StepsRunOut(s, schedule[0]);
      RunsAreBounded(Next(s, schedule[0]), schedule[1..]);
    }
  }

  /**
   The outcome POSIX promises: `count` calls succeed, one of them returning PTHREAD_BARRIER_SERIAL_THREAD and the
   others 0, and the rest return EINVAL.
   */
  ghost predicate Completed(s: State, count: int, n: nat) {
    && (forall t :: 0 <= t < |s.calls| ==> s.calls[t].Returned? || s.calls[t].Refused?)
    && Sum(s.calls, Passed) == count
    && Sum(s.calls, Refusal) == n - count
    && Sum(s.calls, Gave(Success(SERIAL_THREAD))) == 1
    && Sum(s.calls, Gave(Success(0))) == count - 1
    && Sum(s.calls, Gave(Failed(EINVAL))) == n - count
  }

  ghost predicate AllBlocked(s: State, n: nat) {
    s.tokens == 0 && |s.calls| == n && forall t :: 0 <= t < n ==> s.calls[t].Take?
  }

  /** With nothing able to move, the mutex is free and every call has returned or waits at an empty semaphore. */
  lemma StuckShape(s: State)
    requires Inv(s) && Stuck(s)
    ensures forall t :: 0 <= t < |s.calls| ==>
              s.calls[t].Returned? || s.calls[t].Refused? || (s.calls[t].Take? && s.tokens == 0)
  {
    if s.owner.Some? {
      assert HoldsMutex(s.calls[s.owner.value]) && Enabled(s, s.owner.value);
    }
    forall t: nat | t < |s.calls|
      ensures s.calls[t].Returned? || s.calls[t].Refused? || (s.calls[t].Take? && s.tokens == 0)
    {
      assert !Enabled(s, t);
    }
  }

  /** Once the barrier is full, the call that drew the last ticket has not left the semaphore wait without posting. */
  lemma LastTicketPosts(s: State)
    requires Inv(s) && s.curThread == s.threshold
    requires forall t :: 0 <= t < |s.calls| && HasTicket(s.calls[t]) ==> s.calls[t].Take? || s.calls[t].Returned?
    ensures Sum(s.calls, Posted) >= 1
  {
    var last := SumWitness(s.calls, HoldsTicket(s.threshold));
    assert s.calls[last].ticket == s.threshold;
    SumAtLeast(s.calls, Posted);
  }

  lemma PostsCover(threshold: nat, posts: int)
    requires posts >= 1
    ensures threshold * posts >= threshold
  {
    MulMonotone(1, posts, threshold);
    assert posts * threshold == threshold * posts;
  }

  /** Admitted and not yet past the semaphore. */
  function Waiting(pc: Pc): int {
    if HasTicket(pc) && !pc.Returned? then 1 else 0
  }

  /** A call that got past the semaphore gave the serial value with ticket 1 and 0 with any other. */
  lemma ReturnsByTicket(s: State)
    requires Inv(s) && s.curThread == s.threshold
    requires forall t :: 0 <= t < |s.calls| ==> s.calls[t].Returned? || s.calls[t].Refused?
    ensures Sum(s.calls, Gave(Success(SERIAL_THREAD))) == 1
    ensures Sum(s.calls, Gave(Success(0))) == Sum(s.calls, Passed) - 1
    ensures Sum(s.calls, Gave(Failed(EINVAL))) == Sum(s.calls, Refusal)
  {
    var serial, zero := Gave(Success(SERIAL_THREAD)), Gave(Success(0));
    forall t | 0 <= t < |s.calls|
      ensures serial(s.calls[t]) == HoldsTicket(1)(s.calls[t])
      ensures zero(s.calls[t]) + serial(s.calls[t]) == Passed(s.calls[t])
    {
      assert CallInv(s, s.calls[t]);
    }
    SumOrdered(s.calls, serial, HoldsTicket(1));
    SumOrdered(s.calls, HoldsTicket(1), serial);
    SumAdds(s.calls, zero, serial, Passed);
    SumOrdered(s.calls, Gave(Failed(EINVAL)), Refusal);
    SumOrdered(s.calls, Refusal, Gave(Failed(EINVAL)));
  }

  lemma FullAndStuckCompletes(s: State)
    requires Inv(s) && Stuck(s) && s.curThread == s.threshold
    ensures Completed(s, s.threshold, |s.calls|)
  {
    StuckShape(s);
    LastTicketPosts(s);
    PostsCover(s.threshold, Sum(s.calls, Posted));
    SumAdds(s.calls, Passed, Waiting, Admitted);
    SumAtLeast(s.calls, Waiting);
    forall t | 0 <= t < |s.calls|
      ensures !s.calls[t].Take?
    {
      var pc := s.calls[t];
      assert pc.Take? ==> Waiting(pc) == 1;
    }
    SumAdds(s.calls, Passed, Refusal, pc => 1);
    SumConstant(s.calls, pc => 1, 1);
    SumConstant(s.calls, Waiting, 0);
    ReturnsByTicket(s);
  }

  lemma PassedMeansFull(s: State, t: nat)
    requires Inv(s) && t < |s.calls| && s.calls[t].Returned?
    ensures s.curThread == s.threshold
  {
    SumAtLeast(s.calls, Passed);
    var poster := SumWitness(s.calls, Posted);
    assert CallInv(s, s.calls[poster]);
  }

  lemma StuckOutcome(s: State)
    requires Inv(s) && Stuck(s)
    ensures |s.calls| >= s.threshold ==> Completed(s, s.threshold, |s.calls|)
    ensures |s.calls| < s.threshold ==> AllBlocked(s, |s.calls|)
  {
    StuckShape(s);
    SumAdds(s.calls, Admitted, Refusal, pc => 1);
    SumConstant(s.calls, pc => 1, 1);
    SumAtLeast(s.calls, Refusal);
    if s.curThread == s.threshold {
      FullAndStuckCompletes(s);
    } else {
      if exists t :: 0 <= t < |s.calls| && s.calls[t].Returned? {
        var t :| 0 <= t < |s.calls| && s.calls[t].Returned?;
        PassedMeansFull(s, t);
      }
      assert forall t :: 0 <= t < |s.calls| ==> CallInv(s, s.calls[t]);
      SumConstant(s.calls, Refusal, 0);
    }
  }

  // ----- the results, for every threshold, every number of calls and every schedule -----

  /** What every reachable state of a barrier keeps. */
  lemma ReachableInv(count: Unsigned, n: nat, schedule: seq<nat>)
    requires count > 0 && Follows(Initial(count, n), schedule)
    ensures var s := Exec(Initial(count, n), schedule);
            Inv(s) && |s.calls| == n && s.threshold == count
  {
    InitialInv(count, n);
    RunKeepsInv(Initial(count, n), schedule);
  }

  /** No call gets past the semaphore before `count` calls have been admitted. */
  lemma NobodyPassesEarly(count: Unsigned, n: nat, schedule: seq<nat>)
    requires count > 0 && Follows(Initial(count, n), schedule)
    ensures var s := Exec(Initial(count, n), schedule);
            (exists t :: 0 <= t < |s.calls| && s.calls[t].Returned?) ==>
              s.curThread == count && Sum(s.calls, Admitted) == count
  {
    ReachableInv(count, n, schedule);
    var s := Exec(Initial(count, n), schedule);
    if t :| 0 <= t < |s.calls| && s.calls[t].Returned? {
      PassedMeansFull(s, t);
    }
  }

  /** The admitted calls have all returned. */
  ghost predicate AllAdmittedReturned(s: State) {
    forall t :: 0 <= t < |s.calls| && HasTicket(s.calls[t]) ==> s.calls[t].Returned?
  }

  lemma PostsInRange(s: State)
    requires Inv(s)
    ensures 0 <= Sum(s.calls, Posted) <= s.threshold
    ensures s.curThread < s.threshold ==> Sum(s.calls, Posted) == 0
    ensures s.curThread == s.threshold && AllAdmittedReturned(s) ==> Sum(s.calls, Posted) >= 1
  {
    SumAtLeast(s.calls, Posted);
    SumOrdered(s.calls, Posted, Admitted);
    if Sum(s.calls, Posted) != 0 {
      var poster := SumWitness(s.calls, Posted);
      assert CallInv(s, s.calls[poster]);
    }
    if s.curThread == s.threshold && AllAdmittedReturned(s) {
      LastTicketPosts(s);
    }
  }

  lemma TokensInRange(s: State)
    requires Inv(s)
    ensures s.tokens <= s.threshold * s.threshold
    ensures 0 <= Sum(s.calls, Passed) <= Sum(s.calls, Admitted) <= s.threshold
  {
    assert Sum(s.calls, Passed) >= 0 by { SumAtLeast(s.calls, Passed); }
    assert Sum(s.calls, Passed) <= Sum(s.calls, Admitted) by { SumOrdered(s.calls, Passed, Admitted); }
    var posts := Sum(s.calls, Posted);
    assert 0 <= posts <= s.threshold by { PostsInRange(s); }
    assert s.threshold * posts <= s.threshold * s.threshold by {
      MulMonotone(posts, s.threshold, s.threshold);
      assert posts * s.threshold == s.threshold * posts;
    }
  }

  /**
   Tokens in the semaphore plus calls that took one are `count` for each post; there is no post before the barrier
   fills, between 1 and `count` once every admitted call has returned, and never a successful return too many.
   */
  lemma TokenAccounting(count: Unsigned, n: nat, schedule: seq<nat>)
    requires count > 0 && Follows(Initial(count, n), schedule)
    ensures var s := Exec(Initial(count, n), schedule);
            var posts := Sum(s.calls, Posted);
            && s.tokens + Sum(s.calls, Passed) == count * posts
            && 0 <= posts <= count
            && (s.curThread < count ==> posts == 0)
            && (s.curThread == count && AllAdmittedReturned(s) ==> posts >= 1)
            && s.tokens <= count * count
            && 0 <= Sum(s.calls, Passed) <= Sum(s.calls, Admitted) <= count
  {
    ReachableInv(count, n, schedule);
    PostsInRange(Exec(Initial(count, n), schedule));
    TokensInRange(Exec(Initial(count, n), schedule));
  }

  ghost predicate Drawn(s: State, k: int) {
    exists t :: 0 <= t < |s.calls| && HasTicket(s.calls[t]) && s.calls[t].ticket == k
  }

  lemma TicketDrawn(s: State, k: int)
    requires Inv(s)
    ensures Drawn(s, k) <==> 1 <= k <= s.curThread
  {
    if 1 <= k <= s.curThread {
      assert Sum(s.calls, HoldsTicket(k)) == 1;
      var t := SumWitness(s.calls, HoldsTicket(k));
      assert HasTicket(s.calls[t]) && s.calls[t].ticket == k;
    } else if t :| 0 <= t < |s.calls| && HasTicket(s.calls[t]) && s.calls[t].ticket == k {
      assert CallInv(s, s.calls[t]);
    }
  }

  /** The tickets of the admitted calls are 1, 2, ..., each held by exactly one; so at most one call is serial. */
  lemma TicketsAreDistinct(count: Unsigned, n: nat, schedule: seq<nat>)
    requires count > 0 && Follows(Initial(count, n), schedule)
    ensures var s := Exec(Initial(count, n), schedule);
            && (forall k :: Drawn(s, k) <==> 1 <= k <= s.curThread)
            && (forall i, j :: 0 <= i < j < |s.calls| && HasTicket(s.calls[i]) && HasTicket(s.calls[j]) ==>
                  s.calls[i].ticket != s.calls[j].ticket)
            && Sum(s.calls, Gave(Success(SERIAL_THREAD))) <= 1
  {
    ReachableInv(count, n, schedule);
    var s := Exec(Initial(count, n), schedule);
    forall k
      ensures Drawn(s, k) <==> 1 <= k <= s.curThread
    {
      TicketDrawn(s, k);
    }
    forall i, j | 0 <= i < j < |s.calls| && HasTicket(s.calls[i]) && HasTicket(s.calls[j])
      ensures s.calls[i].ticket != s.calls[j].ticket
    {
      SumAtLeastTwo(s.calls, HoldsTicket(s.calls[i].ticket), i, j);
    }
    SumOrdered(s.calls, Gave(Success(SERIAL_THREAD)), HoldsTicket(1));
  }

  /** A run that cannot go on has ended as it should, whatever the schedule was. */
  lemma MaximalRuns(count: Unsigned, n: nat, schedule: seq<nat>)
    requires count > 0 && Follows(Initial(count, n), schedule)
    requires Stuck(Exec(Initial(count, n), schedule))
    ensures var s := Exec(Initial(count, n), schedule);
            && (n >= count ==> Completed(s, count, n))
            && (n < count ==> AllBlocked(s, n))
  {
    ReachableInv(count, n, schedule);
    StuckOutcome(Exec(Initial(count, n), schedule));
  }

  /** A call keeps the ticket it has drawn. */
  lemma {:induction false} TicketStays(s: State, schedule: seq<nat>, t: nat)
    requires Follows(s, schedule) && t < |s.calls| && HasTicket(s.calls[t])
    ensures var s' := Exec(s, schedule);
            |s'.calls| == |s.calls| && HasTicket(s'.calls[t]) && s'.calls[t].ticket == s.calls[t].ticket
    decreases schedule
  {
    if schedule != [] {
      TicketStays(Next(s, schedule[0]), schedule[1..], t);
    }
  }

  /**
   Which call is the serial one: the first to be admitted. In every run in which some step makes the count 1, the call
   that took it returns PTHREAD_BARRIER_SERIAL_THREAD, if it returns, and every other call that succeeds returns 0.
   */
  lemma FirstAdmittedIsSerial(count: Unsigned, n: nat, before: seq<nat>, t: nat, after: seq<nat>)
    requires count > 0 && Follows(Initial(count, n), before) && Enabled(Exec(Initial(count, n), before), t)
    requires var s := Exec(Initial(count, n), before);
             s.curThread == 0 && Next(s, t).curThread == 1 && Follows(Next(s, t), after)
    ensures var s' := Exec(Next(Exec(Initial(count, n), before), t), after);
            && |s'.calls| == n && t < n
            && (s'.calls[t].Returned? ==> ReturnValue(s'.calls[t]) == Success(SERIAL_THREAD))
            && (forall i :: 0 <= i < n && i != t && s'.calls[i].Returned? ==> ReturnValue(s'.calls[i]) == Success(0))
  {
    ReachableInv(count, n, before);
    var s := Exec(Initial(count, n), before);
    StepKeepsInv(s, t);
    var s1 := Next(s, t);
    TicketStays(s1, after, t);
    RunKeepsInv(s1, after);
    var s' := Exec(s1, after);
    forall i | 0 <= i < n && i != t && s'.calls[i].Returned?
      ensures ReturnValue(s'.calls[i]) == Success(0)
    {
      assert CallInv(s', s'.calls[i]);
      SumAtLeastTwo(s'.calls, HoldsTicket(1), if i < t then i else t, if i < t then t else i);
    }
  }

  // ----- the bound on tokens is attained -----

  function Arrived(count: Unsigned, i: nat): State
    requires i <= count
  {
    State(count, i, 0, None, seq(count, j requires 0 <= j < count => if j < i then Test(j + 1) else Lock))
  }

  function Flooded(count: Unsigned, i: nat): State
    requires i <= count
  {
    State(count, count, count * i, None,
          seq(count, j requires 0 <= j < count => if j < i then Take(j + 1, true) else Test(j + 1)))
  }

  /** Call i locks, finds the barrier open, draws its ticket and unlocks. */
  lemma ArrivalSteps(count: Unsigned, i: nat)
    requires i < count
    ensures Follows(Arrived(count, i), [i, i, i, i])
    ensures Exec(Arrived(count, i), [i, i, i, i]) == Arrived(count, i + 1)
  {
    var s0 := Arrived(count, i);
    var s1 := Next(s0, i);
    var s2 := Next(s1, i);
    var s3 := Next(s2, i);
    var s4 := Next(s3, i);
    assert s4 == Arrived(count, i + 1);
    ExecCons(s3, i, []);
    ExecCons(s2, i, [i]);
    ExecCons(s1, i, [i, i]);
    ExecCons(s0, i, [i, i, i]);
  }

  /** Call i finds the barrier full and posts. */
  lemma FloodSteps(count: Unsigned, i: nat)
    requires i < count
    ensures Follows(Flooded(count, i), [i, i])
    ensures Exec(Flooded(count, i), [i, i]) == Flooded(count, i + 1)
  {
    var s0 := Flooded(count, i);
    var s1 := Next(s0, i);
    var s2 := Next(s1, i);
    assert count * i + count == count * (i + 1);
    assert s2 == Flooded(count, i + 1);
    ExecCons(s1, i, []);
    ExecCons(s0, i, [i]);
  }

  lemma {:induction false} ReachArrived(count: Unsigned, i: nat) returns (schedule: seq<nat>)
    requires count > 0 && i <= count
    ensures Follows(Initial(count, count), schedule) && Exec(Initial(count, count), schedule) == Arrived(count, i)
    decreases i
  {
    if i == 0 {
      schedule := [];
      assert Initial(count, count) == Arrived(count, 0);
    } else {
      var before := ReachArrived(count, i - 1);
      ArrivalSteps(count, i - 1);
      ExecAppend(Initial(count, count), before, [i - 1, i - 1, i - 1, i - 1]);
      schedule := before + [i - 1, i - 1, i - 1, i - 1];
    }
  }

  lemma {:induction false} ReachFlooded(count: Unsigned, i: nat) returns (schedule: seq<nat>)
    requires count > 0 && i <= count
    ensures Follows(Initial(count, count), schedule) && Exec(Initial(count, count), schedule) == Flooded(count, i)
    decreases i
  {
    if i == 0 {
      schedule := ReachArrived(count, count);
      assert Arrived(count, count) == Flooded(count, 0);
    } else {
      var before := ReachFlooded(count, i - 1);
      FloodSteps(count, i - 1);
      ExecAppend(Initial(count, count), before, [i - 1, i - 1]);
      schedule := before + [i - 1, i - 1];
    }
  }

  /** At every threshold some schedule makes every call post, so that count * count tokens are there at once. */
  lemma TokenBoundIsAttained(count: Unsigned)
    requires count > 0
    ensures exists schedule ::
              && Follows(Initial(count, count), schedule)
              && Exec(Initial(count, count), schedule).tokens == count * count
  {
    var schedule := ReachFlooded(count, count);
  }

  // ----- the code over its fields -----

  class PthreadBarrier {
    var threshold: Unsigned
    var curThread: Unsigned
    var sem: nat
    var mux: Option<nat>
    var calls: seq<Pc>

    function View(): State
      reads this
    {
      State(threshold, curThread, sem, mux, calls)
    }

    /** pthread_barrier_init, followed by n calls of pthread_barrier_wait that have not run yet. */
    method Init(count: Unsigned, n: nat) returns (ret: Errno)
      modifies this
      ensures count == 0 ==> ret == EINVAL && View() == old(View())
      ensures count > 0 ==> ret == OK && View() == Initial(count, n)
    {
      ret := OK;
      if count == 0 {
        ret := EINVAL;
      }
      if ret == OK {
        sem := 0;
        mux := None;
        curThread := 0;
        threshold := count;
        calls := seq(n, _ => Lock);
      }
    }

    /** The next line of call t, and what the call returns if that ends it. */
    method Step(t: nat) returns (ret: Option<Return>)
      requires Enabled(View(), t)
      modifies this
      ensures View() == Next(old(View()), t)
      ensures calls[t].Returned? ==>
                ret == Some(Success(if ToInt32(calls[t].ticket) == 1 then SERIAL_THREAD else 0))
      ensures calls[t].Refused? ==> ret == Some(Failed(EINVAL))
      ensures !calls[t].Returned? && !calls[t].Refused? ==> ret == None
      ensures ret.Some? ==> ret.value == ReturnValue(calls[t])
    {
      ret := None;
      var next: Pc;
      match calls[t] {
        case Lock =>
          mux := Some(t);
          next := Check;
        case Check =>
          next := Admit;
          if curThread >= threshold {
            next := Reject;
          }
        case Reject =>
          mux := None;
          next := Refused;
          ret := Some(Failed(EINVAL));
        case Admit =>
          curThread := (curThread + 1) % U32;
          next := Unlock(curThread);
        case Unlock(cur) =>
          mux := None;
          next := Test(cur);
        case Test(cur) =>
          next := Take(cur, false);
          if curThread >= threshold {
            next := Post(cur);
          }
        case Post(cur) =>
          sem := sem + threshold;
          next := Take(cur, true);
        case Take(cur, posted) =>
          sem := sem - 1;
          next := Returned(cur, posted);
          ret := Some(Success(if ToInt32(cur) == 1 then SERIAL_THREAD else 0));
      }
      calls := calls[t := next];
    }

    /**
     The system left alone: as long as some call can move, one of those that can, whichever it is, takes a step.
     It stops, and where it stops is the same for every choice made on the way.
     */
    method RunToEnd(ghost count: Unsigned, ghost n: nat)
      requires count > 0 && View() == Initial(count, n)
      modifies this
      ensures Stuck(View())
      ensures n >= count ==> Completed(View(), count, n)
      ensures n < count ==> AllBlocked(View(), n)
    {
      ghost var schedule: seq<nat> := [];
      InitialInv(count, n);
      while exists t: nat :: t < |calls| && Enabled(View(), t)
        invariant Follows(Initial(count, n), schedule) && Exec(Initial(count, n), schedule) == View()
        invariant Inv(View()) && |calls| == n && threshold == count
        decreases Sum(View().calls, Remaining)
      {
        var t: nat :| t < |calls| && Enabled(View(), t);
        StepKeepsInv(View(), t);
        StepsRunOut(View(), t);
        ExecExtends(Initial(count, n), schedule, t);
        schedule := schedule + [t];
        var _ := Step(t);
      }
      StuckOutcome(View());
    }
  }
}
