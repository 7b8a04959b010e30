/** Runs of the condition variable that show where two readings of its design fail. */
module CondVarWitnesses {
  import opened Machine
  import opened Counting
  import opened CondVars

  ghost predicate Reachable(n: nat, s: State) {
    exists run :: Follows(Initial(n), run) && Exec(Initial(n), run) == s
  }

  lemma {:induction false} ExecExtends(s: State, run: seq<Event>, e: Event)
    requires Follows(s, run) && Enabled(Exec(s, run), e)
    ensures Follows(s, run + [e]) && Exec(s, run + [e]) == Next(Exec(s, run), e)
    decreases run
  {
    assert (run + [e])[1..] == if run == [] then [] else run[1..] + [e];
    if run != [] {
      ExecExtends(Next(s, run[0]), run[1..], e);
    }
  }

  lemma ReachableStep(n: nat, s: State, t: nat, act: Act) returns (s': State)
    requires Reachable(n, s) && Enabled(s, Event(t, act))
    ensures s' == Next(s, Event(t, act)) && Reachable(n, s')
  {
    s' := Next(s, Event(t, act));
    var run :| Follows(Initial(n), run) && Exec(Initial(n), run) == s;
    ExecExtends(Initial(n), run, Event(t, act));
  }

  // ----- `waiting` falls as far as the bounds allow -----

  /** j of m timed waits have incremented and timed out; thread m is to broadcast. */
  function TimedOut(m: nat, j: nat): State
    requires j <= m
  {
    State(j, 0, None, None, 0, seq(m + 1, i requires 0 <= i <= m => if i < j then TRelock else Idle))
  }

  /** The broadcast has posted for all m, and j of them have made their decrement all the same. */
  function Decremented(m: nat, j: nat): State
    requires j <= m
  {
    State(0 - j, m, None, None, j, seq(m + 1, i requires 0 <= i <= m => if j <= i < m then TRelock else Idle))
  }

  /** A wait that has been called with the inner mutex free counts itself and gives both mutexes up. */
  lemma WaitReachesSemaphore(n: nat, s0: State, t: nat, timed: bool) returns (s: State)
    requires Reachable(n, s0) && t < |s0.threads| && s0.threads[t] == WLock(timed)
    requires s0.mux == None && s0.user == Some(t)
    ensures Reachable(n, s) && s == At(s0, t, WGet(timed)).(waiting := s0.waiting + 1, user := None)
  {
    s := ReachableStep(n, s0, t, Go);
    assert s == At(s0, t, WInc(timed)).(mux := Some(t));
    s := ReachableStep(n, s, t, Go);
    assert s == At(s0, t, WUnlock(timed)).(mux := Some(t), waiting := s0.waiting + 1);
    s := ReachableStep(n, s, t, Go);
    assert s == At(s0, t, WDrop(timed)).(waiting := s0.waiting + 1);
    s := ReachableStep(n, s, t, Go);
  }

  /** One more timed wait, from the lock of the user's mutex to its timeout. */
  lemma WaitTimesOut(m: nat, j: nat)
    requires j < m && Reachable(m + 1, TimedOut(m, j))
    ensures Reachable(m + 1, TimedOut(m, j + 1))
  {
    var s0 := TimedOut(m, j);
    var s := ReachableStep(m + 1, s0, j, AppLock);
    s := ReachableStep(m + 1, s, j, CallWait(true));
    assert s == At(s0, j, WLock(true)).(user := Some(j));
    s := WaitReachesSemaphore(m + 1, s, j, true);
    s := ReachableStep(m + 1, s, j, Expire);
    assert s == TimedOut(m, j + 1);
  }

  lemma {:induction false} AllTimeOut(m: nat, j: nat)
    requires j <= m
    ensures Reachable(m + 1, TimedOut(m, j))
    decreases j
  {
    if j == 0 {
      var s := Initial(m + 1);
      assert s == TimedOut(m, 0);
      assert Follows(s, []) && Exec(s, []) == s;
    } else {
      AllTimeOut(m, j - 1);
      WaitTimesOut(m, j - 1);
    }
  }

  /** Thread m broadcasts to the m calls that have timed out. */
  lemma BroadcastClaims(m: nat)
    requires Reachable(m + 1, TimedOut(m, m))
    ensures Reachable(m + 1, Decremented(m, 0))
  {
    var s0 := TimedOut(m, m);
    var s := ReachableStep(m + 1, s0, m, CallBroadcast);
    s := ReachableStep(m + 1, s, m, Go);
    assert s == At(s0, m, BPost).(mux := Some(m));
    s := ReachableStep(m + 1, s, m, Go);
    assert s == At(s0, m, BClear(m)).(mux := Some(m), tokens := m);
    s := ReachableStep(m + 1, s, m, Go);
    s := ReachableStep(m + 1, s, m, Go);
    assert s == Decremented(m, 0);
  }

  /** A timed-out wait, with both mutexes free, relocks, decrements and returns. */
  lemma TimeoutReturns(n: nat, s0: State, t: nat) returns (s: State)
    requires Reachable(n, s0) && t < |s0.threads| && s0.threads[t] == TRelock && s0.mux == None && s0.user == None
    ensures Reachable(n, s)
    ensures s == At(s0, t, Idle).(user := Some(t), waiting := s0.waiting - 1, expired := s0.expired + 1)
  {
    s := ReachableStep(n, s0, t, Go);
    assert s == At(s0, t, TLock).(user := Some(t));
    s := ReachableStep(n, s, t, Go);
    assert s == At(s0, t, TDec).(user := Some(t), mux := Some(t));
    s := ReachableStep(n, s, t, Go);
    assert s == At(s0, t, TUnlock).(user := Some(t), mux := Some(t), waiting := s0.waiting - 1,
                                    expired := s0.expired + 1);
    s := ReachableStep(n, s, t, Go);
  }

  /** One more timed-out wait relocks, decrements and returns, and its caller unlocks. */
  lemma WaitDecrements(m: nat, j: nat)
    requires j < m && Reachable(m + 1, Decremented(m, j))
    ensures Reachable(m + 1, Decremented(m, j + 1))
  {
    var s0 := Decremented(m, j);
    var s := TimeoutReturns(m + 1, s0, j);
    s := ReachableStep(m + 1, s, j, AppUnlock);
    assert s == Decremented(m, j + 1);
  }

  lemma {:induction false} AllDecrement(m: nat, j: nat)
    requires j <= m
    ensures Reachable(m + 1, Decremented(m, j))
    decreases j
  {
    if j == 0 {
      AllTimeOut(m, m);
      BroadcastClaims(m);
    } else {
      AllDecrement(m, j - 1);
      WaitDecrements(m, j - 1);
    }
  }

  /**
   So "waiting counts the threads that wait" is false of the code: for every m there is a run of m + 1 threads, with m
   timeout decrements, after which nobody is inside a call, `waiting` is -m and m tokens are spare. All four bounds
   on `waiting` and on the tokens, by the decrements and by the threads, are met with equality.
   */
  lemma WaitingCanBeNegative(m: nat)
    ensures exists s :: Reachable(m + 1, s) && s.waiting == 0 - m && s.tokens == m && s.expired == m && s.mux == None
                        && |s.threads| == m + 1 && forall t :: 0 <= t <= m ==> s.threads[t] == Idle
  {
    AllDecrement(m, m);
    var s := Decremented(m, m);
    assert s.waiting == 0 - m;
  }

  // ----- waits that join later take the tokens -----

  /**
   A run that comes to rest with the given threads, in which `joins` waits join, no post of a negative number is made
   and no thread but t leaves a call it was inside.
   */
  ghost predicate Starves(s: State, run: seq<Event>, t: nat, joins: nat, threads: seq<Pc>) {
    && Follows(s, run) && AtRest(Exec(s, run)) && Exec(s, run).threads == threads
    && NoNegativePosts(run) && CountJoins(s, run) == joins
    && forall i: nat :: i < |s.threads| && i != t ==> !LetsOut(s, run, i)
  }

  lemma StarvesCons(s: State, e: Event, t: nat, joins: nat, threads: seq<Pc>, rest: seq<Event>)
    returns (run: seq<Event>)
    requires Enabled(s, e) && !e.act.PostNegative? && (Exits(s, e) ==> e.t == t)
    requires Starves(Next(s, e), rest, t, joins, threads) && |Next(s, e).threads| == |s.threads|
    ensures Starves(s, run, t, joins + if Joins(s, e) then 1 else 0, threads)
  {
    run := [e] + rest;
    assert run[1..] == rest;
    forall i | 0 <= i < |run|
      ensures !run[i].act.PostNegative?
    {
      assert i > 0 ==> run[i] == rest[i - 1];
    }
  }

  /** Both mutexes are free, and every thread is outside or blocked in a wait without a deadline. */
  ghost predicate OnlyBlocked(s: State) {
    && s.mux == None && s.user == None
    && forall i :: 0 <= i < |s.threads| ==> s.threads[i].Idle? || s.threads[i] == WGet(false)
  }

  /** Thread t, at the semaphore with a token there, takes it, returns and unlocks. */
  lemma LateWaitReturns(s: State, t: nat, joins: nat, rest: seq<Event>) returns (run: seq<Event>)
    requires OnlyBlocked(s) && s.tokens > 0 && t < |s.threads| && s.threads[t].WGet?
    requires Starves(At(s, t, Idle).(tokens := s.tokens - 1), rest, t, joins, At(s, t, Idle).threads)
    ensures Starves(s, run, t, joins, At(s, t, Idle).threads)
  {
    var took := At(s, t, WRelock).(tokens := s.tokens - 1);
    var back := At(s, t, Idle).(tokens := s.tokens - 1, user := Some(t));
    run := StarvesCons(back, Event(t, AppUnlock), t, joins, At(s, t, Idle).threads, rest);
    assert Next(took, Event(t, Go)) == back;
    run := StarvesCons(took, Event(t, Go), t, joins, At(s, t, Idle).threads, run);
    run := StarvesCons(s, Event(t, Go), t, joins, At(s, t, Idle).threads, run);
  }

  /** Thread t, outside every call, locks, calls a wait without a deadline and gets to the semaphore. */
  lemma LateWaitJoins(s: State, t: nat, joins: nat, threads: seq<Pc>, rest: seq<Event>) returns (run: seq<Event>)
    requires OnlyBlocked(s) && t < |s.threads| && s.threads[t].Idle?
    requires Starves(At(s, t, WGet(false)).(waiting := s.waiting + 1), rest, t, joins, threads)
    ensures Starves(s, run, t, joins + 1, threads)
  {
    var locked := s.(user := Some(t));
    var called := At(locked, t, WLock(false));
    var counting := At(locked, t, WInc(false)).(mux := Some(t));
    var counted := At(locked, t, WUnlock(false)).(mux := Some(t), waiting := s.waiting + 1);
    var dropping := At(locked, t, WDrop(false)).(waiting := s.waiting + 1);
    assert Next(dropping, Event(t, Go)) == At(s, t, WGet(false)).(waiting := s.waiting + 1);
    run := StarvesCons(dropping, Event(t, Go), t, joins, threads, rest);
    assert Next(counted, Event(t, Go)) == dropping;
    run := StarvesCons(counted, Event(t, Go), t, joins, threads, run);
    assert Next(counting, Event(t, Go)) == counted;
    run := StarvesCons(counting, Event(t, Go), t, joins, threads, run);
    assert Next(called, Event(t, Go)) == counting;
    run := StarvesCons(called, Event(t, Go), t, joins + 1, threads, run);
    run := StarvesCons(locked, Event(t, CallWait(false)), t, joins + 1, threads, run);
    run := StarvesCons(s, Event(t, AppLock), t, joins + 1, threads, run);
  }

  /** As many waits as there are tokens, all by one thread that was outside, leave every blocked call blocked. */
  lemma {:induction false} LateWaitsTakeTokens(s: State, t: nat) returns (run: seq<Event>)
    requires OnlyBlocked(s) && t < |s.threads| && s.threads[t].Idle?
    ensures Starves(s, run, t, s.tokens, s.threads)
    decreases s.tokens
  {
    if s.tokens == 0 {
      run := [];
    } else {
      var joined := At(s, t, WGet(false)).(waiting := s.waiting + 1);
      var over := At(joined, t, Idle).(tokens := s.tokens - 1);
      assert over.threads == s.threads;
      run := LateWaitsTakeTokens(over, t);
      run := LateWaitReturns(joined, t, s.tokens - 1, run);
      run := LateWaitJoins(s, t, s.tokens - 1, s.threads, run);
    }
  }

  /** Thread p has just posted for a signal; apart from it every thread is outside or blocked. */
  ghost predicate JustPosted(s: State, p: nat) {
    && p < |s.threads| && s.threads[p] == SDec && s.mux == Some(p) && s.user == None
    && forall i :: 0 <= i < |s.threads| && i != p ==> s.threads[i].Idle? || s.threads[i] == WGet(false)
  }

  /** The same while the signal that posted has not returned. */
  lemma LateWaitsOutrunSignal(s: State, p: nat, t: nat) returns (run: seq<Event>)
    requires JustPosted(s, p) && t < |s.threads| && s.threads[t].Idle?
    ensures Starves(s, run, t, s.tokens, s.threads[p := Idle])
  {
    var unlocking := At(s, p, SUnlock).(waiting := s.waiting - 1);
    var over := At(s, p, Idle).(waiting := s.waiting - 1, mux := None);
    run := LateWaitsTakeTokens(over, t);
    assert Next(unlocking, Event(p, Go)) == over;
    run := StarvesCons(unlocking, Event(p, Go), t, s.tokens, over.threads, run);
    run := StarvesCons(s, Event(p, Go), t, s.tokens, over.threads, run);
  }

  /** Every run that comes to rest with at most k waits joining lets out a call that is inside now. */
  ghost predicate InsiderAlwaysLeaves(s: State, k: nat) {
    forall run | Follows(s, run) && AtRest(Exec(s, run)) && NoNegativePosts(run) && CountJoins(s, run) <= k ::
      exists i: nat :: i < |s.threads| && Inside(s.threads[i]) == 1 && LetsOut(s, run, i)
  }

  /**
   So the bound on the waits that may join is exact for every number of tokens: with calls blocked, right after a
   signal's post or later, one of them is sure to be let out precisely if fewer waits join than there are tokens.
   */
  lemma InsiderAlwaysLeavesIff(s: State, p: nat, t: nat, k: nat)
    requires Inv(s) && Surplus(s) >= 0 && Sum(s.threads, Inside) >= 1
    requires OnlyBlocked(s) || JustPosted(s, p)
    requires t < |s.threads| && s.threads[t].Idle?
    ensures InsiderAlwaysLeaves(s, k) <==> k < s.tokens
  {
    if k < s.tokens {
      forall run | Follows(s, run) && AtRest(Exec(s, run)) && NoNegativePosts(run) && CountJoins(s, run) <= k
        ensures exists i: nat :: i < |s.threads| && Inside(s.threads[i]) == 1 && LetsOut(s, run, i)
      {
        MildDrift(s, run);
        TokensOrInsiders(s, run);
        var i := InsiderLeaves(s, run);
      }
    } else {
      var run;
      if OnlyBlocked(s) {
        run := LateWaitsTakeTokens(s, t);
      } else {
        run := LateWaitsOutrunSignal(s, p, t);
      }
      assert !exists i: nat :: i < |s.threads| && Inside(s.threads[i]) == 1 && LetsOut(s, run, i);
    }
  }

  /** A wait is blocked and a signal has posted for it. */
  function Posted(): State {
    State(1, 1, Some(1), None, 0, [WGet(false), SDec, Idle])
  }

  lemma SignalReachesPost(s0: State)
    requires Reachable(3, s0) && s0 == State(1, 0, None, None, 0, [WGet(false), Idle, Idle])
    ensures Reachable(3, Posted())
  {
    var s := ReachableStep(3, s0, 1, CallSignal);
    assert s == State(1, 0, None, None, 0, [WGet(false), SRead, Idle]);
    s := ReachableStep(3, s, 1, Go);
    s := ReachableStep(3, s, 1, Go);
    assert s == State(1, 0, Some(1), None, 0, [WGet(false), SCheck, Idle]);
    s := ReachableStep(3, s, 1, Go);
    s := ReachableStep(3, s, 1, Go);
    assert s == Posted();
  }

  lemma PostedIsReachable()
    ensures Reachable(3, Posted())
  {
    var s := Initial(3);
    assert s.threads == [Idle, Idle, Idle];
    assert Follows(s, []) && Exec(s, []) == s;
    s := ReachableStep(3, s, 0, AppLock);
    assert s == State(0, 0, None, Some(0), 0, [Idle, Idle, Idle]);
    s := ReachableStep(3, s, 0, CallWait(false));
    assert s == State(0, 0, None, Some(0), 0, [WLock(false), Idle, Idle]);
    s := WaitReachesSemaphore(3, s, 0, false);
    assert s == State(1, 0, None, None, 0, [WGet(false), Idle, Idle]);
    SignalReachesPost(s);
  }

  /**
   A reachable state in which the promise fails: a signal has posted for the only call inside, the system comes
   to rest, and that call is still blocked, because a wait that began after the signal took its token.
   */
  lemma LateWaitTakesToken()
    ensures exists s, run ::
              && Reachable(3, s) && s.threads == [WGet(false), SDec, Idle] && s.tokens == 1
              && Follows(s, run) && AtRest(Exec(s, run)) && !LetsOut(s, run, 0)
              && Exec(s, run).threads == [WGet(false), Idle, Idle]
  {
    PostedIsReachable();
    var run := LateWaitsOutrunSignal(Posted(), 1, 2);
    assert Reachable(3, Posted()) && Follows(Posted(), run) && AtRest(Exec(Posted(), run));
  }
}
