/**
 What each call of the condition variable does as a whole, from the call to its return, whatever the other threads do
 in between; and what it does line by line when they do nothing.
 */
module CondVarCalls {
  import opened Machine
  import opened Counting
  import opened CondVars

  /** Thread t is inside a call until the end of the run, and outside there. */
  ghost predicate Returns(s: State, run: seq<Event>, t: nat)
    requires Follows(s, run)
    decreases run
  {
    t < |s.threads| && if run == [] then s.threads[t].Idle?
                       else !s.threads[t].Idle? && Returns(Next(s, run[0]), run[1..], t)
  }

  /** A run from the moment thread t makes a call to the moment it returns from it. */
  ghost predicate WholeCall(s: State, run: seq<Event>, t: nat, call: Act) {
    && Follows(s, run) && run != [] && run[0] == Event(t, call)
    && s.threads[t].Idle? && Returns(Next(s, run[0]), run[1..], t)
  }

  /** What a thread's own steps add to the tokens and to `waiting`. */
  datatype Effect = Effect(tokens: int, waiting: int)

  ghost function OwnEffect(s: State, run: seq<Event>, t: nat): Effect
    requires Follows(s, run)
    decreases run
  {
    if run == [] then Effect(0, 0)
    else
      var s' := Next(s, run[0]);
      var rest := OwnEffect(s', run[1..], t);
      if run[0].t == t then Effect(rest.tokens + s'.tokens - s.tokens, rest.waiting + s'.waiting - s.waiting) else rest
  }

  /** In some state of the run there is a token for every call inside. */
  ghost predicate PassesEnough(s: State, run: seq<Event>)
    requires Follows(s, run)
    decreases run
  {
    s.tokens >= Sum(s.threads, Inside) || (run != [] && PassesEnough(Next(s, run[0]), run[1..]))
  }

  /** In some state of the run `waiting` is 0, and the tokens are one for every call inside and the drift so far. */
  ghost predicate PassesClear(s: State, run: seq<Event>, drift: int)
    requires Follows(s, run)
    decreases run
  {
    || (s.waiting == 0 && s.tokens == Sum(s.threads, Inside) + drift)
    || (run != [] && PassesClear(Next(s, run[0]), run[1..], drift + Deviation(s, run[0])))
  }

  lemma OthersStay(s: State, e: Event, t: nat)
    requires Enabled(s, e) && t < |s.threads| && e.t != t
    ensures t < |Next(s, e).threads| && Next(s, e).threads[t] == s.threads[t]
  {
    StepMovesOnly(s, e);
  }

  // ----- signal -----

  predicate InSignal(pc: Pc) {
    Undecided(pc) || pc.SDec? || pc.SUnlock?
  }

  /** A signal's own step from where it is, as far as the tokens and `waiting` go. */
  lemma SignalLine(s: State, t: nat)
    requires Inv(s) && Surplus(s) >= 0 && t < |s.threads| && InSignal(s.threads[t]) && CanGo(s, s.threads[t])
    ensures var s' := Line(s, t);
            var pc, pc' := s.threads[t], s'.threads[t];
            && |s'.threads| == |s.threads|
            && (InSignal(pc') || pc'.Idle?)
            && (pc.SPost? ==> pc'.SDec? && s'.tokens == s.tokens + 1 && s'.waiting == s.waiting)
            && (pc.SDec? ==> pc'.SUnlock? && s'.tokens == s.tokens && s'.waiting == s.waiting - 1)
            && (pc.SUnlock? ==> pc'.Idle?)
            && (!pc.SPost? && !pc.SDec? ==> s'.tokens == s.tokens && s'.waiting == s.waiting && !pc'.SDec?)
            && (Undecided(pc) && !pc.SPost? && !Undecided(pc') ==> s.tokens >= Sum(s.threads, Inside))
  {
    FlightBound(s);
  }

  lemma {:induction false} SignalRest(s: State, run: seq<Event>, t: nat)
    requires Inv(s) && Surplus(s) >= 0 && Follows(s, run) && Mild(s, run) && Returns(s, run, t)
    requires InSignal(s.threads[t]) || s.threads[t].Idle?
    ensures var own := OwnEffect(s, run, t);
            match s.threads[t]
            case SDec => own == Effect(0, -1)
            case SUnlock => own == Effect(0, 0)
            case Idle => own == Effect(0, 0)
            case _ => own == Effect(1, -1) || (own == Effect(0, 0) && PassesEnough(s, run))
    decreases run
  {
    if run != [] {
      StepKeepsInv(s, run[0]);
      StepSurplus(s, run[0]);
      if run[0].t == t {
        SignalLine(s, t);
      } else {
        OthersStay(s, run[0], t);
      }
      SignalRest(Next(s, run[0]), run[1..], t);
    }
  }

  /**
   A whole signal: it has posted one token and taken one off `waiting`, or it has done neither, and then there was a
   token for every call inside at some moment between its call and its return.
   */
  lemma SignalCall(n: nat, run: seq<Event>, t: nat, call: seq<Event>)
    requires Follows(Initial(n), run) && Mild(Initial(n), run)
    requires var s := Exec(Initial(n), run); WholeCall(s, call, t, CallSignal) && Mild(s, call)
    ensures var s := Exec(Initial(n), run);
            var own := OwnEffect(s, call, t);
            own == Effect(1, -1) || (own == Effect(0, 0) && PassesEnough(Next(s, call[0]), call[1..]))
  {
    ReachableInv(n, run);
    MildDrift(Initial(n), run);
    var s := Exec(Initial(n), run);
    StepKeepsInv(s, call[0]);
    StepSurplus(s, call[0]);
    SignalRest(Next(s, call[0]), call[1..], t);
  }

  /** A signal under way lets a call out by the time the system rests, if one is inside. */
  lemma {:induction false} SignalGoesOn(s: State, run: seq<Event>, t: nat)
    requires Inv(s) && Surplus(s) >= 0 && Follows(s, run) && Mild(s, run) && AtRest(Exec(s, run))
    requires t < |s.threads| && Undecided(s.threads[t]) && Sum(s.threads, Inside) >= 1
    ensures CountExits(s, run) >= 1
    decreases run
  {
    if run == [] {
      QuietShape(s);
    } else if !Exits(s, run[0]) {
      var s' := Next(s, run[0]);
      StepKeepsInv(s, run[0]);
      StepSurplus(s, run[0]);
      StepMovesOne(s, run[0]);
      if run[0].t == t {
        SignalLine(s, t);
      } else {
        OthersStay(s, run[0], t);
      }
      if Undecided(s'.threads[t]) {
        SignalGoesOn(s', run[1..], t);
      } else {
        TokensLetCallsOut(s', run[1..]);
      }
    }
  }

  /**
   From the call on: a signal called while a call is inside lets one out by the time the system rests; and if no wait
   joins from the call on, one of those that were inside then.
   */
  lemma SignalCallWakes(n: nat, run: seq<Event>, t: nat, after: seq<Event>)
    requires Follows(Initial(n), run) && Mild(Initial(n), run)
    requires var s := Exec(Initial(n), run);
             && Follows(s, after) && Mild(s, after) && AtRest(Exec(s, after))
             && after != [] && after[0] == Event(t, CallSignal)
             && Sum(s.threads, Inside) >= 1
    ensures var s := Exec(Initial(n), run);
            && CountExits(s, after) >= 1
            && (CountJoins(s, after) == 0 ==>
                  exists i: nat :: i < |s.threads| && Inside(s.threads[i]) == 1 && LetsOut(s, after, i))
  {
    ReachableInv(n, run);
    MildDrift(Initial(n), run);
    var s := Exec(Initial(n), run);
    StepKeepsInv(s, after[0]);
    StepSurplus(s, after[0]);
    StepMovesOne(s, after[0]);
    SignalGoesOn(Next(s, after[0]), after[1..], t);
    if CountJoins(s, after) == 0 {
      var i := InsiderLeaves(s, after);
    }
  }

  // ----- broadcast -----

  predicate InBroadcast(pc: Pc) {
    pc.BLock? || pc.BPost? || pc.BClear? || pc.BUnlock?
  }

  /** A broadcast's own step from where it is. */
  lemma BroadcastLine(s: State, e: Event)
    requires Inv(s) && Enabled(s, e) && InBroadcast(s.threads[e.t])
    ensures var s' := Next(s, e);
            var pc, pc' := s.threads[e.t], s'.threads[e.t];
            && |s'.threads| == |s.threads|
            && (pc.BLock? ==> pc'.BPost? && s'.tokens == s.tokens && s'.waiting == s.waiting)
            && (pc.BPost? ==> pc'.BClear? && pc'.posted == s.waiting == s'.waiting)
            && (pc.BPost? && !e.act.PostNegative? ==> s.waiting >= 0 && s'.tokens == s.tokens + s.waiting)
            && (pc.BClear? ==> pc'.BUnlock? && s'.waiting == 0 && pc.posted == s.waiting && s'.tokens == s.tokens)
            && (pc.BUnlock? ==> pc'.Idle? && s'.tokens == s.tokens && s'.waiting == s.waiting)
  {
    assert CallInv(s, s.threads[e.t]);
  }

  /** Right after the clear nothing is in flight. */
  lemma ClearLeavesTokens(s: State, t: nat)
    requires Inv(s) && Enabled(s, Event(t, Go)) && s.threads[t].BClear?
    ensures var s' := Next(s, Event(t, Go));
            s'.waiting == 0 && s'.tokens == Sum(s'.threads, Inside) + Surplus(s')
  {
    StepKeepsInv(s, Event(t, Go));
    assert HoldsMux(s.threads[t]);
    FlightBound(Next(s, Event(t, Go)));
  }

  /** Without a negative post, the rest of a broadcast adds to the tokens what it takes off `waiting`. */
  ghost predicate BroadcastLeft(pc: Pc, own: Effect) {
    match pc
    case BClear(posted) => own == Effect(0, -posted)
    case BLock => own.tokens == -own.waiting >= 0
    case BPost => own.tokens == -own.waiting >= 0
    case _ => own == Effect(0, 0)
  }

  predicate AtBroadcastOrOut(pc: Pc) {
    InBroadcast(pc) || pc.Idle?
  }

  lemma BroadcastStays(s: State, e: Event)
    requires Inv(s) && Enabled(s, e) && InBroadcast(s.threads[e.t])
    ensures |Next(s, e).threads| == |s.threads| && AtBroadcastOrOut(Next(s, e).threads[e.t])
  {
    BroadcastLine(s, e);
  }

  lemma BroadcastAdds(s: State, e: Event, rest: Effect)
    requires Inv(s) && Enabled(s, e) && !e.act.PostNegative? && InBroadcast(s.threads[e.t])
    requires |Next(s, e).threads| == |s.threads| && BroadcastLeft(Next(s, e).threads[e.t], rest)
    ensures var s' := Next(s, e);
            var own := Effect(rest.tokens + s'.tokens - s.tokens, rest.waiting + s'.waiting - s.waiting);
            BroadcastLeft(s.threads[e.t], own)
  {
    BroadcastLine(s, e);
  }

  lemma NoneInRest(run: seq<Event>)
    requires NoNegativePosts(run) && run != []
    ensures !run[0].act.PostNegative? && NoNegativePosts(run[1..])
  {
  }

  lemma {:induction false} BroadcastRest(s: State, run: seq<Event>, t: nat)
    requires Inv(s) && Follows(s, run) && NoNegativePosts(run) && Returns(s, run, t)
    requires AtBroadcastOrOut(s.threads[t])
    ensures BroadcastLeft(s.threads[t], OwnEffect(s, run, t))
    decreases run
  {
    if run != [] {
      var e := run[0];
      var s' := Next(s, e);
      assert Inv(s') by { StepKeepsInv(s, e); }
      NoneInRest(run);
      if e.t == t {
        BroadcastStays(s, e);
        BroadcastRest(s', run[1..], t);
        BroadcastAdds(s, e, OwnEffect(s', run[1..], t));
      } else {
        OthersStay(s, e, t);
        BroadcastRest(s', run[1..], t);
      }
    }
  }

  lemma {:induction false} BroadcastPassesClear(s: State, run: seq<Event>, t: nat)
    requires Inv(s) && Follows(s, run) && Returns(s, run, t)
    requires s.threads[t].BLock? || s.threads[t].BPost? || s.threads[t].BClear?
    ensures PassesClear(s, run, Surplus(s))
    decreases run
  {
    var s' := Next(s, run[0]);
    StepKeepsInv(s, run[0]);
    StepSurplus(s, run[0]);
    if run[0].t == t && s.threads[t].BClear? {
      ClearLeavesTokens(s, t);
    } else {
      if run[0].t == t {
        BroadcastLine(s, run[0]);
      } else {
        OthersStay(s, run[0], t);
      }
      BroadcastPassesClear(s', run[1..], t);
    }
  }

  /**
   A whole broadcast: at some moment between its call and its return `waiting` is 0 and there is exactly one token for
   every call inside, and the drift besides; what it posts is what it takes off `waiting`.
   */
  lemma BroadcastCall(n: nat, run: seq<Event>, t: nat, call: seq<Event>)
    requires Follows(Initial(n), run) && WholeCall(Exec(Initial(n), run), call, t, CallBroadcast)
    ensures var s := Exec(Initial(n), run);
            var own := OwnEffect(s, call, t);
            && PassesClear(Next(s, call[0]), call[1..], Drift(Initial(n), run))
            && (NoNegativePosts(call) ==> own.tokens == -own.waiting >= 0)
  {
    ReachableInv(n, run);
    var s := Exec(Initial(n), run);
    StepKeepsInv(s, call[0]);
    StepSurplus(s, call[0]);
    BroadcastPassesClear(Next(s, call[0]), call[1..], t);
    if NoNegativePosts(call) {
      BroadcastRest(Next(s, call[0]), call[1..], t);
    }
  }

  /** A broadcast under way: at rest no more calls are left inside than join from here on. */
  lemma {:induction false} BroadcastGoesOn(s: State, run: seq<Event>, t: nat)
    requires Inv(s) && Surplus(s) >= 0 && Follows(s, run) && Mild(s, run) && AtRest(Exec(s, run))
    requires t < |s.threads| && (s.threads[t].BLock? || s.threads[t].BPost? || s.threads[t].BClear?)
    ensures Sum(Exec(s, run).threads, Inside) <= CountJoins(s, run)
    decreases run
  {
    if run == [] {
      QuietShape(s);
    } else {
      var s' := Next(s, run[0]);
      StepKeepsInv(s, run[0]);
      StepSurplus(s, run[0]);
      if run[0].t == t && s.threads[t].BClear? {
        ClearLeavesTokens(s, t);
        TokensLetCallsOut(s', run[1..]);
        InsideBalance(s', run[1..]);
      } else {
        if run[0].t == t {
          BroadcastLine(s, run[0]);
        } else {
          OthersStay(s, run[0], t);
        }
        BroadcastGoesOn(s', run[1..], t);
      }
    }
  }

  /**
   From the call on: a broadcast lets out as many calls as are inside when it is called. At rest at most as many are
   left inside as have joined since; so if none has, each call that was inside has been let out.
   */
  lemma BroadcastCallWakes(n: nat, run: seq<Event>, t: nat, after: seq<Event>)
    requires Follows(Initial(n), run) && Mild(Initial(n), run)
    requires var s := Exec(Initial(n), run);
             && Follows(s, after) && Mild(s, after) && AtRest(Exec(s, after))
             && after != [] && after[0] == Event(t, CallBroadcast)
    ensures var s := Exec(Initial(n), run);
            && CountExits(s, after) >= Sum(s.threads, Inside)
            && Sum(Exec(s, after).threads, Inside) <= CountJoins(s, after)
            && (CountJoins(s, after) == 0 ==>
                  forall i: nat :: i < |s.threads| && Inside(s.threads[i]) == 1 ==> LetsOut(s, after, i))
  {
    ReachableInv(n, run);
    MildDrift(Initial(n), run);
    var s := Exec(Initial(n), run);
    StepKeepsInv(s, after[0]);
    StepSurplus(s, after[0]);
    BroadcastGoesOn(Next(s, after[0]), after[1..], t);
    InsideBalance(s, after);
    if CountJoins(s, after) == 0 {
      forall i: nat | i < |s.threads| && Inside(s.threads[i]) == 1
        ensures LetsOut(s, after, i)
      {
        if !LetsOut(s, after, i) {
          InsideStays(s, after, i);
          SumAtLeast(Exec(s, after).threads, Inside);
        }
      }
    }
  }

  // ----- wait -----

  predicate InWait(pc: Pc) {
    Asleep(pc) || pc.WRelock? || pc.TUnlock?
  }

  /** The wait has a deadline, as far as its place in the call still says so. */
  predicate MayTimeOut(pc: Pc, timed: bool) {
    && (pc.WLock? || pc.WInc? || pc.WUnlock? || pc.WDrop? || pc.WGet? ==> pc.timed == timed)
    && (pc.TRelock? || pc.TLock? || pc.TDec? || pc.TUnlock? ==> timed)
  }

  /** What is left of a wait's own effect: it ends woken by a token, or timed out. */
  ghost predicate WaitLeft(pc: Pc, timed: bool, own: Effect) {
    match pc
    case Idle => own == Effect(0, 0)
    case TUnlock => own == Effect(0, 0)
    case WRelock => own == Effect(0, 0)
    case WLock(_) => own == Effect(-1, 1) || (timed && own == Effect(0, 0))
    case WInc(_) => own == Effect(-1, 1) || (timed && own == Effect(0, 0))
    case WUnlock(_) => own == Effect(-1, 0) || (timed && own == Effect(0, -1))
    case WDrop(_) => own == Effect(-1, 0) || (timed && own == Effect(0, -1))
    case WGet(_) => own == Effect(-1, 0) || (timed && own == Effect(0, -1))
    case _ => own == Effect(0, -1)
  }

  lemma WaitLine(s: State, e: Event, timed: bool, rest: Effect)
    requires Enabled(s, e) && InWait(s.threads[e.t]) && MayTimeOut(s.threads[e.t], timed)
    requires WaitLeft(Next(s, e).threads[e.t], timed, rest)
    ensures var s' := Next(s, e);
            var own := Effect(rest.tokens + s'.tokens - s.tokens, rest.waiting + s'.waiting - s.waiting);
            WaitLeft(s.threads[e.t], timed, own)
  {
  }

  lemma WaitGoesOn(s: State, e: Event, timed: bool)
    requires Enabled(s, e) && InWait(s.threads[e.t]) && MayTimeOut(s.threads[e.t], timed) && UserHeld(s, e.t)
    ensures var s' := Next(s, e);
            && |s'.threads| == |s.threads| && MayTimeOut(s'.threads[e.t], timed)
            && (InWait(s'.threads[e.t]) || s'.threads[e.t].Idle?)
            && (s'.threads[e.t].Idle? ==> s'.user == Some(e.t))
  {
  }

  lemma {:induction false} WaitRest(s: State, run: seq<Event>, t: nat, timed: bool)
    requires Inv(s) && Follows(s, run) && Returns(s, run, t)
    requires if InWait(s.threads[t]) then MayTimeOut(s.threads[t], timed) else s.threads[t].Idle? && s.user == Some(t)
    ensures WaitLeft(s.threads[t], timed, OwnEffect(s, run, t))
    ensures Exec(s, run).user == Some(t)
    decreases run
  {
    if run != [] {
      StepKeepsInv(s, run[0]);
      if run[0].t == t {
        assert UserHeld(s, t);
        WaitGoesOn(s, run[0], timed);
        WaitRest(Next(s, run[0]), run[1..], t, timed);
        WaitLine(s, run[0], timed, OwnEffect(Next(s, run[0]), run[1..], t));
      } else {
        OthersStay(s, run[0], t);
        WaitRest(Next(s, run[0]), run[1..], t, timed);
      }
    }
  }

  /**
   A whole wait: it returns with the user's mutex held by its caller, having counted itself and taken one token, or,
   only if it has a deadline, having counted itself and uncounted itself again with no token taken.
   */
  lemma WaitCall(n: nat, run: seq<Event>, t: nat, timed: bool, call: seq<Event>)
    requires Follows(Initial(n), run) && WholeCall(Exec(Initial(n), run), call, t, CallWait(timed))
    ensures var s := Exec(Initial(n), run);
            var own := OwnEffect(s, call, t);
            && s.user == Some(t) && Exec(s, call).user == Some(t)
            && (own == Effect(-1, 1) || (timed && own == Effect(0, 0)))
  {
    ReachableInv(n, run);
    var s := Exec(Initial(n), run);
    StepKeepsInv(s, call[0]);
    WaitRest(Next(s, call[0]), call[1..], t, timed);
  }

  /** In every reachable state, a step that ends a wait leaves its caller with the user's mutex. */
  lemma WaitReturnsLocked(n: nat, run: seq<Event>, e: Event)
    requires Follows(Initial(n), run) && Enabled(Exec(Initial(n), run), e)
    requires var s := Exec(Initial(n), run); InWait(s.threads[e.t]) && Next(s, e).threads[e.t].Idle?
    ensures Next(Exec(Initial(n), run), e).user == Some(e.t)
  {
    ReachableInv(n, run);
    var s := Exec(Initial(n), run);
    assert UserHeld(s, e.t);
    WaitGoesOn(s, e, if s.threads[e.t].WGet? then s.threads[e.t].timed else true);
  }

  // ----- alone -----

  /** k lines of thread t, one after the other and each ready when its turn comes, lead from s to s'. */
  ghost predicate Runs(s: State, t: nat, k: nat, s': State)
    decreases k
  {
    if k == 0 then s == s' else Enabled(s, Event(t, Go)) && Runs(Line(s, t), t, k - 1, s')
  }

  lemma RunsLine(s: State, t: nat, k: nat, s1: State, s': State)
    requires Enabled(s, Event(t, Go)) && Line(s, t) == s1 && Runs(s1, t, k, s')
    ensures Runs(s, t, k + 1, s')
  {
  }

  /**
   The calls with no interference, line for line: a signal that finds nobody waiting is one read and never locks;
   otherwise it is six lines that turn one off `waiting` into a token.
   */
  lemma SignalAlone(s: State, t: nat)
    requires t < |s.threads| && s.threads[t].Idle? && s.mux == None
    ensures var called := Next(s, Event(t, CallSignal));
            if s.waiting <= 0 then Runs(called, t, 1, s)
            else Runs(called, t, 6, s.(waiting := s.waiting - 1, tokens := s.tokens + 1))
  {
    assert At(s, t, Idle) == s;
    if s.waiting <= 0 {
      RunsLine(At(s, t, SRead), t, 0, s, s);
    } else {
      var s' := s.(waiting := s.waiting - 1, tokens := s.tokens + 1);
      var unlocking := At(s', t, SUnlock).(mux := Some(t));
      var posted := At(s, t, SDec).(mux := Some(t), tokens := s.tokens + 1);
      var checking := At(s, t, SCheck).(mux := Some(t));
      RunsLine(unlocking, t, 0, s', s');
      RunsLine(posted, t, 1, unlocking, s');
      RunsLine(At(s, t, SPost).(mux := Some(t)), t, 2, posted, s');
      RunsLine(checking, t, 3, At(s, t, SPost).(mux := Some(t)), s');
      RunsLine(At(s, t, SLock), t, 4, checking, s');
      RunsLine(At(s, t, SRead), t, 5, At(s, t, SLock), s');
    }
  }

  /** A broadcast is four lines that turn all of `waiting` into tokens. */
  lemma BroadcastAlone(s: State, t: nat)
    requires t < |s.threads| && s.threads[t].Idle? && s.mux == None && s.waiting >= 0
    ensures Runs(Next(s, Event(t, CallBroadcast)), t, 4, s.(waiting := 0, tokens := s.tokens + s.waiting))
  {
    assert At(s, t, Idle) == s;
    var s' := s.(waiting := 0, tokens := s.tokens + s.waiting);
    var unlocking := At(s', t, BUnlock).(mux := Some(t));
    var posted := At(s, t, BClear(s.waiting)).(mux := Some(t), tokens := s.tokens + s.waiting);
    var posting := At(s, t, BPost).(mux := Some(t));
    RunsLine(unlocking, t, 0, s', s');
    RunsLine(posted, t, 1, unlocking, s');
    RunsLine(posting, t, 2, posted, s');
    RunsLine(At(s, t, BLock), t, 3, posting, s');
  }

  /** A wait is four lines that count it and give the user's mutex up, and two that take a token and the mutex back. */
  lemma WaitAlone(s: State, t: nat, timed: bool)
    requires t < |s.threads| && s.threads[t].Idle? && s.mux == None && s.user == Some(t)
    ensures var asleep := At(s, t, WGet(timed)).(waiting := s.waiting + 1, user := None);
            && Runs(Next(s, Event(t, CallWait(timed))), t, 4, asleep)
            && (s.tokens > 0 ==> Runs(asleep, t, 2, s.(waiting := s.waiting + 1, tokens := s.tokens - 1)))
  {
    assert At(s, t, Idle) == s;
    var counted := s.(waiting := s.waiting + 1);
    var asleep := At(counted, t, WGet(timed)).(user := None);
    RunsLine(At(counted, t, WDrop(timed)), t, 0, asleep, asleep);
    RunsLine(At(counted, t, WUnlock(timed)).(mux := Some(t)), t, 1, At(counted, t, WDrop(timed)), asleep);
    RunsLine(At(s, t, WInc(timed)).(mux := Some(t)), t, 2, At(counted, t, WUnlock(timed)).(mux := Some(t)), asleep);
    RunsLine(At(s, t, WLock(timed)), t, 3, At(s, t, WInc(timed)).(mux := Some(t)), asleep);
    if s.tokens > 0 {
      var s' := counted.(tokens := s.tokens - 1);
      RunsLine(At(s', t, WRelock).(user := None), t, 0, s', s');
      RunsLine(asleep, t, 1, At(s', t, WRelock).(user := None), s');
    }
  }

  /** A timeout with both mutexes free is four lines that take the user's mutex back and uncount the call. */
  lemma TimeoutAlone(s: State, t: nat)
    requires t < |s.threads| && s.threads[t] == WGet(true) && s.mux == None && s.user == None
    ensures Enabled(s, Event(t, Expire))
    ensures var s' := At(s, t, Idle).(user := Some(t), waiting := s.waiting - 1, expired := s.expired + 1);
            Runs(Next(s, Event(t, Expire)), t, 4, s')
  {
    var s' := At(s, t, Idle).(user := Some(t), waiting := s.waiting - 1, expired := s.expired + 1);
    var unlocking := At(s', t, TUnlock).(mux := Some(t));
    var counted := At(s, t, TDec).(user := Some(t), mux := Some(t));
    var relocked := At(s, t, TLock).(user := Some(t));
    RunsLine(unlocking, t, 0, s', s');
    RunsLine(counted, t, 1, unlocking, s');
    RunsLine(relocked, t, 2, counted, s');
    RunsLine(At(s, t, TRelock), t, 3, relocked, s');
  }
}
