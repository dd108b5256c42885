/**
 The supervisor of the demo HTTP server: start and stop run by any number of handler threads under one
 lock, statement by statement, while the child process may die at any moment.

 A run is any list of events; an event that cannot happen in the current state changes nothing.
 */
module Supervisor {
  import opened Basics

  type Tid = nat
  type Pid = nat

  datatype Op = Start | Stop

  /** How an action ends: with a reply, or with an exception out of the `with` block. */
  datatype End = Reply(ok: bool) | Raised

  /** Where a handler thread is. Everything but Idle and Wait is inside the lock. */
  datatype Pc =
    | Idle
    | Wait(op: Op)          // before the lock
    | StartPoll             // is the tracked process running?
    | StartSpawn            // Popen
    | StartRepoll           // after the short sleep
    | StartForget           // it died at once
    | StopPoll              // is there anything to stop?
    | StopForget
    | StopTerm              // killpg SIGTERM
    | StopGone              // it raised ProcessLookupError
    | StopWait              // wait(timeout=3)
    | StopKill              // killpg SIGKILL
    | StopWaitAgain         // wait(timeout=3), may raise
    | StopClear
    | Leave(op: Op, end: End)  // about to release the lock

  /** What the operating system answers to the statement a thread executes. */
  datatype Outcome =
    | Fine
    | NoSuchProcess         // ProcessLookupError: nothing alive in the group
    | Timeout               // TimeoutExpired
    | Trouble               // any other OSError
    | Spawned(pid: Pid)

  datatype Event = Call(tid: Tid, op: Op) | Execute(tid: Tid, outcome: Outcome) | Exit(pid: Pid)

  /** `tracked` is the global socket_demo_process; `live` holds the running children the app started. */
  datatype System = System(lock: Option<Tid>, tracked: Option<Pid>, live: set<Pid>, ever: set<Pid>, pcs: map<Tid, Pc>)

  predicate Inside(pc: Pc) { !pc.Idle? && !pc.Wait? }

  /** poll() is None: there is a tracked process and it is alive. */
  predicate Running(s: System) { s.tracked.Some? && s.tracked.value in s.live }

  function Move(s: System, tid: Tid, pc: Pc): System { s.(pcs := s.pcs[tid := pc]) }

  /** One statement of thread `tid`. Statements that use the tracked process assume it is there. */
  function Execute1(s: System, tid: Tid, o: Outcome): System
    requires tid in s.pcs
  {
    match s.pcs[tid]
    case Idle => s
    case Wait(op) =>
      if s.lock.Some? then s
      else Move(s.(lock := Some(tid)), tid, if op.Start? then StartPoll else StopPoll)
    case StartPoll => Move(s, tid, if Running(s) then Leave(Start, Reply(true)) else StartSpawn)
    case StartSpawn =>
      if o.Trouble? then Move(s, tid, Leave(Start, Raised))
      else if !o.Spawned? || o.pid in s.ever then s
      else Move(s.(tracked := Some(o.pid), live := s.live + {o.pid}, ever := s.ever + {o.pid}), tid, StartRepoll)
    case StartRepoll => Move(s, tid, if Running(s) then Leave(Start, Reply(true)) else StartForget)
    case StartForget => Move(s.(tracked := None), tid, Leave(Start, Reply(false)))
    case StopPoll => Move(s, tid, if Running(s) then StopTerm else StopForget)
    case StopForget => Move(s.(tracked := None), tid, Leave(Stop, Reply(true)))
    case StopTerm =>
      if o.Trouble? then Move(s, tid, Leave(Stop, Raised))
      else if !o.NoSuchProcess? then Move(s, tid, StopWait)
      else if Running(s) then s  // ESRCH is not a possible answer
      else Move(s, tid, StopGone)
    case StopGone => Move(s.(tracked := None), tid, Leave(Stop, Reply(true)))
    case StopWait =>
      if o.Timeout? then Move(s, tid, StopKill)
      else if Running(s) then s  // still waiting
      else Move(s, tid, StopClear)
    case StopKill => Move(s, tid, if o.Trouble? then Leave(Stop, Raised) else StopWaitAgain)
    case StopWaitAgain =>
      if o.Timeout? then Move(s, tid, Leave(Stop, Raised))
      else if Running(s) then s
      else Move(s, tid, StopClear)
    case StopClear => Move(s.(tracked := None), tid, Leave(Stop, Reply(true)))
    case Leave(_, _) => Move(s.(lock := None), tid, Idle)
  }

  function Step(s: System, e: Event): System {
    match e
    case Call(tid, op) => if tid in s.pcs && !s.pcs[tid].Idle? then s else Move(s, tid, Wait(op))
    case Execute(tid, o) => if tid in s.pcs then Execute1(s, tid, o) else s
    case Exit(pid) => s.(live := s.live - {pid})
  }

  function Run(s: System, es: seq<Event>): System
    decreases |es|
  {
    if es == [] then s else Run(Step(s, es[0]), es[1..])
  }

  const BOOT: System := System(None, None, {}, {}, map[])

  /** What the lock holder knows at each point inside the lock. */
  ghost predicate Knows(s: System, pc: Pc) {
    match pc
    case StartSpawn => s.live == {}
    case StartForget => s.live == {}
    case StopForget => s.live == {}
    case StopGone => s.live == {}
    case StopClear => s.live == {}
    case StartRepoll => s.tracked.Some?
    case StopTerm => s.tracked.Some?
    case StopWait => s.tracked.Some?
    case StopKill => s.tracked.Some?
    case StopWaitAgain => s.tracked.Some?
    case Leave(op, end) =>
      && (op.Stop? && end.Reply? ==> s.live == {} && s.tracked.None?)
      && (op.Stop? && end.Raised? ==> s.tracked.Some?)
      && (op.Start? && end == Reply(true) ==> s.tracked.Some?)
      && (op.Start? && end == Reply(false) ==> s.live == {} && s.tracked.None?)
    case _ => true
  }

  /** The lock and the program counters fit together. */
  ghost predicate Exclusive(s: System) {
    && (forall t | t in s.pcs :: Inside(s.pcs[t]) <==> s.lock == Some(t))
    && (s.lock.Some? ==> s.lock.value in s.pcs)
  }

  ghost predicate Inv(s: System) {
    && Exclusive(s)
    && (s.lock.Some? ==> Knows(s, s.pcs[s.lock.value]))
    && (forall p | p in s.live :: s.tracked == Some(p))
    && s.live <= s.ever
  }

  lemma StepKeepsInv(s: System, e: Event)
    requires Inv(s)
    ensures Inv(Step(s, e))
  {
    if e.Execute? && e.tid in s.pcs {
      ExecuteKeepsInv(s, e.tid, e.outcome);
    }
  }

  lemma ExecuteKeepsInv(s: System, tid: Tid, o: Outcome)
    requires Inv(s) && tid in s.pcs
    ensures Inv(Execute1(s, tid, o))
  {
    LockIsExclusive(s, tid, o);
    HolderKnows(s, tid, o);
    LiveIsTracked(s, tid, o);
  }

  /** A thread moves to pc while the lock is, or becomes, `lock`. */
  lemma MoveKeepsExclusive(s: System, t: System, tid: Tid, pc: Pc)
    requires Exclusive(s) && tid in s.pcs && t.pcs == s.pcs[tid := pc]
    requires Inside(pc) ==> t.lock == Some(tid) && (s.lock.None? || s.lock == Some(tid))
    requires !Inside(pc) ==> t.lock == if s.lock == Some(tid) then None else s.lock
    ensures Exclusive(t)
  {
  }

  lemma LockIsExclusive(s: System, tid: Tid, o: Outcome)
    requires Inv(s) && tid in s.pcs
    ensures Exclusive(Execute1(s, tid, o))
  {
    var t := Execute1(s, tid, o);
    assert Inside(s.pcs[tid]) <==> s.lock == Some(tid);
    OnlyThePcMoves(s, tid, o);
    if t != s {
      MoveKeepsExclusive(s, t, tid, t.pcs[tid]);
    }
  }

  /** A statement moves the counter of its own thread; the lock changes hands only at both ends. */
  lemma OnlyThePcMoves(s: System, tid: Tid, o: Outcome)
    requires tid in s.pcs && (Inside(s.pcs[tid]) <==> s.lock == Some(tid))
    ensures var t := Execute1(s, tid, o);
            t != s ==>
              && tid in t.pcs && t.pcs == s.pcs[tid := t.pcs[tid]]
              && (Inside(t.pcs[tid]) ==> t.lock == Some(tid) && (s.lock.None? || s.lock == Some(tid)))
              && (!Inside(t.pcs[tid]) ==> t.lock == if s.lock == Some(tid) then None else s.lock)
  {
  }

  lemma HolderKnows(s: System, tid: Tid, o: Outcome)
    requires Inv(s) && tid in s.pcs
    ensures var t := Execute1(s, tid, o);
            t.lock.Some? && t.lock.value in t.pcs ==> Knows(t, t.pcs[t.lock.value])
  {
    NotRunningMeansNoneLive(s);
    if s.lock != Some(tid) {
      assert !Inside(s.pcs[tid]);
    }
  }

  lemma LiveIsTracked(s: System, tid: Tid, o: Outcome)
    requires Inv(s) && tid in s.pcs
    ensures var t := Execute1(s, tid, o);
            t.live <= t.ever && forall p | p in t.live :: t.tracked == Some(p)
  {
    if Inside(s.pcs[tid]) {
      assert Knows(s, s.pcs[tid]);
    }
  }

  lemma NotRunningMeansNoneLive(s: System)
    requires forall p | p in s.live :: s.tracked == Some(p)
    ensures !Running(s) ==> s.live == {}
  {
    if p :| p in s.live {
      assert s.tracked == Some(p);
    }
  }

  lemma {:induction false} RunKeepsInv(s: System, es: seq<Event>)
    requires Inv(s)
    ensures Inv(Run(s, es))
    decreases |es|
  {
    if es == [] {
    } else {
      StepKeepsInv(s, es[0]);
      RunKeepsInv(Step(s, es[0]), es[1..]);
    }
  }

  /**
   In every run, with any number of threads and the child dying whenever it likes: every live child the
   app started is the tracked one, so there is never more than one.
   */
  lemma AtMostOneServer(es: seq<Event>)
    ensures var s := Run(BOOT, es);
            && |s.live| <= 1
            && forall p | p in s.live :: s.tracked == Some(p)
  {
    RunKeepsInv(BOOT, es);
    var s := Run(BOOT, es);
    if p :| p in s.live {
      assert s.live == {p};
    }
  }

  /**
   Whenever a thread is about to release the lock after a stop that returns normally, no child is live
   and none is tracked; after one that raised, the child it may have failed to kill is still tracked, so that the next stop
   will find it.
   */
  lemma StopMeansStopped(es: seq<Event>, tid: Tid, end: End)
    requires var s := Run(BOOT, es); tid in s.pcs && s.pcs[tid] == Leave(Stop, end)
    ensures var s := Run(BOOT, es);
            && s.lock == Some(tid)
            && (end.Reply? ==> end.ok && s.live == {} && s.tracked.None?)
            && (end.Raised? ==> s.tracked.Some?)
  {
    RunKeepsInv(BOOT, es);
    RunKeepsReplies(BOOT, es);
  }

  /** A normal return of stop always reports success. */
  ghost predicate StopReplies(s: System) {
    forall t | t in s.pcs :: s.pcs[t].Leave? && s.pcs[t].op.Stop? && s.pcs[t].end.Reply? ==> s.pcs[t].end.ok
  }

  lemma {:induction false} RunKeepsReplies(s: System, es: seq<Event>)
    requires StopReplies(s)
    ensures StopReplies(Run(s, es))
    decreases |es|
  {
    if es == [] {
    } else {
      RunKeepsReplies(Step(s, es[0]), es[1..]);
    }
  }

  /**
   The lock does its work: at most one thread is between acquiring and releasing it, a new child is
   spawned only when none is live, and no statement uses a tracked process that is not there.
   */
  lemma OneThreadInside(es: seq<Event>, t: Tid, u: Tid)
    requires var s := Run(BOOT, es); t in s.pcs && u in s.pcs && Inside(s.pcs[t])
    ensures var s := Run(BOOT, es);
            && (Inside(s.pcs[u]) ==> u == t)
            && (s.pcs[t].StartSpawn? ==> s.live == {})
            && (s.pcs[t] in {StartRepoll, StopTerm, StopWait, StopKill, StopWaitAgain} ==> s.tracked.Some?)
  {
    RunKeepsInv(BOOT, es);
  }

  // ---------- what one call comes to, whatever the other threads do ----------

  /** From s on thread tid is inside one call, which is still on its way until the last state of the run. */
  ghost predicate OneCall(s: System, es: seq<Event>, tid: Tid)
    decreases |es|
  {
    && tid in s.pcs && !s.pcs[tid].Idle?
    && (es != [] ==> !s.pcs[tid].Leave? && OneCall(Step(s, es[0]), es[1..], tid))
  }

  /** After the run the call of thread tid is about to end like this. */
  ghost predicate EndsWith(s: System, es: seq<Event>, tid: Tid, op: Op, end: End) {
    var t := Run(s, es);
    tid in t.pcs && t.pcs[tid] == Leave(op, end)
  }

  /** The thread spawned a child that had not been there before, and that child then died. */
  ghost predicate SpawnedAndDied(es: seq<Event>, tid: Tid, before: set<Pid>) {
    exists i, j, p: Pid :: 0 <= i < j < |es| && es[i] == Execute(tid, Spawned(p)) && es[j] == Exit(p) && p !in before
  }

  ghost predicate Died(es: seq<Event>, p: Pid) { Exit(p) in es }

  ghost predicate Happened(es: seq<Event>, tid: Tid, o: Outcome) { Execute(tid, o) in es }

  lemma DiedLater(es: seq<Event>, p: Pid)
    requires es != [] && Died(es[1..], p)
    ensures Died(es, p)
  {
  }

  lemma SpawnedAndDiedLater(es: seq<Event>, tid: Tid, before: set<Pid>, after: set<Pid>)
    requires es != [] && before <= after && SpawnedAndDied(es[1..], tid, after)
    ensures SpawnedAndDied(es, tid, before)
  {
    var i, j, p: Pid :| 0 <= i < j < |es[1..]| && es[1..][i] == Execute(tid, Spawned(p)) && es[1..][j] == Exit(p) && p !in after;
    assert es[i + 1] == Execute(tid, Spawned(p)) && es[j + 1] == Exit(p);
  }

  lemma SpawnedNow(es: seq<Event>, tid: Tid, p: Pid, before: set<Pid>)
    requires es != [] && es[0] == Execute(tid, Spawned(p)) && p !in before && Died(es[1..], p)
    ensures SpawnedAndDied(es, tid, before)
  {
    var j :| 0 <= j < |es[1..]| && es[1..][j] == Exit(p);
    assert es[j + 1] == Exit(p);
  }

  /** What must have happened by the time a start that is at this point answers failure. */
  ghost predicate FailureExplained(s: System, es: seq<Event>, tid: Tid)
    requires tid in s.pcs
  {
    match s.pcs[tid]
    case Wait(op) => op.Start? ==> SpawnedAndDied(es, tid, s.ever)
    case StartPoll => SpawnedAndDied(es, tid, s.ever)
    case StartSpawn => SpawnedAndDied(es, tid, s.ever)
    case StartRepoll => s.tracked.Some? && (s.tracked.value in s.live ==> Died(es, s.tracked.value))
    case _ => true
  }

  /** While a thread is inside, the steps of others leave what it works on alone, except for deaths. */
  lemma OthersLeaveAlone(s: System, e: Event, tid: Tid)
    requires Inv(s) && tid in s.pcs && Inside(s.pcs[tid]) && (e.Execute? ==> e.tid != tid)
    ensures var t := Step(s, e);
            && tid in t.pcs && t.pcs[tid] == s.pcs[tid] && t.tracked == s.tracked && t.ever == s.ever
            && t.live == if e.Exit? then s.live - {e.pid} else s.live
  {
  }

  lemma {:induction false} FailureIsExplained(s: System, es: seq<Event>, tid: Tid)
    requires Inv(s) && OneCall(s, es, tid) && EndsWith(s, es, tid, Start, Reply(false))
    ensures FailureExplained(s, es, tid)
    decreases |es|
  {
    if es == [] {
    } else {
      var t := Step(s, es[0]);
      StepKeepsInv(s, es[0]);
      FailureIsExplained(t, es[1..], tid);
      if es[0].Execute? && es[0].tid == tid {
        OwnStepExplains(s, es, tid);
      } else if Inside(s.pcs[tid]) {
        OthersLeaveAlone(s, es[0], tid);
        if s.pcs[tid].StartRepoll? {
          if es[0] != Exit(s.tracked.value) && s.tracked.value in s.live {
            DiedLater(es, s.tracked.value);
          }
        } else if s.pcs[tid].StartPoll? || s.pcs[tid].StartSpawn? {
          SpawnedAndDiedLater(es, tid, s.ever, t.ever);
        }
      } else if s.pcs[tid].op.Start? {
        OthersKeepWaiting(s, es[0], tid);
        SpawnedAndDiedLater(es, tid, s.ever, t.ever);
      }
    }
  }

  /** A waiting thread waits on through the steps of others, and no child is forgotten. */
  lemma OthersKeepWaiting(s: System, e: Event, tid: Tid)
    requires Inv(s) && tid in s.pcs && s.pcs[tid].Wait? && (e.Execute? ==> e.tid != tid)
    ensures var t := Step(s, e); tid in t.pcs && t.pcs[tid] == s.pcs[tid] && s.ever <= t.ever
  {
  }

  /** A call that is about to leave is at the end of its run. */
  lemma LeavesAtTheEnd(s: System, es: seq<Event>, tid: Tid)
    requires OneCall(s, es, tid) && s.pcs[tid].Leave?
    ensures Run(s, es) == s
  {
  }

  /** The thread's own first step. */
  lemma OwnStepExplains(s: System, es: seq<Event>, tid: Tid)
    requires Inv(s) && OneCall(s, es, tid) && EndsWith(s, es, tid, Start, Reply(false))
    requires es != [] && es[0].Execute? && es[0].tid == tid && FailureExplained(Step(s, es[0]), es[1..], tid)
    ensures FailureExplained(s, es, tid)
  {
    var t, o := Step(s, es[0]), es[0].outcome;
    if t.pcs[tid].Leave? {
      LeavesAtTheEnd(t, es[1..], tid);
    }
    match s.pcs[tid]
    case Wait(op) =>
      if op.Start? {
        SpawnedAndDiedLater(es, tid, s.ever, t.ever);
      }
    case StartPoll => SpawnStillToCome(s, es, tid);
    case StartSpawn =>
      if o.Spawned? && o.pid !in s.ever {
        SpawnedNow(es, tid, o.pid, s.ever);
      } else {
        SpawnStillToCome(s, es, tid);
      }
    case _ =>
  }

  lemma SpawnStillToCome(s: System, es: seq<Event>, tid: Tid)
    requires es != [] && es[0].Execute? && es[0].tid == tid && tid in s.pcs && (s.pcs[tid].StartPoll? || s.pcs[tid].StartSpawn?)
    requires var t := Step(s, es[0]); t.pcs[tid].StartSpawn? && t.ever == s.ever && SpawnedAndDied(es[1..], tid, t.ever)
    ensures SpawnedAndDied(es, tid, s.ever)
  {
    SpawnedAndDiedLater(es, tid, s.ever, s.ever);
  }

  /**
   In any run with any threads, a start answers failure only if it spawned a child, in that same call,
   that died before the answer.
   */
  lemma StartFailsOnlyIfTheChildDies(before: seq<Event>, es: seq<Event>, tid: Tid)
    requires var s := Run(BOOT, before); tid in s.pcs && s.pcs[tid] == Wait(Start) && OneCall(s, es, tid)
    requires EndsWith(Run(BOOT, before), es, tid, Start, Reply(false))
    ensures SpawnedAndDied(es, tid, Run(BOOT, before).ever)
  {
    RunKeepsInv(BOOT, before);
    FailureIsExplained(Run(BOOT, before), es, tid);
  }

  /** What must have happened by the time a call that is at this point raises. */
  ghost predicate RaiseExplained(s: System, es: seq<Event>, tid: Tid)
    requires tid in s.pcs
  {
    match s.pcs[tid]
    case Wait(op) => Happened(es, tid, Trouble) || (op.Stop? && TwoTimeouts(es, tid))
    case StartPoll => Happened(es, tid, Trouble)
    case StartSpawn => Happened(es, tid, Trouble)
    case StopPoll => Happened(es, tid, Trouble) || TwoTimeouts(es, tid)
    case StopTerm => Happened(es, tid, Trouble) || TwoTimeouts(es, tid)
    case StopWait => Happened(es, tid, Trouble) || TwoTimeouts(es, tid)
    case StopKill => Happened(es, tid, Trouble) || Happened(es, tid, Timeout)
    case StopWaitAgain => Happened(es, tid, Trouble) || Happened(es, tid, Timeout)
    case Leave(_, _) => true
    case _ => false
  }

  /** Both waits of the thread ran out of time. */
  ghost predicate TwoTimeouts(es: seq<Event>, tid: Tid) {
    exists i, j :: 0 <= i < j < |es| && es[i] == es[j] == Execute(tid, Timeout)
  }

  lemma HappenedLater(es: seq<Event>, tid: Tid, o: Outcome)
    requires es != []
    ensures Happened(es[1..], tid, o) ==> Happened(es, tid, o)
    ensures TwoTimeouts(es[1..], tid) ==> TwoTimeouts(es, tid)
    ensures es[0] == Execute(tid, Timeout) && Happened(es[1..], tid, Timeout) ==> TwoTimeouts(es, tid)
  {
    if TwoTimeouts(es[1..], tid) {
      var i, j :| 0 <= i < j < |es[1..]| && es[1..][i] == es[1..][j] == Execute(tid, Timeout);
      assert es[i + 1] == es[j + 1] == Execute(tid, Timeout);
    }
    if es[0] == Execute(tid, Timeout) && Happened(es[1..], tid, Timeout) {
      var j :| 0 <= j < |es[1..]| && es[1..][j] == Execute(tid, Timeout);
      assert es[j + 1] == es[0];
    }
  }

  lemma {:induction false} RaiseIsExplained(s: System, es: seq<Event>, tid: Tid, op: Op)
    requires Inv(s) && OneCall(s, es, tid) && EndsWith(s, es, tid, op, Raised)
    ensures RaiseExplained(s, es, tid)
    decreases |es|
  {
    if es == [] {
    } else {
      StepKeepsInv(s, es[0]);
      RaiseIsExplained(Step(s, es[0]), es[1..], tid, op);
      HappenedLater(es, tid, Trouble);
      HappenedLater(es, tid, Timeout);
      if es[0].Execute? && es[0].tid == tid {
        OwnStepRaises(s, es, tid, op);
      } else if Inside(s.pcs[tid]) {
        OthersLeaveAlone(s, es[0], tid);
      } else {
        OthersKeepWaiting(s, es[0], tid);
      }
    }
  }

  lemma OwnStepRaises(s: System, es: seq<Event>, tid: Tid, op: Op)
    requires OneCall(s, es, tid) && EndsWith(s, es, tid, op, Raised)
    requires es != [] && es[0].Execute? && es[0].tid == tid && RaiseExplained(Step(s, es[0]), es[1..], tid)
    requires forall o :: Happened(es[1..], tid, o) ==> Happened(es, tid, o)
    requires TwoTimeouts(es[1..], tid) ==> TwoTimeouts(es, tid)
    requires es[0] == Execute(tid, Timeout) && Happened(es[1..], tid, Timeout) ==> TwoTimeouts(es, tid)
    ensures RaiseExplained(s, es, tid)
  {
    var t := Step(s, es[0]);
    assert es[0] == Execute(tid, es[0].outcome) && Happened(es, tid, es[0].outcome);
    if t.pcs[tid].Leave? {
      LeavesAtTheEnd(t, es[1..], tid);
    }
  }

  /** Exactly these answers of the operating system make a statement raise, and it then changes nothing else. */
  lemma RaisesIff(s: System, tid: Tid, o: Outcome)
    requires tid in s.pcs && Inside(s.pcs[tid]) && !s.pcs[tid].Leave?
    ensures var t := Execute1(s, tid, o);
            && tid in t.pcs
            && ((t.pcs[tid].Leave? && t.pcs[tid].end == Raised)
                <==> (o.Trouble? && s.pcs[tid] in {StartSpawn, StopTerm, StopKill}) || (o.Timeout? && s.pcs[tid] == StopWaitAgain))
            && (t.pcs[tid].Leave? && t.pcs[tid].end == Raised ==> t == s.(pcs := s.pcs[tid := t.pcs[tid]]))
  {
  }

  /** In any run with any threads, start raises only if the operating system refused the spawn, and stop only
      if it refused a signal or the child outlived both waits. */
  lemma RaisesOnlyInTrouble(before: seq<Event>, es: seq<Event>, tid: Tid, op: Op)
    requires var s := Run(BOOT, before); tid in s.pcs && s.pcs[tid].Wait? && OneCall(s, es, tid)
    requires EndsWith(Run(BOOT, before), es, tid, op, Raised)
    ensures Happened(es, tid, Trouble) || (Run(BOOT, before).pcs[tid].op.Stop? && TwoTimeouts(es, tid))
  {
    RunKeepsInv(BOOT, before);
    RaiseIsExplained(Run(BOOT, before), es, tid, op);
  }

  /** A child that start has seen running, or has spawned, is running. */
  ghost predicate Up(s: System, tid: Tid) {
    tid in s.pcs && (s.pcs[tid].StartRepoll? || s.pcs[tid] == Leave(Start, Reply(true))) ==> Running(s)
  }

  lemma {:induction false} StaysUp(s: System, es: seq<Event>, tid: Tid)
    requires Inv(s) && OneCall(s, es, tid) && Up(s, tid) && forall e | e in es :: !e.Exit?
    ensures Up(Run(s, es), tid)
    decreases |es|
  {
    if es == [] {
    } else {
      StepKeepsInv(s, es[0]);
      assert es[0] in es;
      if Inside(s.pcs[tid]) && (es[0].Execute? ==> es[0].tid != tid) {
        OthersLeaveAlone(s, es[0], tid);
      }
      StaysUp(Step(s, es[0]), es[1..], tid);
    }
  }

  lemma WithoutExitNobodyDies(es: seq<Event>, tid: Tid, before: set<Pid>)
    requires forall e | e in es :: !e.Exit?
    ensures !SpawnedAndDied(es, tid, before)
  {
    forall j | 0 <= j < |es|
      ensures !es[j].Exit?
    {
      assert es[j] in es;
    }
  }

  /**
   In any run with any threads: a start during which no child dies and the operating system does not
   refuse the spawn ends in success, with one child running, the tracked one.
   */
  lemma StartSucceeds(before: seq<Event>, es: seq<Event>, tid: Tid, end: End)
    requires var s := Run(BOOT, before); tid in s.pcs && s.pcs[tid] == Wait(Start) && OneCall(s, es, tid)
    requires EndsWith(Run(BOOT, before), es, tid, Start, end)
    requires (forall e | e in es :: !e.Exit?) && !Happened(es, tid, Trouble)
    ensures var t := Run(Run(BOOT, before), es);
            end == Reply(true) && t.tracked.Some? && t.live == {t.tracked.value}
  {
    var s := Run(BOOT, before);
    RunKeepsInv(BOOT, before);
    RunKeepsInv(s, es);
    StaysUp(s, es, tid);
    if end == Raised {
      RaisesOnlyInTrouble(before, es, tid, Start);
    } else if end == Reply(false) {
      StartFailsOnlyIfTheChildDies(before, es, tid);
      WithoutExitNobodyDies(es, tid, s.ever);
    }
    var t := Run(s, es);
    assert t.live == {t.tracked.value};
  }

  // ---------- calls that come through ----------

  lemma Then(s: System, e: Event, es: seq<Event>)
    ensures Run(s, [e] + es) == Run(Step(s, e), es)
  {
    assert ([e] + es)[1..] == es;
  }

  /** Thread tid may call: the lock is free and it is not inside a call. */
  ghost predicate Free(s: System, tid: Tid) {
    Inv(s) && s.lock.None? && (tid in s.pcs ==> s.pcs[tid].Idle?)
  }

  /** The call gets the lock and has looked whether a child is running. */
  lemma CallAndPoll(s: System, tid: Tid, op: Op, es: seq<Event>) returns (t: System)
    requires Free(s, tid)
    ensures Run(s, [Call(tid, op)] + ([Execute(tid, Fine)] + ([Execute(tid, Fine)] + es))) == Run(t, es)
    ensures Inv(t) && t.tracked == s.tracked && t.live == s.live && t.ever == s.ever && tid in t.pcs
    ensures t.pcs[tid] == if op.Start? then (if Running(s) then Leave(Start, Reply(true)) else StartSpawn)
                          else (if Running(s) then StopTerm else StopForget)
  {
    var s1 := Step(s, Call(tid, op));
    var s2 := Step(s1, Execute(tid, Fine));
    t := Step(s2, Execute(tid, Fine));
    StepKeepsInv(s, Call(tid, op));
    StepKeepsInv(s1, Execute(tid, Fine));
    StepKeepsInv(s2, Execute(tid, Fine));
    Then(s, Call(tid, op), [Execute(tid, Fine)] + ([Execute(tid, Fine)] + es));
    Then(s1, Execute(tid, Fine), [Execute(tid, Fine)] + es);
    Then(s2, Execute(tid, Fine), es);
  }

  /** With no child running, a start whose spawn gives a new process answers success and leaves it running. */
  lemma StartSpawns(s: System, tid: Tid, pid: Pid)
    requires Free(s, tid) && pid !in s.ever && !Running(s)
    ensures var es := [Call(tid, Start)] + ([Execute(tid, Fine)] + ([Execute(tid, Fine)]
                      + ([Execute(tid, Spawned(pid))] + ([Execute(tid, Fine)] + []))));
            EndsWith(s, es, tid, Start, Reply(true)) && Run(s, es).live == {pid} && Run(s, es).tracked == Some(pid)
  {
    NotRunningMeansNoneLive(s);
    var spawn, again := Execute(tid, Spawned(pid)), Execute(tid, Fine);
    var t := CallAndPoll(s, tid, Start, [spawn] + ([again] + []));
    Then(t, spawn, [again] + []);
    Then(Step(t, spawn), again, []);
  }

  /** If that process dies before start looks again, the answer is failure and nothing is tracked. */
  lemma StartSeesTheDeath(s: System, tid: Tid, pid: Pid)
    requires Free(s, tid) && pid !in s.ever && !Running(s)
    ensures var es := [Call(tid, Start)] + ([Execute(tid, Fine)] + ([Execute(tid, Fine)]
                      + ([Execute(tid, Spawned(pid))] + ([Exit(pid)] + ([Execute(tid, Fine)] + ([Execute(tid, Fine)] + []))))));
            EndsWith(s, es, tid, Start, Reply(false)) && Run(s, es).live == {} && Run(s, es).tracked == None
  {
    NotRunningMeansNoneLive(s);
    var spawn, again := Execute(tid, Spawned(pid)), Execute(tid, Fine);
    var t := CallAndPoll(s, tid, Start, [spawn] + ([Exit(pid)] + ([again] + ([again] + []))));
    Then(t, spawn, [Exit(pid)] + ([again] + ([again] + [])));
    DiesBeforeTheAnswer(Step(t, spawn), tid, pid);
  }

  /** The child dies while start sleeps. */
  lemma DiesBeforeTheAnswer(s: System, tid: Tid, p: Pid)
    requires tid in s.pcs && s.pcs[tid].StartRepoll? && s.tracked == Some(p) && s.live <= {p}
    ensures var es := [Exit(p)] + ([Execute(tid, Fine)] + ([Execute(tid, Fine)] + []));
            EndsWith(s, es, tid, Start, Reply(false)) && Run(s, es).live == {} && Run(s, es).tracked == None
  {
    var again := Execute(tid, Fine);
    var s1 := Step(s, Exit(p));
    Then(s, Exit(p), [again] + ([again] + []));
    Then(s1, again, [again] + []);
    Then(Step(s1, again), again, []);
  }

  /** With a child running, start answers success and changes nothing. */
  lemma StartFindsOneRunning(s: System, tid: Tid)
    requires Free(s, tid) && Running(s)
    ensures var es := [Call(tid, Start)] + ([Execute(tid, Fine)] + ([Execute(tid, Fine)] + []));
            EndsWith(s, es, tid, Start, Reply(true)) && Run(s, es).live == s.live && Run(s, es).tracked == s.tracked
  {
    var t := CallAndPoll(s, tid, Start, []);
  }

  /** With no child running, stop answers success at once. */
  lemma StopFindsNone(s: System, tid: Tid)
    requires Free(s, tid) && !Running(s)
    ensures var es := [Call(tid, Stop)] + ([Execute(tid, Fine)] + ([Execute(tid, Fine)] + ([Execute(tid, Fine)] + [])));
            EndsWith(s, es, tid, Stop, Reply(true)) && Run(s, es).live == {} && Run(s, es).tracked == None
  {
    var next := Execute(tid, Fine);
    NotRunningMeansNoneLive(s);
    var t := CallAndPoll(s, tid, Stop, [next] + []);
    Then(t, next, []);
  }

  /** A child that exits on the first signal: stop answers success, with none left. */
  lemma StopOnTheFirstSignal(s: System, tid: Tid)
    requires Free(s, tid) && Running(s)
    ensures var es := [Call(tid, Stop)] + ([Execute(tid, Fine)] + ([Execute(tid, Fine)] + ([Execute(tid, Fine)]
                      + ([Exit(s.tracked.value)] + ([Execute(tid, Fine)] + ([Execute(tid, Fine)] + []))))));
            EndsWith(s, es, tid, Stop, Reply(true)) && Run(s, es).live == {} && Run(s, es).tracked == None
  {
    var next, p := Execute(tid, Fine), s.tracked.value;
    var last := [Exit(p)] + ([next] + ([next] + []));
    var t := CallAndPoll(s, tid, Stop, [next] + last);
    Then(t, next, last);
    DiesInWait(Step(t, next), tid, p);
  }

  /** A child that outlives the first wait and exits on the second signal: the same. */
  lemma StopOnTheSecondSignal(s: System, tid: Tid)
    requires Free(s, tid) && Running(s)
    ensures var es := [Call(tid, Stop)] + ([Execute(tid, Fine)] + ([Execute(tid, Fine)] + ([Execute(tid, Fine)]
                      + ([Execute(tid, Timeout)] + ([Execute(tid, Fine)] + ([Exit(s.tracked.value)]
                      + ([Execute(tid, Fine)] + ([Execute(tid, Fine)] + []))))))));
            EndsWith(s, es, tid, Stop, Reply(true)) && Run(s, es).live == {} && Run(s, es).tracked == None
  {
    var next, late, p := Execute(tid, Fine), Execute(tid, Timeout), s.tracked.value;
    var last := [Exit(p)] + ([next] + ([next] + []));
    var t := CallAndPoll(s, tid, Stop, [next] + ([late] + ([next] + last)));
    var t1 := Step(t, next);
    var t2 := Step(t1, late);
    Then(t, next, [late] + ([next] + last));
    Then(t1, late, [next] + last);
    Then(t2, next, last);
    DiesInWait(Step(t2, next), tid, p);
  }

  /** The child dies while the call waits for it. */
  lemma DiesInWait(s: System, tid: Tid, p: Pid)
    requires tid in s.pcs && (s.pcs[tid].StopWait? || s.pcs[tid].StopWaitAgain?) && s.tracked == Some(p) && s.live <= {p}
    ensures var es := [Exit(p)] + ([Execute(tid, Fine)] + ([Execute(tid, Fine)] + []));
            EndsWith(s, es, tid, Stop, Reply(true)) && Run(s, es).live == {} && Run(s, es).tracked == None
  {
    var next := Execute(tid, Fine);
    var s1 := Step(s, Exit(p));
    Then(s, Exit(p), [next] + ([next] + []));
    Then(s1, next, [next] + []);
    Then(Step(s1, next), next, []);
  }
}
