/**
 Calls that do not overlap. In any schedule of statements in which no call starts before every earlier
 one has returned, the calls take effect as the atomic handlers do, faulted user copies included, so that
 every theorem about runs of the driver holds of the statements.
 */
module DriverSerial {
  import opened Basics
  import opened DriverModel
  import opened DriverInterleaving
  import DriverInvariants
  import DriverReplicas

  predicate AllReturned(s: System) { forall t | t in s.calls :: s.calls[t].Returned? }

  /** A call starts only when no call is in progress. */
  ghost predicate Serial(s: System, moves: seq<Move>, minors: nat)
    requires WfSystem(s, minors)
    decreases |moves|
  {
    moves == [] ||
    ((moves[0].Start? ==> AllReturned(s)) && Serial(Go(s, moves[0], minors), moves[1..], minors))
  }

  // ---------- what a schedule decided ----------

  /** What a call does to the devices, once its user copy has come out. */
  datatype Deed = Stored(m: nat, pos: nat, data: seq<byte>, copy: Copy) | Controlled(m: nat, command: Command)

  predicate WfDeed(d: Deed, minors: nat) {
    && d.m < minors
    && (d.Stored? ==> d.pos < MY_BUFFER_SIZE && Fits(d.pos, d.data, d.copy))
  }

  /** The deed that the next statement of a call settles, if it settles one. */
  function Settles(c: Call, copy: Copy): seq<Deed> {
    match c
    case CopyIn(m, pos, data, len) =>
      if copy.Complete? || |copy.left| == len then [Stored(m, pos, data, copy)] else []
    case ClearBuffer(m) => [Controlled(m, Reset)]
    case CheckValue(m, value) =>
      if copy.Complete? && 0 <= value <= MY_BUFFER_SIZE then [Controlled(m, SetSize(value, false))] else []
    case _ => []
  }

  function MoveSettles(s: System, move: Move): seq<Deed> {
    if move.Advance? && move.tid in s.calls then Settles(s.calls[move.tid], move.copy) else []
  }

  /** The deeds of a schedule, in order. */
  function History(s: System, moves: seq<Move>, minors: nat): seq<Deed>
    requires WfSystem(s, minors)
    decreases |moves|
  {
    if moves == [] then [] else MoveSettles(s, moves[0]) + History(Go(s, moves[0], minors), moves[1..], minors)
  }

  function Apply(devs: seq<Dev>, d: Deed): (r: seq<Dev>)
    requires WfDevs(devs) && WfDeed(d, |devs|)
    ensures WfDevs(r) && |r| == |devs|
  {
    match d
    case Stored(m, pos, data, copy) => WriteFile(devs, m, pos, data, copy).0
    case Controlled(m, command) => devs[m := IoctlDev(devs[m], command).0]
  }

  predicate WfDeeds(ds: seq<Deed>, minors: nat) { forall k | 0 <= k < |ds| :: WfDeed(ds[k], minors) }

  function ApplyAll(devs: seq<Dev>, ds: seq<Deed>): (r: seq<Dev>)
    requires WfDevs(devs) && WfDeeds(ds, |devs|)
    ensures WfDevs(r) && |r| == |devs|
    decreases |ds|
  {
    if ds == [] then devs else
      assert WfDeed(ds[0], |devs|);
      ApplyAll(Apply(devs, ds[0]), ds[1..])
  }

  lemma {:induction false} ApplyConcat(devs: seq<Dev>, a: seq<Deed>, b: seq<Deed>)
    requires WfDevs(devs) && WfDeeds(a, |devs|) && WfDeeds(b, |devs|)
    ensures WfDeeds(a + b, |devs|) && ApplyAll(devs, a + b) == ApplyAll(ApplyAll(devs, a), b)
    decreases |a|
  {
    if a == [] {
      assert a + b == b;
    } else {
      assert WfDeed(a[0], |devs|);
      assert (a + b)[0] == a[0] && (a + b)[1..] == a[1..] + b;
      ApplyConcat(Apply(devs, a[0]), a[1..], b);
    }
  }

  // ---------- one call from its start to its return ----------

  /** A call that has not settled what it does. */
  predicate Undecided(c: Call) { Entry(c) || c.CopyIn? }

  /** Where a call may be when `devs` are the devices after everything settled so far. */
  ghost predicate OnItsWay(mem: Mem, c: Call, devs: seq<Dev>)
    requires WfDevs(devs)
  {
    if Undecided(c) then
      && mem == MemOf(devs) && WfCall(c, |devs|)
      && (c.CopyIn? ==> c.pos < MY_BUFFER_SIZE && c.len == Room(c.pos, |c.data|))
    else
      EndsIn(mem, c, devs)
  }

  /** Undisturbed, the call returns and leaves the memory of `devs`. */
  ghost predicate EndsIn(mem: Mem, c: Call, devs: seq<Dev>) {
    exists ret :: GetsTo((mem, c), (MemOf(devs), Returned(ret)), |devs|)
  }

  lemma {:induction false} ReturnedStays(mem: Mem, ret: Ret, k: nat, minors: nat)
    requires WfMem(mem, minors)
    ensures Alone(mem, Returned(ret), k, minors) == (mem, Returned(ret))
    decreases k
  {
    if k == 0 {
    } else {
      ReturnedStays(mem, ret, k - 1, minors);
    }
  }

  /** One statement further on the way. */
  lemma EndsAfterNext(mem: Mem, c: Call, devs: seq<Dev>)
    requires EndsIn(mem, c, devs) && !c.Returned?
    ensures WfMem(mem, |devs|) && WfCall(c, |devs|)
    ensures var (mem', c') := Exec(mem, c, Complete, |devs|); EndsIn(mem', c', devs)
  {
    var ret :| GetsTo((mem, c), (MemOf(devs), Returned(ret)), |devs|);
    var k: nat :| Reaches((mem, c), (MemOf(devs), Returned(ret)), k, |devs|);
    var next := Exec(mem, c, Complete, |devs|);
    ExecInBounds(mem, c, Complete, |devs|);
    assert k > 0;
    assert Reaches(next, (MemOf(devs), Returned(ret)), k - 1, |devs|);
    assert GetsTo(next, (MemOf(devs), Returned(ret)), |devs|);
  }

  lemma ReturnedHasEnded(mem: Mem, ret: Ret, devs: seq<Dev>)
    ensures EndsIn(mem, Returned(ret), devs) ==> mem == MemOf(devs)
  {
    if EndsIn(mem, Returned(ret), devs) {
      var ret' :| GetsTo((mem, Returned(ret)), (MemOf(devs), Returned(ret')), |devs|);
      var k: nat :| Reaches((mem, Returned(ret)), (MemOf(devs), Returned(ret')), k, |devs|);
      ReturnedStays(mem, ret, k, |devs|);
    }
  }

  lemma EndsHere(devs: seq<Dev>, ret: Ret)
    requires WfDevs(devs)
    ensures EndsIn(MemOf(devs), Returned(ret), devs)
  {
    var here := (MemOf(devs), Returned(ret));
    assert Alone(here.0, here.1, 0, |devs|) == here;
    assert Reaches(here, here, 0, |devs|);
    assert GetsTo(here, here, |devs|);
  }

  lemma ApplyOne(devs: seq<Dev>, d: Deed)
    requires WfDevs(devs) && WfDeed(d, |devs|)
    ensures WfDeeds([d], |devs|) && ApplyAll(devs, [d]) == Apply(devs, d)
  {
    assert [d][1..] == [];
  }

  /** The next statement of a call leaves it on its way, with what it settles done to the devices. */
  ghost predicate Proceeds(mem: Mem, c: Call, copy: Copy, devs: seq<Dev>)
    requires WfDevs(devs) && WfMem(mem, |devs|) && WfCall(c, |devs|)
  {
    var (mem', c') := Exec(mem, c, copy, |devs|);
    WfDeeds(Settles(c, copy), |devs|) && OnItsWay(mem', c', ApplyAll(devs, Settles(c, copy)))
  }

  lemma CheckSpaceProceeds(devs: seq<Dev>, m: nat, pos: nat, data: seq<byte>, copy: Copy)
    requires WfDevs(devs) && m < |devs|
    ensures Proceeds(MemOf(devs), CheckSpace(m, pos, data), copy, devs)
  {
    EndsHere(devs, Fail(ENOSPC));
  }

  /** The statement that settles a write. */
  lemma CopyInProceeds(devs: seq<Dev>, m: nat, pos: nat, data: seq<byte>)
    requires WfDevs(devs) && m < |devs| && pos < MY_BUFFER_SIZE
    ensures Proceeds(MemOf(devs), CopyIn(m, pos, data, Room(pos, |data|)), Complete, devs)
  {
    var devs' := WriteFile(devs, m, pos, data, Complete).0;
    ApplyOne(devs, Stored(m, pos, data, Complete));
    WriteAloneIsAtomic(devs, m, pos, data);
    EndsAfterNext(MemOf(devs), CheckSpace(m, pos, data), devs');
    EndsAfterNext(MemOf(devs), CopyIn(m, pos, data, Room(pos, |data|)), devs');
  }

  lemma TornCopyInProceeds(devs: seq<Dev>, m: nat, pos: nat, data: seq<byte>, left: seq<byte>)
    requires WfDevs(devs) && m < |devs| && pos < MY_BUFFER_SIZE
    ensures Proceeds(MemOf(devs), CopyIn(m, pos, data, Room(pos, |data|)), Faulted(left), devs)
  {
    if |left| == Room(pos, |data|) {
      ApplyOne(devs, Stored(m, pos, data, Faulted(left)));
      FaultedWriteIsAtomic(devs, m, pos, data, left);
      EndsHere(WriteFile(devs, m, pos, data, Faulted(left)).0, Fail(EFAULT));
    }
  }

  /** The statement that settles an ioctl. */
  lemma IoctlProceeds(devs: seq<Dev>, m: nat, command: Command, copy: Copy)
    requires WfDevs(devs) && m < |devs|
    requires command.Reset? || (command.SetSize? && !command.faulted && copy.Complete? && 0 <= command.value <= MY_BUFFER_SIZE)
    ensures Proceeds(MemOf(devs), IoctlCall(m, command), copy, devs)
  {
    ApplyOne(devs, Controlled(m, command));
    IoctlAloneIsAtomic(devs, m, command);
    EndsAfterNext(MemOf(devs), IoctlCall(m, command), devs[m := IoctlDev(devs[m], command).0]);
  }

  lemma RefusedProceeds(devs: seq<Dev>, m: nat, value: int, copy: Copy)
    requires WfDevs(devs) && m < |devs| && (copy.Faulted? || value < 0 || value > MY_BUFFER_SIZE)
    ensures Proceeds(MemOf(devs), CheckValue(m, value), copy, devs)
  {
    EndsHere(devs, Fail(EFAULT));
    EndsHere(devs, Fail(EINVAL));
  }

  lemma LoadSizeProceeds(devs: seq<Dev>, m: nat, copy: Copy)
    requires WfDevs(devs) && m < |devs|
    ensures Proceeds(MemOf(devs), LoadSize(m), copy, devs)
  {
    EndsHere(devs, Fail(EFAULT));
    EndsHere(devs, Value(MemOf(devs).sizes[m]));
  }

  /** A call that has settled its deed pays no more attention to user copies. */
  lemma DecidedProceeds(mem: Mem, c: Call, copy: Copy, devs: seq<Dev>)
    requires WfDevs(devs) && WfMem(mem, |devs|) && WfCall(c, |devs|) && EndsIn(mem, c, devs) && !Undecided(c)
    ensures Proceeds(mem, c, copy, devs)
  {
    assert Settles(c, copy) == [];
    DecidedIgnoresCopy(mem, c, copy, |devs|);
    if !c.Returned? {
      EndsAfterNext(mem, c, devs);
    }
  }

  lemma DecidedIgnoresCopy(mem: Mem, c: Call, copy: Copy, minors: nat)
    requires WfMem(mem, minors) && WfCall(c, minors) && !Undecided(c)
    ensures Exec(mem, c, copy, minors) == Exec(mem, c, Complete, minors)
    ensures !Undecided(Exec(mem, c, copy, minors).1)
  {
  }

  /** Any statement of the one call in progress keeps it on its way. */
  lemma StaysOnItsWay(mem: Mem, c: Call, copy: Copy, devs: seq<Dev>)
    requires WfDevs(devs) && WfMem(mem, |devs|) && WfCall(c, |devs|) && OnItsWay(mem, c, devs)
    ensures Proceeds(mem, c, copy, devs)
  {
    match c
    case CheckSpace(m, pos, data) => CheckSpaceProceeds(devs, m, pos, data, copy);
    case CopyIn(m, pos, data, _) =>
      if copy.Complete? {
        CopyInProceeds(devs, m, pos, data);
      } else {
        TornCopyInProceeds(devs, m, pos, data, copy.left);
      }
    case ClearBuffer(m) => IoctlProceeds(devs, m, Reset, copy);
    case CheckValue(m, value) =>
      if copy.Complete? && 0 <= value <= MY_BUFFER_SIZE {
        IoctlProceeds(devs, m, SetSize(value, false), copy);
      } else {
        RefusedProceeds(devs, m, value, copy);
      }
    case LoadSize(m) => LoadSizeProceeds(devs, m, copy);
    case _ => DecidedProceeds(mem, c, copy, devs);
  }

  // ---------- whole schedules ----------

  /** At most one call is in progress; it is on its way, and without one the memory is that of the devices. */
  ghost predicate Follows(s: System, devs: seq<Dev>, minors: nat) {
    && WfDevs(devs) && |devs| == minors && WfSystem(s, minors)
    && (forall t, u | t in s.calls && u in s.calls && !s.calls[t].Returned? && !s.calls[u].Returned? :: t == u)
    && (AllReturned(s) ==> s.mem == MemOf(devs))
    && (forall t | t in s.calls && !s.calls[t].Returned? :: OnItsWay(s.mem, s.calls[t], devs))
  }

  lemma StartFollows(s: System, devs: seq<Dev>, move: Move, minors: nat)
    requires Follows(s, devs, minors) && AllReturned(s) && move.Start?
    ensures Follows(Go(s, move, minors), devs, minors)
  {
    var r := Go(s, move, minors);
    if r != s {
      assert r.calls[move.tid] == move.call;
      assert OnItsWay(r.mem, move.call, devs);
      assert !AllReturned(r);
    }
  }

  lemma AdvanceFollows(s: System, devs: seq<Dev>, move: Move, minors: nat)
    requires Follows(s, devs, minors) && move.Advance? && move.tid in s.calls && !s.calls[move.tid].Returned?
    ensures var ds := MoveSettles(s, move);
            WfDeeds(ds, minors) && Follows(Go(s, move, minors), ApplyAll(devs, ds), minors)
  {
    var tid, c := move.tid, s.calls[move.tid];
    StaysOnItsWay(s.mem, c, move.copy, devs);
    var r := Go(s, move, minors);
    var devs' := ApplyAll(devs, Settles(c, move.copy));
    assert forall t | t in r.calls && t != tid :: r.calls[t] == s.calls[t] && r.calls[t].Returned?;
    if r.calls[tid].Returned? {
      ReturnedHasEnded(r.mem, r.calls[tid].ret, devs');
    } else {
      assert !AllReturned(r);
    }
  }

  lemma StepFollows(s: System, devs: seq<Dev>, move: Move, minors: nat)
    requires Follows(s, devs, minors) && (move.Start? ==> AllReturned(s))
    ensures var ds := MoveSettles(s, move);
            WfDeeds(ds, minors) && Follows(Go(s, move, minors), ApplyAll(devs, ds), minors)
  {
    if move.Start? {
      StartFollows(s, devs, move, minors);
    } else if move.tid in s.calls && !s.calls[move.tid].Returned? {
      AdvanceFollows(s, devs, move, minors);
    } else {
      assert Go(s, move, minors).calls == s.calls;
    }
  }

  lemma {:induction false} RunFollows(s: System, devs: seq<Dev>, moves: seq<Move>, minors: nat)
    requires Follows(s, devs, minors) && Serial(s, moves, minors)
    ensures var ds := History(s, moves, minors);
            WfDeeds(ds, minors) && Follows(GoAll(s, moves, minors), ApplyAll(devs, ds), minors)
    decreases |moves|
  {
    if moves == [] {
    } else {
      var ds := MoveSettles(s, moves[0]);
      var next := Go(s, moves[0], minors);
      StepFollows(s, devs, moves[0], minors);
      RunFollows(next, ApplyAll(devs, ds), moves[1..], minors);
      ApplyConcat(devs, ds, History(next, moves[1..], minors));
    }
  }

  // ---------- deeds as runs of the driver ----------

  /** A program that does the deed: it opens the minor, works through the file, and closes it. */
  function EventsOf(d: Deed): seq<Event> {
    match d
    case Stored(m, pos, data, copy) =>
      [Open(m, 0, false)] + ([Seek(0, Min(pos, MY_BUFFER_SIZE), SeekSet)] + ([Write(0, data, copy)] + [Release(0)]))
    case Controlled(m, command) => [Open(m, 0, false)] + ([Ioctl(0, command)] + [Release(0)])
  }

  function AllEvents(ds: seq<Deed>): seq<Event> {
    if ds == [] then [] else EventsOf(ds[0]) + AllEvents(ds[1..])
  }

  /** Nothing is open and nobody reads. */
  ghost predicate Closed(s: State) {
    Wf(s) && s.files == map[] && s.readers == map[] && forall m | 0 <= m < |s.devs| :: s.devs[m].access == 0
  }

  lemma {:induction false} RunConcat(s: State, a: seq<Event>, b: seq<Event>)
    requires Wf(s)
    ensures Run(s, a + b).0 == Run(Run(s, a).0, b).0
    decreases |a|
  {
    if a == [] {
      assert a + b == b;
    } else {
      assert (a + b)[0] == a[0] && (a + b)[1..] == a[1..] + b;
      RunConcat(Step(s, a[0]).0, a[1..], b);
    }
  }

  lemma RunOne(s: State, e: Event)
    requires Wf(s)
    ensures Run(s, [e]).0 == Step(s, e).0
  {
    assert [e][1..] == [];
  }

  function SetAccess(devs: seq<Dev>, m: nat, access: int): (r: seq<Dev>)
    requires WfDevs(devs) && m < |devs|
    ensures WfDevs(r) && |r| == |devs|
  {
    devs[m := devs[m].(access := access)]
  }

  /** The access word plays no part in a write. */
  lemma WriteKeepsAccess(devs: seq<Dev>, m: nat, pos: nat, data: seq<byte>, copy: Copy, access: int)
    requires WfDevs(devs) && WfDeed(Stored(m, pos, data, copy), |devs|)
    ensures WriteFile(SetAccess(devs, m, access), m, pos, data, copy).0
            == SetAccess(WriteFile(devs, m, pos, data, copy).0, m, access)
  {
    if copy.Complete? {
      var part := data[..Room(pos, |data|)];
      var a, b := WriteDevs(SetAccess(devs, m, access), m, pos, part), SetAccess(WriteDevs(devs, m, pos, part), m, access);
      assert forall i | 0 <= i < |devs| :: a[i] == b[i];
    }
  }

  /** The state with minor m open through one file at position pos, and nothing else open. */
  function Holding(devs: seq<Dev>, m: nat, pos: nat): (t: State)
    requires WfDevs(devs) && m < |devs| && pos <= MY_BUFFER_SIZE
    ensures Wf(t)
  {
    State(SetAccess(devs, m, 1), map[0 := File(m, pos, false)], map[])
  }

  lemma OpenHolds(s: State, m: nat)
    requires Closed(s) && m < |s.devs|
    ensures Step(s, Open(m, 0, false)).0 == Holding(s.devs, m, 0)
  {
  }

  lemma SeekHolds(devs: seq<Dev>, m: nat, pos: nat)
    requires WfDevs(devs) && m < |devs| && pos <= MY_BUFFER_SIZE
    ensures Step(Holding(devs, m, 0), Seek(0, pos, SeekSet)).0 == Holding(devs, m, pos)
  {
  }

  lemma WriteHolds(devs: seq<Dev>, m: nat, pos: nat, data: seq<byte>, copy: Copy)
    requires WfDevs(devs) && WfDeed(Stored(m, pos, data, copy), |devs|)
    ensures var (devs', _, pos') := WriteFile(devs, m, pos, data, copy);
            Step(Holding(devs, m, pos), Write(0, data, copy)).0 == Holding(devs', m, pos')
  {
    WriteKeepsAccess(devs, m, pos, data, copy, 1);
  }

  lemma IoctlHolds(devs: seq<Dev>, m: nat, c: Command)
    requires WfDevs(devs) && m < |devs|
    ensures Step(Holding(devs, m, 0), Ioctl(0, c)).0 == Holding(devs[m := IoctlDev(devs[m], c).0], m, 0)
  {
  }

  lemma ReleaseCloses(devs: seq<Dev>, m: nat, pos: nat)
    requires WfDevs(devs) && m < |devs| && pos <= MY_BUFFER_SIZE && devs[m].access == 0
    ensures Step(Holding(devs, m, pos), Release(0)).0 == State(devs, map[], map[])
  {
    assert SetAccess(SetAccess(devs, m, 1), m, 0) == devs;
  }

  lemma StoredIsARun(s: State, m: nat, pos: nat, data: seq<byte>, copy: Copy)
    requires Closed(s) && WfDeed(Stored(m, pos, data, copy), |s.devs|)
    ensures Run(s, EventsOf(Stored(m, pos, data, copy))).0 == State(WriteFile(s.devs, m, pos, data, copy).0, map[], map[])
  {
    var e1, e2, e3, e4 := Open(m, 0, false), Seek(0, pos, SeekSet), Write(0, data, copy), Release(0);
    var (devs', _, pos') := WriteFile(s.devs, m, pos, data, copy);
    OpenHolds(s, m);
    SeekHolds(s.devs, m, pos);
    WriteHolds(s.devs, m, pos, data, copy);
    ReleaseCloses(devs', m, pos');
    DriverInvariants.RunCons(s, e1, [e2] + ([e3] + [e4]));
    DriverInvariants.RunCons(Holding(s.devs, m, 0), e2, [e3] + [e4]);
    DriverInvariants.RunCons(Holding(s.devs, m, pos), e3, [e4]);
    RunOne(Holding(devs', m, pos'), e4);
  }

  lemma ControlledIsARun(s: State, m: nat, c: Command)
    requires Closed(s) && m < |s.devs|
    ensures Run(s, EventsOf(Controlled(m, c))).0 == State(s.devs[m := IoctlDev(s.devs[m], c).0], map[], map[])
  {
    var e1, e2, e3 := Open(m, 0, false), Ioctl(0, c), Release(0);
    var devs' := s.devs[m := IoctlDev(s.devs[m], c).0];
    OpenHolds(s, m);
    IoctlHolds(s.devs, m, c);
    ReleaseCloses(devs', m, 0);
    DriverInvariants.RunCons(s, e1, [e2] + [e3]);
    DriverInvariants.RunCons(Holding(s.devs, m, 0), e2, [e3]);
    RunOne(Holding(devs', m, 0), e3);
  }

  lemma {:induction false} DeedsAreARun(s: State, ds: seq<Deed>)
    requires Closed(s) && WfDeeds(ds, |s.devs|)
    ensures Run(s, AllEvents(ds)).0 == State(ApplyAll(s.devs, ds), map[], map[])
    decreases |ds|
  {
    if ds == [] {
    } else {
      var d := ds[0];
      assert WfDeed(d, |s.devs|);
      if d.Stored? {
        StoredIsARun(s, d.m, d.pos, d.data, d.copy);
      } else {
        ControlledIsARun(s, d.m, d.command);
      }
      RunConcat(s, EventsOf(d), AllEvents(ds[1..]));
      DeedsAreARun(State(Apply(s.devs, d), map[], map[]), ds[1..]);
    }
  }

  // ---------- the results ----------

  /** The run of the driver that a schedule amounts to. */
  function AsRun(moves: seq<Move>, minors: nat): seq<Event> {
    AllEvents(History(Loaded(minors), moves, minors))
  }

  /**
   For any number of minors and any schedule of statements from module load on, with any writes and
   ioctls at any positions and any outcome of each user copy: if no call starts before every earlier one
   has returned, then whenever all calls have returned the memory is that of the devices at the end of a
   run of the driver's atomic handlers, the one that does the same writes and ioctls in the same order.
   */
  lemma SerialSchedulesAreRuns(minors: nat, moves: seq<Move>)
    requires Serial(Loaded(minors), moves, minors) && AllReturned(GoAll(Loaded(minors), moves, minors))
    ensures GoAll(Loaded(minors), moves, minors).mem == MemOf(Run(Init(minors), AsRun(moves, minors)).0.devs)
  {
    var s := Loaded(minors);
    assert s.mem == MemOf(Init(minors).devs);
    assert Closed(Init(minors));
    RunFollows(s, Init(minors).devs, moves, minors);
    DeedsAreARun(Init(minors), History(s, moves, minors));
  }

  /** Minors i and j show a reader the same: size, flag, and the bytes below the size. */
  ghost predicate SameView(mem: Mem, i: nat, j: nat, minors: nat)
    requires WfMem(mem, minors) && i < minors && j < minors
  {
    && mem.sizes[i] == mem.sizes[j] && mem.ready[i] == mem.ready[j]
    && mem.bufs[i][..mem.sizes[i]] == mem.bufs[j][..mem.sizes[j]]
  }

  /**
   Hence the agreement of the minors holds of the statements of calls that do not overlap: any two
   minors are equal below their watermark, and show the same if neither was reset, resized or torn
   since the last successful write.
   */
  lemma SerialMinorsAgree(minors: nat, moves: seq<Move>, i: nat, j: nat)
    requires Serial(Loaded(minors), moves, minors) && AllReturned(GoAll(Loaded(minors), moves, minors))
    requires i < minors && j < minors
    ensures var mem := GoAll(Loaded(minors), moves, minors).mem;
            var log := DriverReplicas.Log(Init(minors), AsRun(moves, minors));
            var w := DriverReplicas.Watermark(MY_BUFFER_SIZE, log, i, j);
            && w <= MY_BUFFER_SIZE && (forall k | 0 <= k < w :: mem.bufs[i][k] == mem.bufs[j][k])
            && (DriverReplicas.Undisturbed(true, log, i) && DriverReplicas.Undisturbed(true, log, j)
                ==> SameView(mem, i, j, minors))
  {
    var es := AsRun(moves, minors);
    SerialSchedulesAreRuns(minors, moves);
    DriverReplicas.ReplicasAgree(minors, es, i, j);
    DriverInvariants.RunKeepsDeviceCount(Init(minors), es);
  }
}
