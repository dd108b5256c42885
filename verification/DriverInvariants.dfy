/**
 What every run of the driver keeps: exclusive open, cursors in range, 64-bit seeks that behave like
 unbounded ones, and no lost wake-up (with the exact event that breaks it).
 */
module DriverInvariants {
  import opened DriverModel

  // ---------- exclusive open ----------

  /** The open file descriptions bound to minor `m`. */
  ghost function Holders(s: State, m: nat): set<Fid> {
    set f | f in s.files && s.files[f].minor == m
  }

  /** `access` counts the open files of its minor, and there is never more than one. */
  ghost predicate ExclusivelyOpen(s: State) {
    forall m | 0 <= m < |s.devs| :: s.devs[m].access == |Holders(s, m)| <= 1
  }

  lemma OpenAddsAHolder(s: State, minor: nat, fid: Fid, nonblock: bool)
    requires Wf(s) && ExclusivelyOpen(s)
    ensures ExclusivelyOpen(DoOpen(s, minor, fid, nonblock).0)
  {
    var t := DoOpen(s, minor, fid, nonblock).0;
    if t != s {
      forall m | 0 <= m < |t.devs|
        ensures t.devs[m].access == |Holders(t, m)| <= 1
      {
        if m == minor {
          assert Holders(t, m) == Holders(s, m) + {fid};
        } else {
          assert Holders(t, m) == Holders(s, m);
        }
      }
    }
  }

  lemma ReleaseRemovesTheHolder(s: State, fid: Fid)
    requires Wf(s) && ExclusivelyOpen(s)
    ensures ExclusivelyOpen(DoRelease(s, fid).0)
  {
    var t := DoRelease(s, fid).0;
    if t != s {
      var minor := s.files[fid].minor;
      assert fid in Holders(s, minor);
      forall m | 0 <= m < |t.devs|
        ensures t.devs[m].access == |Holders(t, m)| <= 1
      {
        assert Holders(t, m) == Holders(s, m) - (if m == minor then {fid} else {});
      }
    }
  }

  /** The handlers other than open and release move cursors only. */
  lemma OthersKeepHolders(s: State, e: Event)
    requires Wf(s) && !e.Open? && !e.Release?
    ensures |Step(s, e).0.devs| == |s.devs|
    ensures forall m | 0 <= m < |s.devs| :: Step(s, e).0.devs[m].access == s.devs[m].access
    ensures forall m | 0 <= m < |s.devs| :: Holders(Step(s, e).0, m) == Holders(s, m)
  {
    var t := Step(s, e).0;
    assert t.files.Keys == s.files.Keys;
    assert forall f | f in s.files :: t.files[f].minor == s.files[f].minor;
  }

  lemma StepKeepsExclusiveOpen(s: State, e: Event)
    requires Wf(s) && ExclusivelyOpen(s)
    ensures ExclusivelyOpen(Step(s, e).0)
  {
    match e
    case Open(minor, fid, nonblock) => OpenAddsAHolder(s, minor, fid, nonblock);
    case Release(fid) => ReleaseRemovesTheHolder(s, fid);
    case _ => OthersKeepHolders(s, e);
  }

  lemma {:induction false} RunKeepsExclusiveOpen(s: State, es: seq<Event>)
    requires Wf(s) && ExclusivelyOpen(s)
    ensures ExclusivelyOpen(Run(s, es).0)
    decreases |es|
  {
    if es == [] {
    } else {
      StepKeepsExclusiveOpen(s, es[0]);
      RunKeepsExclusiveOpen(Step(s, es[0]).0, es[1..]);
    }
  }

  /**
   After any run the number of open files on every minor equals its `access` word and is at most one,
   so the next open of a minor succeeds exactly when nobody holds it and answers EBUSY otherwise.
   */
  lemma ExclusiveOpen(minors: nat, es: seq<Event>, m: nat, fid: Fid, nonblock: bool)
    requires m < minors
    ensures var s := Run(Init(minors), es).0;
            && |s.devs| == minors
            && s.devs[m].access == |Holders(s, m)| <= 1
            && (fid !in s.files ==>
                  Step(s, Open(m, fid, nonblock)).1
                  == if Holders(s, m) == {} then Value(0) else Fail(EBUSY))
  {
    var init := Init(minors);
    forall i | 0 <= i < minors
      ensures init.devs[i].access == |Holders(init, i)| <= 1
    {
      assert Holders(init, i) == {};
    }
    RunKeepsExclusiveOpen(init, es);
    RunKeepsDeviceCount(init, es);
  }

  lemma {:induction false} RunKeepsDeviceCount(s: State, es: seq<Event>)
    requires Wf(s)
    ensures |Run(s, es).0.devs| == |s.devs|
    decreases |es|
  {
    if es == [] {
    } else {
      RunKeepsDeviceCount(Step(s, es[0]).0, es[1..]);
    }
  }

  // ---------- cursors and 64-bit seeks ----------

  /** lseek computed with unbounded integers. */
  function ExactSeek(size: int, pos: int, offset: int, whence: Whence): Ret {
    if whence == SeekOther then
      Fail(EINVAL)
    else
      var base := match whence case SeekSet => 0 case SeekCur => pos case _ => size;
      if 0 <= base + offset <= MY_BUFFER_SIZE then Value(base + offset) else Fail(EINVAL)
  }

  /**
   In every reachable state and for every file, offset and whence, the seek computed with wrapping
   64-bit sums accepts the same offsets and gives the same results as one computed exactly, and every
   cursor is within the buffer.
   */
  lemma CursorsStayInRange(minors: nat, es: seq<Event>, fid: Fid, offset: Off, whence: Whence)
    requires fid in Run(Init(minors), es).0.files
    ensures var s := Run(Init(minors), es).0;
            var f := s.files[fid];
            && 0 <= f.pos <= MY_BUFFER_SIZE
            && Step(s, Seek(fid, offset, whence)).1 == ExactSeek(s.devs[f.minor].size, f.pos, offset, whence)
  {
    SeekIsExact(Run(Init(minors), es).0, fid, offset, whence);
  }

  lemma SeekIsExact(s: State, fid: Fid, offset: Off, whence: Whence)
    requires Wf(s) && fid in s.files
    ensures var f := s.files[fid];
            DoSeek(s, fid, offset, whence).1 == ExactSeek(s.devs[f.minor].size, f.pos, offset, whence)
  {
    var f := s.files[fid];
    WrapAgrees(f.pos, offset);
    WrapAgrees(s.devs[f.minor].size, offset);
  }

  /** A wrapped sum is in the buffer's range exactly when the true sum is, and is then equal to it. */
  lemma WrapAgrees(base: int, offset: Off)
    requires 0 <= base <= MY_BUFFER_SIZE
    ensures 0 <= Wrap64(base + offset) <= MY_BUFFER_SIZE <==> 0 <= base + offset <= MY_BUFFER_SIZE
    ensures 0 <= base + offset <= MY_BUFFER_SIZE ==> Wrap64(base + offset) == base + offset
  {
    if base + offset < 0x8000_0000_0000_0000 {
      assert Wrap64(base + offset) == base + offset;
    } else {
      assert Wrap64(base + offset) == base + offset - 0x1_0000_0000_0000_0000;
    }
  }

  // ---------- wake-ups ----------

  /** Every blocked reader is a read() in flight on a file of that minor. */
  ghost predicate SleepersAreReaders(s: State) {
    forall m, t | 0 <= m < |s.devs| && t in s.devs[m].asleep ::
      t in s.readers && s.readers[t].fid in s.files && s.files[s.readers[t].fid].minor == m
  }

  /** A device that is not ready holds nothing. */
  ghost predicate UnreadyIsEmpty(s: State) {
    forall m | 0 <= m < |s.devs| :: !s.devs[m].ready ==> s.devs[m].size == 0
  }

  /** Nobody sleeps on a device that is ready. */
  ghost predicate Quiet(s: State) {
    forall m | 0 <= m < |s.devs| :: s.devs[m].ready ==> s.devs[m].asleep == {}
  }

  /** SETSIZE with a positive size, accepted on a minor somebody sleeps on: the flag rises unheard. */
  ghost predicate RaisesUnheard(s: State, e: Event)
    requires Wf(s)
  {
    && e.Ioctl? && e.fid in s.files
    && e.command.SetSize? && !e.command.faulted && 0 < e.command.value <= MY_BUFFER_SIZE
    && s.devs[s.files[e.fid].minor].asleep != {}
  }

  lemma StepKeepsSleepers(s: State, e: Event)
    requires Wf(s) && SleepersAreReaders(s) && UnreadyIsEmpty(s)
    ensures SleepersAreReaders(Step(s, e).0) && UnreadyIsEmpty(Step(s, e).0)
  {
    match e
    case ReadCheck(tid, signalled, faulted) => CheckKeepsSleepers(s, tid, signalled, faulted);
    case Write(_, _, _) => assert forall m | 0 <= m < |s.devs| :: Step(s, e).0.devs[m].asleep <= s.devs[m].asleep;
    case Ioctl(_, _) =>
    case _ => HandlesKeepSleepers(s, e);
  }

  lemma HandlesKeepSleepers(s: State, e: Event)
    requires Wf(s) && SleepersAreReaders(s) && UnreadyIsEmpty(s) && (e.Open? || e.Release? || e.ReadEnter? || e.Seek?)
    ensures SleepersAreReaders(Step(s, e).0) && UnreadyIsEmpty(Step(s, e).0)
  {
  }

  lemma CheckKeepsSleepers(s: State, tid: Tid, signalled: bool, faulted: bool)
    requires Wf(s) && SleepersAreReaders(s) && UnreadyIsEmpty(s)
    ensures var t := DoReadCheck(s, tid, signalled, faulted).0; SleepersAreReaders(t) && UnreadyIsEmpty(t)
  {
  }

  /** Exactly which step loses a wake-up. */
  lemma LosesWakeupIff(s: State, e: Event)
    requires Wf(s) && Quiet(s)
    ensures Quiet(Step(s, e).0) <==> !RaisesUnheard(s, e)
  {
    var t := Step(s, e).0;
    if RaisesUnheard(s, e) {
      var m := s.files[e.fid].minor;
      assert t.devs[m].ready && t.devs[m].asleep != {};
    }
  }

  /** Every state the run passes through, the first and the last included, satisfies `Quiet`. */
  ghost predicate AlwaysQuiet(s: State, es: seq<Event>)
    requires Wf(s)
    decreases |es|
  {
    Quiet(s) && (es != [] ==> AlwaysQuiet(Step(s, es[0]).0, es[1..]))
  }

  ghost predicate NeverUnheard(s: State, es: seq<Event>)
    requires Wf(s)
    decreases |es|
  {
    es != [] ==> !RaisesUnheard(s, es[0]) && NeverUnheard(Step(s, es[0]).0, es[1..])
  }

  lemma {:induction false} AlwaysQuietIff(s: State, es: seq<Event>)
    requires Wf(s) && Quiet(s)
    ensures AlwaysQuiet(s, es) <==> NeverUnheard(s, es)
    decreases |es|
  {
    if es == [] {
    } else {
      LosesWakeupIff(s, es[0]);
      var t := Step(s, es[0]).0;
      if Quiet(t) {
        AlwaysQuietIff(t, es[1..]);
      } else {
        assert !AlwaysQuiet(t, es[1..]);
      }
    }
  }

  /** Over whole runs from module load: no reader is ever left asleep with data to read
      exactly when no SETSIZE raised the flag over a sleeper. */
  lemma NoLostWakeup(minors: nat, es: seq<Event>)
    ensures AlwaysQuiet(Init(minors), es) <==> NeverUnheard(Init(minors), es)
  {
    AlwaysQuietIff(Init(minors), es);
  }

  lemma {:induction false} RunKeepsSleepers(s: State, es: seq<Event>)
    requires Wf(s) && SleepersAreReaders(s) && UnreadyIsEmpty(s) && Quiet(s)
    ensures var t := Run(s, es).0; SleepersAreReaders(t) && UnreadyIsEmpty(t)
    ensures NeverUnheard(s, es) ==> Quiet(Run(s, es).0)
    decreases |es|
  {
    if es == [] {
    } else {
      StepKeepsSleepers(s, es[0]);
      LosesWakeupIff(s, es[0]);
      var t := Step(s, es[0]).0;
      if Quiet(t) {
        RunKeepsSleepers(t, es[1..]);
      } else {
        RunKeepsSleepersOnly(t, es[1..]);
      }
    }
  }

  lemma {:induction false} RunKeepsSleepersOnly(s: State, es: seq<Event>)
    requires Wf(s) && SleepersAreReaders(s) && UnreadyIsEmpty(s)
    ensures var t := Run(s, es).0; SleepersAreReaders(t) && UnreadyIsEmpty(t)
    decreases |es|
  {
    if es == [] {
    } else {
      StepKeepsSleepers(s, es[0]);
      RunKeepsSleepersOnly(Step(s, es[0]).0, es[1..]);
    }
  }

  /** In a run without SETSIZE, wherever RESETs fall, a sleeper is a genuine read() on a minor
      that has no data: the flag is down and the size is 0. */
  lemma SleepersHaveNothingToRead(minors: nat, es: seq<Event>, m: nat, tid: Tid)
    requires forall e | e in es :: !(e.Ioctl? && e.command.SetSize?)
    requires var s := Run(Init(minors), es).0; m < |s.devs| && tid in s.devs[m].asleep
    ensures var s := Run(Init(minors), es).0;
            && !s.devs[m].ready && s.devs[m].size == 0
            && tid in s.readers && s.files[s.readers[tid].fid].minor == m
  {
    WithoutSetSizeNeverUnheard(Init(minors), es);
    RunKeepsSleepers(Init(minors), es);
  }

  lemma {:induction false} WithoutSetSizeNeverUnheard(s: State, es: seq<Event>)
    requires Wf(s) && forall e | e in es :: !(e.Ioctl? && e.command.SetSize?)
    ensures NeverUnheard(s, es)
    decreases |es|
  {
    if es == [] {
    } else {
      WithoutSetSizeNeverUnheard(Step(s, es[0]).0, es[1..]);
    }
  }

  /** A successful write leaves no reader asleep on any minor, and every read() in flight,
      on whatever minor it slept, gets past its wait at its next check. */
  lemma WriteWakesEveryone(s: State, fid: Fid, data: seq<byte>, tid: Tid, signalled: bool, faulted: bool)
    requires Wf(s) && fid in s.files && s.files[fid].pos < MY_BUFFER_SIZE
    ensures var t := Step(s, Write(fid, data, Complete)).0;
            && (forall m | 0 <= m < |t.devs| :: t.devs[m].asleep == {} && t.devs[m].ready)
            && (tid in t.readers ==>
                  var r := Step(t, ReadCheck(tid, signalled, faulted)).1; r.Bytes? || r == Fail(EFAULT))
  {
  }

  /** A run that loses a wake-up: a reader blocks on an empty device and a second thread sharing
      the file sets the size, so data is there, the flag is up, and the reader still sleeps. */
  lemma SetSizeLosesAWakeup(minors: nat, fid: Fid, tid: Tid, size: int, es: seq<Event>)
    requires minors > 0 && 0 < size <= MY_BUFFER_SIZE
    requires es == [Open(0, fid, false)] + ([ReadEnter(tid, fid, 1)] + ([ReadCheck(tid, false, false)]
                   + ([Ioctl(fid, SetSize(size, false))] + [])))
    ensures var s := Run(Init(minors), es).0;
            |s.devs| == minors && s.devs[0].ready && s.devs[0].size == size && tid in s.devs[0].asleep
  {
    var e1, e2 := Open(0, fid, false), ReadEnter(tid, fid, 1);
    var e3, e4 := ReadCheck(tid, false, false), Ioctl(fid, SetSize(size, false));
    var s0 := Init(minors);
    var s1 := Step(s0, e1).0;
    assert |s1.devs| == minors && !s1.devs[0].ready && s1.devs[0].asleep == {};
    assert s1.files == map[fid := File(0, 0, false)] && s1.readers == map[];
    var s3 := Blocks(s1, fid, tid);
    RunCons(s0, e1, [e2] + ([e3] + ([e4] + [])));
    RunCons(s1, e2, [e3] + ([e4] + []));
    RunCons(Step(s1, e2).0, e3, [e4] + []);
    RunCons(s3, e4, []);
  }

  /** A read of a file on minor 0, which is not ready, goes to sleep. */
  lemma Blocks(s: State, fid: Fid, tid: Tid) returns (t: State)
    requires Wf(s) && |s.devs| > 0 && !s.devs[0].ready && s.devs[0].asleep == {}
    requires s.files == map[fid := File(0, 0, false)] && s.readers == map[]
    ensures t == Step(Step(s, ReadEnter(tid, fid, 1)).0, ReadCheck(tid, false, false)).0
    ensures Wf(t) && t.files == s.files && |t.devs| == |s.devs| && tid in t.devs[0].asleep
  {
    t := Step(Step(s, ReadEnter(tid, fid, 1)).0, ReadCheck(tid, false, false)).0;
  }

  lemma RunCons(s: State, e: Event, es: seq<Event>)
    requires Wf(s)
    ensures Run(s, [e] + es).0 == Run(Step(s, e).0, es).0
  {
    assert ([e] + es)[1..] == es;
  }
}
