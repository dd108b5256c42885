/**
 How far the minors agree. Without RESET, SETSIZE and faulted copies the replicated devices refine one
 shared file; with them, a watermark says how many leading bytes of two minors still agree.
 */
module DriverReplicas {
  import opened Basics
  import opened DriverModel

  // ---------- one shared file ----------

  /** The reference: one buffer and one wait queue for everybody, cursors per open file. */
  datatype Shared = Shared(
    minors: nat, buffer: seq<byte>, size: int, ready: bool, asleep: set<Tid>,
    held: set<nat>, files: map<Fid, File>, readers: map<Tid, Reader>)

  /** Events that treat the device as a file: everything but RESET, SETSIZE and faulted writes. */
  predicate IsFileEvent(e: Event) {
    match e
    case Ioctl(_, c) => !c.Reset? && !c.SetSize?
    case Write(_, _, copy) => copy.Complete?
    case _ => true
  }

  ghost predicate WfShared(a: Shared) {
    && |a.buffer| == MY_BUFFER_SIZE && 0 <= a.size <= MY_BUFFER_SIZE
    && (forall f | f in a.files :: 0 <= a.files[f].pos <= MY_BUFFER_SIZE)
    && (forall t | t in a.readers :: a.readers[t].fid in a.files && 0 <= a.readers[t].pos <= MY_BUFFER_SIZE)
  }

  /** Reading a file: the bytes from the cursor to the end of file, cut to the request. */
  function Visible(a: Shared, pos: int, count: nat): (r: seq<byte>)
    requires WfShared(a) && 0 <= pos
  {
    if pos >= a.size then [] else a.buffer[pos..Min(pos + count, a.size)]
  }

  function SharedCheck(a: Shared, tid: Tid, signalled: bool, faulted: bool): (r: (Shared, Ret))
    requires WfShared(a)
    ensures WfShared(r.0)
  {
    if tid !in a.readers || (tid in a.asleep && !signalled) then (a, Ignored)
    else if !a.ready && !signalled then (a.(asleep := a.asleep + {tid}), Blocked)
    else
      var rd := a.readers[tid];
      var left := a.(asleep := a.asleep - {tid}, readers := a.readers - {tid});
      var got := Visible(a, rd.pos, rd.count);
      if !a.ready then (left, Fail(ERESTARTSYS))
      else if faulted && rd.pos < a.size then (left, Fail(EFAULT))
      else (left.(files := a.files[rd.fid := a.files[rd.fid].(pos := rd.pos + |got|)]), Bytes(got))
  }

  function SharedStep(a: Shared, e: Event): (r: (Shared, Ret))
    requires WfShared(a) && IsFileEvent(e)
    ensures WfShared(r.0)
  {
    match e
    case Open(minor, fid, nonblock) =>
      if minor >= a.minors || fid in a.files then (a, Ignored)
      else if minor in a.held then (a, Fail(EBUSY))
      else (a.(held := a.held + {minor}, files := a.files[fid := File(minor, 0, nonblock)]), Value(0))
    case Release(fid) =>
      if fid !in a.files || (exists t | t in a.readers :: a.readers[t].fid == fid) then (a, Ignored)
      else (a.(held := a.held - {a.files[fid].minor}, files := a.files - {fid}), Value(0))
    case ReadEnter(tid, fid, count) =>
      if fid !in a.files || tid in a.readers then (a, Ignored)
      else if !a.ready && a.files[fid].nonblock then (a, Fail(EAGAIN))
      else (a.(readers := a.readers[tid := Reader(fid, count, a.files[fid].pos)]), Pending)
    case ReadCheck(tid, signalled, faulted) => SharedCheck(a, tid, signalled, faulted)
    case Write(fid, data, _) =>
      if fid !in a.files then (a, Ignored)
      else
        var pos := a.files[fid].pos;
        if pos == MY_BUFFER_SIZE then (a, Fail(ENOSPC))
        else
          var len := Room(pos, |data|);
          (a.(buffer := Overwrite(a.buffer, pos, data[..len]), size := pos + len, ready := true, asleep := {},
              files := a.files[fid := a.files[fid].(pos := pos + len)]), Value(len))
    case Seek(fid, offset, whence) =>
      if fid !in a.files then (a, Ignored)
      else
        var ret := SeekDev(a.size, a.files[fid].pos, offset, whence);
        (if ret.Fail? then a else a.(files := a.files[fid := a.files[fid].(pos := ret.n)]), ret)
    case Ioctl(fid, c) =>
      if fid !in a.files then (a, Ignored)
      else (a, if c.Unknown? then Fail(ENOTTY) else if c.faulted then Fail(EFAULT) else Value(a.size))
  }

  function SharedInit(minors: nat): Shared {
    Shared(minors, seq(MY_BUFFER_SIZE, _ => 0), 0, false, {}, {}, map[], map[])
  }

  /** The devices are copies of the shared file; each wait queue is the minor's part of its queue. */
  ghost predicate Refines(s: State, a: Shared) {
    && Wf(s) && WfShared(a)
    && |s.devs| == a.minors && s.files == a.files && s.readers == a.readers
    && a.asleep <= a.readers.Keys
    && (forall m | 0 <= m < |s.devs| :: Copies(s, a, m))
  }

  ghost predicate Copies(s: State, a: Shared, m: nat)
    requires Wf(s) && s.files == a.files && s.readers == a.readers && m < |s.devs|
  {
    var d := s.devs[m];
    && d.buffer == a.buffer && d.size == a.size && d.ready == a.ready
    && (d.access != 0 <==> m in a.held)
    && d.asleep == set t | t in a.asleep && t in s.readers && s.files[s.readers[t].fid].minor == m
  }

  /** Equal buffers stay equal: a broadcast of the first `at + |data|` bytes brings every peer,
      whose tail was already the same, to the writer's whole new buffer. */
  lemma BroadcastKeepsEqual(devs: seq<Dev>, w: nat, at: nat, data: seq<byte>, b: seq<byte>, m: nat)
    requires WfDevs(devs) && w < |devs| && m < |devs| && at + |data| <= MY_BUFFER_SIZE
    requires devs[w].buffer == devs[m].buffer == b
    ensures WriteDevs(devs, w, at, data)[m].buffer == Overwrite(b, at, data)
  {
  }

  lemma StepRefines(s: State, a: Shared, e: Event)
    requires Refines(s, a) && IsFileEvent(e)
    ensures Step(s, e).1 == SharedStep(a, e).1
    ensures Refines(Step(s, e).0, SharedStep(a, e).0)
  {
    match e
    case Open(minor, fid, nonblock) => OpenRefines(s, a, minor, fid, nonblock);
    case Release(fid) => ReleaseRefines(s, a, fid);
    case ReadCheck(tid, signalled, faulted) => CheckRefines(s, a, tid, signalled, faulted);
    case Write(fid, data, _) => WriteRefines(s, a, fid, data);
    case _ => CursorRefines(s, a, e);
  }

  lemma OpenRefines(s: State, a: Shared, minor: nat, fid: Fid, nonblock: bool)
    requires Refines(s, a)
    ensures Step(s, Open(minor, fid, nonblock)).1 == SharedStep(a, Open(minor, fid, nonblock)).1
    ensures Refines(Step(s, Open(minor, fid, nonblock)).0, SharedStep(a, Open(minor, fid, nonblock)).0)
  {
    var t, b := Step(s, Open(minor, fid, nonblock)).0, SharedStep(a, Open(minor, fid, nonblock)).0;
    if minor < |s.devs| {
      assert Copies(s, a, minor);
      forall m | 0 <= m < |t.devs| ensures Copies(t, b, m) { assert Copies(s, a, m); }
    }
  }

  lemma ReleaseRefines(s: State, a: Shared, fid: Fid)
    requires Refines(s, a)
    ensures Step(s, Release(fid)).1 == SharedStep(a, Release(fid)).1
    ensures Refines(Step(s, Release(fid)).0, SharedStep(a, Release(fid)).0)
  {
    var t, b := Step(s, Release(fid)).0, SharedStep(a, Release(fid)).0;
    forall m | 0 <= m < |t.devs| ensures Copies(t, b, m) { assert Copies(s, a, m); }
  }

  /** Entering a read, seeking and asking for the size leave the devices alone. */
  lemma CursorRefines(s: State, a: Shared, e: Event)
    requires Refines(s, a) && IsFileEvent(e) && (e.ReadEnter? || e.Seek? || e.Ioctl?)
    ensures Step(s, e).1 == SharedStep(a, e).1
    ensures Refines(Step(s, e).0, SharedStep(a, e).0)
  {
    var t, b := Step(s, e).0, SharedStep(a, e).0;
    CursorAnswers(s, a, e);
    forall m | 0 <= m < |t.devs|
      ensures Copies(t, b, m)
    {
      CursorCopies(s, a, e, m);
    }
  }

  lemma CursorAnswers(s: State, a: Shared, e: Event)
    requires Refines(s, a) && IsFileEvent(e) && (e.ReadEnter? || e.Seek? || e.Ioctl?)
    ensures Step(s, e).1 == SharedStep(a, e).1
    ensures var t, b := Step(s, e).0, SharedStep(a, e).0;
            t.devs == s.devs && t.files == b.files && t.readers == b.readers && b.asleep <= b.readers.Keys && b.minors == a.minors
  {
    if e.fid in s.files {
      assert Copies(s, a, s.files[e.fid].minor);
    }
  }

  lemma CursorCopies(s: State, a: Shared, e: Event, m: nat)
    requires Refines(s, a) && IsFileEvent(e) && (e.ReadEnter? || e.Seek? || e.Ioctl?) && m < |s.devs|
    requires var t, b := Step(s, e).0, SharedStep(a, e).0; t.devs == s.devs && t.files == b.files && t.readers == b.readers
    ensures Copies(Step(s, e).0, SharedStep(a, e).0, m)
  {
    assert Copies(s, a, m);
  }

  lemma CheckRefines(s: State, a: Shared, tid: Tid, signalled: bool, faulted: bool)
    requires Refines(s, a)
    ensures DoReadCheck(s, tid, signalled, faulted).1 == SharedCheck(a, tid, signalled, faulted).1
    ensures Refines(DoReadCheck(s, tid, signalled, faulted).0, SharedCheck(a, tid, signalled, faulted).0)
  {
    CheckAnswers(s, a, tid, signalled, faulted);
    var t, b := DoReadCheck(s, tid, signalled, faulted).0, SharedCheck(a, tid, signalled, faulted).0;
    forall m | 0 <= m < |t.devs| ensures Copies(t, b, m) { CheckCopies(s, a, tid, signalled, faulted, m); }
  }

  lemma CheckAnswers(s: State, a: Shared, tid: Tid, signalled: bool, faulted: bool)
    requires Refines(s, a)
    ensures DoReadCheck(s, tid, signalled, faulted).1 == SharedCheck(a, tid, signalled, faulted).1
    ensures var t, b := DoReadCheck(s, tid, signalled, faulted).0, SharedCheck(a, tid, signalled, faulted).0;
            && |t.devs| == b.minors && t.files == b.files && t.readers == b.readers && b.asleep <= b.readers.Keys
  {
    if tid in s.readers {
      assert Copies(s, a, s.files[s.readers[tid].fid].minor);
    }
  }

  lemma CheckCopies(s: State, a: Shared, tid: Tid, signalled: bool, faulted: bool, m: nat)
    requires Refines(s, a) && m < |s.devs|
    requires DoReadCheck(s, tid, signalled, faulted).0.files == SharedCheck(a, tid, signalled, faulted).0.files
    requires DoReadCheck(s, tid, signalled, faulted).0.readers == SharedCheck(a, tid, signalled, faulted).0.readers
    ensures Copies(DoReadCheck(s, tid, signalled, faulted).0, SharedCheck(a, tid, signalled, faulted).0, m)
  {
    assert Copies(s, a, m);
    if tid in s.readers {
      if s.files[s.readers[tid].fid].minor == m {
        OwnCopies(s, a, tid, signalled, faulted, m);
      } else {
        OtherCopies(s, a, tid, signalled, faulted, m);
      }
    }
  }

  lemma OwnCopies(s: State, a: Shared, tid: Tid, signalled: bool, faulted: bool, m: nat)
    requires Refines(s, a) && m < |s.devs| && tid in s.readers && s.files[s.readers[tid].fid].minor == m
    requires DoReadCheck(s, tid, signalled, faulted).0.files == SharedCheck(a, tid, signalled, faulted).0.files
    requires DoReadCheck(s, tid, signalled, faulted).0.readers == SharedCheck(a, tid, signalled, faulted).0.readers
    ensures Copies(DoReadCheck(s, tid, signalled, faulted).0, SharedCheck(a, tid, signalled, faulted).0, m)
  {
    assert Copies(s, a, m);
  }

  lemma OtherCopies(s: State, a: Shared, tid: Tid, signalled: bool, faulted: bool, m: nat)
    requires Refines(s, a) && m < |s.devs| && tid in s.readers && s.files[s.readers[tid].fid].minor != m
    requires DoReadCheck(s, tid, signalled, faulted).0.files == SharedCheck(a, tid, signalled, faulted).0.files
    requires DoReadCheck(s, tid, signalled, faulted).0.readers == SharedCheck(a, tid, signalled, faulted).0.readers
    ensures Copies(DoReadCheck(s, tid, signalled, faulted).0, SharedCheck(a, tid, signalled, faulted).0, m)
  {
    assert Copies(s, a, m) && Copies(s, a, s.files[s.readers[tid].fid].minor);
  }

  lemma WriteRefines(s: State, a: Shared, fid: Fid, data: seq<byte>)
    requires Refines(s, a)
    ensures Step(s, Write(fid, data, Complete)).1 == SharedStep(a, Write(fid, data, Complete)).1
    ensures Refines(Step(s, Write(fid, data, Complete)).0, SharedStep(a, Write(fid, data, Complete)).0)
  {
    var t, b := Step(s, Write(fid, data, Complete)).0, SharedStep(a, Write(fid, data, Complete)).0;
    if fid in s.files && s.files[fid].pos < MY_BUFFER_SIZE {
      var f := s.files[fid];
      assert Copies(s, a, f.minor);
      forall m | 0 <= m < |t.devs|
        ensures Copies(t, b, m)
      {
        assert Copies(s, a, m);
        BroadcastKeepsEqual(s.devs, f.minor, f.pos, data[..Room(f.pos, |data|)], a.buffer, m);
      }
    }
  }

  function SharedRun(a: Shared, es: seq<Event>): (r: (Shared, seq<Ret>))
    requires WfShared(a) && forall e | e in es :: IsFileEvent(e)
    ensures WfShared(r.0)
    decreases |es|
  {
    if es == [] then (a, [])
    else
      var (b, x) := SharedStep(a, es[0]);
      var (c, xs) := SharedRun(b, es[1..]);
      (c, [x] + xs)
  }

  lemma {:induction false} RunRefines(s: State, a: Shared, es: seq<Event>)
    requires Refines(s, a) && forall e | e in es :: IsFileEvent(e)
    ensures Run(s, es).1 == SharedRun(a, es).1
    ensures Refines(Run(s, es).0, SharedRun(a, es).0)
    decreases |es|
  {
    if es == [] {
    } else {
      StepRefines(s, a, es[0]);
      RunRefines(Step(s, es[0]).0, SharedStep(a, es[0]).0, es[1..]);
    }
  }

  /**
   From module load, over every run of file events on any minors: every call answers what the single
   shared file answers, and all minors hold its whole buffer, its size and its ready flag.
   */
  lemma ReplicasRefineOneFile(minors: nat, es: seq<Event>)
    requires forall e | e in es :: IsFileEvent(e)
    ensures Run(Init(minors), es).1 == SharedRun(SharedInit(minors), es).1
    ensures var devs := Run(Init(minors), es).0.devs;
            var file := SharedRun(SharedInit(minors), es).0;
            forall m | 0 <= m < |devs| ::
              devs[m].buffer == file.buffer && devs[m].size == file.size && devs[m].ready == file.ready
  {
    var s, a := Init(minors), SharedInit(minors);
    assert forall m | 0 <= m < minors :: Copies(s, a, m);
    RunRefines(s, a, es);
    forall m | 0 <= m < |Run(s, es).0.devs|
      ensures var d, f := Run(s, es).0.devs[m], SharedRun(a, es).0;
              d.buffer == f.buffer && d.size == f.size && d.ready == f.ready
    {
      assert Copies(Run(s, es).0, SharedRun(a, es).0, m);
    }
  }

  // ---------- agreement with ioctls and faulted copies ----------

  /** What an event did to the devices, as an observer of the calls could log it. */
  datatype Effect =
    | Wrote(minor: nat, from: nat, to: nat)   // a successful write of bytes [from, to)
    | Tore(minor: nat, at: nat)               // a copy from user space that faulted at offset `at`
    | Cleared(minor: nat)                     // RESET
    | Resized(minor: nat)                     // an accepted SETSIZE
    | Silent

  function EffectOf(s: State, e: Event): Effect
    requires Wf(s)
  {
    var ret := Step(s, e).1;
    match e
    case Write(fid, data, _) =>
      if fid !in s.files || s.files[fid].pos >= MY_BUFFER_SIZE || ret.Ignored? then Silent
      else if ret.Fail? then Tore(s.files[fid].minor, s.files[fid].pos)
      else Wrote(s.files[fid].minor, s.files[fid].pos, s.files[fid].pos + Room(s.files[fid].pos, |data|))
    case Ioctl(fid, c) =>
      if fid !in s.files then Silent
      else if c.Reset? then Cleared(s.files[fid].minor)
      else if c.SetSize? && !ret.Fail? then Resized(s.files[fid].minor)
      else Silent
    case _ => Silent
  }

  function Log(s: State, es: seq<Event>): seq<Effect>
    requires Wf(s)
    decreases |es|
  {
    if es == [] then [] else [EffectOf(s, es[0])] + Log(Step(s, es[0]).0, es[1..])
  }

  /** How one effect moves the watermark of minors i and j. */
  function Move(w: nat, effect: Effect, i: nat, j: nat): nat {
    match effect
    case Wrote(_, _, to) => if to > w then to else w
    case Tore(m, at) => if (m == i || m == j) && at < w then at else w
    case Cleared(m) => if m == i || m == j then 0 else w
    case _ => w
  }

  /** The watermark of minors i and j after the logged effects, from watermark `w`. */
  function Watermark(w: nat, log: seq<Effect>, i: nat, j: nat): nat
    decreases |log|
  {
    if log == [] then w else Watermark(Move(w, log[0], i, j), log[1..], i, j)
  }

  function Keeps(u: bool, effect: Effect, m: nat): bool {
    match effect
    case Wrote(_, _, _) => true
    case Silent => u
    case _ => u && effect.minor != m
  }

  /** Nothing but writes happened to minor m since the last successful write (or since load). */
  function Undisturbed(u: bool, log: seq<Effect>, m: nat): bool
    decreases |log|
  {
    if log == [] then u else Undisturbed(Keeps(u, log[0], m), log[1..], m)
  }

  ghost predicate AgreeBelow(s: State, i: nat, j: nat, w: nat) {
    && Wf(s) && i < |s.devs| && j < |s.devs| && w <= MY_BUFFER_SIZE
    && forall k | 0 <= k < w :: s.devs[i].buffer[k] == s.devs[j].buffer[k]
  }

  /** Same size, same ready flag, same bytes below the size. */
  ghost predicate SameContents(s: State, i: nat, j: nat)
    requires Wf(s) && i < |s.devs| && j < |s.devs|
  {
    var a, b := s.devs[i], s.devs[j];
    a.size == b.size && a.ready == b.ready && a.buffer[..a.size] == b.buffer[..b.size]
  }

  /** An effect other than a write touches the contents of its own minor only; Silent touches none. */
  lemma EffectsAreLocal(s: State, e: Event, m: nat)
    requires Wf(s) && m < |s.devs|
    ensures |Step(s, e).0.devs| == |s.devs|
    ensures var d, d', effect := s.devs[m], Step(s, e).0.devs[m], EffectOf(s, e);
            effect.Silent? || (!effect.Wrote? && effect.minor != m)
            ==> d'.buffer == d.buffer && d'.size == d.size && d'.ready == d.ready
  {
  }

  /** After a successful write all minors show the same contents. */
  lemma WriteEqualizes(s: State, e: Event, i: nat, j: nat)
    requires Wf(s) && i < |s.devs| && j < |s.devs| && EffectOf(s, e).Wrote?
    ensures |Step(s, e).0.devs| == |s.devs| && SameContents(Step(s, e).0, i, j)
  {
    var t := Step(s, e).0;
    var m := s.files[e.fid].minor;
    assert forall k | 0 <= k < |t.devs| :: t.devs[k].buffer[..t.devs[k].size] == t.devs[m].buffer[..t.devs[m].size];
  }

  lemma StepWatermark(s: State, e: Event, i: nat, j: nat, w: nat)
    requires AgreeBelow(s, i, j, w)
    ensures AgreeBelow(Step(s, e).0, i, j, Move(w, EffectOf(s, e), i, j))
  {
    EffectsAreLocal(s, e, i);
    EffectsAreLocal(s, e, j);
  }

  lemma StepUndisturbed(s: State, e: Event, i: nat, j: nat, ui: bool, uj: bool)
    requires Wf(s) && i < |s.devs| && j < |s.devs|
    requires ui && uj ==> SameContents(s, i, j)
    ensures |Step(s, e).0.devs| == |s.devs|
    ensures Keeps(ui, EffectOf(s, e), i) && Keeps(uj, EffectOf(s, e), j) ==> SameContents(Step(s, e).0, i, j)
  {
    EffectsAreLocal(s, e, i);
    EffectsAreLocal(s, e, j);
    if EffectOf(s, e).Wrote? {
      WriteEqualizes(s, e, i, j);
    }
  }

  lemma {:induction false} RunWatermark(s: State, es: seq<Event>, i: nat, j: nat, w: nat)
    requires AgreeBelow(s, i, j, w)
    ensures AgreeBelow(Run(s, es).0, i, j, Watermark(w, Log(s, es), i, j))
    decreases |es|
  {
    if es == [] {
    } else {
      StepWatermark(s, es[0], i, j, w);
      RunWatermark(Step(s, es[0]).0, es[1..], i, j, Move(w, EffectOf(s, es[0]), i, j));
    }
  }

  lemma {:induction false} RunUndisturbed(s: State, es: seq<Event>, i: nat, j: nat, ui: bool, uj: bool)
    requires Wf(s) && i < |s.devs| && j < |s.devs|
    requires ui && uj ==> SameContents(s, i, j)
    ensures |Run(s, es).0.devs| == |s.devs|
    ensures Undisturbed(ui, Log(s, es), i) && Undisturbed(uj, Log(s, es), j) ==> SameContents(Run(s, es).0, i, j)
    decreases |es|
  {
    if es == [] {
    } else {
      var effect := EffectOf(s, es[0]);
      StepUndisturbed(s, es[0], i, j, ui, uj);
      RunUndisturbed(Step(s, es[0]).0, es[1..], i, j, Keeps(ui, effect, i), Keeps(uj, effect, j));
    }
  }

  /**
   Over every run from module load, ioctls and faulted copies included: any two minors agree on all
   bytes below their watermark, and if neither was reset, resized or torn since the last successful
   write they show a reader the same contents.
   */
  lemma ReplicasAgree(minors: nat, es: seq<Event>, i: nat, j: nat)
    requires i < minors && j < minors
    ensures var s := Run(Init(minors), es).0;
            var log := Log(Init(minors), es);
            && AgreeBelow(s, i, j, Watermark(MY_BUFFER_SIZE, log, i, j))
            && (Undisturbed(true, log, i) && Undisturbed(true, log, j) ==> SameContents(s, i, j))
  {
    RunWatermark(Init(minors), es, i, j, MY_BUFFER_SIZE);
    RunUndisturbed(Init(minors), es, i, j, true, true);
  }
}
