/**
 What a caller of the driver may rely on, call by call: which calls fail and with what, what a failed call
 leaves alone, what a reader sees after a write, a RESET or a SETSIZE, and where the cursor is. Each law is
 stated by the sizes, flags, bytes and answers that callers see.
 */
module DriverLaws {
  import opened Basics
  import opened DriverModel
  import opened DriverStreams
  import DriverInvariants

  // ---------- failed calls ----------

  /** The contents, the flag and the access word of a device; not who sleeps on it. */
  ghost predicate SameDevice(d: Dev, e: Dev) {
    d.buffer == e.buffer && d.size == e.size && d.ready == e.ready && d.access == e.access
  }

  /** A call that fails moves no cursor and opens or closes nothing; a call the kernel would not make, or
      that blocks, does not either. */
  lemma FailedCallMovesNoCursor(s: State, e: Event)
    requires Wf(s)
    ensures var (t, ret) := Step(s, e);
            && (ret.Fail? || ret.Blocked? || ret.Pending? || ret.Ignored? ==> t.files == s.files)
            && (ret.Ignored? ==> t == s)
  {
    if e.ReadCheck? && e.tid in s.readers {
      var rd := s.readers[e.tid];
      assert s.files[rd.fid := s.files[rd.fid]] == s.files;
    } else if e.Write? && e.fid in s.files {
      assert s.files[e.fid := s.files[e.fid]] == s.files;
    }
  }

  /** A call that fails, unless it is a write whose copy from the user was torn, leaves every device as it
      was, and nobody asleep who was not. */
  lemma FailedCallKeepsDevices(s: State, e: Event, m: nat)
    requires Wf(s) && m < |s.devs| && Step(s, e).1.Fail? && (e.Write? ==> Step(s, e).1 != Fail(EFAULT))
    ensures var t := Step(s, e).0;
            && |t.devs| == |s.devs| && SameDevice(t.devs[m], s.devs[m]) && t.devs[m].asleep <= s.devs[m].asleep
            && (!e.ReadCheck? ==> t == s)
  {
    if e.Ioctl? && e.fid in s.files {
      assert s.devs[s.files[e.fid].minor := s.devs[s.files[e.fid].minor]] == s.devs;
    } else if e.Write? && e.fid in s.files {
      assert s.files[e.fid := s.files[e.fid]] == s.files;
    }
  }

  /** A torn write changes at most the bytes it was to write, on the writer's own minor. */
  lemma TornWriteTouchesItsRange(s: State, fid: Fid, data: seq<byte>, left: seq<byte>, m: nat)
    requires Wf(s) && fid in s.files && m < |s.devs| && s.files[fid].pos < MY_BUFFER_SIZE
    requires |left| == Room(s.files[fid].pos, |data|)
    ensures var (t, ret) := Step(s, Write(fid, data, Faulted(left)));
            var f, d, d' := s.files[fid], s.devs[m], t.devs[m];
            && ret == Fail(EFAULT) && t.files == s.files && t.readers == s.readers && |t.devs| == |s.devs|
            && d'.size == d.size && d'.ready == d.ready && d'.access == d.access && d'.asleep == d.asleep
            && forall k | 0 <= k < MY_BUFFER_SIZE && !(m == f.minor && f.pos <= k < f.pos + |left|) ::
                 d'.buffer[k] == d.buffer[k]
  {
    FailedCallMovesNoCursor(s, Write(fid, data, Faulted(left)));
  }

  // ---------- writing ----------

  /** A write is refused exactly at the end of the buffer, torn exactly if its copy is, and otherwise accepts
      what there is room for, by which the cursor moves. */
  lemma WriteAnswers(s: State, fid: Fid, data: seq<byte>, copy: Copy)
    requires Wf(s) && fid in s.files && Fits(s.files[fid].pos, data, copy)
    ensures var (t, ret) := Step(s, Write(fid, data, copy));
            var pos := s.files[fid].pos;
            && (ret == Fail(ENOSPC) <==> pos == MY_BUFFER_SIZE)
            && (ret == Fail(EFAULT) <==> pos < MY_BUFFER_SIZE && copy.Faulted?)
            && (ret.Value? || ret == Fail(ENOSPC) || ret == Fail(EFAULT))
            && (ret.Value? ==> ret.n == Min(|data|, MY_BUFFER_SIZE - pos)
                               && t.files == s.files[fid := s.files[fid].(pos := pos + ret.n)] && t.readers == s.readers)
  {
  }

  /** After a write at pos every minor shows what the writer's showed or hid in front of pos, then the bytes
      accepted, and no more; behind that each minor keeps its own old bytes; and everybody is woken. */
  lemma WriteIsSeen(s: State, fid: Fid, data: seq<byte>, m: nat)
    requires Wf(s) && fid in s.files && m < |s.devs| && s.files[fid].pos < MY_BUFFER_SIZE
    ensures var (t, ret) := Step(s, Write(fid, data, Complete));
            var f, d := s.files[fid], t.devs[m];
            && ret.Value? && 0 <= ret.n <= |data| && |t.devs| == |s.devs|
            && d.size == f.pos + ret.n && d.ready && d.asleep == {} && d.access == s.devs[m].access
            && d.buffer[..d.size] == s.devs[f.minor].buffer[..f.pos] + data[..ret.n]
            && d.buffer[d.size..] == s.devs[m].buffer[d.size..]
  {
  }

  /** And GETSIZE says so through any file on any minor. */
  lemma WrittenSizeIsReported(s: State, writer: Fid, data: seq<byte>, reader: Fid)
    requires Wf(s) && writer in s.files && reader in s.files && s.files[writer].pos < MY_BUFFER_SIZE
    ensures var (t, ret) := Step(s, Write(writer, data, Complete));
            ret.Value? && Step(t, Ioctl(reader, GetSize(false))).1 == Value(s.files[writer].pos + ret.n)
  {
  }

  // ---------- reading ----------

  /** The entry of a read fails exactly on a file that must not block over a minor that is not ready. */
  lemma EntryAnswers(s: State, tid: Tid, fid: Fid, count: nat)
    requires Wf(s) && fid in s.files && tid !in s.readers
    ensures var (t, ret) := Step(s, ReadEnter(tid, fid, count));
            var f := s.files[fid];
            && (ret == Fail(EAGAIN) <==> f.nonblock && !s.devs[f.minor].ready)
            && (ret == Fail(EAGAIN) || ret == Pending) && t.devs == s.devs && t.files == s.files
            && (ret == Pending ==> tid in t.readers && t.readers[tid] == Reader(fid, count, f.pos))
            && (forall u | u in s.readers :: u in t.readers && t.readers[u] == s.readers[u])
  {
  }

  /** A read that runs blocks, is interrupted, faults or ends, each under exactly one condition; when it ends
      it hands out the bytes at its position up to the size, and leaves the cursor behind them. */
  lemma CheckAnswers(s: State, tid: Tid, signalled: bool, faulted: bool)
    requires Wf(s) && tid in s.readers
    requires tid in s.devs[s.files[s.readers[tid].fid].minor].asleep ==> signalled
    ensures var (t, ret) := Step(s, ReadCheck(tid, signalled, faulted));
            var rd := s.readers[tid];
            var d := s.devs[s.files[rd.fid].minor];
            && (ret == Blocked <==> !d.ready && !signalled)
            && (ret == Fail(ERESTARTSYS) <==> !d.ready && signalled)
            && (ret == Fail(EFAULT) <==> d.ready && rd.pos < d.size && faulted)
            && (ret.Bytes? <==> d.ready && !(rd.pos < d.size && faulted))
            && (ret.Bytes? ==>
                  && (rd.pos >= d.size ==> ret.data == [])
                  && (rd.pos < d.size ==> |ret.data| == Min(rd.count, d.size - rd.pos)
                                          && ret.data == d.buffer[rd.pos..rd.pos + |ret.data|])
                  && t.files == s.files[rd.fid := s.files[rd.fid].(pos := rd.pos + |ret.data|)])
            && (tid in t.readers <==> ret == Blocked)
            && (ret == Blocked <==> tid in t.devs[s.files[rd.fid].minor].asleep)
  {
  }

  // ---------- ioctls ----------

  /** Commands that empty a minor. */
  predicate Empties(c: Command) { c.Reset? || c == SetSize(0, false) }

  /**
   After a RESET or a SETSIZE to 0 there is nothing to read: GETSIZE answers 0, a file that must not block
   gets EAGAIN, and any other read goes to sleep, or is interrupted if a signal is there. Other minors do
   not notice.
   */
  lemma EmptiedMinorBlocks(s: State, ctl: Fid, c: Command, fid: Fid, tid: Tid, count: nat, signalled: bool, faulted: bool)
    requires Wf(s) && ctl in s.files && Empties(c) && fid in s.files && s.files[fid].minor == s.files[ctl].minor
    requires tid !in s.readers && tid !in s.devs[s.files[fid].minor].asleep
    ensures var (t, ret) := Step(s, Ioctl(ctl, c));
            && ret == Value(0) && fid in t.files && Step(t, Ioctl(fid, GetSize(false))).1 == Value(0)
            && (s.files[fid].nonblock ==> Step(t, ReadEnter(tid, fid, count)).1 == Fail(EAGAIN))
            && (!s.files[fid].nonblock ==>
                  Step(Step(t, ReadEnter(tid, fid, count)).0, ReadCheck(tid, signalled, faulted)).1
                  == if signalled then Fail(ERESTARTSYS) else Blocked)
            && |t.devs| == |s.devs| && forall m | 0 <= m < |s.devs| && m != s.files[ctl].minor :: t.devs[m] == s.devs[m]
  {
    var t := Step(s, Ioctl(ctl, c)).0;
    var d := t.devs[s.files[fid].minor];
    assert t.files == s.files && !d.ready && d.size == 0;
    EntryAnswers(t, tid, fid, count);
    if !s.files[fid].nonblock {
      CheckAnswers(Step(t, ReadEnter(tid, fid, count)).0, tid, signalled, faulted);
    }
  }

  /** SETSIZE answers each of its errors exactly when it should, and then changes nothing. */
  lemma SetSizeAnswers(s: State, fid: Fid, value: int, faulted: bool)
    requires Wf(s) && fid in s.files
    ensures var (t, ret) := Step(s, Ioctl(fid, SetSize(value, faulted)));
            && (ret == Fail(EFAULT) <==> faulted)
            && (ret == Fail(EINVAL) <==> !faulted && !(0 <= value <= MY_BUFFER_SIZE))
            && (ret == Value(0) <==> !faulted && 0 <= value <= MY_BUFFER_SIZE)
            && (ret.Fail? ==> t == s)
  {
    if Step(s, Ioctl(fid, SetSize(value, faulted))).1.Fail? {
      FailedCallKeepsDevices(s, Ioctl(fid, SetSize(value, faulted)), s.files[fid].minor);
    }
  }

  /** An accepted SETSIZE to n > 0 shows the first n bytes of the buffer, also those that were hidden, to a
      reader from the start. */
  lemma {:induction false} SetSizeShows(s: State, fid: Fid, tid: Tid, n: nat, request: nat -> nat, k: nat)
    requires Wf(s) && fid in s.files && tid !in s.readers && tid !in s.devs[s.files[fid].minor].asleep
    requires 0 < n <= MY_BUFFER_SIZE && forall i :: request(i) > 0
    ensures var t := Resized(s, fid, n);
            && Readable(t, fid, tid)
            && ReadToEnd(t, fid, tid, request, k).1 == s.devs[s.files[fid].minor].buffer[..n]
  {
    var t := Resized(s, fid, n);
    ResizedDevice(s, t, fid, n);
    ReadsAll(t, fid, tid, request, k);
  }

  /** SETSIZE to n and a seek to the start, through one file. */
  function Resized(s: State, fid: Fid, n: nat): (t: State)
    requires Wf(s)
    ensures Wf(t)
  {
    Step(Step(s, Ioctl(fid, SetSize(n, false))).0, Seek(fid, 0, SeekSet)).0
  }

  /** It moves no byte, wakes nobody and touches no other minor. */
  lemma ResizedDevice(s: State, t: State, fid: Fid, n: nat)
    requires Wf(s) && fid in s.files && 0 < n <= MY_BUFFER_SIZE && t == Resized(s, fid, n)
    ensures t.readers == s.readers && t.files == s.files[fid := s.files[fid].(pos := 0)] && |t.devs| == |s.devs|
    ensures var d, d' := s.devs[s.files[fid].minor], t.devs[s.files[fid].minor];
            d'.buffer == d.buffer && d'.size == n && d'.ready && d'.asleep == d.asleep && d'.access == d.access
    ensures forall m | 0 <= m < |s.devs| && m != s.files[fid].minor :: t.devs[m] == s.devs[m]
  {
  }

  /** Asking changes nothing, and a command the driver does not know is refused. */
  lemma AskingChangesNothing(s: State, fid: Fid, faulted: bool)
    requires Wf(s) && fid in s.files
    ensures Step(s, Ioctl(fid, Unknown)) == (s, Fail(ENOTTY))
    ensures Step(s, Ioctl(fid, GetSize(faulted)))
            == (s, if faulted then Fail(EFAULT) else Value(s.devs[s.files[fid].minor].size))
  {
    assert s.devs[s.files[fid].minor := s.devs[s.files[fid].minor]] == s.devs;
  }

  // ---------- cursors ----------

  /** A seek goes where it says: asking for the current position afterwards gives its answer, or, if it
      failed, the position from before; devices and readers do not notice. */
  lemma SeekThenTell(s: State, fid: Fid, offset: Off, whence: Whence)
    requires Wf(s) && fid in s.files
    ensures var (t, ret) := Step(s, Seek(fid, offset, whence));
            && t.devs == s.devs && t.readers == s.readers
            && Step(t, Seek(fid, 0, SeekCur)).1 == (if ret.Value? then ret else Value(s.files[fid].pos))
            && (forall g | g in s.files && g != fid :: g in t.files && t.files[g] == s.files[g])
  {
    DriverInvariants.WrapAgrees(s.files[fid].pos, 0);
    DriverInvariants.WrapAgrees(Step(s, Seek(fid, offset, whence)).0.files[fid].pos, 0);
  }

  /** A file starts at position 0, whatever others did to the minor before, and blocks or not as asked. */
  lemma OpenStartsAtZero(s: State, m: nat, fid: Fid, nonblock: bool)
    requires Wf(s) && m < |s.devs| && fid !in s.files && s.devs[m].access == 0
    ensures var (t, ret) := Step(s, Open(m, fid, nonblock));
            && ret == Value(0) && fid in t.files && t.files[fid].nonblock == nonblock && t.files[fid].minor == m
            && Step(t, Seek(fid, 0, SeekCur)).1 == Value(0)
            && SameDevice(t.devs[m].(access := 0), s.devs[m]) && t.devs[m].asleep == s.devs[m].asleep
            && forall i | 0 <= i < |s.devs| && i != m :: t.devs[i] == s.devs[i]
  {
    DriverInvariants.WrapAgrees(0, 0);
  }

  /** Releasing a file makes its minor free to open and forgets the file; the contents stay. */
  lemma ReleaseFreesTheMinor(s: State, fid: Fid, other: Fid, nonblock: bool)
    requires Wf(s) && fid in s.files && forall t | t in s.readers :: s.readers[t].fid != fid
    ensures var (t, ret) := Step(s, Release(fid));
            var m := s.files[fid].minor;
            && ret == Value(0) && t.files == s.files - {fid} && t.readers == s.readers
            && SameDevice(t.devs[m], s.devs[m].(access := 0)) && t.devs[m].asleep == s.devs[m].asleep
            && (other !in t.files ==> Step(t, Open(m, other, nonblock)).1 == Value(0))
  {
  }
}
