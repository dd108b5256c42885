/**
 The mychardev driver on values: what each handler does to the devices, to the open files and to the
 read() calls in flight, and the step function that whole runs are made of.

 A run is any list of events. An event that the kernel could not produce in the current state (a read
 on a closed file, the recheck of a reader that nobody woke) is answered `Ignored` and changes nothing,
 so every list of events is a run and the theorems need no assumption about the schedule.
 The number of devices is a parameter of `Init`; the driver uses MY_MAX_MINORS.
 */
module DriverModel {
  import opened Basics

  const MY_MAX_MINORS: nat := 5
  const MY_BUFFER_SIZE: nat := 256

  newtype byte = x: int | 0 <= x < 256

  /** loff_t: a 64-bit signed integer. */
  type Off = x: int | -0x8000_0000_0000_0000 <= x < 0x8000_0000_0000_0000

  /** Handles for open file descriptions and for reading threads. */
  type Fid = nat
  type Tid = nat

  /** One `struct my_device_data`. `asleep` is its wait queue: the readers blocked on it. */
  datatype Dev = Dev(buffer: seq<byte>, size: int, access: int, ready: bool, asleep: set<Tid>)

  /** One `struct file` bound to a minor by open. */
  datatype File = File(minor: nat, pos: int, nonblock: bool)

  /** A read() past its entry check. `pos` is the copy of f_pos that the VFS took at entry. */
  datatype Reader = Reader(fid: Fid, count: nat, pos: int)

  datatype State = State(devs: seq<Dev>, files: map<Fid, File>, readers: map<Tid, Reader>)

  datatype Errno = EBUSY | EAGAIN | ERESTARTSYS | EFAULT | ENOSPC | EINVAL | ENOTTY

  /** What a system call answers. `Pending` and `Blocked` are read() calls that have not returned. */
  datatype Ret = Value(n: int) | Bytes(data: seq<byte>) | Fail(errno: Errno) | Pending | Blocked | Ignored

  datatype Whence = SeekSet | SeekCur | SeekEnd | SeekOther

  /** copy_from_user either copies everything, or faults and leaves any bytes in its target range. */
  datatype Copy = Complete | Faulted(left: seq<byte>)

  datatype Command = Reset | SetSize(value: int, faulted: bool) | GetSize(faulted: bool) | Unknown

  datatype Event =
    | Open(minor: nat, fid: Fid, nonblock: bool)
    | Release(fid: Fid)
    | ReadEnter(tid: Tid, fid: Fid, count: nat)
    | ReadCheck(tid: Tid, signalled: bool, faulted: bool)
    | Write(fid: Fid, data: seq<byte>, copy: Copy)
    | Seek(fid: Fid, offset: Off, whence: Whence)
    | Ioctl(fid: Fid, command: Command)

  // ---------- the handlers on devices ----------

  ghost predicate WfDev(d: Dev) { |d.buffer| == MY_BUFFER_SIZE && 0 <= d.size <= MY_BUFFER_SIZE }

  ghost predicate WfDevs(devs: seq<Dev>) { forall i | 0 <= i < |devs| :: WfDev(devs[i]) }

  function OpenDev(d: Dev): (Dev, Ret) {
    if d.access != 0 then (d, Fail(EBUSY)) else (d.(access := 1), Value(0))
  }

  /** `b` with `data` written over it from index `at` on. */
  function Overwrite(b: seq<byte>, at: nat, data: seq<byte>): (r: seq<byte>)
    requires at + |data| <= |b|
    ensures |r| == |b|
    ensures forall k | 0 <= k < |b| :: r[k] == if at <= k < at + |data| then data[k - at] else b[k]
  {
    b[..at] + data + b[at + |data|..]
  }

  /** What one pass of the broadcast loop does to a peer. */
  function Receive(peer: Dev, writer: Dev): (r: Dev)
    requires WfDev(peer) && WfDev(writer)
    ensures WfDev(r)
  {
    peer.(buffer := Overwrite(peer.buffer, 0, writer.buffer[..writer.size]),
          size := writer.size, ready := true, asleep := {})
  }

  /** The writer's own device after a complete copy. */
  function Store(d: Dev, at: nat, data: seq<byte>): (r: Dev)
    requires WfDev(d) && at + |data| <= MY_BUFFER_SIZE
    ensures WfDev(r)
  {
    d.(buffer := Overwrite(d.buffer, at, data), size := at + |data|, ready := true, asleep := {})
  }

  /** All devices after a successful write of `data` (already cut to fit) on minor `m`. */
  function WriteDevs(devs: seq<Dev>, m: nat, at: nat, data: seq<byte>): (r: seq<Dev>)
    requires WfDevs(devs) && m < |devs| && at + |data| <= MY_BUFFER_SIZE
    ensures WfDevs(r) && |r| == |devs|
  {
    var own := Store(devs[m], at, data);
    seq(|devs|, i requires 0 <= i < |devs| => if i == m then own else Receive(devs[i], own))
  }

  /** How many bytes a write of `count` bytes at `pos` accepts. */
  function Room(pos: int, count: nat): (r: nat)
    requires 0 <= pos <= MY_BUFFER_SIZE
    ensures r <= count && pos + r <= MY_BUFFER_SIZE
  {
    Min(count, MY_BUFFER_SIZE - pos)
  }

  /** A faulted copy leaves as many bytes as it was asked to copy. */
  predicate Fits(pos: int, data: seq<byte>, copy: Copy) {
    copy.Faulted? && 0 <= pos < MY_BUFFER_SIZE ==> |copy.left| == Room(pos, |data|)
  }

  /** my_write on minor m at position `pos`: the devices, the return value, and f_pos. */
  function WriteFile(devs: seq<Dev>, m: nat, pos: int, data: seq<byte>, copy: Copy): (r: (seq<Dev>, Ret, int))
    requires WfDevs(devs) && m < |devs| && 0 <= pos <= MY_BUFFER_SIZE && Fits(pos, data, copy)
    ensures WfDevs(r.0) && |r.0| == |devs| && 0 <= r.2 <= MY_BUFFER_SIZE
  {
    if pos >= MY_BUFFER_SIZE then (devs, Fail(ENOSPC), pos)
    else
      var len := Room(pos, |data|);
      match copy
      case Complete => (WriteDevs(devs, m, pos, data[..len]), Value(len), pos + len)
      case Faulted(left) =>
        (devs[m := devs[m].(buffer := Overwrite(devs[m].buffer, pos, left))], Fail(EFAULT), pos)
  }

  /** Two's-complement wrap-around of a 64-bit sum; the kernel is built so that signed sums wrap. */
  function Wrap64(x: int): Off {
    (x + 0x8000_0000_0000_0000) % 0x1_0000_0000_0000_0000 - 0x8000_0000_0000_0000
  }

  function SeekDev(size: int, pos: int, offset: Off, whence: Whence): Ret {
    if whence == SeekOther then
      Fail(EINVAL)
    else
      var target := match whence
        case SeekSet => offset
        case SeekCur => Wrap64(pos + offset)
        case _ => Wrap64(size + offset);
      if target < 0 || target > MY_BUFFER_SIZE then Fail(EINVAL) else Value(target)
  }

  function IoctlDev(d: Dev, c: Command): (r: (Dev, Ret))
    requires WfDev(d)
    ensures WfDev(r.0)
  {
    match c
    case Reset => (d.(buffer := seq(MY_BUFFER_SIZE, _ => 0), size := 0, ready := false), Value(0))
    case SetSize(value, faulted) =>
      if faulted then (d, Fail(EFAULT))
      else if value < 0 || value > MY_BUFFER_SIZE then (d, Fail(EINVAL))
      else (d.(size := value, ready := value > 0), Value(0))
    case GetSize(faulted) => (d, if faulted then Fail(EFAULT) else Value(d.size))
    case Unknown => (d, Fail(ENOTTY))
  }

  /** The copy part of my_read: the answer, and the position left in `*offset`. */
  function ReadDev(d: Dev, pos: int, count: nat, faulted: bool): (r: (Ret, int))
    requires WfDev(d) && 0 <= pos <= MY_BUFFER_SIZE
    ensures 0 <= r.1 <= MY_BUFFER_SIZE && (r.0.Bytes? || r.0.Fail?)
  {
    if pos >= d.size then (Bytes([]), pos)
    else
      var len := Min(d.size - pos, count);
      if faulted then (Fail(EFAULT), pos) else (Bytes(d.buffer[pos..pos + len]), pos + len)
  }

  /**
   my_read from the wait on, by a running reader: one evaluation of the wait condition, and the copy if
   it holds. Answers the device, the return value, and f_pos, which the VFS updates unless the call fails.
   */
  function CheckDev(d: Dev, tid: Tid, rd: Reader, fpos: int, signalled: bool, faulted: bool): (r: (Dev, Ret, int))
    requires WfDev(d) && 0 <= rd.pos <= MY_BUFFER_SIZE && 0 <= fpos <= MY_BUFFER_SIZE
    ensures WfDev(r.0) && 0 <= r.2 <= MY_BUFFER_SIZE
  {
    if !d.ready && !signalled then (d.(asleep := d.asleep + {tid}), Blocked, fpos)
    else
      var left := d.(asleep := d.asleep - {tid});
      if !d.ready then (left, Fail(ERESTARTSYS), fpos)
      else
        var (ret, pos) := ReadDev(d, rd.pos, rd.count, faulted);
        (left, ret, if ret.Fail? then fpos else pos)
  }

  // ---------- steps ----------

  /** Buffers, sizes and cursors are in range and every handle means something. */
  ghost predicate Wf(s: State) {
    && WfDevs(s.devs)
    && (forall f | f in s.files :: s.files[f].minor < |s.devs| && 0 <= s.files[f].pos <= MY_BUFFER_SIZE)
    && (forall t | t in s.readers :: s.readers[t].fid in s.files && 0 <= s.readers[t].pos <= MY_BUFFER_SIZE)
  }

  function DoOpen(s: State, minor: nat, fid: Fid, nonblock: bool): (r: (State, Ret))
    requires Wf(s)
    ensures Wf(r.0)
  {
    if minor >= |s.devs| || fid in s.files then (s, Ignored)
    else
      var (d, ret) := OpenDev(s.devs[minor]);
      if ret.Fail? then (s, ret)
      else (s.(devs := s.devs[minor := d], files := s.files[fid := File(minor, 0, nonblock)]), ret)
  }

  /** The VFS calls release once nobody uses the file any more, so not while a reader is inside. */
  function DoRelease(s: State, fid: Fid): (r: (State, Ret))
    requires Wf(s)
    ensures Wf(r.0)
  {
    if fid !in s.files || (exists t | t in s.readers :: s.readers[t].fid == fid) then (s, Ignored)
    else
      var m := s.files[fid].minor;
      (s.(devs := s.devs[m := s.devs[m].(access := 0)], files := s.files - {fid}), Value(0))
  }

  function DoReadEnter(s: State, tid: Tid, fid: Fid, count: nat): (r: (State, Ret))
    requires Wf(s)
    ensures Wf(r.0)
  {
    if fid !in s.files || tid in s.readers then (s, Ignored)
    else
      var f := s.files[fid];
      if !s.devs[f.minor].ready && f.nonblock then (s, Fail(EAGAIN))
      else (s.(readers := s.readers[tid := Reader(fid, count, f.pos)]), Pending)
  }

  /** A reader that sleeps does nothing until it is woken or signalled; a call that returned is gone. */
  function DoReadCheck(s: State, tid: Tid, signalled: bool, faulted: bool): (r: (State, Ret))
    requires Wf(s)
    ensures Wf(r.0)
  {
    if tid !in s.readers then (s, Ignored)
    else
      var rd := s.readers[tid];
      var f := s.files[rd.fid];
      if tid in s.devs[f.minor].asleep && !signalled then (s, Ignored)
      else
        var (d, ret, pos) := CheckDev(s.devs[f.minor], tid, rd, f.pos, signalled, faulted);
        (State(s.devs[f.minor := d], s.files[rd.fid := f.(pos := pos)],
               if ret == Blocked then s.readers else s.readers - {tid}), ret)
  }

  function DoWrite(s: State, fid: Fid, data: seq<byte>, copy: Copy): (r: (State, Ret))
    requires Wf(s)
    ensures Wf(r.0)
  {
    if fid !in s.files || !Fits(s.files[fid].pos, data, copy) then (s, Ignored)
    else
      var f := s.files[fid];
      var (devs, ret, pos) := WriteFile(s.devs, f.minor, f.pos, data, copy);
      (State(devs, s.files[fid := f.(pos := pos)], s.readers), ret)
  }

  function DoSeek(s: State, fid: Fid, offset: Off, whence: Whence): (r: (State, Ret))
    requires Wf(s)
    ensures Wf(r.0)
  {
    if fid !in s.files then (s, Ignored)
    else
      var f := s.files[fid];
      var ret := SeekDev(s.devs[f.minor].size, f.pos, offset, whence);
      (if ret.Fail? then s else s.(files := s.files[fid := f.(pos := ret.n)]), ret)
  }

  function DoIoctl(s: State, fid: Fid, c: Command): (r: (State, Ret))
    requires Wf(s)
    ensures Wf(r.0)
  {
    if fid !in s.files then (s, Ignored)
    else
      var m := s.files[fid].minor;
      var (d, ret) := IoctlDev(s.devs[m], c);
      (s.(devs := s.devs[m := d]), ret)
  }

  function Step(s: State, e: Event): (r: (State, Ret))
    requires Wf(s)
    ensures Wf(r.0)
  {
    match e
    case Open(minor, fid, nonblock) => DoOpen(s, minor, fid, nonblock)
    case Release(fid) => DoRelease(s, fid)
    case ReadEnter(tid, fid, count) => DoReadEnter(s, tid, fid, count)
    case ReadCheck(tid, signalled, faulted) => DoReadCheck(s, tid, signalled, faulted)
    case Write(fid, data, copy) => DoWrite(s, fid, data, copy)
    case Seek(fid, offset, whence) => DoSeek(s, fid, offset, whence)
    case Ioctl(fid, c) => DoIoctl(s, fid, c)
  }

  /** The state reached by a run, and the answers it gave. */
  function Run(s: State, es: seq<Event>): (r: (State, seq<Ret>))
    requires Wf(s)
    ensures Wf(r.0) && |r.1| == |es|
    decreases |es|
  {
    if es == [] then (s, [])
    else
      var (t, x) := Step(s, es[0]);
      var (u, xs) := Run(t, es[1..]);
      (u, [x] + xs)
  }

  /** The state my_init leaves: static storage is zero, nothing is open, nothing is ready. */
  function Init(minors: nat): (s: State)
    ensures Wf(s)
  {
    State(seq(minors, _ => Dev(seq(MY_BUFFER_SIZE, _ => 0), 0, 0, false, {})), map[], map[])
  }
}
