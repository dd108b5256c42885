/**
 The driver as the C code has it: device structures with fixed buffers, file objects with a cursor, and
 handlers that update them in place. Every handler is proved to do to the objects exactly what its step
 does to the model's state, so the theorems about runs are theorems about these methods.
 */
module DriverObjects {
  import opened Basics
  import opened DriverModel

  /** memcpy and memset: puts `src` over `dst` from index `at` on. */
  method Memcpy(dst: array<byte>, at: nat, src: seq<byte>)
    requires at + |src| <= dst.Length
    modifies dst
    ensures dst[..] == Overwrite(old(dst[..]), at, src)
  {
    forall k | at <= k < at + |src| {
      dst[k] := src[k - at];
    }
  }

  class Device {
    const buffer: array<byte>
    var size: int
    var access: int
    var dataReady: int
    var asleep: set<Tid>  // the wait queue

    constructor ()
      ensures fresh(buffer)
      ensures View() == Dev(seq(MY_BUFFER_SIZE, _ => 0), 0, 0, false, {})
    {
      buffer := new byte[MY_BUFFER_SIZE](_ => 0);
      size, access, dataReady, asleep := 0, 0, 0, {};
      new;
      assert buffer[..] == seq(MY_BUFFER_SIZE, _ => 0 as byte);
    }

    ghost function View(): Dev
      reads this, buffer
    {
      Dev(buffer[..], size, access, dataReady != 0, asleep)
    }

    /** What a write leaves on a device: new bytes, new size, the flag up, and wake_up_interruptible. */
    method Deliver(at: nat, data: seq<byte>)
      requires at + |data| <= buffer.Length
      modifies this, buffer
      ensures View() == old(View()).(buffer := Overwrite(old(buffer[..]), at, data), size := at + |data|,
                                     ready := true, asleep := {})
    {
      Memcpy(buffer, at, data);
      size := at + |data|;
      dataReady := 1;
      asleep := {};
    }
  }

  class OpenFile {
    const minor: nat
    const dev: Device   // private_data
    const nonblock: bool
    var pos: int        // f_pos

    constructor (minor: nat, dev: Device, nonblock: bool)
      ensures this.minor == minor && this.dev == dev && this.nonblock == nonblock && pos == 0
    {
      this.minor, this.dev, this.nonblock, pos := minor, dev, nonblock, 0;
    }

    ghost function View(): File
      reads this
    {
      File(minor, pos, nonblock)
    }
  }

  // ---------- the handlers ----------

  method MyOpen(dev: Device) returns (ret: Ret)
    modifies dev
    ensures (dev.View(), ret) == OpenDev(old(dev.View()))
  {
    if dev.access != 0 { // atomic_cmpxchg found it held
      return Fail(EBUSY);
    }
    dev.access := 1;
    ret := Value(0);
  }

  method MyRelease(dev: Device)
    modifies dev
    ensures dev.View() == old(dev.View()).(access := 0)
  {
    dev.access := 0;
  }

  /** my_read from the wait on, by a running reader. */
  method MyRead(file: OpenFile, tid: Tid, rd: Reader, signalled: bool, faulted: bool) returns (ret: Ret)
    requires WfDev(file.dev.View()) && 0 <= rd.pos <= MY_BUFFER_SIZE && 0 <= file.pos <= MY_BUFFER_SIZE
    modifies file, file.dev
    ensures (file.dev.View(), ret, file.pos)
            == CheckDev(old(file.dev.View()), tid, rd, old(file.pos), signalled, faulted)
  {
    var dev := file.dev;
    if dev.dataReady == 0 && !signalled {
      dev.asleep := dev.asleep + {tid};
      return Blocked;
    }
    dev.asleep := dev.asleep - {tid};
    if dev.dataReady == 0 {
      return Fail(ERESTARTSYS);
    }
    if rd.pos >= dev.size {
      file.pos := rd.pos;
      return Bytes([]);
    }
    var len := Min(dev.size - rd.pos, rd.count);
    if faulted {
      return Fail(EFAULT);
    }
    file.pos := rd.pos + len;
    ret := Bytes(dev.buffer[rd.pos..rd.pos + len]);
  }

  ghost predicate Separate(devs: seq<Device>) {
    forall i, j | 0 <= i < j < |devs| :: devs[i] != devs[j] && devs[i].buffer != devs[j].buffer
  }

  ghost function Buffers(devs: seq<Device>): set<array<byte>> { set d | d in devs :: d.buffer }

  ghost function Views(devs: seq<Device>): (r: seq<Dev>)
    reads devs, Buffers(devs)
    ensures |r| == |devs| && forall i | 0 <= i < |devs| :: r[i] == devs[i].View()
  {
    seq(|devs|, i requires 0 <= i < |devs| reads devs, Buffers(devs) => devs[i].View())
  }

  method MyWrite(devs: seq<Device>, file: OpenFile, data: seq<byte>, copy: Copy) returns (ret: Ret)
    requires Separate(devs) && WfDevs(Views(devs))
    requires file.minor < |devs| && file.dev == devs[file.minor] && 0 <= file.pos <= MY_BUFFER_SIZE
    requires Fits(file.pos, data, copy)
    modifies file, devs, Buffers(devs)
    ensures (Views(devs), ret, file.pos) == WriteFile(old(Views(devs)), file.minor, old(file.pos), data, copy)
  {
    if file.pos >= MY_BUFFER_SIZE {
      return Fail(ENOSPC);
    }
    var len := Min(|data|, MY_BUFFER_SIZE - file.pos);
    if copy.Faulted? {
      Tear(devs, file.minor, file.pos, copy.left);
      return Fail(EFAULT);
    }
    StoreOwn(devs, file.minor, file.pos, data[..len]);
    file.pos := file.pos + len;
    Broadcast(devs, file.minor);
    ret := Value(len);
    assert Views(devs) == WriteDevs(old(Views(devs)), file.minor, old(file.pos), data[..len]);
  }

  /** What a faulted copy leaves. */
  method Tear(devs: seq<Device>, m: nat, at: nat, left: seq<byte>)
    requires Separate(devs) && WfDevs(Views(devs)) && m < |devs| && at + |left| <= MY_BUFFER_SIZE
    modifies devs[m].buffer
    ensures Views(devs) == old(Views(devs))[m := old(devs[m].View()).(buffer := Overwrite(old(devs[m].buffer[..]), at, left))]
  {
    assert WfDev(Views(devs)[m]);
    Memcpy(devs[m].buffer, at, left);
    assert devs[m].View() == old(devs[m].View()).(buffer := Overwrite(old(devs[m].buffer[..]), at, left));
    assert forall i | 0 <= i < |devs| && i != m :: devs[i].View() == old(devs[i].View());
  }

  /** A complete copy, the new size and flag, and the wake-up, on the writer's own device. */
  method StoreOwn(devs: seq<Device>, m: nat, at: nat, data: seq<byte>)
    requires Separate(devs) && WfDevs(Views(devs)) && m < |devs| && at + |data| <= MY_BUFFER_SIZE
    modifies devs[m], devs[m].buffer
    ensures Views(devs) == old(Views(devs))[m := Store(old(Views(devs)[m]), at, data)]
  {
    assert WfDev(Views(devs)[m]);
    devs[m].Deliver(at, data);
    assert forall i | 0 <= i < |devs| && i != m :: devs[i].View() == old(devs[i].View());
  }

  /** One pass of the loop that ends my_write. */
  method SendTo(devs: seq<Device>, m: nat, i: nat, tmp: seq<byte>)
    requires Separate(devs) && WfDevs(Views(devs)) && m < |devs| && i < |devs| && i != m
    requires tmp == Views(devs)[m].buffer[..Views(devs)[m].size]
    modifies devs[i], devs[i].buffer
    ensures Views(devs) == old(Views(devs))[i := Receive(old(Views(devs)[i]), old(Views(devs)[m]))]
  {
    assert WfDev(Views(devs)[m]) && WfDev(Views(devs)[i]);
    assert tmp[..devs[m].size] == tmp;
    devs[i].Deliver(0, tmp[..devs[m].size]);
    assert devs[i].View() == Receive(old(Views(devs)[i]), old(Views(devs)[m]));
    assert forall k | 0 <= k < |devs| && k != i :: devs[k].View() == old(devs[k].View());
  }

  /** The loop that ends my_write. */
  method Broadcast(devs: seq<Device>, m: nat)
    requires Separate(devs) && WfDevs(Views(devs)) && m < |devs|
    modifies devs, Buffers(devs)
    ensures Views(devs)[m] == old(Views(devs))[m]
    ensures forall i | 0 <= i < |devs| && i != m :: Views(devs)[i] == Receive(old(Views(devs))[i], old(Views(devs))[m])
  {
    ghost var before := Views(devs);
    assert WfDev(before[m]);
    var tmp := devs[m].buffer[..devs[m].size];
    for i := 0 to |devs|
      invariant WfDevs(Views(devs)) && Views(devs)[m] == before[m]
      invariant forall k | 0 <= k < i && k != m :: Views(devs)[k] == Receive(before[k], before[m])
      invariant forall k | i <= k < |devs| && k != m :: Views(devs)[k] == before[k]
    {
      if devs[i] != devs[m] {
        assert devs[i].buffer in Buffers(devs);
        SendTo(devs, m, i, tmp);
      }
    }
  }

  method MyLlseek(file: OpenFile, offset: Off, whence: Whence) returns (ret: Ret)
    modifies file
    ensures ret == SeekDev(file.dev.size, old(file.pos), offset, whence)
    ensures file.pos == if ret.Value? then ret.n else old(file.pos)
  {
    var target: int;
    match whence {
      case SeekSet => target := offset;
      case SeekCur => target := Wrap64(file.pos + offset);
      case SeekEnd => target := Wrap64(file.dev.size + offset);
      case SeekOther => return Fail(EINVAL);
    }
    if target < 0 || target > MY_BUFFER_SIZE {
      return Fail(EINVAL);
    }
    file.pos := target;
    ret := Value(target);
  }

  method MyIoctl(file: OpenFile, command: Command) returns (ret: Ret)
    requires WfDev(file.dev.View())
    modifies file.dev, file.dev.buffer
    ensures (file.dev.View(), ret) == IoctlDev(old(file.dev.View()), command)
  {
    var dev := file.dev;
    match command {
      case Reset =>
        Memcpy(dev.buffer, 0, seq(MY_BUFFER_SIZE, _ => 0));
        assert dev.buffer[..] == seq(MY_BUFFER_SIZE, _ => 0 as byte);
        dev.size := 0;
        dev.dataReady := 0;
        ret := Value(0);
      case SetSize(value, faulted) =>
        if faulted {
          return Fail(EFAULT);
        }
        if value < 0 || value > MY_BUFFER_SIZE {
          return Fail(EINVAL);
        }
        dev.size := value;
        dev.dataReady := if value > 0 then 1 else 0;
        ret := Value(0);
      case GetSize(faulted) =>
        ret := if faulted then Fail(EFAULT) else Value(dev.size);
      case Unknown =>
        ret := Fail(ENOTTY);
    }
  }

  // ---------- the whole driver ----------

  /**
   The devices and the kernel's table of open files. A read() in flight is its own stack frame, so its
   `Reader` is passed in. Every method says: if the objects show a state of the model before, they show
   the state the model's step leads to after, and the answer is the step's.
   */
  class Driver {
    const devs: seq<Device>
    var files: map<Fid, OpenFile>

    /** Objects are where the tables say they are, and none is there twice. */
    ghost predicate Shape()
      reads this
    {
      && Separate(devs)
      && (forall f, g | f in files && g in files && f != g :: files[f] != files[g])
      && (forall f | f in files :: files[f].minor < |devs| && files[f].dev == devs[files[f].minor])
    }

    /** The devices other than m look as in `ds`. */
    ghost predicate DevsExcept(ds: seq<Dev>, m: int)
      reads this, devs, Buffers(devs)
    {
      |ds| == |devs| && forall i | 0 <= i < |devs| && i != m :: ds[i] == devs[i].View()
    }

    /** The files other than fid look as in `fs`, which has no further ones. */
    ghost predicate FilesExcept(fs: map<Fid, File>, fid: int)
      reads this, files.Values
    {
      && (forall f: Fid | f != fid :: f in fs <==> f in files)
      && (forall f: Fid | f != fid && f in files :: fs[f] == files[f].View())
    }

    ghost predicate Shows(s: State)
      reads this, devs, Buffers(devs), files.Values
    {
      Shape() && Wf(s) && DevsExcept(s.devs, -1) && FilesExcept(s.files, -1)
    }

    /** The static `devs[]` as my_init leaves it (its registration part is in DriverRegistration). */
    constructor (minors: nat)
      ensures Shows(Init(minors))
      ensures files == map[] && forall d | d in devs :: fresh(d) && fresh(d.buffer)
    {
      var all: seq<Device> := [];
      for i := 0 to minors
        invariant |all| == i && Separate(all)
        invariant forall k | 0 <= k < i :: fresh(all[k]) && fresh(all[k].buffer)
        invariant forall k | 0 <= k < i :: all[k].View() == Init(minors).devs[k]
      {
        var d := new Device();
        all := all + [d];
      }
      devs, files := all, map[];
    }

    /** A step that changed device m and file fid only is shown once these two are right. */
    lemma ShownAgain(s: State, m: nat, fid: Fid, t: State)
      requires Shape() && m < |devs| && fid in files && DevsExcept(s.devs, m) && FilesExcept(s.files, fid) && Wf(t)
      requires t.devs == s.devs[m := devs[m].View()] && t.files == s.files[fid := files[fid].View()]
      ensures Shows(t)
    {
    }

    /** The same for a step that removed fid from the table. */
    lemma ShownWithout(s: State, m: nat, fid: Fid, t: State)
      requires Shape() && m < |devs| && fid !in files && DevsExcept(s.devs, m) && FilesExcept(s.files, fid) && Wf(t)
      requires t.devs == s.devs[m := devs[m].View()] && t.files == s.files - {fid}
      ensures Shows(t)
    {
    }

    method Open(ghost s: State, minor: nat, fid: Fid, nonblock: bool) returns (ret: Ret)
      requires Shows(s) && minor < |devs| && fid !in files
      modifies this, devs[minor]
      ensures Shows(DoOpen(s, minor, fid, nonblock).0) && ret == DoOpen(s, minor, fid, nonblock).1
      ensures forall f | f in files :: (f in old(files) && files[f] == old(files[f])) || fresh(files[f])
    {
      ret := MyOpen(devs[minor]);
      if ret.Value? {
        EnterFile(s, minor, fid, nonblock);
        ShownAgain(s, minor, fid, DoOpen(s, minor, fid, nonblock).0);
      }
    }

    /** The VFS puts the file that my_open accepted in its table. */
    method EnterFile(ghost s: State, minor: nat, fid: Fid, nonblock: bool)
      requires Shape() && FilesExcept(s.files, fid) && DevsExcept(s.devs, minor) && minor < |devs| && fid !in files
      modifies this
      ensures Shape() && FilesExcept(s.files, fid) && DevsExcept(s.devs, minor)
      ensures fid in files && files[fid].View() == File(minor, 0, nonblock)
      ensures devs[minor].View() == old(devs[minor].View())
      ensures files == old(files)[fid := files[fid]] && fresh(files[fid])
    {
      var file := new OpenFile(minor, devs[minor], nonblock);
      files := files[fid := file];
    }

    /** The VFS calls my_release when nobody is using the file any more. */
    method Release(ghost s: State, fid: Fid) returns (ret: Ret)
      requires Shows(s) && fid in files && forall t | t in s.readers :: s.readers[t].fid != fid
      modifies this, files[fid].dev
      ensures Shows(DoRelease(s, fid).0) && ret == DoRelease(s, fid).1
      ensures files == old(files) - {fid}
    {
      ghost var m := files[fid].minor;
      MyRelease(files[fid].dev);
      RemoveFile(s, fid, m);
      ret := Value(0);
      ShownWithout(s, m, fid, DoRelease(s, fid).0);
    }

    method RemoveFile(ghost s: State, fid: Fid, ghost m: nat)
      requires Shape() && FilesExcept(s.files, fid) && DevsExcept(s.devs, m) && m < |devs|
      modifies this
      ensures Shape() && FilesExcept(s.files, fid) && DevsExcept(s.devs, m)
      ensures files == old(files) - {fid} && devs[m].View() == old(devs[m].View())
    {
      files := files - {fid};
    }

    /** my_read up to the wait. The VFS copies f_pos before the call. */
    method ReadEnter(ghost s: State, tid: Tid, fid: Fid, count: nat) returns (ret: Ret, rd: Reader)
      requires Shows(s) && fid in files && tid !in s.readers
      ensures Shows(DoReadEnter(s, tid, fid, count).0) && ret == DoReadEnter(s, tid, fid, count).1
      ensures ret == Pending ==> DoReadEnter(s, tid, fid, count).0.readers == s.readers[tid := rd]
    {
      var file := files[fid];
      rd := Reader(fid, count, file.pos);
      ret := if file.dev.dataReady == 0 && file.nonblock then Fail(EAGAIN) else Pending;
    }

    /** my_read from the wait on, by a reader that is running. */
    method ReadCheck(ghost s: State, tid: Tid, rd: Reader, signalled: bool, faulted: bool) returns (ret: Ret)
      requires Shows(s) && tid in s.readers && rd == s.readers[tid]
      requires tid in files[rd.fid].dev.asleep ==> signalled
      modifies files[rd.fid], files[rd.fid].dev
      ensures var (t, r) := DoReadCheck(s, tid, signalled, faulted); Shows(t) && ret == r
    {
      ret := ReadThrough(s, tid, rd, signalled, faulted);
      CheckShown(s, tid, signalled, faulted, ret);
    }

    /** my_read on a file of the table leaves the other files and the other devices alone. */
    method ReadThrough(ghost s: State, tid: Tid, rd: Reader, signalled: bool, faulted: bool) returns (ret: Ret)
      requires Shows(s) && rd.fid in files && 0 <= rd.pos <= MY_BUFFER_SIZE
      modifies files[rd.fid], files[rd.fid].dev
      ensures var file := files[rd.fid];
              && Shape() && DevsExcept(s.devs, file.minor) && FilesExcept(s.files, rd.fid)
              && (file.dev.View(), ret, file.pos)
                 == CheckDev(s.devs[file.minor], tid, rd, s.files[rd.fid].pos, signalled, faulted)
    {
      ret := MyRead(files[rd.fid], tid, rd, signalled, faulted);
    }

    lemma CheckShown(s: State, tid: Tid, signalled: bool, faulted: bool, ret: Ret)
      requires Shape() && Wf(s) && tid in s.readers && s.readers[tid].fid in files
      requires var rd := s.readers[tid];
               var file := files[rd.fid];
               && rd.fid in s.files && s.files[rd.fid] == file.View().(pos := s.files[rd.fid].pos)
               && (tid in s.devs[file.minor].asleep ==> signalled)
               && DevsExcept(s.devs, file.minor) && FilesExcept(s.files, rd.fid)
               && (file.dev.View(), ret, file.pos)
                  == CheckDev(s.devs[file.minor], tid, rd, s.files[rd.fid].pos, signalled, faulted)
      ensures var (t, r) := DoReadCheck(s, tid, signalled, faulted); Shows(t) && ret == r
    {
      var rd := s.readers[tid];
      ShownAgain(s, files[rd.fid].minor, rd.fid, DoReadCheck(s, tid, signalled, faulted).0);
    }

    lemma ShownViews(s: State, fid: Fid)
      requires Shows(s) && fid in files
      ensures Views(devs) == s.devs && fid in s.files && files[fid].View() == s.files[fid]
    {
    }

    method Write(ghost s: State, fid: Fid, data: seq<byte>, copy: Copy) returns (ret: Ret)
      requires Shows(s) && fid in files && Fits(files[fid].pos, data, copy)
      modifies files[fid], devs, Buffers(devs)
      ensures Shows(DoWrite(s, fid, data, copy).0) && ret == DoWrite(s, fid, data, copy).1
    {
      ShownViews(s, fid);
      ret := WriteThrough(s.files, fid, data, copy);
      WriteShown(s, fid, data, copy, ret);
    }

    lemma OtherFiles(fid: Fid, others: set<OpenFile>)
      requires Shape() && fid in files && others == files.Values - {files[fid]}
      ensures forall f | f in files && f != fid :: files[f] in others
    {
    }

    /** my_write on a file of the table leaves the other files alone. */
    method WriteThrough(ghost fs: map<Fid, File>, fid: Fid, data: seq<byte>, copy: Copy) returns (ret: Ret)
      requires Shape() && WfDevs(Views(devs)) && FilesExcept(fs, -1)
      requires fid in files && 0 <= files[fid].pos <= MY_BUFFER_SIZE && Fits(files[fid].pos, data, copy)
      modifies files[fid], devs, Buffers(devs)
      ensures (Views(devs), ret, files[fid].pos)
              == WriteFile(old(Views(devs)), files[fid].minor, old(files[fid].pos), data, copy)
      ensures FilesExcept(fs, fid)
    {
      var file := files[fid];
      ghost var others := files.Values - {file};
      OtherFiles(fid, others);
      label Before:
      ret := MyWrite(devs, file, data, copy);
      assert unchanged@Before(others);
    }

    lemma WriteShown(s: State, fid: Fid, data: seq<byte>, copy: Copy, ret: Ret)
      requires Shape() && Wf(s) && fid in files && fid in s.files && Fits(s.files[fid].pos, data, copy)
      requires FilesExcept(s.files, fid) && files[fid].View() == s.files[fid].(pos := files[fid].pos)
      requires var f := s.files[fid];
               (Views(devs), ret, files[fid].pos) == WriteFile(s.devs, f.minor, f.pos, data, copy)
      ensures Shows(DoWrite(s, fid, data, copy).0) && ret == DoWrite(s, fid, data, copy).1
    {
    }

    method Llseek(ghost s: State, fid: Fid, offset: Off, whence: Whence) returns (ret: Ret)
      requires Shows(s) && fid in files
      modifies files[fid]
      ensures Shows(DoSeek(s, fid, offset, whence).0) && ret == DoSeek(s, fid, offset, whence).1
    {
      var file := files[fid];
      ret := MyLlseek(file, offset, whence);
      assert s.files[fid := s.files[fid]] == s.files && s.devs[file.minor := s.devs[file.minor]] == s.devs;
      ShownAgain(s, file.minor, fid, DoSeek(s, fid, offset, whence).0);
    }

    method Ioctl(ghost s: State, fid: Fid, command: Command) returns (ret: Ret)
      requires Shows(s) && fid in files
      modifies files[fid].dev, files[fid].dev.buffer
      ensures Shows(DoIoctl(s, fid, command).0) && ret == DoIoctl(s, fid, command).1
    {
      var file := files[fid];
      ret := MyIoctl(file, command);
      assert s.files[fid := s.files[fid]] == s.files;
      ShownAgain(s, file.minor, fid, DoIoctl(s, fid, command).0);
    }

    // ---------- whatever event comes: the handler it calls, if the kernel would call one ----------

    method TryOpen(ghost s: State, minor: nat, fid: Fid, nonblock: bool) returns (ret: Ret)
      requires Shows(s)
      modifies this, devs
      ensures Shows(DoOpen(s, minor, fid, nonblock).0) && ret == DoOpen(s, minor, fid, nonblock).1
      ensures forall f | f in files :: (f in old(files) && files[f] == old(files[f])) || fresh(files[f])
    {
      if minor >= |devs| || fid in files {
        return Ignored;
      }
      ret := Open(s, minor, fid, nonblock);
    }

    method TryRelease(ghost s: State, readers: map<Tid, Reader>, fid: Fid) returns (ret: Ret)
      requires Shows(s) && readers == s.readers
      modifies this, devs
      ensures Shows(DoRelease(s, fid).0) && ret == DoRelease(s, fid).1
      ensures files == old(files) || files == old(files) - {fid}
    {
      if fid !in files || exists t | t in readers :: readers[t].fid == fid {
        return Ignored;
      }
      ret := Release(s, fid);
    }

    method TryReadEnter(ghost s: State, readers: map<Tid, Reader>, tid: Tid, fid: Fid, count: nat)
      returns (ret: Ret, after: map<Tid, Reader>)
      requires Shows(s) && readers == s.readers
      ensures var (t, r) := DoReadEnter(s, tid, fid, count); Shows(t) && ret == r && after == t.readers
    {
      ret, after := Ignored, readers;
      if fid in files && tid !in readers {
        var rd;
        ret, rd := ReadEnter(s, tid, fid, count);
        after := if ret == Pending then readers[tid := rd] else readers;
      }
    }

    method TryReadCheck(ghost s: State, readers: map<Tid, Reader>, tid: Tid, signalled: bool, faulted: bool)
      returns (ret: Ret, after: map<Tid, Reader>)
      requires Shows(s) && readers == s.readers
      modifies devs, files.Values
      ensures var (t, r) := DoReadCheck(s, tid, signalled, faulted); Shows(t) && ret == r && after == t.readers
    {
      ret, after := Ignored, readers;
      if tid in readers && (tid in files[readers[tid].fid].dev.asleep ==> signalled) {
        ret := ReadCheck(s, tid, readers[tid], signalled, faulted);
        after := if ret == Blocked then readers else readers - {tid};
      }
    }

    method TryWrite(ghost s: State, fid: Fid, data: seq<byte>, copy: Copy) returns (ret: Ret)
      requires Shows(s)
      modifies devs, Buffers(devs), files.Values
      ensures Shows(DoWrite(s, fid, data, copy).0) && ret == DoWrite(s, fid, data, copy).1
    {
      if fid !in files || !Fits(files[fid].pos, data, copy) {
        return Ignored;
      }
      ret := Write(s, fid, data, copy);
    }

    method TrySeek(ghost s: State, fid: Fid, offset: Off, whence: Whence) returns (ret: Ret)
      requires Shows(s)
      modifies files.Values
      ensures Shows(DoSeek(s, fid, offset, whence).0) && ret == DoSeek(s, fid, offset, whence).1
    {
      if fid !in files {
        return Ignored;
      }
      ret := Llseek(s, fid, offset, whence);
    }

    method TryIoctl(ghost s: State, fid: Fid, command: Command) returns (ret: Ret)
      requires Shows(s)
      modifies devs, Buffers(devs)
      ensures Shows(DoIoctl(s, fid, command).0) && ret == DoIoctl(s, fid, command).1
    {
      if fid !in files {
        return Ignored;
      }
      ret := Ioctl(s, fid, command);
    }

    method DispatchHandle(ghost s: State, readers: map<Tid, Reader>, e: Event) returns (ret: Ret)
      requires Shows(s) && readers == s.readers && (e.Open? || e.Release?)
      modifies this, devs
      ensures Shows(Step(s, e).0) && ret == Step(s, e).1
      ensures forall f | f in files :: (f in old(files) && files[f] == old(files[f])) || fresh(files[f])
    {
      if e.Open? {
        ret := TryOpen(s, e.minor, e.fid, e.nonblock);
      } else {
        ret := TryRelease(s, readers, e.fid);
      }
    }

    method DispatchRead(ghost s: State, readers: map<Tid, Reader>, e: Event) returns (ret: Ret, after: map<Tid, Reader>)
      requires Shows(s) && readers == s.readers && (e.ReadEnter? || e.ReadCheck?)
      modifies devs, files.Values
      ensures Shows(Step(s, e).0) && ret == Step(s, e).1 && after == Step(s, e).0.readers
    {
      if e.ReadEnter? {
        ret, after := TryReadEnter(s, readers, e.tid, e.fid, e.count);
      } else {
        ret, after := TryReadCheck(s, readers, e.tid, e.signalled, e.faulted);
      }
    }

    method DispatchUse(ghost s: State, e: Event) returns (ret: Ret)
      requires Shows(s) && (e.Write? || e.Seek? || e.Ioctl?)
      modifies devs, Buffers(devs), files.Values
      ensures Shows(Step(s, e).0) && ret == Step(s, e).1
    {
      if e.Write? {
        ret := TryWrite(s, e.fid, e.data, e.copy);
      } else if e.Seek? {
        ret := TrySeek(s, e.fid, e.offset, e.whence);
      } else {
        ret := TryIoctl(s, e.fid, e.command);
      }
    }

    lemma ReadersStay(s: State, e: Event)
      requires Wf(s) && !e.ReadEnter? && !e.ReadCheck?
      ensures Step(s, e).0.readers == s.readers
    {
    }

    method Dispatch(ghost s: State, readers: map<Tid, Reader>, e: Event) returns (ret: Ret, after: map<Tid, Reader>)
      requires Shows(s) && readers == s.readers
      modifies this, devs, Buffers(devs), files.Values
      ensures Shows(Step(s, e).0) && ret == Step(s, e).1 && after == Step(s, e).0.readers
      ensures forall f | f in files :: (f in old(files) && files[f] == old(files[f])) || fresh(files[f])
    {
      if e.ReadEnter? || e.ReadCheck? {
        ret, after := DispatchRead(s, readers, e);
        return;
      }
      after := readers;
      ReadersStay(s, e);
      if e.Open? || e.Release? {
        ret := DispatchHandle(s, readers, e);
      } else {
        ret := DispatchUse(s, e);
      }
    }
  }

  /** The front event of the rest of a run. */
  lemma FrontEvent(s: State, es: seq<Event>, i: nat)
    requires Wf(s) && i < |es|
    ensures var (t, x) := Step(s, es[i]);
            Run(s, es[i..]).0 == Run(t, es[i + 1..]).0 && Run(s, es[i..]).1 == [x] + Run(t, es[i + 1..]).1
  {
    assert es[i..][0] == es[i] && es[i..][1..] == es[i + 1..];
  }

  /** A whole run on the objects: from module load, any events lead to what the model's run leads to, with
      its answers, so that every theorem about runs holds of these methods. */
  method Play(minors: nat, es: seq<Event>) returns (driver: Driver, rets: seq<Ret>)
    ensures driver.Shows(Run(Init(minors), es).0) && rets == Run(Init(minors), es).1
  {
    driver := new Driver(minors);
    ghost var s, end := Init(minors), Run(Init(minors), es);
    var readers := map[];
    rets := [];
    assert es[0..] == es;
    for i := 0 to |es|
      invariant fresh(driver) && (forall d | d in driver.devs :: fresh(d) && fresh(d.buffer))
      invariant forall f | f in driver.files :: fresh(driver.files[f])
      invariant driver.Shows(s) && readers == s.readers
      invariant end.0 == Run(s, es[i..]).0 && end.1 == rets + Run(s, es[i..]).1
    {
      var ret;
      FrontEvent(s, es, i);
      ret, readers := driver.Dispatch(s, readers, es[i]);
      s := Step(s, es[i]).0;
      rets := rets + [ret];
    }
  }
}
