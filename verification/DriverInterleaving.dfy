/**
 my_write and my_ioctl without the assumption that a handler is one step. The driver takes no lock, so
 any number of calls may interleave between any two statements: a call is a thread with a program counter
 and locals, and each re-read of `dev->size` is a step of its own. Loads and stores of ints are atomic,
 and so is each memcpy, memset or user copy; a copy outside its buffer raises `outOfBounds`.
 */
module DriverInterleaving {
  import opened Basics
  import opened DriverModel

  datatype Mem = Mem(bufs: seq<seq<byte>>, sizes: seq<int>, ready: seq<bool>, outOfBounds: bool)

  /** A call in progress, named after what it is about to do. `m` is its minor, `tmp` its local buffer. */
  datatype Call =
    | CheckSpace(m: nat, pos: nat, data: seq<byte>)
    | CopyIn(m: nat, pos: nat, data: seq<byte>, len: int)
    | SetOwnSize(m: nat, pos: nat, len: int)
    | RaiseOwn(m: nat, len: int)
    | LoadForTmp(m: nat, len: int)
    | FillTmp(m: nat, len: int, n: int)
    | LoopHead(m: nat, len: int, i: nat, tmp: seq<byte>)
    | LoadForCopy(m: nat, len: int, i: nat, tmp: seq<byte>)
    | CopyOut(m: nat, len: int, i: nat, tmp: seq<byte>, n: int)
    | LoadForSize(m: nat, len: int, i: nat, tmp: seq<byte>)
    | SetPeerSize(m: nat, len: int, i: nat, tmp: seq<byte>, n: int)
    | RaisePeer(m: nat, len: int, i: nat, tmp: seq<byte>)
    | ClearBuffer(m: nat)
    | ZeroSize(m: nat)
    | LowerFlag(m: nat)
    | CheckValue(m: nat, value: int)
    | StoreValue(m: nat, value: int)
    | StoreFlag(m: nat, value: int)
    | LoadSize(m: nat)
    | Returned(ret: Ret)

  datatype System = System(mem: Mem, calls: map<Tid, Call>)

  /** A thread starts a call, or advances by one statement. `copy` is what a user copy does, if the
      statement is one; a copy that was given the wrong number of bytes is not a move. */
  datatype Move = Start(tid: Tid, call: Call) | Advance(tid: Tid, copy: Copy)

  /** A copy of `src` into buffer m at `at`, checked against the bounds of the buffer. */
  function Put(mem: Mem, m: nat, at: int, src: seq<byte>): Mem
    requires m < |mem.bufs|
  {
    if 0 <= at && at + |src| <= |mem.bufs[m]| then mem.(bufs := mem.bufs[m := Overwrite(mem.bufs[m], at, src)])
    else mem.(outOfBounds := true)
  }

  /** The first n bytes of a buffer; reading past its end is out of bounds. */
  function Take(mem: Mem, buf: seq<byte>, n: int): (Mem, seq<byte>) {
    if 0 <= n <= |buf| then (mem, buf[..n]) else (mem.(outOfBounds := true), [])
  }

  ghost predicate WfMem(mem: Mem, minors: nat) {
    && |mem.bufs| == |mem.sizes| == |mem.ready| == minors
    && forall m | 0 <= m < minors :: |mem.bufs[m]| == MY_BUFFER_SIZE && 0 <= mem.sizes[m] <= MY_BUFFER_SIZE
  }

  /** What the locals of a call satisfy at each point. Nothing is said about `dev->size`. */
  ghost predicate WfCall(c: Call, minors: nat) {
    match c
    case Returned(_) => true
    case CopyIn(m, pos, data, len) => m < minors && 0 <= len <= |data| && pos + len <= MY_BUFFER_SIZE
    case SetOwnSize(m, pos, len) => m < minors && 0 <= len && pos + len <= MY_BUFFER_SIZE
    case FillTmp(m, _, n) => m < minors && 0 <= n <= MY_BUFFER_SIZE
    case LoopHead(m, _, i, tmp) => m < minors && i <= minors && |tmp| == MY_BUFFER_SIZE
    case LoadForCopy(m, _, i, tmp) => m < minors && i < minors && |tmp| == MY_BUFFER_SIZE
    case CopyOut(m, _, i, tmp, n) => m < minors && i < minors && |tmp| == MY_BUFFER_SIZE && 0 <= n <= MY_BUFFER_SIZE
    case LoadForSize(m, _, i, tmp) => m < minors && i < minors && |tmp| == MY_BUFFER_SIZE
    case SetPeerSize(m, _, i, tmp, n) => m < minors && i < minors && |tmp| == MY_BUFFER_SIZE && 0 <= n <= MY_BUFFER_SIZE
    case RaisePeer(m, _, i, tmp) => m < minors && i < minors && |tmp| == MY_BUFFER_SIZE
    case StoreValue(m, value) => m < minors && 0 <= value <= MY_BUFFER_SIZE
    case _ => c.m < minors
  }

  /** Calls enter at these points, on any minor, with any position, data and value. */
  predicate Entry(c: Call) {
    c.CheckSpace? || c.ClearBuffer? || c.CheckValue? || c.LoadSize?
  }

  /** One statement of one call. */
  function Exec(mem: Mem, c: Call, copy: Copy, minors: nat): (r: (Mem, Call))
    requires WfMem(mem, minors) && WfCall(c, minors)
  {
    match c
    case CheckSpace(m, pos, data) =>
      if pos >= MY_BUFFER_SIZE then (mem, Returned(Fail(ENOSPC)))
      else (mem, CopyIn(m, pos, data, Min(|data|, MY_BUFFER_SIZE - pos)))
    case CopyIn(m, pos, data, len) =>
      if copy.Complete? then (Put(mem, m, pos, data[..len]), SetOwnSize(m, pos, len))
      else if |copy.left| == len then (Put(mem, m, pos, copy.left), Returned(Fail(EFAULT)))
      else (mem, c)
    case SetOwnSize(m, pos, len) => (mem.(sizes := mem.sizes[m := pos + len]), RaiseOwn(m, len))
    case RaiseOwn(m, len) => (mem.(ready := mem.ready[m := true]), LoadForTmp(m, len))
    case LoadForTmp(m, len) => (mem, FillTmp(m, len, mem.sizes[m]))
    case FillTmp(m, len, n) =>
      var (mem', got) := Take(mem, mem.bufs[m], n);
      (mem', LoopHead(m, len, 0, got + seq(MY_BUFFER_SIZE - |got|, _ => 0)))
    case LoopHead(m, len, i, tmp) =>
      if i >= minors then (mem, Returned(Value(len)))
      else if i == m then (mem, LoopHead(m, len, i + 1, tmp))
      else (mem, LoadForCopy(m, len, i, tmp))
    case LoadForCopy(m, len, i, tmp) => (mem, CopyOut(m, len, i, tmp, mem.sizes[m]))
    case CopyOut(m, len, i, tmp, n) =>
      var (mem', got) := Take(mem, tmp, n);
      (Put(mem', i, 0, got), LoadForSize(m, len, i, tmp))
    case LoadForSize(m, len, i, tmp) => (mem, SetPeerSize(m, len, i, tmp, mem.sizes[m]))
    case SetPeerSize(m, len, i, tmp, n) => (mem.(sizes := mem.sizes[i := n]), RaisePeer(m, len, i, tmp))
    case RaisePeer(m, len, i, tmp) => (mem.(ready := mem.ready[i := true]), LoopHead(m, len, i + 1, tmp))
    case ClearBuffer(m) => (Put(mem, m, 0, seq(MY_BUFFER_SIZE, _ => 0)), ZeroSize(m))
    case ZeroSize(m) => (mem.(sizes := mem.sizes[m := 0]), LowerFlag(m))
    case LowerFlag(m) => (mem.(ready := mem.ready[m := false]), Returned(Value(0)))
    case CheckValue(m, value) =>
      if copy.Faulted? then (mem, Returned(Fail(EFAULT)))
      else if value < 0 || value > MY_BUFFER_SIZE then (mem, Returned(Fail(EINVAL)))
      else (mem, StoreValue(m, value))
    case StoreValue(m, value) => (mem.(sizes := mem.sizes[m := value]), StoreFlag(m, value))
    case StoreFlag(m, value) => (mem.(ready := mem.ready[m := value > 0]), Returned(Value(0)))
    case LoadSize(m) => (mem, Returned(if copy.Faulted? then Fail(EFAULT) else Value(mem.sizes[m])))
    case Returned(_) => (mem, c)
  }

  ghost predicate WfSystem(s: System, minors: nat) {
    WfMem(s.mem, minors) && forall t | t in s.calls :: WfCall(s.calls[t], minors)
  }

  /** The statements of a write in front of its loop. */
  lemma OwnInBounds(mem: Mem, c: Call, copy: Copy, minors: nat)
    requires WfMem(mem, minors) && WfCall(c, minors)
    requires c.CheckSpace? || c.CopyIn? || c.SetOwnSize? || c.RaiseOwn? || c.LoadForTmp? || c.FillTmp?
    ensures StaysInBounds(mem, c, copy, minors)
  {
  }

  /** The statements of its loop. */
  lemma LoopInBounds(mem: Mem, c: Call, copy: Copy, minors: nat)
    requires WfMem(mem, minors) && WfCall(c, minors)
    requires c.LoopHead? || c.LoadForCopy? || c.CopyOut? || c.LoadForSize? || c.SetPeerSize? || c.RaisePeer?
    ensures StaysInBounds(mem, c, copy, minors)
  {
  }

  ghost predicate StaysInBounds(mem: Mem, c: Call, copy: Copy, minors: nat)
    requires WfMem(mem, minors) && WfCall(c, minors)
  {
    var (mem', c') := Exec(mem, c, copy, minors);
    WfMem(mem', minors) && WfCall(c', minors) && mem'.outOfBounds == mem.outOfBounds
  }

  /** One statement keeps sizes and locals in range and stays inside every buffer. */
  lemma ExecInBounds(mem: Mem, c: Call, copy: Copy, minors: nat)
    requires WfMem(mem, minors) && WfCall(c, minors)
    ensures var (mem', c') := Exec(mem, c, copy, minors);
            WfMem(mem', minors) && WfCall(c', minors) && mem'.outOfBounds == mem.outOfBounds
  {
    if c.CheckSpace? || c.CopyIn? || c.SetOwnSize? || c.RaiseOwn? || c.LoadForTmp? || c.FillTmp? {
      OwnInBounds(mem, c, copy, minors);
    } else if c.LoopHead? || c.LoadForCopy? || c.CopyOut? || c.LoadForSize? || c.SetPeerSize? || c.RaisePeer? {
      LoopInBounds(mem, c, copy, minors);
    }
  }

  function Go(s: System, move: Move, minors: nat): (r: System)
    requires WfSystem(s, minors)
    ensures WfSystem(r, minors) && r.mem.outOfBounds == s.mem.outOfBounds
  {
    match move
    case Start(tid, call) =>
      if Entry(call) && call.m < minors && (tid in s.calls ==> s.calls[tid].Returned?)
      then s.(calls := s.calls[tid := call]) else s
    case Advance(tid, copy) =>
      if tid !in s.calls then s
      else
        var (mem, c) := Exec(s.mem, s.calls[tid], copy, minors);
        ExecInBounds(s.mem, s.calls[tid], copy, minors);
        System(mem, s.calls[tid := c])
  }

  function GoAll(s: System, moves: seq<Move>, minors: nat): (r: System)
    requires WfSystem(s, minors)
    ensures WfSystem(r, minors)
    decreases |moves|
  {
    if moves == [] then s else GoAll(Go(s, moves[0], minors), moves[1..], minors)
  }

  /** Module load: empty devices, no call in progress. */
  function Loaded(minors: nat): System {
    System(Mem(seq(minors, _ => seq(MY_BUFFER_SIZE, _ => 0)), seq(minors, _ => 0), seq(minors, _ => false), false), map[])
  }

  /**
   For any number of minors, any number of write and ioctl calls and any interleaving of their
   statements: no copy ever leaves its buffer, and every size stays within the buffer.
   */
  lemma {:induction false} BoundsUnderInterleaving(minors: nat, moves: seq<Move>)
    ensures var s := GoAll(Loaded(minors), moves, minors);
            && !s.mem.outOfBounds
            && |s.mem.sizes| == minors && forall m | 0 <= m < minors :: 0 <= s.mem.sizes[m] <= MY_BUFFER_SIZE
  {
    NeverOutOfBounds(Loaded(minors), moves, minors);
  }

  lemma {:induction false} NeverOutOfBounds(s: System, moves: seq<Move>, minors: nat)
    requires WfSystem(s, minors)
    ensures GoAll(s, moves, minors).mem.outOfBounds == s.mem.outOfBounds
    decreases |moves|
  {
    if moves == [] {
    } else {
      NeverOutOfBounds(Go(s, moves[0], minors), moves[1..], minors);
    }
  }

  // ---------- calls running alone ----------

  lemma {:induction false} GoAllConcat(s: System, a: seq<Move>, b: seq<Move>, minors: nat)
    requires WfSystem(s, minors)
    ensures GoAll(s, a + b, minors) == GoAll(GoAll(s, a, minors), b, minors)
    decreases |a|
  {
    if a == [] {
      assert a + b == b;
    } else {
      assert (a + b)[0] == a[0] && (a + b)[1..] == a[1..] + b;
      GoAllConcat(Go(s, a[0], minors), a[1..], b, minors);
    }
  }

  /** k statements of one call, undisturbed: as moves of the system, and on the call alone. */
  function Solo(tid: Tid, k: nat): seq<Move> {
    if k == 0 then [] else [Advance(tid, Complete)] + Solo(tid, k - 1)
  }

  function Alone(mem: Mem, c: Call, k: nat, minors: nat): (r: (Mem, Call))
    requires WfMem(mem, minors) && WfCall(c, minors)
    ensures WfMem(r.0, minors) && WfCall(r.1, minors)
    decreases k
  {
    if k == 0 then (mem, c)
    else
      var (mem', c') := Exec(mem, c, Complete, minors);
      ExecInBounds(mem, c, Complete, minors);
      Alone(mem', c', k - 1, minors)
  }

  lemma {:induction false} SoloIsAlone(s: System, tid: Tid, k: nat, minors: nat)
    requires WfSystem(s, minors) && tid in s.calls
    ensures var (mem, c) := Alone(s.mem, s.calls[tid], k, minors);
            GoAll(s, Solo(tid, k), minors) == System(mem, s.calls[tid := c])
    decreases k
  {
    if k == 0 {
      assert s.calls[tid := s.calls[tid]] == s.calls;
    } else {
      var t := Go(s, Advance(tid, Complete), minors);
      assert Solo(tid, k)[0] == Advance(tid, Complete) && Solo(tid, k)[1..] == Solo(tid, k - 1);
      SoloIsAlone(t, tid, k - 1, minors);
      var (mem, c) := Alone(t.mem, t.calls[tid], k - 1, minors);
      assert t.calls[tid := c] == s.calls[tid := c];
    }
  }

  lemma {:induction false} AloneMore(mem: Mem, c: Call, j: nat, k: nat, minors: nat)
    requires WfMem(mem, minors) && WfCall(c, minors)
    ensures var (mem', c') := Alone(mem, c, j, minors);
            Alone(mem, c, j + k, minors) == Alone(mem', c', k, minors)
    decreases j
  {
    if j == 0 {
    } else {
      var (mem', c') := Exec(mem, c, Complete, minors);
      ExecInBounds(mem, c, Complete, minors);
      AloneMore(mem', c', j - 1, k, minors);
    }
  }

  ghost predicate WfAt(at: (Mem, Call), minors: nat) { WfMem(at.0, minors) && WfCall(at.1, minors) }

  /** An undisturbed call gets from a to b in k statements. */
  ghost predicate Reaches(a: (Mem, Call), b: (Mem, Call), k: nat, minors: nat) {
    WfAt(a, minors) && Alone(a.0, a.1, k, minors) == b
  }

  ghost predicate GetsTo(a: (Mem, Call), b: (Mem, Call), minors: nat) {
    exists k :: Reaches(a, b, k, minors)
  }

  /** One statement more in front. */
  lemma OneMore(a: (Mem, Call), b: (Mem, Call), c: (Mem, Call), k: nat, minors: nat)
    requires WfAt(a, minors) && Exec(a.0, a.1, Complete, minors) == b && Reaches(b, c, k, minors)
    ensures Reaches(a, c, k + 1, minors)
  {
  }

  lemma ReachesTwice(a: (Mem, Call), b: (Mem, Call), c: (Mem, Call), j: nat, k: nat, minors: nat)
    requires Reaches(a, b, j, minors) && Reaches(b, c, k, minors)
    ensures Reaches(a, c, j + k, minors)
  {
    AloneMore(a.0, a.1, j, k, minors);
  }

  /** The memory after the part of a write that works on its own minor. */
  function Filled(mem: Mem, m: nat, pos: nat, data: seq<byte>): Mem
    requires m < |mem.bufs| == |mem.sizes| == |mem.ready|
  {
    Put(mem, m, pos, data).(sizes := mem.sizes[m := pos + |data|], ready := mem.ready[m := true])
  }

  /** A write that finds room stores its bytes, its size and its flag, and starts its broadcast. */
  lemma WriteFills(mem: Mem, m: nat, pos: nat, data: seq<byte>, minors: nat) returns (k: nat)
    requires WfMem(mem, minors) && m < minors && pos < MY_BUFFER_SIZE
    ensures var len := Room(pos, |data|);
            var mem' := Filled(mem, m, pos, data[..len]);
            && WfMem(mem', minors)
            && Reaches((mem, CheckSpace(m, pos, data)), (mem', LoadForTmp(m, len)), k, minors)
  {
    var len := Room(pos, |data|);
    var mem2 := Put(mem, m, pos, data[..len]);
    var mem3 := mem2.(sizes := mem2.sizes[m := pos + len]);
    var a3, a4 := (mem3, RaiseOwn(m, len)), (Filled(mem, m, pos, data[..len]), LoadForTmp(m, len));
    k := 0;
    OneMore(a3, a4, a4, k, minors);
    k := k + 1;
    OneMore((mem2, SetOwnSize(m, pos, len)), a3, a4, k, minors);
    k := k + 1;
    OneMore((mem, CopyIn(m, pos, data, len)), (mem2, SetOwnSize(m, pos, len)), a4, k, minors);
    k := k + 1;
    OneMore((mem, CheckSpace(m, pos, data)), (mem, CopyIn(m, pos, data, len)), a4, k, minors);
    k := k + 1;
  }

  /** A call on minor m is at pass i of its broadcast of the bytes x, which are all its device shows. */
  ghost predicate Broadcasting(mem: Mem, c: Call, m: nat, i: nat, x: seq<byte>, minors: nat) {
    && WfMem(mem, minors) && WfCall(c, minors) && m < minors
    && c.LoopHead? && c.m == m && c.i == i && mem.sizes[m] == |x| && |x| <= |c.tmp| && c.tmp[..|x|] == x
  }

  lemma TmpFilled(mem: Mem, m: nat, len: int, minors: nat) returns (c: Call, k: nat)
    requires WfMem(mem, minors) && m < minors
    ensures Reaches((mem, LoadForTmp(m, len)), (mem, c), k, minors) && c.LoopHead? && c.len == len
    ensures Broadcasting(mem, c, m, 0, mem.bufs[m][..mem.sizes[m]], minors)
  {
    var n := mem.sizes[m];
    c := LoopHead(m, len, 0, mem.bufs[m][..n] + seq(MY_BUFFER_SIZE - n, _ => 0));
    k := 0;
    OneMore((mem, FillTmp(m, len, n)), (mem, c), (mem, c), k, minors);
    k := k + 1;
    OneMore((mem, LoadForTmp(m, len)), (mem, FillTmp(m, len, n)), (mem, c), k, minors);
    k := k + 1;
  }

  /** Pass i of the loop: the peer gets the bytes x, their number as size, and the flag. */
  function Passed(mem: Mem, m: nat, i: nat, x: seq<byte>): Mem
    requires i < |mem.bufs| == |mem.sizes| == |mem.ready|
  {
    if i == m then mem
    else Put(mem, i, 0, x).(sizes := mem.sizes[i := |x|], ready := mem.ready[i := true])
  }

  lemma OnePass(mem: Mem, c: Call, m: nat, i: nat, x: seq<byte>, minors: nat) returns (k: nat)
    requires Broadcasting(mem, c, m, i, x, minors) && i < minors
    ensures Reaches((mem, c), (Passed(mem, m, i, x), LoopHead(m, c.len, i + 1, c.tmp)), k, minors)
  {
    var n, tmp, len := |x|, c.tmp, c.len;
    var end := (Passed(mem, m, i, x), LoopHead(m, len, i + 1, tmp));
    k := 0;
    if i == m {
      OneMore((mem, c), end, end, k, minors);
      k := k + 1;
    } else {
      var mem3 := Put(mem, i, 0, x);
      var mem5 := mem3.(sizes := mem3.sizes[i := n]);
      OneMore((mem5, RaisePeer(m, len, i, tmp)), end, end, k, minors);
      k := k + 1;
      OneMore((mem3, SetPeerSize(m, len, i, tmp, n)), (mem5, RaisePeer(m, len, i, tmp)), end, k, minors);
      k := k + 1;
      k := OnePassCopies(mem, c, m, i, x, minors, end, k);
    }
  }

  /** The first half of a pass: the load, the copy, and the second load. */
  lemma OnePassCopies(mem: Mem, c: Call, m: nat, i: nat, x: seq<byte>, minors: nat, end: (Mem, Call), j: nat) returns (k: nat)
    requires Broadcasting(mem, c, m, i, x, minors) && i < minors && i != m
    requires Reaches((Put(mem, i, 0, x), SetPeerSize(m, c.len, i, c.tmp, |x|)), end, j, minors)
    ensures Reaches((mem, c), end, k, minors)
  {
    var n, tmp, len := |x|, c.tmp, c.len;
    var mem3 := Put(mem, i, 0, x);
    k := j;
    OneMore((mem3, LoadForSize(m, len, i, tmp)), (mem3, SetPeerSize(m, len, i, tmp, n)), end, k, minors);
    k := k + 1;
    OneMore((mem, CopyOut(m, len, i, tmp, n)), (mem3, LoadForSize(m, len, i, tmp)), end, k, minors);
    k := k + 1;
    OneMore((mem, LoadForCopy(m, len, i, tmp)), (mem, CopyOut(m, len, i, tmp, n)), end, k, minors);
    k := k + 1;
    OneMore((mem, c), (mem, LoadForCopy(m, len, i, tmp)), end, k, minors);
    k := k + 1;
  }

  /** The memory after passes i and up. */
  function AllPassed(mem: Mem, m: nat, i: nat, x: seq<byte>, minors: nat): (r: Mem)
    requires WfMem(mem, minors) && i <= minors && |x| <= MY_BUFFER_SIZE
    ensures WfMem(r, minors) && r.outOfBounds == mem.outOfBounds
    ensures forall k | 0 <= k < minors ::
              if k < i || k == m then r.bufs[k] == mem.bufs[k] && r.sizes[k] == mem.sizes[k] && r.ready[k] == mem.ready[k]
              else r.bufs[k] == Overwrite(mem.bufs[k], 0, x) && r.sizes[k] == |x| && r.ready[k]
    decreases minors - i
  {
    if i == minors then mem else AllPassed(Passed(mem, m, i, x), m, i + 1, x, minors)
  }

  lemma {:induction false} RestOfBroadcast(mem: Mem, c: Call, m: nat, i: nat, x: seq<byte>, minors: nat) returns (k: nat)
    requires Broadcasting(mem, c, m, i, x, minors) && i <= minors
    ensures Reaches((mem, c), (AllPassed(mem, m, i, x, minors), Returned(Value(c.len))), k, minors)
    decreases minors - i
  {
    var end := (AllPassed(mem, m, i, x, minors), Returned(Value(c.len)));
    if i == minors {
      k := 0;
      OneMore((mem, c), end, end, k, minors);
      k := k + 1;
    } else {
      var next := (Passed(mem, m, i, x), LoopHead(m, c.len, i + 1, c.tmp));
      var j := OnePass(mem, c, m, i, x, minors);
      k := RestOfBroadcast(next.0, next.1, m, i + 1, x, minors);
      ReachesTwice((mem, c), next, end, j, k, minors);
      k := j + k;
    }
  }

  // ---------- undisturbed calls are the handlers' atomic steps ----------

  /** The devices without their wait queues and open counts. */
  function MemOf(devs: seq<Dev>): (r: Mem)
    ensures WfDevs(devs) ==> WfMem(r, |devs|)
  {
    Mem(seq(|devs|, i requires 0 <= i < |devs| => devs[i].buffer), seq(|devs|, i requires 0 <= i < |devs| => devs[i].size),
        seq(|devs|, i requires 0 <= i < |devs| => devs[i].ready), false)
  }

  /** A write call that nobody interrupts does to the memory what the atomic write does to the devices. */
  lemma WriteAloneIsAtomic(devs: seq<Dev>, m: nat, pos: nat, data: seq<byte>)
    requires WfDevs(devs) && m < |devs| && pos <= MY_BUFFER_SIZE
    ensures var (devs', ret, _) := WriteFile(devs, m, pos, data, Complete);
            GetsTo((MemOf(devs), CheckSpace(m, pos, data)), (MemOf(devs'), Returned(ret)), |devs|)
  {
    var mem, c0, n := MemOf(devs), CheckSpace(m, pos, data), |devs|;
    if pos == MY_BUFFER_SIZE {
      OneMore((mem, c0), (mem, Returned(Fail(ENOSPC))), (mem, Returned(Fail(ENOSPC))), 0, n);
    } else {
      var len := Room(pos, |data|);
      var mem1 := Filled(mem, m, pos, data[..len]);
      var k := WriteFills(mem, m, pos, data, n);
      var c, j := TmpFilled(mem1, m, len, n);
      var x := mem1.bufs[m][..mem1.sizes[m]];
      var l := RestOfBroadcast(mem1, c, m, 0, x, n);
      var end := (AllPassed(mem1, m, 0, x, n), Returned(Value(len)));
      ReachesTwice((mem, c0), (mem1, LoadForTmp(m, len)), (mem1, c), k, j, n);
      ReachesTwice((mem, c0), (mem1, c), end, k + j, l, n);
      BroadcastResult(devs, m, pos, data[..len]);
    }
  }

  lemma BroadcastResult(devs: seq<Dev>, m: nat, pos: nat, data: seq<byte>)
    requires WfDevs(devs) && m < |devs| && pos + |data| <= MY_BUFFER_SIZE
    ensures var mem1 := Filled(MemOf(devs), m, pos, data);
            && WfMem(mem1, |devs|)
            && AllPassed(mem1, m, 0, mem1.bufs[m][..mem1.sizes[m]], |devs|) == MemOf(WriteDevs(devs, m, pos, data))
  {
    var mem1 := Filled(MemOf(devs), m, pos, data);
    var mem2 := AllPassed(mem1, m, 0, mem1.bufs[m][..mem1.sizes[m]], |devs|);
    var after := WriteDevs(devs, m, pos, data);
    forall k | 0 <= k < |devs|
      ensures mem2.bufs[k] == after[k].buffer && mem2.sizes[k] == after[k].size && mem2.ready[k] == after[k].ready
    {
    }
    assert mem2 == MemOf(after);
  }

  /** The same for the ioctls. */
  function IoctlCall(m: nat, c: Command): Call
    requires !c.Unknown?
  {
    match c
    case Reset => ClearBuffer(m)
    case SetSize(value, _) => CheckValue(m, value)
    case GetSize(_) => LoadSize(m)
  }

  lemma IoctlAloneIsAtomic(devs: seq<Dev>, m: nat, c: Command)
    requires WfDevs(devs) && m < |devs| && !c.Unknown? && (c.Reset? || !c.faulted)
    ensures var (d, ret) := IoctlDev(devs[m], c);
            GetsTo((MemOf(devs), IoctlCall(m, c)), (MemOf(devs[m := d]), Returned(ret)), |devs|)
  {
    var mem, n := MemOf(devs), |devs|;
    var (d, ret) := IoctlDev(devs[m], c);
    assert devs[m := devs[m]] == devs;
    match c
    case Reset =>
      var k := ResetAlone(devs, m);
    case SetSize(value, _) =>
      var k := SetSizeAlone(devs, m, value);
    case GetSize(_) =>
      var end := (mem, Returned(ret));
      OneMore((mem, LoadSize(m)), end, end, 0, n);
  }

  /** A write whose user copy faults ends there, with the bytes the fault left and nothing else changed. */
  lemma FaultedWriteIsAtomic(devs: seq<Dev>, m: nat, pos: nat, data: seq<byte>, left: seq<byte>)
    requires WfDevs(devs) && m < |devs| && pos < MY_BUFFER_SIZE && |left| == Room(pos, |data|)
    ensures var (devs', ret, _) := WriteFile(devs, m, pos, data, Faulted(left));
            Exec(MemOf(devs), CopyIn(m, pos, data, Room(pos, |data|)), Faulted(left), |devs|) == (MemOf(devs'), Returned(ret))
  {
    var devs' := WriteFile(devs, m, pos, data, Faulted(left)).0;
    assert Put(MemOf(devs), m, pos, left) == MemOf(devs');
  }

  /** An ioctl whose user copy faults changes nothing. */
  lemma FaultedIoctlIsAtomic(devs: seq<Dev>, m: nat, c: Command, left: seq<byte>)
    requires WfDevs(devs) && m < |devs| && (c.SetSize? || c.GetSize?) && c.faulted
    ensures var (d, ret) := IoctlDev(devs[m], c);
            d == devs[m] && Exec(MemOf(devs), IoctlCall(m, c), Faulted(left), |devs|) == (MemOf(devs), Returned(ret))
  {
  }

  lemma ResetAlone(devs: seq<Dev>, m: nat) returns (k: nat)
    requires WfDevs(devs) && m < |devs|
    ensures var (d, ret) := IoctlDev(devs[m], Reset);
            Reaches((MemOf(devs), ClearBuffer(m)), (MemOf(devs[m := d]), Returned(ret)), k, |devs|)
  {
    var mem, n, d := MemOf(devs), |devs|, IoctlDev(devs[m], Reset).0;
    var mem1 := Put(mem, m, 0, seq(MY_BUFFER_SIZE, _ => 0));
    assert mem1.bufs[m] == d.buffer;
    var mem2 := mem1.(sizes := mem1.sizes[m := 0]);
    var mem3 := mem2.(ready := mem2.ready[m := false]);
    assert mem3 == MemOf(devs[m := d]);
    var end := (mem3, Returned(Value(0)));
    k := 0;
    OneMore((mem2, LowerFlag(m)), end, end, k, n);
    k := k + 1;
    OneMore((mem1, ZeroSize(m)), (mem2, LowerFlag(m)), end, k, n);
    k := k + 1;
    OneMore((mem, ClearBuffer(m)), (mem1, ZeroSize(m)), end, k, n);
    k := k + 1;
  }

  lemma SetSizeAlone(devs: seq<Dev>, m: nat, value: int) returns (k: nat)
    requires WfDevs(devs) && m < |devs|
    ensures var (d, ret) := IoctlDev(devs[m], SetSize(value, false));
            Reaches((MemOf(devs), CheckValue(m, value)), (MemOf(devs[m := d]), Returned(ret)), k, |devs|)
  {
    var mem, n := MemOf(devs), |devs|;
    var (d, ret) := IoctlDev(devs[m], SetSize(value, false));
    var end := (MemOf(devs[m := d]), Returned(ret));
    k := 0;
    if value < 0 || value > MY_BUFFER_SIZE {
      assert devs[m := devs[m]] == devs;
    } else {
      var mem1 := mem.(sizes := mem.sizes[m := value]);
      var mem2 := mem1.(ready := mem1.ready[m := value > 0]);
      assert mem2 == end.0;
      OneMore((mem1, StoreFlag(m, value)), end, end, k, n);
      k := k + 1;
      OneMore((mem, StoreValue(m, value)), (mem1, StoreFlag(m, value)), end, k, n);
      OneMore((mem, CheckValue(m, value)), (mem, StoreValue(m, value)), end, k + 1, n);
      k := k + 2;
      return;
    }
    OneMore((mem, CheckValue(m, value)), end, end, k, n);
    k := k + 1;
  }
}
