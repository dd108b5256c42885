/**
 What successive calls add up to: cutting a write into chunks changes nothing, and bytes written on one
 minor are read back on any other.
 */
module DriverStreams {
  import opened Basics
  import opened DriverModel

  // ---------- chunked writes ----------

  function Concat(chunks: seq<seq<byte>>): seq<byte> {
    if chunks == [] then [] else chunks[0] + Concat(chunks[1..])
  }

  /** The bytes a write accepted; a write refused with ENOSPC accepted none. */
  function Accepted(ret: Ret): int { if ret.Value? then ret.n else 0 }

  /** Consecutive writes of the chunks through one file, and the total they accepted. */
  function WriteChunks(s: State, fid: Fid, chunks: seq<seq<byte>>): (r: (State, int))
    requires Wf(s)
    decreases |chunks|
  {
    if chunks == [] then (s, 0)
    else
      var (t, ret) := Step(s, Write(fid, chunks[0], Complete));
      var (u, n) := WriteChunks(t, fid, chunks[1..]);
      (u, Accepted(ret) + n)
  }

  /** Two writes in a row on the devices are one write of both. */
  lemma WriteDevsTwice(devs: seq<Dev>, m: nat, at: nat, a: seq<byte>, b: seq<byte>)
    requires WfDevs(devs) && m < |devs| && at + |a| + |b| <= MY_BUFFER_SIZE
    ensures WriteDevs(WriteDevs(devs, m, at, a), m, at + |a|, b) == WriteDevs(devs, m, at, a + b)
  {
    var two := WriteDevs(WriteDevs(devs, m, at, a), m, at + |a|, b);
    var one := WriteDevs(devs, m, at, a + b);
    assert two[m].buffer == one[m].buffer;
    forall i | 0 <= i < |devs|
      ensures two[i] == one[i]
    {
      assert two[i].buffer == one[i].buffer;
    }
  }

  /** The same on one file, with the cursor and the space it leaves. */
  lemma WriteFileTwice(devs: seq<Dev>, m: nat, pos: int, a: seq<byte>, b: seq<byte>)
    requires WfDevs(devs) && m < |devs| && 0 <= pos <= MY_BUFFER_SIZE
    ensures var (d1, r1, p1) := WriteFile(devs, m, pos, a, Complete);
            var (d2, r2, p2) := WriteFile(d1, m, p1, b, Complete);
            var (d, r, p) := WriteFile(devs, m, pos, a + b, Complete);
            d2 == d && p2 == p && Accepted(r1) + Accepted(r2) == Accepted(r) == Min(|a + b|, MY_BUFFER_SIZE - pos)
  {
    if pos < MY_BUFFER_SIZE {
      var la := Room(pos, |a|);
      if pos + la < MY_BUFFER_SIZE {
        var lb := Room(pos + la, |b|);
        assert a[..la] == a;
        assert (a + b)[..la + lb] == a + b[..lb];
        WriteDevsTwice(devs, m, pos, a, b[..lb]);
      } else {
        assert (a + b)[..la] == a[..la];
      }
    }
  }

  lemma TwoWritesAreOne(s: State, fid: Fid, a: seq<byte>, b: seq<byte>)
    requires Wf(s) && fid in s.files
    ensures var (t, ra) := Step(s, Write(fid, a, Complete));
            var (u, rb) := Step(t, Write(fid, b, Complete));
            var (v, rab) := Step(s, Write(fid, a + b, Complete));
            && fid in t.files && u == v && Accepted(ra) + Accepted(rb) == Accepted(rab)
            && Accepted(rab) == Min(|a + b|, MY_BUFFER_SIZE - s.files[fid].pos)
  {
    var f := s.files[fid];
    WriteFileTwice(s.devs, f.minor, f.pos, a, b);
    var t := Step(s, Write(fid, a, Complete)).0;
    var g := f.(pos := WriteFile(s.devs, f.minor, f.pos, a + b, Complete).2);
    assert t.files[fid := g] == s.files[fid := g];
  }

  /**
   For every file at any position and every non-empty list of chunks, empty ones included: writing the
   chunks one after the other leaves every minor, every cursor and every reader exactly as one write of
   their concatenation does, and the accepted total is what the space behind the cursor allows.
   */
  lemma {:induction false} ChunkingIsInvisible(s: State, fid: Fid, chunks: seq<seq<byte>>)
    requires Wf(s) && fid in s.files && chunks != []
    ensures WriteChunks(s, fid, chunks).0 == Step(s, Write(fid, Concat(chunks), Complete)).0
    ensures WriteChunks(s, fid, chunks).1 == Min(|Concat(chunks)|, MY_BUFFER_SIZE - s.files[fid].pos)
    decreases |chunks|
  {
    var rest := chunks[1..];
    if rest == [] {
      assert Concat(chunks) == chunks[0];
      TwoWritesAreOne(s, fid, [], chunks[0]);
      assert [] + chunks[0] == chunks[0];
    } else {
      ChunkingIsInvisible(Step(s, Write(fid, chunks[0], Complete)).0, fid, rest);
      TwoWritesAreOne(s, fid, chunks[0], Concat(rest));
    }
  }

  // ---------- reading back ----------

  /** One whole read() by a thread that is not already reading: entry, then check and copy. */
  function Read(s: State, fid: Fid, tid: Tid, count: nat): (r: (State, Ret))
    requires Wf(s)
    ensures Wf(r.0)
  {
    Step(Step(s, ReadEnter(tid, fid, count)).0, ReadCheck(tid, false, false))
  }

  /** A ready file at `pos`, with thread `tid` free to read it. */
  ghost predicate Readable(s: State, fid: Fid, tid: Tid) {
    && Wf(s) && fid in s.files && tid !in s.readers
    && s.devs[s.files[fid].minor].ready && tid !in s.devs[s.files[fid].minor].asleep
  }

  /** From s to t the file handed out `data`, the visible bytes from its cursor on, and nothing else changed. */
  ghost predicate HandsOut(s: State, fid: Fid, data: seq<byte>, t: State)
    requires Wf(s) && fid in s.files
  {
    var f := s.files[fid];
    var d := s.devs[f.minor];
    && t.devs == s.devs && t.readers == s.readers && t.files == s.files[fid := f.(pos := f.pos + |data|)]
    && (data == [] || (f.pos + |data| <= d.size && data == d.buffer[f.pos..f.pos + |data|]))
  }

  lemma HandsOutTwice(s: State, t: State, u: State, fid: Fid, a: seq<byte>, b: seq<byte>)
    requires Wf(s) && Wf(t) && fid in s.files && fid in t.files
    requires HandsOut(s, fid, a, t) && HandsOut(t, fid, b, u)
    ensures HandsOut(s, fid, a + b, u)
  {
    var f := s.files[fid];
    if a == [] {
      assert a + b == b;
    } else if b == [] {
      assert a + b == a;
    }
    assert u.files == s.files[fid := f.(pos := f.pos + |a + b|)];
  }

  lemma ReadOnce(s: State, fid: Fid, tid: Tid, count: nat)
    requires Readable(s, fid, tid)
    ensures var (t, ret) := Read(s, fid, tid, count);
            && Readable(t, fid, tid)
            && ret.Bytes? && HandsOut(s, fid, ret.data, t)
            && |ret.data| == (var f := s.files[fid]; var size := s.devs[f.minor].size;
                              if f.pos >= size then 0 else Min(count, size - f.pos))
  {
    var f := s.files[fid];
    var d := s.devs[f.minor];
    assert d.asleep - {tid} == d.asleep;
    assert s.devs[f.minor := d.(asleep := d.asleep - {tid})] == s.devs;
    assert s.readers[tid := Reader(fid, count, f.pos)] - {tid} == s.readers;
  }

  /** From s to t everything visible from the cursor on was handed out, as `data`. */
  ghost predicate RestRead(s: State, fid: Fid, data: seq<byte>, t: State)
    requires Wf(s) && fid in s.files
  {
    Wf(t) && HandsOut(s, fid, data, t) && t.files[fid].pos >= t.devs[s.files[fid].minor].size
  }

  lemma RestAfterFirst(s: State, t: State, u: State, fid: Fid, a: seq<byte>, b: seq<byte>)
    requires Wf(s) && Wf(t) && fid in s.files && fid in t.files
    requires HandsOut(s, fid, a, t) && RestRead(t, fid, b, u)
    ensures RestRead(s, fid, a + b, u)
  {
    HandsOutTwice(s, t, u, fid, a, b);
  }

  /** The first of the reads: it hands out some of what is visible, or all of nothing. */
  lemma FirstRead(s: State, fid: Fid, tid: Tid, count: nat)
    requires Readable(s, fid, tid) && count > 0
    ensures var (t, ret) := Read(s, fid, tid, count);
            && ret.Bytes? && Readable(t, fid, tid) && HandsOut(s, fid, ret.data, t)
            && (ret.data == [] ==> RestRead(s, fid, ret.data, t))
            && (ret.data != [] ==> s.files[fid].pos < t.files[fid].pos <= MY_BUFFER_SIZE)
  {
    ReadOnce(s, fid, tid, count);
  }

  /** read() until it answers 0 bytes, the k-th time asking for request(k) bytes: the final state and
      everything read, which is in order exactly what is visible from the cursor on. */
  function ReadToEnd(s: State, fid: Fid, tid: Tid, request: nat -> nat, k: nat): (r: (State, seq<byte>))
    requires Readable(s, fid, tid) && forall n :: request(n) > 0
    ensures RestRead(s, fid, r.1, r.0)
    decreases MY_BUFFER_SIZE - s.files[fid].pos
  {
    var (t, ret) := Read(s, fid, tid, request(k));
    FirstRead(s, fid, tid, request(k));
    if ret.data == [] then (t, [])
    else
      var (u, more) := ReadToEnd(t, fid, tid, request, k + 1);
      RestAfterFirst(s, t, u, fid, ret.data, more);
      (u, ret.data + more)
  }

  /** From the start of a file, everything visible is read. */
  lemma ReadsAll(s: State, fid: Fid, tid: Tid, request: nat -> nat, k: nat)
    requires Readable(s, fid, tid) && s.files[fid].pos == 0 && forall n :: request(n) > 0
    ensures var d := s.devs[s.files[fid].minor];
            var (t, got) := ReadToEnd(s, fid, tid, request, k);
            got == d.buffer[..d.size] && t.devs == s.devs
  {
    var d := s.devs[s.files[fid].minor];
    var (t, got) := ReadToEnd(s, fid, tid, request, k);
    assert t.files[fid].pos == |got|;
    assert d.buffer[0..|got|] == d.buffer[..|got|];
  }

  /**
   Whatever is written at offset 0 through one file, on any minor, is what any file on any minor reads
   from offset 0 with any positive request sizes: in order, exactly the first MY_BUFFER_SIZE bytes of
   the data, then nothing. The reads change no device.
   */
  lemma {:induction false} CrossMinorRoundTrip(s: State, writer: Fid, reader: Fid, tid: Tid, data: seq<byte>, request: nat -> nat)
    requires Wf(s) && writer in s.files && reader in s.files && tid !in s.readers
    requires s.files[writer].pos == 0 && forall n :: request(n) > 0
    ensures var s1 := Step(s, Write(writer, data, Complete)).0;
            var s2 := Step(s1, Seek(reader, 0, SeekSet)).0;
            && Readable(s2, reader, tid)
            && var (s3, got) := ReadToEnd(s2, reader, tid, request, 0);
               && got == data[..Min(|data|, MY_BUFFER_SIZE)]
               && s3.devs == s1.devs
  {
    var s1 := Step(s, Write(writer, data, Complete)).0;
    var s2 := Step(s1, Seek(reader, 0, SeekSet)).0;
    ReadsAll(s2, reader, tid, request, 0);
    var d := s2.devs[s2.files[reader].minor];
    assert d.buffer[..d.size] == data[..Min(|data|, MY_BUFFER_SIZE)];
  }

  function Zeros(n: nat): (r: seq<byte>)
    ensures |r| == n && forall k | 0 <= k < n :: r[k] == 0
  {
    seq(n, _ => 0)
  }

  /** The state in which minor m holds n zero bytes and file fid is at the start. */
  function Regrown(s: State, fid: Fid, n: nat): (t: State)
    requires Wf(s) && fid in s.files && n <= MY_BUFFER_SIZE
    ensures Wf(t)
  {
    var f := s.files[fid];
    s.(devs := s.devs[f.minor := s.devs[f.minor].(buffer := Zeros(MY_BUFFER_SIZE), size := n, ready := true)],
       files := s.files[fid := f.(pos := 0)])
  }

  /** RESET, SETSIZE to n and a seek to the start lead there; GETSIZE then reports n, and the other minors are
      as before. */
  lemma RegrowSteps(s: State, fid: Fid, n: nat)
    requires Wf(s) && fid in s.files && 0 < n <= MY_BUFFER_SIZE
    ensures Step(Step(Step(s, Ioctl(fid, Reset)).0, Ioctl(fid, SetSize(n, false))).0, Seek(fid, 0, SeekSet)).0
            == Regrown(s, fid, n)
    ensures Step(Regrown(s, fid, n), Ioctl(fid, GetSize(false))).1 == Value(n)
    ensures forall m | 0 <= m < |s.devs| && m != s.files[fid].minor :: Regrown(s, fid, n).devs[m] == s.devs[m]
  {
    var zeros := IoctlDev(s.devs[s.files[fid].minor], Reset).0.buffer;
    assert zeros == Zeros(MY_BUFFER_SIZE);
  }

  /** A minor of n zero bytes reads as n zeros. */
  lemma ReadsZeros(s: State, fid: Fid, tid: Tid, n: nat, request: nat -> nat, k: nat)
    requires Readable(s, fid, tid) && s.files[fid].pos == 0 && forall i :: request(i) > 0
    requires var d := s.devs[s.files[fid].minor]; d.size == n && forall i | 0 <= i < n :: d.buffer[i] == 0
    ensures ReadToEnd(s, fid, tid, request, k).1 == Zeros(n)
  {
    ReadsAll(s, fid, tid, request, k);
    assert s.devs[s.files[fid].minor].buffer[..n] == Zeros(n);
  }

  /**
   RESET really forgets: after it, growing the file again with SETSIZE shows zeros, not the bytes that were
   there.
   */
  lemma {:induction false} ResetForgets(
      s: State, t: State, fid: Fid, tid: Tid, n: nat, request: nat -> nat, k: nat)
    requires Wf(s) && fid in s.files && tid !in s.readers && tid !in s.devs[s.files[fid].minor].asleep
    requires n <= MY_BUFFER_SIZE && (forall i :: request(i) > 0) && t == Regrown(s, fid, n)
    ensures Readable(t, fid, tid) && ReadToEnd(t, fid, tid, request, k).1 == Zeros(n)
  {
    ReadsZeros(t, fid, tid, n, request, k);
  }
}
