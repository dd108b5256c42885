/**
 The copy of my_read against calls that run meanwhile. my_read loads `dev->size` twice, to see whether
 anything is left behind its position and to compute how much; it changes no memory that other calls
 see, so a read is known by the two points of a schedule where it makes the loads.
 */
module DriverRacingRead {
  import opened Basics
  import opened DriverModel
  import opened DriverInterleaving
  import opened DriverOverlap

  /** The length of the copy, from the second load. */
  function CopyLength(size: int, pos: nat, count: nat): int { Min(size - pos, count) }

  /** Without a race the length is that of the atomic read. */
  lemma UnracedReadIsAtomic(d: Dev, pos: nat, count: nat)
    requires WfDev(d) && pos < d.size
    ensures var (ret, _) := ReadDev(d, pos, count, false);
            ret.Bytes? && CopyLength(d.size, pos, count) == |ret.data| && CopiesInside(d.size, d.size, pos, count)
  {
  }

  /** A read that found `first` at its first load copies inside the buffer if it finds `second` at its second. */
  predicate CopiesInside(first: int, second: int, pos: nat, count: nat) {
    pos < first ==> 0 <= CopyLength(second, pos, count) && pos + CopyLength(second, pos, count) <= MY_BUFFER_SIZE
  }

  /** The read makes its first load on minor m after the moves `before`, and its second after `between` too. */
  ghost predicate ReadsInside(minors: nat, before: seq<Move>, between: seq<Move>, m: nat, pos: nat, count: nat)
    requires m < minors
  {
    var s := GoAll(Loaded(minors), before, minors);
    var t := GoAll(s, between, minors);
    CopiesInside(s.mem.sizes[m], t.mem.sizes[m], pos, count)
  }

  /** In one schedule: the copy stays inside exactly unless the size fell below the position between the loads. */
  lemma InsideIffNotShrunk(minors: nat, before: seq<Move>, between: seq<Move>, m: nat, pos: nat, count: nat)
    requires m < minors
    ensures var s := GoAll(Loaded(minors), before, minors);
            var t := GoAll(s, between, minors);
            ReadsInside(minors, before, between, m, pos, count) <==> !(t.mem.sizes[m] < pos < s.mem.sizes[m])
  {
  }

  /** A write of n bytes by thread 0, from module load. */
  lemma FirstWrite(minors: nat, m: nat, n: nat) returns (moves: seq<Move>)
    requires m < minors && n <= MY_BUFFER_SIZE
    ensures var s := GoAll(Loaded(minors), moves, minors); s.mem.sizes[m] == n && s.calls.Keys == {0}
  {
    var data := seq(n, _ => 0 as byte);
    var s := Loaded(minors);
    var mem, ret, k := WholeWrite(s.mem, m, 0, data, minors);
    assert Shows(mem, m, Written(s.mem, m, 0, data));
    moves := StartAlone(s, 0, CheckSpace(m, 0, data), (mem, Returned(ret)), k, minors);
  }

  /** A RESET by another thread, up to its store of the size. */
  lemma ThenReset(s: System, minors: nat, m: nat) returns (moves: seq<Move>)
    requires WfSystem(s, minors) && 1 !in s.calls && m < minors
    ensures GoAll(s, moves, minors).mem.sizes[m] == 0
  {
    var mem1 := Put(s.mem, m, 0, seq(MY_BUFFER_SIZE, _ => 0));
    var end := (mem1.(sizes := mem1.sizes[m := 0]), LowerFlag(m));
    var k := 0;
    OneMore((mem1, ZeroSize(m)), end, end, k, minors);
    k := k + 1;
    OneMore((s.mem, ClearBuffer(m)), (mem1, ZeroSize(m)), end, k, minors);
    k := k + 1;
    moves := StartAlone(s, 1, ClearBuffer(m), end, k, minors);
  }

  /** A longer write comes before the first load, and a RESET between the two. */
  lemma ResetShrinks(minors: nat, m: nat, pos: nat) returns (before: seq<Move>, between: seq<Move>)
    requires m < minors && 0 < pos < MY_BUFFER_SIZE
    ensures var s := GoAll(Loaded(minors), before, minors);
            GoAll(s, between, minors).mem.sizes[m] < pos < s.mem.sizes[m]
  {
    before := FirstWrite(minors, m, pos + 1);
    between := ThenReset(GoAll(Loaded(minors), before, minors), minors, m);
  }

  /** A call by a thread that has none yet, and k of its statements. */
  lemma StartAlone(s: System, tid: Tid, c: Call, b: (Mem, Call), k: nat, minors: nat) returns (moves: seq<Move>)
    requires WfSystem(s, minors) && tid !in s.calls && Entry(c) && c.m < minors && Reaches((s.mem, c), b, k, minors)
    ensures GoAll(s, moves, minors) == System(b.0, s.calls[tid := b.1])
  {
    var first := Start(tid, c);
    var s1 := Go(s, first, minors);
    SoloIsAlone(s1, tid, k, minors);
    moves := [first] + Solo(tid, k);
    assert moves[0] == first && moves[1..] == Solo(tid, k);
  }

  /**
   For any minor, position and request: the copy stays inside the buffer in every schedule exactly for
   reads at the start of the buffer or behind its end. For every position in between there is a schedule,
   a longer write before and a RESET between the loads, in which the length comes out negative.
   */
  lemma AlwaysInsideIff(minors: nat, m: nat, pos: nat, count: nat)
    requires m < minors
    ensures (forall before, between :: ReadsInside(minors, before, between, m, pos, count))
            <==> pos == 0 || pos >= MY_BUFFER_SIZE
  {
    if 0 < pos < MY_BUFFER_SIZE {
      var before, between := ResetShrinks(minors, m, pos);
      InsideIffNotShrunk(minors, before, between, m, pos, count);
      assert !ReadsInside(minors, before, between, m, pos, count);
    } else {
      forall before, between
        ensures ReadsInside(minors, before, between, m, pos, count)
      {
        InsideIffNotShrunk(minors, before, between, m, pos, count);
      }
    }
  }
}
